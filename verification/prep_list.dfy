/**
 The preparation script (prep_list.py): for each row of the input file, count how often
 each authority id occurs in the row's space-separated list, and keep the biblionumbers
 whose list repeats an id. Reading and writing the CSV files is not modelled.
 */
module PrepList {
  import opened Wrappers
  import opened PyText
  import opened OrderedDicts
  import opened FirstWins
  import opened Seqs

  /** One row of the semicolon-separated input file: its two columns. */
  datatype CsvRow = CsvRow(biblionumber: string, subfield: string)

  /** `Bibnb`: a biblionumber, its authority ids in order and how often each occurs. */
  datatype Bibnb = Bibnb(bibnb: string, idList: seq<string>, idDict: OrderedDict<string, nat>)

  /** Every id is its own key: the counting dict lists ids in first-seen order. */
  function IdKey(id: string): Option<string> {
    Some(id)
  }

  // ---------------------------------------------------------------------------
  // Counting the ids

  /** One step of `analyse_input_ids`: 1 for a new id, one more for a known one. */
  function CountOne(d: OrderedDict<string, nat>, a: string): OrderedDict<string, nat> {
    if a !in d.values then Put(d, a, 1) else Put(d, a, d.values[a] + 1)
  }

  /** `analyse_input_ids` over the first `n` ids. */
  function CountIds(ids: seq<string>, n: nat): OrderedDict<string, nat>
    requires n <= |ids|
  {
    if n == 0 then Empty() else CountOne(CountIds(ids, n - 1), ids[n - 1])
  }

  function FromRow(row: CsvRow): Bibnb {
    var ids := Words(row.subfield);
    Bibnb(row.biblionumber, ids, CountIds(ids, |ids|))
  }

  /**
   After `n` ids the dict is well formed, holds exactly the ids seen so far, maps each to
   its number of occurrences, and lists them in the order they were first seen.
   */
  lemma {:induction false} CountIdsSpec(ids: seq<string>, n: nat)
    requires n <= |ids|
    ensures CountIds(ids, n).Valid()
    ensures forall a :: a in CountIds(ids, n).values <==> a in ids[..n]
    ensures forall a :: a in CountIds(ids, n).values ==> CountIds(ids, n).values[a] == multiset(ids[..n])[a]
    ensures CountIds(ids, n).keys == Survivors(ids, IdKey, n)
  {
    if n > 0 {
      CountIdsSpec(ids, n - 1);
      var d := CountIds(ids, n - 1);
      var a := ids[n - 1];
      assert ids[..n] == ids[..n - 1] + [a];
      KeysSeen(ids, n - 1);
      KeyMetBefore(ids, IdKey, n - 1, a);
      SurvivorsStep(ids, IdKey, n);
    }
  }

  /** The ids a prefix has already met are its elements. */
  lemma KeysSeen(ids: seq<string>, n: nat)
    requires n <= |ids|
    ensures forall a :: a in KeysUpTo(ids, IdKey, n) <==> a in ids[..n]
  {
    KeysUpToMembership(ids, IdKey, n);
    forall a
      ensures a in KeysUpTo(ids, IdKey, n) <==> a in ids[..n]
    {
      if a in ids[..n] {
        var j :| 0 <= j < n && ids[..n][j] == a;
        assert IdKey(ids[j]) == Some(a);
      }
    }
  }

  /**
   The dict of a whole list: exactly its ids, each with its number of occurrences (so at
   least 1), in first-seen order; the counts add up to the length of the list.
   */
  lemma AnalyseIdsSpec(ids: seq<string>)
    ensures CountIds(ids, |ids|).Valid()
    ensures forall a :: a in CountIds(ids, |ids|).values <==> a in ids
    ensures forall a :: a in CountIds(ids, |ids|).values ==> CountIds(ids, |ids|).values[a] == multiset(ids)[a] >= 1
    ensures CountIds(ids, |ids|).keys == FirstWins.Dedupe(ids, IdKey)
    ensures Total(CountIds(ids, |ids|).keys, CountIds(ids, |ids|).values) == |ids|
  {
    CountIdsSpec(ids, |ids|);
    CountIdsTotal(ids, |ids|);
    assert ids[..|ids|] == ids;
  }

  /** The count stored for `a`, 0 when it has none. */
  function CountOf(counts: map<string, nat>, a: string): nat {
    if a in counts then counts[a] else 0
  }

  /** The sum of the counts of `keys`. */
  function Total(keys: seq<string>, counts: map<string, nat>): nat {
    if |keys| == 0 then 0 else Total(keys[..|keys| - 1], counts) + CountOf(counts, keys[|keys| - 1])
  }

  /** Changing the count of a key listed once moves the total by the same amount; other keys do not matter. */
  lemma {:induction false} TotalUpdate(keys: seq<string>, counts: map<string, nat>, a: string, c: nat)
    requires forall i, j :: 0 <= i < j < |keys| ==> keys[i] != keys[j]
    ensures Total(keys, counts[a := c]) ==
      Total(keys, counts) + (if a in keys then c - CountOf(counts, a) else 0)
  {
    if |keys| > 0 {
      var init, last := keys[..|keys| - 1], keys[|keys| - 1];
      assert keys == init + [last];
      TotalUpdate(init, counts, a, c);
      assert a in keys <==> a in init || a == last;
      assert last == a ==> a !in init;
    }
  }

  lemma {:induction false} CountIdsValid(ids: seq<string>, n: nat)
    requires n <= |ids|
    ensures CountIds(ids, n).Valid()
  {
    if n > 0 {
      CountIdsValid(ids, n - 1);
    }
  }

  /** Storing a count moves the total by the difference with the count it replaces. */
  lemma PutTotal(d: OrderedDict<string, nat>, a: string, c: nat)
    requires d.Valid()
    ensures Total(Put(d, a, c).keys, Put(d, a, c).values) == Total(d.keys, d.values) + c - CountOf(d.values, a)
  {
    var r := Put(d, a, c);
    TotalUpdate(d.keys, d.values, a, c);
    if a !in d.values {
      assert a !in d.keys;
      assert r.keys[..|d.keys|] == d.keys;
    }
  }

  /** Counting one more id adds one to the total of the counts. */
  lemma CountOneTotal(d: OrderedDict<string, nat>, a: string)
    requires d.Valid()
    ensures Total(CountOne(d, a).keys, CountOne(d, a).values) == Total(d.keys, d.values) + 1
  {
    PutTotal(d, a, if a !in d.values then 1 else d.values[a] + 1);
  }

  /** The counts add up to the number of ids read. */
  lemma {:induction false} CountIdsTotal(ids: seq<string>, n: nat)
    requires n <= |ids|
    ensures Total(CountIds(ids, n).keys, CountIds(ids, n).values) == n
  {
    if n > 0 {
      CountIdsTotal(ids, n - 1);
      CountIdsValid(ids, n - 1);
      CountOneTotal(CountIds(ids, n - 1), ids[n - 1]);
    }
  }

  // ---------------------------------------------------------------------------
  // Reporting repeated ids

  /** The text reporting an id and its number of occurrences: `"<id> (<count>)"`. */
  function Item(a: string, count: nat): (x: string)
    ensures |x| > |a|
  {
    a + " (" + NatToString(count) + ")"
  }

  /** The report item for one key of the dict, when its count is at least 2. */
  function DupeItem(counts: map<string, nat>, a: string): Option<string> {
    if a in counts && counts[a] >= 2 then Some(Item(a, counts[a])) else None
  }

  /** The items of `to_dict`'s `dupes`, in the order the ids were first seen. */
  function DupeItems(b: Bibnb): seq<string> {
    FilterMap(b.idDict.keys, a => DupeItem(b.idDict.values, a))
  }

  /** `to_dict`'s `dupes` value: the items joined with ", ". */
  function Dupes(b: Bibnb): string {
    Join(DupeItems(b), ", ")
  }

  /** `to_dict`: the biblionumber (under the key as the script spells it) and the dupes text. */
  function ToDict(b: Bibnb): (d: OrderedDict<string, string>)
    ensures d.Valid()
    ensures d.keys == ["biblinoumber", "dupes"]
    ensures "biblinoumber" in d.values && d.values["biblinoumber"] == b.bibnb
    ensures "dupes" in d.values && d.values["dupes"] == Dupes(b)
  {
    Put(Put(Empty(), "biblinoumber", b.bibnb), "dupes", Dupes(b))
  }

  /** Some id occurs at least twice in the list. */
  predicate Repeats(ids: seq<string>) {
    exists a :: a in ids && multiset(ids)[a] >= 2
  }

  /** What a row reports for one of its ids, in terms of the id list alone. */
  lemma DupeItemOfId(row: CsvRow, a: string)
    requires a in Words(row.subfield)
    ensures DupeItem(FromRow(row).idDict.values, a) ==
      if multiset(Words(row.subfield))[a] >= 2 then Some(Item(a, multiset(Words(row.subfield))[a])) else None
  {
    AnalyseIdsSpec(Words(row.subfield));
  }

  /**
   The report lists one item per id occurring at least twice, with its number of
   occurrences, in the order the ids first appear in the row.
   */
  lemma DupeItemsSpec(row: CsvRow)
    ensures DupeItems(FromRow(row)) ==
      FilterMap(FirstWins.Dedupe(Words(row.subfield), IdKey), a => RepeatedItem(Words(row.subfield), a))
  {
    var b := FromRow(row);
    var ids := Words(row.subfield);
    var keys := b.idDict.keys;
    AnalyseIdsSpec(ids);
    forall i | 0 <= i < |keys|
      ensures DupeItem(b.idDict.values, keys[i]) == RepeatedItem(ids, keys[i])
    {
      assert keys[i] in b.idDict.values;
      DupeItemOfId(row, keys[i]);
    }
    FilterMapCongruent(keys, a => DupeItem(b.idDict.values, a), a => RepeatedItem(ids, a));
  }

  /** The item for an id of a list, from its number of occurrences in the list. */
  function RepeatedItem(ids: seq<string>, a: string): Option<string> {
    if multiset(ids)[a] >= 2 then Some(Item(a, multiset(ids)[a])) else None
  }

  /** No item is reported exactly when no id occurs twice. */
  lemma NoItemsIff(row: CsvRow)
    ensures |DupeItems(FromRow(row))| == 0 <==> !Repeats(Words(row.subfield))
  {
    if Repeats(Words(row.subfield)) {
      RepeatReported(row);
    }
    if |DupeItems(FromRow(row))| > 0 {
      ReportedRepeats(row);
    }
  }

  /** A listed id that occurs at least twice gives an item. */
  lemma RepeatedKeyReported(ids: seq<string>, keys: seq<string>, a: string)
    requires a in keys && multiset(ids)[a] >= 2
    ensures |FilterMap(keys, a => RepeatedItem(ids, a))| > 0
  {
    var f := a => RepeatedItem(ids, a);
    var i :| 0 <= i < |keys| && keys[i] == a;
    assert f(keys[i]) == Some(Item(a, multiset(ids)[a]));
    FilterMapHas(keys, f, i);
  }

  lemma RepeatReported(row: CsvRow)
    requires Repeats(Words(row.subfield))
    ensures |DupeItems(FromRow(row))| > 0
  {
    var ids := Words(row.subfield);
    var keys := FirstWins.Dedupe(ids, IdKey);
    DupeItemsSpec(row);
    AnalyseIdsSpec(ids);
    var a :| a in ids && multiset(ids)[a] >= 2;
    var d := FromRow(row).idDict;
    assert d.keys == keys;
    assert a in d.values;
    RepeatedKeyReported(ids, keys, a);
  }

  lemma ReportedRepeats(row: CsvRow)
    requires |DupeItems(FromRow(row))| > 0
    ensures Repeats(Words(row.subfield))
  {
    var ids := Words(row.subfield);
    var keys := FirstWins.Dedupe(ids, IdKey);
    var f := a => RepeatedItem(ids, a);
    DupeItemsSpec(row);
    AnalyseIdsSpec(ids);
    var x := DupeItems(FromRow(row))[0];
    assert x in FilterMap(keys, f);
    var i := FilterMapFrom(keys, f, x);
    assert keys[i] in FromRow(row).idDict.values;
    assert keys[i] in ids && multiset(ids)[keys[i]] >= 2;
  }

  /** The dupes text is empty exactly when no id occurs twice. */
  lemma DupesEmptyIff(row: CsvRow)
    ensures Dupes(FromRow(row)) == "" <==> !Repeats(Words(row.subfield))
  {
    var b := FromRow(row);
    var items := DupeItems(b);
    var f := a => DupeItem(b.idDict.values, a);
    FilterMapSpec(b.idDict.keys, f);
    forall i | 0 <= i < |items|
      ensures items[i] != ""
    {
      assert items[i] in FilterMap(b.idDict.keys, f);
      var j :| 0 <= j < |b.idDict.keys| && f(b.idDict.keys[j]) == Some(items[i]);
    }
    JoinEmptyIff(items, ", ");
    NoItemsIff(row);
  }

  // ---------------------------------------------------------------------------
  // Selecting the rows

  /** The output row for a biblionumber: only its `biblinoumber` column. */
  function OutputRow(bibnb: string): OrderedDict<string, string> {
    OrderedDict(["biblinoumber"], map["biblinoumber" := bibnb])
  }

  /** One input row: its dict without `dupes` when that text is not empty, else nothing. */
  function Select(row: CsvRow): Option<OrderedDict<string, string>> {
    var data := ToDict(FromRow(row));
    if data.values["dupes"] != "" then Some(Pop(data, "dupes")) else None
  }

  /** The rows written to the output file, in input order. */
  function SelectRows(rows: seq<CsvRow>): seq<OrderedDict<string, string>> {
    FilterMap(rows, Select)
  }

  /** What a row contributes, stated from its id list alone. */
  function Flagged(row: CsvRow): Option<OrderedDict<string, string>> {
    if Repeats(Words(row.subfield)) then Some(OutputRow(row.biblionumber)) else None
  }

  /** Popping `dupes` from `to_dict`'s output leaves just the biblionumber column. */
  lemma PopDupes(b: Bibnb)
    ensures Pop(ToDict(b), "dupes") == OutputRow(b.bibnb)
  {
    var data := ToDict(b);
    assert Without(data.keys, "dupes") == ["biblinoumber"];
    assert data.values - {"dupes"} == map["biblinoumber" := b.bibnb];
  }

  /** A row is selected exactly when its id list repeats an id, and then only its biblionumber is kept. */
  lemma SelectSpec(row: CsvRow)
    ensures Select(row) == Flagged(row)
  {
    DupesEmptyIff(row);
    PopDupes(FromRow(row));
  }

  /** The output is the input rows that repeat an id, in input order, each reduced to its biblionumber. */
  lemma SelectRowsFlagged(rows: seq<CsvRow>)
    ensures SelectRows(rows) == FilterMap(rows, Flagged)
  {
    forall i | 0 <= i < |rows|
      ensures Select(rows[i]) == Flagged(rows[i])
    {
      SelectSpec(rows[i]);
    }
    FilterMapCongruent(rows, Select, Flagged);
  }

  /**
   No more rows than the input, and a row for a biblionumber exactly when some input row
   with that biblionumber repeats an id.
   */
  lemma SelectRowsSpec(rows: seq<CsvRow>)
    ensures |SelectRows(rows)| <= |rows|
    ensures forall r :: r in SelectRows(rows) <==>
      exists i :: 0 <= i < |rows| && Repeats(Words(rows[i].subfield)) && r == OutputRow(rows[i].biblionumber)
  {
    SelectRowsFlagged(rows);
    FilterMapLength(rows, Flagged);
    forall r
      ensures r in SelectRows(rows) <==>
        exists i :: 0 <= i < |rows| && Repeats(Words(rows[i].subfield)) && r == OutputRow(rows[i].biblionumber)
    {
      if r in SelectRows(rows) {
        var i := SelectedFrom(rows, r);
      }
      if exists i :: 0 <= i < |rows| && Repeats(Words(rows[i].subfield)) && r == OutputRow(rows[i].biblionumber) {
        var i :| 0 <= i < |rows| && Repeats(Words(rows[i].subfield)) && r == OutputRow(rows[i].biblionumber);
        FilterMapHas(rows, Flagged, i);
      }
    }
  }

  /** The output for two runs of rows is the first run's output, then the second's: input order is kept. */
  lemma SelectRowsAppend(a: seq<CsvRow>, b: seq<CsvRow>)
    ensures SelectRows(a + b) == SelectRows(a) + SelectRows(b)
  {
    FilterMapAppend(a, b, Select);
  }

  /** One input row gives one output row, just its biblionumber, when an id repeats in it, and none otherwise. */
  lemma SelectRowsOne(row: CsvRow)
    ensures SelectRows([row]) == if Repeats(Words(row.subfield)) then [OutputRow(row.biblionumber)] else []
  {
    FilterMapSingle(row, Select);
    SelectSpec(row);
  }

  lemma SelectedFrom(rows: seq<CsvRow>, r: OrderedDict<string, string>) returns (i: nat)
    requires r in FilterMap(rows, Flagged)
    ensures i < |rows| && Repeats(Words(rows[i].subfield)) && r == OutputRow(rows[i].biblionumber)
  {
    i := FilterMapFrom(rows, Flagged, r);
  }
}
