/**
 The script around `dedupe_field` (main.py): the list of subject tags read from the
 settings, the loop over the input lines with its security limit, and what happens to
 one record once it has been fetched. Requests, files and logs are not modelled; the
 answer of a request is a parameter.
 */
module Batch {
  import opened Wrappers
  import opened PyText
  import opened PyValues
  import opened KohaApi
  import opened Marc
  import opened FirstWins
  import opened Dedupe
  import opened Seqs

  // ---------------------------------------------------------------------------
  // Subject tags

  /** A data field tag lies between 10 and 999. */
  predicate InTagRange(n: int) {
    9 < n < 1000
  }

  /** A tag number written as the script writes it: three characters, zero-padded below 100. */
  function RenderTag(n: int): (t: string)
    requires InTagRange(n)
    ensures |t| == 3 && AllDigits(t) && DigitsValue(t) == n
  {
    NatToStringLength(n);
    NatToStringValue(n);
    DigitsValueLeadingZero(NatToString(n));
    if n < 100 then "0" + NatToString(n) else NatToString(n)
  }

  /** The number `validate_int` reads from one comma-separated piece of the setting, -1 when none. */
  function TagValue(piece: string): int {
    ValidateInt(PyStr(piece), PyInt(-1))
  }

  /** A tag as the script writes it: three digits with a value of at least 10. */
  predicate CanonicalTag(t: string) {
    |t| == 3 && AllDigits(t) && DigitsValue(t) >= 10
  }

  /** The tag one piece contributes: its number rendered, when between 10 and 999. */
  function ReadTag(piece: string): (r: Option<string>)
    ensures r.Some? <==> InTagRange(TagValue(piece))
    ensures r.Some? ==> CanonicalTag(r.value) && DigitsValue(r.value) == TagValue(piece)
  {
    var n := TagValue(piece);
    if InTagRange(n) then Some(RenderTag(n)) else None
  }

  /** `SUBJECT_TAGS`, from the raw `SUBJECTS_TAG` setting. */
  function SubjectTags(raw: string): seq<string> {
    FilterMap(SplitOn(raw, ','), ReadTag)
  }

  /**
   There are no more tags than comma-separated pieces, and a tag is kept exactly when some
   piece reads as it.
   */
  lemma SubjectTagsSpec(raw: string)
    ensures |SubjectTags(raw)| <= |SplitOn(raw, ',')|
    ensures forall t :: t in SubjectTags(raw) <==>
      exists i :: 0 <= i < |SplitOn(raw, ',')| && ReadTag(SplitOn(raw, ',')[i]) == Some(t)
  {
    FilterMapSpec(SplitOn(raw, ','), ReadTag);
  }

  /** A setting without a comma is one piece: it gives that piece's tag when the piece reads as one, and nothing otherwise. */
  lemma SubjectTagsOnePiece(piece: string)
    requires ',' !in piece
    ensures SubjectTags(piece) == if ReadTag(piece).Some? then [ReadTag(piece).value] else []
  {
    SplitOnNoSep(piece, ',');
    FilterMapSingle(piece, ReadTag);
  }

  /**
   The tags of `a,b` are the tags of `a` followed by the tags of `b`: the setting's order is
   kept, and so are repeats.
   */
  lemma SubjectTagsConcat(a: string, b: string)
    ensures SubjectTags(a + "," + b) == SubjectTags(a) + SubjectTags(b)
  {
    SplitOnConcat(a, ',', b);
    FilterMapAppend(SplitOn(a, ','), SplitOn(b, ','), ReadTag);
  }

  /** Every kept tag is three digits worth between 10 and 999. */
  lemma SubjectTagsCanonical(raw: string)
    ensures forall t :: t in SubjectTags(raw) ==> CanonicalTag(t) && DigitsValue(t) < 1000
  {
    var pieces := SplitOn(raw, ',');
    FilterMapSpec(pieces, ReadTag);
    forall t | t in SubjectTags(raw)
      ensures CanonicalTag(t) && DigitsValue(t) < 1000
    {
      var i :| 0 <= i < |pieces| && ReadTag(pieces[i]) == Some(t);
      ReadTagSome(pieces[i], t);
    }
  }

  lemma ReadTagSome(piece: string, t: string)
    requires ReadTag(piece) == Some(t)
    ensures CanonicalTag(t) && DigitsValue(t) < 1000
  {
  }

  /** A canonical tag is read back as its number and rendered as itself. */
  lemma CanonicalTagRoundTrip(t: string)
    requires CanonicalTag(t)
    ensures TagValue(t) == DigitsValue(t)
    ensures ReadTag(t) == Some(t)
  {
    CanonicalTagValue(t);
    CanonicalTagRendered(t);
  }

  lemma CanonicalTagValue(t: string)
    requires CanonicalTag(t)
    ensures TagValue(t) == DigitsValue(t) < 1000
  {
    assert Trimmed(t);
    StripTrimmed(t);
    DigitsValueBound(t);
    assert Pow10(3) == 1000;
  }

  lemma CanonicalTagRendered(t: string)
    requires CanonicalTag(t) && DigitsValue(t) < 1000
    ensures RenderTag(DigitsValue(t)) == t
  {
    if t[0] == '0' {
      var rest := t[1..];
      assert t == "0" + rest;
      DigitsValueLeadingZero(rest);
      assert rest[0] != '0' by {
        if rest[0] == '0' {
          assert rest == "0" + rest[1..];
          DigitsValueLeadingZero(rest[1..]);
        }
      }
      DigitsRoundTrip(rest);
    } else {
      DigitsRoundTrip(t);
    }
  }

  /** An empty setting is one empty piece, which names no tag. */
  lemma EmptySettingHasNoTags()
    ensures SubjectTags("") == []
  {
    assert SplitOn("", ',') == [""];
    assert ValidateBibnb(PyStr("")) == Some("");
    assert ReadTag("").None?;
  }

  /** Writing canonical tags comma-separated in the setting gives back exactly those tags, in order. */
  lemma SubjectTagsRoundTrip(tags: seq<string>)
    requires forall i :: 0 <= i < |tags| ==> CanonicalTag(tags[i])
    ensures SubjectTags(Join(tags, ",")) == tags
  {
    if |tags| == 0 {
      EmptySettingHasNoTags();
      return;
    }
    forall i | 0 <= i < |tags|
      ensures ',' !in tags[i] && ReadTag(tags[i]) == Some(tags[i])
    {
      assert AllDigits(tags[i]);
      CanonicalTagRoundTrip(tags[i]);
    }
    JoinThenSplitOn(tags, ',');
    FilterMapIdentity(tags, ReadTag);
  }

  // ---------------------------------------------------------------------------
  // The loop over the input lines

  /** `RECORD_NB_LIMIT`: the configured number, or 500 when it is not one. */
  function RecordLimit(setting: PyValue): (limit: int)
    ensures limit >= 0
    ensures setting == PyNone ==> limit == 500
    ensures ValidateBibnb(setting).Some? && ValidateBibnb(setting).value != "" ==>
      limit == DigitsValue(ValidateBibnb(setting).value)
    ensures ValidateBibnb(setting).None? || ValidateBibnb(setting).value == "" ==> limit == 500
  {
    ValidateInt(setting, PyInt(500))
  }

  /** What the loop does with one input line, or the security stop. */
  datatype Step =
    | SecurityStop(index: nat)
    | IncorrectBibnb(index: nat, text: string)
    | Fetch(index: nat, bibnb: nat)

  /** One line: its stripped text is read by `validate_int`; a result below 1 is rejected. */
  function CheckLine(index: nat, line: string): (s: Step)
    ensures s.index == index && !s.SecurityStop?
  {
    var text := Strip(line);
    var bibnb := ValidateInt(PyStr(text), PyInt(-1));
    if bibnb < 1 then IncorrectBibnb(index, text) else Fetch(index, bibnb)
  }

  /** A line is fetched exactly when, stripped, it is a number of at least 1, and then that number is fetched. */
  lemma CheckLineSpec(index: nat, line: string)
    ensures CheckLine(index, line).Fetch? <==>
      AllDigits(Strip(line)) && Strip(line) != "" && DigitsValue(Strip(line)) >= 1
    ensures CheckLine(index, line).Fetch? ==> CheckLine(index, line).bibnb == DigitsValue(Strip(line))
  {
    var t := Strip(line);
    StripIdempotent(line);
    assert ValidateBibnb(PyStr(t)) == if AllDigits(t) then Some(t) else None;
    assert NormaliseDefault(PyInt(-1)) == -1;
  }

  /** A line holding the decimal text of a positive number is fetched under that number. */
  lemma CheckLineOfNumber(index: nat, b: nat)
    requires b >= 1
    ensures CheckLine(index, NatToString(b)) == Fetch(index, b)
  {
    var s := NatToString(b);
    assert Trimmed(s) by {
      assert !IsSpace(s[0]) && !IsSpace(s[|s| - 1]);
    }
    StripTrimmed(s);
    ValidateIntRoundTrip(b, PyInt(-1));
  }

  /** How many lines the loop examines before the security counter passes the limit. */
  function Handled(lineCount: nat, limit: int): (n: nat)
    ensures n <= lineCount
    ensures limit <= 0 ==> n == 0
    ensures limit > 0 ==> n <= limit
    ensures n < lineCount ==> n == limit || (limit <= 0 && n == 0)
  {
    if limit <= 0 then 0 else if lineCount < limit then lineCount else limit
  }

  /** The first `n` lines, each put through `check` with its index. */
  function Checks(lines: seq<string>, n: nat, check: (nat, string) -> Step): seq<Step>
    requires n <= |lines|
  {
    if n == 0 then [] else Checks(lines, n - 1, check) + [check(n - 1, lines[n - 1])]
  }

  lemma {:induction false} ChecksIndex(lines: seq<string>, n: nat, check: (nat, string) -> Step)
    requires n <= |lines|
    ensures |Checks(lines, n, check)| == n
    ensures forall i :: 0 <= i < n ==> Checks(lines, n, check)[i] == check(i, lines[i])
  {
    if n > 0 {
      ChecksIndex(lines, n - 1, check);
    }
  }

  /** A line check: it carries the index of its line and is never the security stop. */
  ghost predicate LineCheck(check: (nat, string) -> Step) {
    forall i, line :: check(i, line).index == i && !check(i, line).SecurityStop?
  }

  lemma CheckLineIsLineCheck()
    ensures LineCheck(CheckLine)
  {
    forall i, line ensures CheckLine(i, line).index == i && !CheckLine(i, line).SecurityStop? {
      var _ := CheckLine(i, line);
    }
  }

  /** The steps the loop takes with a given line check: the examined lines checked in order, then the stop if lines remain. */
  function PlanWith(lines: seq<string>, limit: int, check: (nat, string) -> Step): seq<Step> {
    var n := Handled(|lines|, limit);
    Checks(lines, n, check) + (if n < |lines| then [SecurityStop(n)] else [])
  }

  /** The steps the script takes on the lines of its input file. */
  function Plan(lines: seq<string>, limit: int): seq<Step> {
    PlanWith(lines, limit, CheckLine)
  }

  /**
   The loop of the script as written: a counter incremented for every line, a stop as soon
   as it passes the limit, and each line checked in turn by `check` (`CheckLine` in the
   script).
   */
  method RunLines(lines: seq<string>, limit: int, check: (nat, string) -> Step) returns (steps: seq<Step>)
    ensures steps == PlanWith(lines, limit, check)
  {
    steps := [];
    var security := 0;
    var index := 0;
    while index < |lines|
      invariant 0 <= index <= Handled(|lines|, limit)
      invariant security == index
      invariant steps == Checks(lines, index, check)
    {
      security := security + 1;
      if security > limit {
        PlanAt(lines, limit, index, check);
        steps := steps + [SecurityStop(index)];
        return;
      }
      steps := steps + [check(index, lines[index])];
      index := index + 1;
    }
    PlanAt(lines, limit, index, check);
  }

  /** The plan once the loop has examined `n` lines and either stops or has none left. */
  lemma PlanAt(lines: seq<string>, limit: int, n: nat, check: (nat, string) -> Step)
    requires n <= Handled(|lines|, limit)
    requires n == |lines| || n >= limit
    ensures PlanWith(lines, limit, check) == Checks(lines, n, check) + (if n < |lines| then [SecurityStop(n)] else [])
  {
    assert n == Handled(|lines|, limit);
  }

  /** Line `i` is fetched under `b` exactly when it lies below the limit and its check fetches `b`. */
  lemma PlanFetch(lines: seq<string>, limit: int, i: nat, b: nat)
    ensures Fetch(i, b) in Plan(lines, limit) <==>
      i < |lines| && i < limit && CheckLine(i, lines[i]) == Fetch(i, b)
  {
    CheckLineIsLineCheck();
    PlanWithFetch(lines, limit, CheckLine, i, b);
  }

  lemma PlanWithFetch(lines: seq<string>, limit: int, check: (nat, string) -> Step, i: nat, b: nat)
    requires LineCheck(check)
    ensures Fetch(i, b) in PlanWith(lines, limit, check) <==>
      i < |lines| && i < limit && check(i, lines[i]) == Fetch(i, b)
  {
    if Fetch(i, b) in PlanWith(lines, limit, check) {
      PlanFetchExamined(lines, limit, check, i, b);
    }
    if i < |lines| && i < limit && check(i, lines[i]) == Fetch(i, b) {
      PlanExaminesBelowLimit(lines, limit, check, i);
    }
  }

  lemma PlanFetchExamined(lines: seq<string>, limit: int, check: (nat, string) -> Step, i: nat, b: nat)
    requires LineCheck(check)
    requires Fetch(i, b) in PlanWith(lines, limit, check)
    ensures i < |lines| && i < limit && check(i, lines[i]) == Fetch(i, b)
  {
    var n := Handled(|lines|, limit);
    var p := PlanWith(lines, limit, check);
    ChecksIndex(lines, n, check);
    var j :| 0 <= j < |p| && p[j] == Fetch(i, b);
    assert j < n;
    assert p[j] == check(j, lines[j]);
    assert check(j, lines[j]).index == j;
  }

  lemma PlanExaminesBelowLimit(lines: seq<string>, limit: int, check: (nat, string) -> Step, i: nat)
    requires i < |lines| && i < limit
    ensures i < |PlanWith(lines, limit, check)| && PlanWith(lines, limit, check)[i] == check(i, lines[i])
  {
    var n := Handled(|lines|, limit);
    ChecksIndex(lines, n, check);
    assert i < n;
  }

  /**
   There is at most one step per line, each step carries its own position, and only the
   last step can be the security stop.
   */
  lemma PlanShape(lines: seq<string>, limit: int)
    ensures |Plan(lines, limit)| <= |lines|
    ensures forall j :: 0 <= j < |Plan(lines, limit)| ==> Plan(lines, limit)[j].index == j
    ensures forall j :: 0 <= j < |Plan(lines, limit)| - 1 ==> !Plan(lines, limit)[j].SecurityStop?
  {
    CheckLineIsLineCheck();
    PlanWithShape(lines, limit, CheckLine);
  }

  lemma PlanWithShape(lines: seq<string>, limit: int, check: (nat, string) -> Step)
    requires LineCheck(check)
    ensures |PlanWith(lines, limit, check)| <= |lines|
    ensures forall j :: 0 <= j < |PlanWith(lines, limit, check)| ==> PlanWith(lines, limit, check)[j].index == j
    ensures forall j :: 0 <= j < |PlanWith(lines, limit, check)| - 1 ==> !PlanWith(lines, limit, check)[j].SecurityStop?
  {
    var n := Handled(|lines|, limit);
    ChecksIndex(lines, n, check);
  }

  /** The loop stops early exactly when there are lines beyond the limit. */
  lemma PlanStops(lines: seq<string>, limit: int)
    ensures (exists j :: 0 <= j < |Plan(lines, limit)| && Plan(lines, limit)[j].SecurityStop?) <==>
      0 < |lines| && limit < |lines|
  {
    CheckLineIsLineCheck();
    PlanWithStops(lines, limit, CheckLine);
    assert Plan(lines, limit) == PlanWith(lines, limit, CheckLine);
  }

  lemma PlanWithStops(lines: seq<string>, limit: int, check: (nat, string) -> Step)
    requires LineCheck(check)
    ensures (exists j :: 0 <= j < |PlanWith(lines, limit, check)| && PlanWith(lines, limit, check)[j].SecurityStop?) <==>
      0 < |lines| && limit < |lines|
  {
    var n := Handled(|lines|, limit);
    var p := PlanWith(lines, limit, check);
    ChecksIndex(lines, n, check);
    if n < |lines| {
      assert p[n].SecurityStop?;
    }
    if exists j :: 0 <= j < |p| && p[j].SecurityStop? {
      var j :| 0 <= j < |p| && p[j].SecurityStop?;
      assert j >= n;
    }
  }

  // ---------------------------------------------------------------------------
  // One record

  /**
   Deduplicate every subject tag in turn; the record counts as changed when any tag's
   pass changed it.
   */
  function DedupeTags(rec: Record, tags: seq<string>): (Record, bool) {
    if |tags| == 0 then (rec, false)
    else
      var (before, changed) := DedupeTags(rec, tags[..|tags| - 1]);
      var (after, tagChanged) := DedupeField(before, tags[|tags| - 1]);
      (after, changed || tagChanged)
  }

  /**
   After the passes, every listed tag holds the deduplication of its original fields and
   every other tag is untouched.
   */
  lemma {:induction false} DedupeTagsFields(rec: Record, tags: seq<string>)
    ensures forall t :: (GetFields(DedupeTags(rec, tags).0, t) ==
      if t in tags then FirstWins.Dedupe(GetFields(rec, t), AuthKey) else GetFields(rec, t))
  {
    if |tags| > 0 {
      var prefix, last := tags[..|tags| - 1], tags[|tags| - 1];
      assert tags == prefix + [last];
      DedupeTagsFields(rec, prefix);
      var before := DedupeTags(rec, prefix).0;
      var after := DedupeField(before, last).0;
      assert DedupeTags(rec, tags).0 == after;
      forall t
        ensures GetFields(after, t) ==
          if t in tags then FirstWins.Dedupe(GetFields(rec, t), AuthKey) else GetFields(rec, t)
      {
        assert t in tags <==> t in prefix || t == last;
        if t == last && last in prefix {
          DedupeIdempotent(GetFields(rec, last), AuthKey);
        }
      }
    }
  }

  /** The last pass reports a change exactly when its tag is new to the list and repeats an authority id. */
  lemma LastPassChanged(rec: Record, prefix: seq<string>, last: string)
    ensures DedupeField(DedupeTags(rec, prefix).0, last).1 <==>
      last !in prefix && !DistinctKeys(GetFields(rec, last), AuthKey)
  {
    DedupeTagsFields(rec, prefix);
    var before := DedupeTags(rec, prefix).0;
    if last in prefix {
      KeepsFirstPerKey(GetFields(rec, last), AuthKey);
      assert DistinctKeys(GetFields(before, last), AuthKey);
    } else {
      assert GetFields(before, last) == GetFields(rec, last);
    }
  }

  /** Some tag of `prefix + [last]` repeats an id exactly when one of `prefix` does or `last` is new and does. */
  lemma RepeatingTagAppend(rec: Record, prefix: seq<string>, last: string)
    ensures (exists t :: t in prefix + [last] && !DistinctKeys(GetFields(rec, t), AuthKey)) <==>
      (exists t :: t in prefix && !DistinctKeys(GetFields(rec, t), AuthKey)) ||
      (last !in prefix && !DistinctKeys(GetFields(rec, last), AuthKey))
  {
    assert last in prefix + [last];
    forall t | t in prefix + [last] ensures t in prefix || t == last { }
  }

  /** The record is reported changed exactly when some listed tag repeats an authority id. */
  lemma {:induction false} DedupeTagsChanged(rec: Record, tags: seq<string>)
    ensures DedupeTags(rec, tags).1 <==> exists t :: t in tags && !DistinctKeys(GetFields(rec, t), AuthKey)
  {
    if |tags| > 0 {
      var prefix, last := tags[..|tags| - 1], tags[|tags| - 1];
      assert tags == prefix + [last];
      DedupeTagsChanged(rec, prefix);
      LastPassChanged(rec, prefix, last);
      RepeatingTagAppend(rec, prefix, last);
    }
  }

  /** A record reported unchanged is returned as it was. */
  lemma {:induction false} DedupeTagsUnchanged(rec: Record, tags: seq<string>)
    ensures !DedupeTags(rec, tags).1 ==> DedupeTags(rec, tags).0 == rec
  {
    if |tags| > 0 {
      DedupeTagsUnchanged(rec, tags[..|tags| - 1]);
    }
  }

  /** What fetching and parsing one biblionumber gave. */
  datatype Fetched =
    | RequestFailed(error: KohaError)
    | Unparsable
    | Empty
    | Parsed(record: Record)

  /** What the loop does with a fetched record. */
  datatype Outcome =
    | GetError(error: KohaError)
    | FailedToParse
    | NoRecord
    | NoBibnbInRecord
    | NotChanged
    | Update(record: Record)

  /** The biblionumber control field. */
  const BibnbTag := "001"

  function ProcessRecord(fetched: Fetched, tags: seq<string>): Outcome {
    match fetched
    case RequestFailed(e) => GetError(e)
    case Unparsable => FailedToParse
    case Empty => NoRecord
    case Parsed(rec) =>
      if !HasField(rec, BibnbTag) then NoBibnbInRecord
      else
        var (out, changed) := DedupeTags(rec, tags);
        if changed then Update(out) else NotChanged
  }

  /**
   A record is sent back exactly when it was parsed, has a biblionumber field and some subject
   tag repeats an authority id; what is sent has every subject tag deduplicated and the rest
   of the record unchanged. A parsed record with a biblionumber and no repeat is reported as
   not changed.
   */
  lemma ProcessRecordSpec(fetched: Fetched, tags: seq<string>)
    ensures ProcessRecord(fetched, tags).Update? <==>
      && fetched.Parsed? && HasField(fetched.record, BibnbTag)
      && exists t :: t in tags && !DistinctKeys(GetFields(fetched.record, t), AuthKey)
    ensures ProcessRecord(fetched, tags).NotChanged? <==>
      && fetched.Parsed? && HasField(fetched.record, BibnbTag)
      && forall t :: t in tags ==> DistinctKeys(GetFields(fetched.record, t), AuthKey)
    ensures ProcessRecord(fetched, tags).Update? ==>
      forall t :: (GetFields(ProcessRecord(fetched, tags).record, t) ==
        if t in tags then FirstWins.Dedupe(GetFields(fetched.record, t), AuthKey) else GetFields(fetched.record, t))
    ensures ProcessRecord(fetched, tags).Update? ==>
      forall t :: t in tags ==> DistinctKeys(GetFields(ProcessRecord(fetched, tags).record, t), AuthKey)
  {
    if fetched.Parsed? && HasField(fetched.record, BibnbTag) {
      ParsedRecordKinds(fetched.record, tags);
      ParsedRecordFields(fetched.record, tags);
    }
  }

  /** For a parsed record with a biblionumber, the outcome is an update exactly when some tag repeats a key. */
  lemma ParsedRecordKinds(rec: Record, tags: seq<string>)
    requires HasField(rec, BibnbTag)
    ensures ProcessRecord(Parsed(rec), tags) == if DedupeTags(rec, tags).1 then Update(DedupeTags(rec, tags).0) else NotChanged
    ensures DedupeTags(rec, tags).1 <==> exists t :: t in tags && !DistinctKeys(GetFields(rec, t), AuthKey)
    ensures !DedupeTags(rec, tags).1 <==> forall t :: t in tags ==> DistinctKeys(GetFields(rec, t), AuthKey)
  {
    DedupeTagsChanged(rec, tags);
  }

  /** What the tag loop sends back: every listed tag deduplicated, free of repeats, and the rest unchanged. */
  lemma ParsedRecordFields(rec: Record, tags: seq<string>)
    ensures forall t :: (GetFields(DedupeTags(rec, tags).0, t) ==
      if t in tags then FirstWins.Dedupe(GetFields(rec, t), AuthKey) else GetFields(rec, t))
    ensures forall t :: t in tags ==> DistinctKeys(GetFields(DedupeTags(rec, tags).0, t), AuthKey)
  {
    DedupeTagsFields(rec, tags);
    forall t | t in tags
      ensures DistinctKeys(GetFields(DedupeTags(rec, tags).0, t), AuthKey)
    {
      KeepsFirstPerKey(GetFields(rec, t), AuthKey);
    }
  }
}
