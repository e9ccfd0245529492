/**
 MARC data fields as the deduplication sees them: a tag and an ordered list of
 (code, value) subfields. A record is its ordered list of fields. Parsing and
 encoding of MARC is not modelled.
 */
module Marc {
  import opened Wrappers

  datatype Subfield = Subfield(code: string, value: string)

  datatype Field = Field(tag: string, subfields: seq<Subfield>)

  type Record = seq<Field>

  // ---------------------------------------------------------------------------
  // Reading subfields

  /** Every value under `code`, in order (pymarc `get_subfields`). */
  function SubfieldValues(f: Field, code: string): seq<string> {
    ValuesIn(f.subfields, code)
  }

  function ValuesIn(subfields: seq<Subfield>, code: string): (vs: seq<string>)
    ensures |vs| <= |subfields|
  {
    if |subfields| == 0 then []
    else (if subfields[0].code == code then [subfields[0].value] else []) + ValuesIn(subfields[1..], code)
  }

  /** The value of the first subfield with `code`, if there is one (pymarc `field.get(code)`). */
  function FirstValue(f: Field, code: string): (r: Option<string>)
    ensures r.None? <==> SubfieldValues(f, code) == []
    ensures r.Some? ==> r.value == SubfieldValues(f, code)[0]
  {
    FirstIn(f.subfields, code)
  }

  function FirstIn(subfields: seq<Subfield>, code: string): (r: Option<string>)
    ensures r.None? <==> ValuesIn(subfields, code) == []
    ensures r.Some? ==> r.value == ValuesIn(subfields, code)[0]
  {
    if |subfields| == 0 then None
    else if subfields[0].code == code then Some(subfields[0].value)
    else FirstIn(subfields[1..], code)
  }

  // ---------------------------------------------------------------------------
  // Fields of a record by tag

  /** The fields of `rec` tagged `tag`, in record order (pymarc `get_fields(tag)`). */
  function GetFields(rec: Record, tag: string): (fs: seq<Field>)
    ensures |fs| <= |rec|
    ensures forall i :: 0 <= i < |fs| ==> fs[i].tag == tag
    ensures forall f :: f in fs <==> f in rec && f.tag == tag
  {
    if |rec| == 0 then []
    else (if rec[0].tag == tag then [rec[0]] else []) + GetFields(rec[1..], tag)
  }

  lemma {:induction false} GetFieldsAppend(a: Record, b: Record, tag: string)
    ensures GetFields(a + b, tag) == GetFields(a, tag) + GetFields(b, tag)
  {
    if |a| > 0 {
      assert (a + b)[1..] == a[1..] + b;
      GetFieldsAppend(a[1..], b, tag);
    } else {
      assert a + b == b;
    }
  }

  lemma GetFieldsAppendAll(a: Record, b: Record)
    ensures forall tag :: GetFields(a + b, tag) == GetFields(a, tag) + GetFields(b, tag)
  {
    forall tag {
      GetFieldsAppend(a, b, tag);
    }
  }

  /** Fields that all carry `tag` are their own `tag` view, and have no other. */
  lemma {:induction false} GetFieldsAllTagged(fs: seq<Field>, tag: string, other: string)
    requires forall i :: 0 <= i < |fs| ==> fs[i].tag == tag
    ensures GetFields(fs, tag) == fs
    ensures other != tag ==> GetFields(fs, other) == []
  {
    if |fs| > 0 {
      GetFieldsAllTagged(fs[1..], tag, other);
      assert [fs[0]] + fs[1..] == fs;
    }
  }

  /** `rec` without its fields tagged `tag` (pymarc `remove_fields(tag)`). */
  function RemoveFields(rec: Record, tag: string): (r: Record)
    ensures GetFields(r, tag) == []
    ensures forall u :: u != tag ==> GetFields(r, u) == GetFields(rec, u)
  {
    if |rec| == 0 then []
    else
      var head := if rec[0].tag == tag then [] else [rec[0]];
      GetFieldsAppendAll(head, RemoveFields(rec[1..], tag));
      GetFieldsAppendAll([rec[0]], rec[1..]);
      assert [rec[0]] + rec[1..] == rec;
      head + RemoveFields(rec[1..], tag)
  }

  /**
   The record once the fields tagged `tag` are replaced by `fs` (all tagged `tag`): its `tag`
   view is exactly `fs`, in the given order, and every other tag's view is unchanged.
   */
  function ReplaceFields(rec: Record, tag: string, fs: seq<Field>): (r: Record)
    ensures (forall i :: 0 <= i < |fs| ==> fs[i].tag == tag) ==> GetFields(r, tag) == fs
    ensures (forall i :: 0 <= i < |fs| ==> fs[i].tag == tag) ==>
      forall u :: u != tag ==> GetFields(r, u) == GetFields(rec, u)
  {
    RemoveThenAppend(rec, tag, fs);
    RemoveFields(rec, tag) + fs
  }

  lemma RemoveThenAppend(rec: Record, tag: string, fs: seq<Field>)
    ensures (forall i :: 0 <= i < |fs| ==> fs[i].tag == tag) ==>
      && GetFields(RemoveFields(rec, tag) + fs, tag) == fs
      && forall u :: u != tag ==> GetFields(RemoveFields(rec, tag) + fs, u) == GetFields(rec, u)
  {
    var kept := RemoveFields(rec, tag);
    if forall i :: 0 <= i < |fs| ==> fs[i].tag == tag {
      GetFieldsAppend(kept, fs, tag);
      GetFieldsAllTagged(fs, tag, tag);
      forall u | u != tag
        ensures GetFields(kept + fs, u) == GetFields(rec, u)
      {
        GetFieldsAppend(kept, fs, u);
        GetFieldsAllTagged(fs, tag, u);
      }
    }
  }

  /** `record.get(tag)` finds a field. */
  predicate HasField(rec: Record, tag: string) {
    exists i :: 0 <= i < |rec| && rec[i].tag == tag
  }
}
