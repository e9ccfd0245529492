/**
 `dedupe_field` (main.py): for one tag, keep every field without an authority id
 ($9) and, for each authority id, only the first field carrying it; survivors keep
 their input order. The record is rewritten only when something was dropped.
 */
module Dedupe {
  import opened Wrappers
  import opened Marc
  import opened FirstWins

  /** The subfield code holding the authority id. */
  const AuthorityIdCode := "9"

  /** The key a field is deduplicated on: its first $9 value, unless that is missing or empty. */
  function AuthKey(f: Field): Option<string> {
    match FirstValue(f, AuthorityIdCode)
    case None => None
    case Some(v) => if v == "" then None else Some(v)
  }

  /** A field is keyed exactly when its first $9 exists and is not empty, and that value is the key. */
  lemma AuthKeyIsFirstId(f: Field)
    ensures AuthKey(f).Some? <==> SubfieldValues(f, AuthorityIdCode) != [] && SubfieldValues(f, AuthorityIdCode)[0] != ""
    ensures AuthKey(f).Some? ==> AuthKey(f).value == SubfieldValues(f, AuthorityIdCode)[0]
  {
  }

  // ---------------------------------------------------------------------------
  // The pass on a record

  /**
   `dedupe_field(record, tag)`: the record with tag's fields deduplicated, and whether it
   changed. It changes exactly when a key repeats among tag's fields; otherwise it is
   returned as is. Other tags' fields are never touched.
   */
  function DedupeField(rec: Record, tag: string): (r: (Record, bool))
    ensures r.1 <==> !DistinctKeys(GetFields(rec, tag), AuthKey)
    ensures !r.1 ==> r.0 == rec
    ensures GetFields(r.0, tag) == Dedupe(GetFields(rec, tag), AuthKey)
    ensures forall u :: u != tag ==> GetFields(r.0, u) == GetFields(rec, u)
  {
    var fields := GetFields(rec, tag);
    var kept := Dedupe(fields, AuthKey);
    DedupeChangesIffDuplicates(fields, AuthKey);
    DedupeFromInput(fields, AuthKey);
    if |kept| == |fields| then (rec, false)
    else (ReplaceFields(rec, tag, kept), true)
  }

  /** A second pass over the same tag reports no change. */
  lemma DedupeFieldIdempotent(rec: Record, tag: string)
    ensures DedupeField(DedupeField(rec, tag).0, tag) == (DedupeField(rec, tag).0, false)
  {
    KeepsFirstPerKey(GetFields(rec, tag), AuthKey);
  }

  // ---------------------------------------------------------------------------
  // What the pass reports

  /** The rows the pass writes to the error file and the deleted-fields report. */
  datatype AuditEvent =
    | FieldWithoutAuthorityId(field: Field)
    | MultipleAuthorityIds(field: Field)
    | DeletedField(authId: string, field: Field)

  /** What field `i` causes to be reported. */
  function FieldEvents(fields: seq<Field>, key: Field -> Option<string>, i: nat): seq<AuditEvent>
    requires i < |fields|
  {
    var f := fields[i];
    match key(f)
    case None => [FieldWithoutAuthorityId(f)]
    case Some(k) =>
      (if |SubfieldValues(f, AuthorityIdCode)| > 1 then [MultipleAuthorityIds(f)] else [])
      + (if k in KeysUpTo(fields, key, i) then [DeletedField(k, f)] else [])
  }

  /** The rows of the first `n` fields, in field order, `rows(i)` being those of field `i`. */
  function Concat(rows: nat -> seq<AuditEvent>, n: nat): seq<AuditEvent> {
    if n == 0 then [] else Concat(rows, n - 1) + rows(n - 1)
  }

  /** The rows each field causes. */
  function RowsOf(fields: seq<Field>, key: Field -> Option<string>): nat -> seq<AuditEvent> {
    (i: nat) => if i < |fields| then FieldEvents(fields, key, i) else []
  }

  /** The rows reported by the first `n` fields. */
  function EventsUpTo(fields: seq<Field>, key: Field -> Option<string>, n: nat): seq<AuditEvent>
    requires n <= |fields|
  {
    Concat(RowsOf(fields, key), n)
  }

  function AuditTrail(fields: seq<Field>): seq<AuditEvent> {
    EventsUpTo(fields, AuthKey, |fields|)
  }

  function CountDeleted(events: seq<AuditEvent>): nat {
    if |events| == 0 then 0 else (if events[0].DeletedField? then 1 else 0) + CountDeleted(events[1..])
  }

  function CountWithoutId(events: seq<AuditEvent>): nat {
    if |events| == 0 then 0 else (if events[0].FieldWithoutAuthorityId? then 1 else 0) + CountWithoutId(events[1..])
  }

  lemma {:induction false} CountsAppend(a: seq<AuditEvent>, b: seq<AuditEvent>)
    ensures CountDeleted(a + b) == CountDeleted(a) + CountDeleted(b)
    ensures CountWithoutId(a + b) == CountWithoutId(a) + CountWithoutId(b)
  {
    if |a| == 0 {
      assert a + b == b;
    } else {
      assert (a + b)[1..] == a[1..] + b;
      CountsAppend(a[1..], b);
    }
  }

  /** Every event about a deleted field names the key of an earlier field and a field that did not survive. */
  lemma {:induction false} DeletedEventsAreDropped(fields: seq<Field>, key: Field -> Option<string>, n: nat)
    requires n <= |fields|
    ensures forall e :: e in EventsUpTo(fields, key, n) && e.DeletedField? ==>
      exists i :: 0 <= i < n && fields[i] == e.field && key(fields[i]) == Some(e.authId) && !Kept(fields, key, i)
  {
    if n > 0 {
      DeletedEventsAreDropped(fields, key, n - 1);
      var f := fields[n - 1];
      forall e | e in FieldEvents(fields, key, n - 1) && e.DeletedField?
        ensures fields[n - 1] == e.field && key(fields[n - 1]) == Some(e.authId) && !Kept(fields, key, n - 1)
      {
        var k := key(f);
        if k.Some? {
          var multi: seq<AuditEvent> := if |SubfieldValues(f, AuthorityIdCode)| > 1 then [MultipleAuthorityIds(f)] else [];
          var del: seq<AuditEvent> := if k.value in KeysUpTo(fields, key, n - 1) then [DeletedField(k.value, f)] else [];
          assert FieldEvents(fields, key, n - 1) == multi + del;
          assert e in del;
          KeptIffNewKey(fields, key, n - 1);
        }
      }
      forall e | e in EventsUpTo(fields, key, n) && e.DeletedField?
        ensures exists i :: 0 <= i < n && fields[i] == e.field && key(fields[i]) == Some(e.authId) && !Kept(fields, key, i)
      {
        if e in EventsUpTo(fields, key, n - 1) {
          var i :| 0 <= i < n - 1 && fields[i] == e.field && key(fields[i]) == Some(e.authId) && !Kept(fields, key, i);
          assert 0 <= i < n;
        } else {
          assert e in FieldEvents(fields, key, n - 1);
        }
      }
    }
  }

  lemma FieldEventDeleted(fields: seq<Field>, key: Field -> Option<string>, i: nat)
    requires i < |fields|
    ensures CountDeleted(FieldEvents(fields, key, i)) == if Kept(fields, key, i) then 0 else 1
  {
    var f := fields[i];
    var k := key(f);
    if k.Some? {
      var multi: seq<AuditEvent> := if |SubfieldValues(f, AuthorityIdCode)| > 1 then [MultipleAuthorityIds(f)] else [];
      var del: seq<AuditEvent> := if k.value in KeysUpTo(fields, key, i) then [DeletedField(k.value, f)] else [];
      assert FieldEvents(fields, key, i) == multi + del;
      CountsAppend(multi, del);
      KeptIffNewKey(fields, key, i);
    }
  }

  lemma FieldEventWithoutId(fields: seq<Field>, key: Field -> Option<string>, i: nat)
    requires i < |fields|
    ensures CountWithoutId(FieldEvents(fields, key, i)) == if key(fields[i]).None? then 1 else 0
  {
    var f := fields[i];
    var k := key(f);
    if k.Some? {
      var multi: seq<AuditEvent> := if |SubfieldValues(f, AuthorityIdCode)| > 1 then [MultipleAuthorityIds(f)] else [];
      var del: seq<AuditEvent> := if k.value in KeysUpTo(fields, key, i) then [DeletedField(k.value, f)] else [];
      assert FieldEvents(fields, key, i) == multi + del;
      CountsAppend(multi, del);
    }
  }

  /** Counting concatenated rows one field at a time. */
  lemma ConcatStep(rows: nat -> seq<AuditEvent>, n: nat)
    requires n > 0
    ensures CountDeleted(Concat(rows, n)) == CountDeleted(Concat(rows, n - 1)) + CountDeleted(rows(n - 1))
    ensures CountWithoutId(Concat(rows, n)) == CountWithoutId(Concat(rows, n - 1)) + CountWithoutId(rows(n - 1))
  {
    CountsAppend(Concat(rows, n - 1), rows(n - 1));
  }

  /** One deleted-field row per dropped field adds up, with the survivors, to the fields seen. */
  lemma {:induction false} ConcatDeletedCount(rows: nat -> seq<AuditEvent>, fields: seq<Field>, key: Field -> Option<string>, n: nat)
    requires n <= |fields|
    requires forall i :: 0 <= i < n ==> CountDeleted(rows(i)) == if Kept(fields, key, i) then 0 else 1
    ensures CountDeleted(Concat(rows, n)) + |Survivors(fields, key, n)| == n
  {
    if n > 0 {
      ConcatDeletedCount(rows, fields, key, n - 1);
      ConcatStep(rows, n);
      SurvivorsStep(fields, key, n);
    }
  }

  /** One warning per keyless field adds up to the keyless fields seen. */
  lemma {:induction false} ConcatWithoutIdCount(rows: nat -> seq<AuditEvent>, fields: seq<Field>, key: Field -> Option<string>, n: nat)
    requires n <= |fields|
    requires forall i :: 0 <= i < n ==> CountWithoutId(rows(i)) == if key(fields[i]).None? then 1 else 0
    ensures CountWithoutId(Concat(rows, n)) == KeylessUpTo(fields, key, n)
  {
    if n > 0 {
      ConcatWithoutIdCount(rows, fields, key, n - 1);
      ConcatStep(rows, n);
    }
  }

  lemma DeletedCount(fields: seq<Field>, key: Field -> Option<string>, n: nat)
    requires n <= |fields|
    ensures CountDeleted(EventsUpTo(fields, key, n)) + |Survivors(fields, key, n)| == n
  {
    var rows := RowsOf(fields, key);
    forall i | 0 <= i < n
      ensures CountDeleted(rows(i)) == if Kept(fields, key, i) then 0 else 1
    {
      FieldEventDeleted(fields, key, i);
    }
    ConcatDeletedCount(rows, fields, key, n);
  }

  lemma WithoutIdCount(fields: seq<Field>, key: Field -> Option<string>, n: nat)
    requires n <= |fields|
    ensures CountWithoutId(EventsUpTo(fields, key, n)) == KeylessUpTo(fields, key, n)
  {
    var rows := RowsOf(fields, key);
    forall i | 0 <= i < n
      ensures CountWithoutId(rows(i)) == if key(fields[i]).None? then 1 else 0
    {
      FieldEventWithoutId(fields, key, i);
    }
    ConcatWithoutIdCount(rows, fields, key, n);
  }

  /**
   The report accounts for the pass: one deleted-field row per dropped field, naming a key
   that still has a surviving field, and one warning per field without an authority id.
   */
  lemma AuditTrailAccounts(fields: seq<Field>)
    ensures CountDeleted(AuditTrail(fields)) == |fields| - |Dedupe(fields, AuthKey)|
    ensures CountWithoutId(AuditTrail(fields)) == KeylessUpTo(fields, AuthKey, |fields|)
    ensures forall e :: e in AuditTrail(fields) && e.DeletedField? ==>
      e.field in fields && exists j :: 0 <= j < |Dedupe(fields, AuthKey)| && AuthKey(Dedupe(fields, AuthKey)[j]) == Some(e.authId)
  {
    DeletedCount(fields, AuthKey, |fields|);
    WithoutIdCount(fields, AuthKey, |fields|);
    DeletedEventsAreDropped(fields, AuthKey, |fields|);
    KeepsFirstPerKey(fields, AuthKey);
  }

  /**
   One turn of the loop of `dedupe_field`: the rows field `i` reports, whether it is kept, and
   the list of authority ids met, given the ids met before it.
   */
  method ScanField(fields: seq<Field>, i: nat, authIdIndex: seq<string>) returns (keep: bool, rows: seq<AuditEvent>, index: seq<string>)
    requires i < |fields|
    requires forall k :: k in authIdIndex <==> k in KeysUpTo(fields, AuthKey, i)
    ensures keep == Kept(fields, AuthKey, i)
    ensures rows == FieldEvents(fields, AuthKey, i)
    ensures forall k :: k in index <==> k in KeysUpTo(fields, AuthKey, i + 1)
  {
    var field := fields[i];
    KeptIffNewKey(fields, AuthKey, i);
    index := authIdIndex;
    var authKey := AuthKey(field);
    if authKey.None? {
      return true, [FieldWithoutAuthorityId(field)], index;
    }
    var multi: seq<AuditEvent> := [];
    if |SubfieldValues(field, AuthorityIdCode)| > 1 {
      multi := [MultipleAuthorityIds(field)];
    }
    var authId := authKey.value;
    if authId in authIdIndex {
      return false, multi + [DeletedField(authId, field)], index;
    }
    index := index + [authId];
    return true, multi, index;
  }

  /** The survivors and the rows after one more field. */
  lemma ScanStep(fields: seq<Field>, i: nat)
    requires i < |fields|
    ensures EventsUpTo(fields, AuthKey, i + 1) == EventsUpTo(fields, AuthKey, i) + FieldEvents(fields, AuthKey, i)
    ensures Survivors(fields, AuthKey, i + 1) ==
      Survivors(fields, AuthKey, i) + if Kept(fields, AuthKey, i) then [fields[i]] else []
  {
    SurvivorsStep(fields, AuthKey, i + 1);
  }

  /**
   The loop of `dedupe_field`: the fields kept and the rows reported, field by field.
   It computes the survivors and the report.
   */
  method DedupeScan(fields: seq<Field>) returns (kept: seq<Field>, events: seq<AuditEvent>)
    ensures kept == Dedupe(fields, AuthKey)
    ensures events == AuditTrail(fields)
  {
    var authIdIndex: seq<string> := [];
    kept := [];
    events := [];
    var i := 0;
    while i < |fields|
      invariant 0 <= i <= |fields|
      invariant kept == Survivors(fields, AuthKey, i)
      invariant events == EventsUpTo(fields, AuthKey, i)
      invariant forall k :: k in authIdIndex <==> k in KeysUpTo(fields, AuthKey, i)
    {
      var keep, rows;
      keep, rows, authIdIndex := ScanField(fields, i, authIdIndex);
      ScanStep(fields, i);
      events := events + rows;
      if keep {
        kept := kept + [fields[i]];
      }
      i := i + 1;
    }
  }
}
