/**
 The kinds of row the script writes to its errors file (`Error_Types`), and the name that
 ends up in the file's `error_type` column.

 In a Python `Enum`, a name declared with a value that an earlier name already has is not
 a member of its own: it is an alias of that earlier member, and `.name` reports the
 earlier member's name.
 */
module ErrorTypes {
  import opened Wrappers
  import opened Batch

  /** The names declared in `Error_Types`. */
  datatype ErrorType =
    | RequestsGetError | SecurityStopError | RequestsPutError | BibnbIsIncorrect | NoRecordError
    | NoBibnbInRecordError | FailedToParseMarc | FieldWithoutAuthorityId | RecordWasNotChanged
    | MultipleAuthorityIdInOneField
  {
    /** The text of the name, as the `error_type` column shows it. */
    function Name(): string {
      match this
      case RequestsGetError => "REQUESTS_GET_ERROR"
      case SecurityStopError => "SECURITY_STOP"
      case RequestsPutError => "REQUESTS_PUT_ERROR"
      case BibnbIsIncorrect => "BIBNB_IS_INCORRECT"
      case NoRecordError => "NO_RECORD"
      case NoBibnbInRecordError => "NO_BIBNB_IN_RECORD"
      case FailedToParseMarc => "FAILED_TO_PARSE_MARC"
      case FieldWithoutAuthorityId => "WARNING_FIELD_WITHOUT_AUTHORITY_ID"
      case RecordWasNotChanged => "RECORD_WAS_NOT_CHANGED"
      case MultipleAuthorityIdInOneField => "WARNING_MULTIPLE_AUTHORITY_ID_IN_ONE_FIELD"
    }
  }

  /** An enumeration as declared: each name with its value, in declaration order. */
  type Declarations = seq<(ErrorType, int)>

  /** `Error_Types` as the script declares it. */
  const DeclaredErrorTypes: Declarations := [
    (RequestsGetError, 0), (SecurityStopError, 1), (RequestsPutError, 2), (BibnbIsIncorrect, 10),
    (NoRecordError, 20), (NoBibnbInRecordError, 21), (FailedToParseMarc, 21),
    (FieldWithoutAuthorityId, 30), (RecordWasNotChanged, 31), (MultipleAuthorityIdInOneField, 32)]

  /** `Error_Types` with FAILED_TO_PARSE_MARC given a value of its own. */
  const ErrorTypeValues: Declarations := DeclaredErrorTypes[6 := (FailedToParseMarc, 22)]

  /** The value first declared under `name`. */
  function ValueOf(decls: Declarations, name: ErrorType): Option<int>
  {
    if |decls| == 0 then None
    else if decls[0].0 == name then Some(decls[0].1)
    else ValueOf(decls[1..], name)
  }

  /** The first name declared with value `v`: the member that owns the value. */
  function Owner(decls: Declarations, v: int): Option<ErrorType>
  {
    if |decls| == 0 then None
    else if decls[0].1 == v then Some(decls[0].0)
    else Owner(decls[1..], v)
  }

  /** `Error_Types.<name>`: the member, and so the `.name`, the errors file shows for a row written as `name`. */
  function ReportedName(decls: Declarations, name: ErrorType): Option<ErrorType>
  {
    match ValueOf(decls, name)
    case None => None
    case Some(v) => Owner(decls, v)
  }

  /** No two declarations share a name or a value. */
  predicate Unaliased(decls: Declarations) {
    forall i, j :: 0 <= i < j < |decls| ==> decls[i].0 != decls[j].0 && decls[i].1 != decls[j].1
  }

  /** A name is read at its first declaration. */
  lemma {:induction false} ValueOfFirst(decls: Declarations, i: nat)
    requires i < |decls|
    requires forall j :: 0 <= j < i ==> decls[j].0 != decls[i].0
    ensures ValueOf(decls, decls[i].0) == Some(decls[i].1)
  {
    if i > 0 {
      assert decls[1..][i - 1] == decls[i];
      ValueOfFirst(decls[1..], i - 1);
    }
  }

  /** A value belongs to the first name declared with it. */
  lemma {:induction false} OwnerFirst(decls: Declarations, i: nat)
    requires i < |decls|
    requires forall j :: 0 <= j < i ==> decls[j].1 != decls[i].1
    ensures Owner(decls, decls[i].1) == Some(decls[i].0)
  {
    if i > 0 {
      assert decls[1..][i - 1] == decls[i];
      OwnerFirst(decls[1..], i - 1);
    }
  }

  /** A name declared before any other use of its name and its value is reported as itself. */
  lemma FirstReportsOwnName(decls: Declarations, i: nat)
    requires i < |decls|
    requires forall j :: 0 <= j < i ==> decls[j].0 != decls[i].0 && decls[j].1 != decls[i].1
    ensures ReportedName(decls, decls[i].0) == Some(decls[i].0)
  {
    ValueOfFirst(decls, i);
    OwnerFirst(decls, i);
  }

  /** A name declared with the value of an earlier name is reported as the first name with that value. */
  lemma AliasReportsOwner(decls: Declarations, i: nat, j: nat, owner: ErrorType, alias: ErrorType)
    requires i < j < |decls| && decls[i].0 == owner && decls[j].0 == alias && decls[i].1 == decls[j].1
    requires forall k :: 0 <= k < i ==> decls[k].1 != decls[i].1
    requires forall k :: 0 <= k < j ==> decls[k].0 != alias
    ensures ReportedName(decls, alias) == Some(owner)
  {
    ValueOfFirst(decls, j);
    OwnerFirst(decls, i);
  }

  /** Without aliases, every declared name is reported as itself. */
  lemma UnaliasedReportsOwnName(decls: Declarations, i: nat)
    requires Unaliased(decls)
    requires i < |decls|
    ensures ReportedName(decls, decls[i].0) == Some(decls[i].0)
  {
    FirstReportsOwnName(decls, i);
  }

  /** The name under which the script writes each outcome of a record to the errors file. */
  function OutcomeRow(o: Outcome): (r: Option<ErrorType>)
    ensures r.Some? <==> !o.Update?
  {
    match o
    case GetError(_) => Some(RequestsGetError)
    case FailedToParse => Some(FailedToParseMarc)
    case NoRecord => Some(NoRecordError)
    case NoBibnbInRecord => Some(NoBibnbInRecordError)
    case NotChanged => Some(RecordWasNotChanged)
    case Update(_) => None
  }

  /** The kind of outcome, without its payload. */
  predicate SameKind(o: Outcome, p: Outcome) {
    && (o.GetError? <==> p.GetError?)
    && (o.FailedToParse? <==> p.FailedToParse?)
    && (o.NoRecord? <==> p.NoRecord?)
    && (o.NoBibnbInRecord? <==> p.NoBibnbInRecord?)
    && (o.NotChanged? <==> p.NotChanged?)
    && (o.Update? <==> p.Update?)
  }

  /** As declared, FAILED_TO_PARSE_MARC is an alias of NO_BIBNB_IN_RECORD. */
  lemma ParseFailureIsAlias()
    ensures ReportedName(DeclaredErrorTypes, FailedToParseMarc) == Some(NoBibnbInRecordError)
  {
    var d := DeclaredErrorTypes;
    forall k | 0 <= k < 6
      ensures d[k].0 != FailedToParseMarc && (k < 5 ==> d[k].1 != 21)
    {
      if k == 0 {} else if k == 1 {} else if k == 2 {} else if k == 3 {} else if k == 4 {}
    }
    AliasReportsOwner(d, 5, 6, NoBibnbInRecordError, FailedToParseMarc);
  }

  /** As declared, NO_BIBNB_IN_RECORD owns its value. */
  lemma NoBibnbOwnsItsValue()
    ensures ReportedName(DeclaredErrorTypes, NoBibnbInRecordError) == Some(NoBibnbInRecordError)
  {
    var d := DeclaredErrorTypes;
    forall k | 0 <= k < 5
      ensures d[k].0 != d[5].0 && d[k].1 != d[5].1
    {
      if k == 0 {} else if k == 1 {} else if k == 2 {} else if k == 3 {}
    }
    FirstReportsOwnName(d, 5);
  }

  /**
   As declared, a record that failed to parse and a record without a biblionumber field
   leave the same `error_type` in the errors file.
   */
  lemma ParseFailureReportedAsNoBibnb()
    ensures ReportedName(DeclaredErrorTypes, OutcomeRow(FailedToParse).value).value.Name() == "NO_BIBNB_IN_RECORD"
    ensures ReportedName(DeclaredErrorTypes, OutcomeRow(FailedToParse).value) ==
      ReportedName(DeclaredErrorTypes, OutcomeRow(NoBibnbInRecord).value)
  {
    ParseFailureIsAlias();
    NoBibnbOwnsItsValue();
  }

  lemma ErrorTypeValuesUnaliased()
    ensures Unaliased(ErrorTypeValues)
  {
  }

  /**
   With a value of its own for FAILED_TO_PARSE_MARC, the errors file shows every outcome
   under its own name, so two rows with the same `error_type` come from the same kind of
   outcome.
   */
  lemma OutcomeRowsDistinguishOutcomes(o: Outcome, p: Outcome)
    requires OutcomeRow(o).Some? && OutcomeRow(p).Some?
    ensures ReportedName(ErrorTypeValues, OutcomeRow(o).value) == OutcomeRow(o)
    ensures ReportedName(ErrorTypeValues, OutcomeRow(o).value) == ReportedName(ErrorTypeValues, OutcomeRow(p).value)
      <==> SameKind(o, p)
  {
    ErrorTypeValuesUnaliased();
    forall q: Outcome | OutcomeRow(q).Some?
      ensures ReportedName(ErrorTypeValues, OutcomeRow(q).value) == OutcomeRow(q)
    {
      var i: nat :=
        if q.GetError? then 0 else if q.FailedToParse? then 6 else if q.NoRecord? then 4
        else if q.NoBibnbInRecord? then 5 else 8;
      UnaliasedReportsOwnName(ErrorTypeValues, i);
    }
  }
}
