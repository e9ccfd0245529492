/**
 The input validators of the Koha REST API client and the checks `__post_biblio`
 runs before it builds a request (api/Koha_REST_API_Client.py). The HTTP calls
 themselves are not modelled.
 */
module KohaApi {
  import opened Wrappers
  import opened PyText
  import opened PyValues

  // ---------------------------------------------------------------------------
  // Enumerations, in declaration order, with their values

  datatype ContentType = MarcXml | MarcInJson | RawMarc | RawText | Json {
    function Value(): string {
      match this
      case MarcXml => "application/marcxml+xml"
      case MarcInJson => "application/marc-in-json"
      case RawMarc => "application/marc"
      case RawText => "text/plain"
      case Json => "application/json"
    }
  }

  const ContentTypes: seq<ContentType> := [MarcXml, MarcInJson, RawMarc, RawText, Json]

  lemma ContentTypesListed(m: ContentType)
    ensures m in ContentTypes
  {
    match m
    case MarcXml =>
    case MarcInJson =>
    case RawMarc =>
    case RawText =>
    case Json =>
  }

  datatype RecordSchema = Marc21 | Unimarc {
    function Value(): string {
      match this
      case Marc21 => "MARC21"
      case Unimarc => "UNIMARC"
    }
  }

  const RecordSchemas: seq<RecordSchema> := [Marc21, Unimarc]

  /** `Api_Name`: its member values are integers. */
  datatype ApiName = GetBiblio | UpdateBiblio | AddBiblio | GetAuth | GetAuthList {
    function Value(): int {
      match this
      case GetBiblio => 0
      case UpdateBiblio => 1
      case AddBiblio => 2
      case GetAuth => 200
      case GetAuthList => 201
    }
  }

  const ApiNames: seq<ApiName> := [GetBiblio, UpdateBiblio, AddBiblio, GetAuth, GetAuthList]

  /** `Errors`, with the codes the client reports. */
  datatype KohaError =
    | GenericRequestError | HttpError | GenericRequestErrorIntoNameError
    | InvalidBibnb | RecordDoesNotExist
    | InvalidAuthId | AuthorityDoesNotExist
    | ContentTypeNotSupported | RecordSchemaNotSupported | ApiNotSupported
  {
    function Code(): int {
      match this
      case GenericRequestError => 0
      case HttpError => 1
      case GenericRequestErrorIntoNameError => 2
      case InvalidBibnb => 10
      case RecordDoesNotExist => 11
      case InvalidAuthId => 200
      case AuthorityDoesNotExist => 201
      case ContentTypeNotSupported => 300
      case RecordSchemaNotSupported => 301
      case ApiNotSupported => 302
    }
  }

  /** An argument typed `E|str`: a member of the enumeration, a string, or any other Python value. */
  datatype Arg<E> = Member(member: E) | Text(text: string) | Other

  // ---------------------------------------------------------------------------
  // Biblionumbers and integers

  /** `validate_bibnb`: the stripped text of `id` when it is all decimal digits (possibly none), else None. */
  function ValidateBibnb(id: PyValue): (r: Option<string>)
    ensures r.Some? ==> AllDigits(r.value) && r.value == Strip(Str(id))
    ensures r.None? ==> exists i :: 0 <= i < |Strip(Str(id))| && !IsDigit(Strip(Str(id))[i])
  {
    var t := Strip(Str(id));
    if AllDigits(t) then Some(t) else None
  }

  /** Validating an accepted biblionumber again accepts it unchanged. */
  lemma ValidateBibnbIdempotent(id: PyValue)
    requires ValidateBibnb(id).Some?
    ensures ValidateBibnb(PyStr(ValidateBibnb(id).value)) == ValidateBibnb(id)
  {
    StripIdempotent(Str(id));
  }

  /** An integer is accepted exactly when it is not negative, as its decimal text. */
  lemma ValidateBibnbOfInt(n: int)
    ensures n >= 0 ==> ValidateBibnb(PyInt(n)) == Some(NatToString(n))
    ensures n < 0 ==> ValidateBibnb(PyInt(n)) == None
  {
    var s := IntToString(n);
    assert Trimmed(s) by {
      assert !IsSpace(s[0]) && !IsSpace(s[|s| - 1]);
    }
    StripTrimmed(s);
    if n < 0 {
      assert !IsDigit(s[0]);
    }
  }

  /** `validate_int`'s handling of its default: an int is kept, else `int(default)`, else -1. */
  function NormaliseDefault(default: PyValue): (d: int)
    ensures default.PyInt? ==> d == default.i
    ensures ToInt(default).Some? ==> d == ToInt(default).value
    ensures ToInt(default).None? ==> d == -1
  {
    if default.PyInt? then default.i else ToInt(default).GetOr(-1)
  }

  /**
   `validate_int`: the value of a non-empty digit string (after stripping), else the
   normalised default. Negative numbers, empty and non-digit text all give the default.
   */
  function ValidateInt(nb: PyValue, default: PyValue): (r: int)
    ensures r >= 0 || r == NormaliseDefault(default)
    ensures ValidateBibnb(nb).Some? && ValidateBibnb(nb).value != "" ==> r == DigitsValue(ValidateBibnb(nb).value)
    ensures ValidateBibnb(nb).None? || ValidateBibnb(nb).value == "" ==> r == NormaliseDefault(default)
  {
    var d := NormaliseDefault(default);
    match ValidateBibnb(nb)
    case None => d
    case Some(t) => if t == "" then d else DigitsValue(t)
  }

  /** `validate_int` gives back every non-negative integer, whether passed as an int or as its text. */
  lemma ValidateIntRoundTrip(n: nat, default: PyValue)
    ensures ValidateInt(PyInt(n), default) == n
    ensures ValidateInt(PyStr(NatToString(n)), default) == n
  {
    ValidateBibnbOfInt(n);
    NatToStringValue(n);
    var t := NatToString(n);
    assert ValidateBibnb(PyInt(n)) == Some(t) && t != "";
    assert Str(PyStr(t)) == Str(PyInt(n));
    assert ValidateBibnb(PyStr(t)) == Some(t);
  }

  /** Negative integers, and their text such as "-3", fall back to the default. */
  lemma ValidateIntNegative(n: int, default: PyValue)
    requires n < 0
    ensures ValidateInt(PyInt(n), default) == NormaliseDefault(default)
    ensures ValidateInt(PyStr(IntToString(n)), default) == NormaliseDefault(default)
  {
    ValidateBibnbOfInt(n);
    assert Str(PyStr(IntToString(n))) == Str(PyInt(n));
  }

  /** A default given as the text of an integer is converted to that integer. */
  lemma NormaliseDefaultOfText(n: int)
    ensures NormaliseDefault(PyStr(IntToString(n))) == n
  {
    ParseIntOfIntToString(n);
  }

  /** The text of an integer padded with whitespace other than U+001C..U+001F still converts to that integer. */
  lemma NormaliseDefaultPadded(p: string, n: int, q: string)
    requires AllBlank(IntBlanks, p) && AllBlank(IntBlanks, q)
    ensures NormaliseDefault(PyStr(p + IntToString(n) + q)) == n
  {
    var s := IntToString(n);
    assert TrimmedOf(IntBlanks, s) by {
      assert !IsSpace(s[0]) && !IsSpace(s[|s| - 1]);
    }
    ParseIntPadded(p, s, q);
    ParseSignedOfIntToString(n);
  }

  /** A default text that begins or ends with one of U+001C..U+001F makes `int()` raise, so it becomes -1. */
  lemma NormaliseDefaultRejectsSeparator(s: string)
    requires |s| > 0 && (IsSeparator(s[0]) || IsSeparator(s[|s| - 1]))
    ensures NormaliseDefault(PyStr(s)) == -1
  {
    ParseIntRejectsSeparator(s);
  }

  // ---------------------------------------------------------------------------
  // Enumeration validators

  /** The loop `for member in E: if member.value == x: return member`: the first member whose value equals `x`. */
  function FindMember<E, V(==)>(members: seq<E>, value: E -> V, x: V): (r: Option<E>)
    ensures r.Some? ==> r.value in members && value(r.value) == x
    ensures r.None? ==> forall m :: m in members ==> value(m) != x
  {
    if |members| == 0 then None
    else if value(members[0]) == x then Some(members[0])
    else FindMember(members[1..], value, x)
  }

  /**
   `validate_content_type`: a member is returned as is; a string selects the member with that
   value, or None when there is none (whatever `default` says); only another kind of value
   falls back to RAW_MARC, or None when `default` is false.
   */
  function ValidateContentType(format: Arg<ContentType>, default: bool): (r: Option<ContentType>)
    ensures format.Member? ==> r == Some(format.member)
    ensures format.Text? ==> (r.Some? <==> exists m: ContentType :: m.Value() == format.text)
    ensures format.Text? && r.Some? ==> r.value.Value() == format.text
    ensures format.Other? ==> r == (if default then Some(RawMarc) else None)
  {
    match format
    case Member(m) => Some(m)
    case Text(s) =>
      var r := FindMember(ContentTypes, (m: ContentType) => m.Value(), s);
      assert forall m: ContentType :: m in ContentTypes by {
        forall m: ContentType ensures m in ContentTypes {
          ContentTypesListed(m);
        }
      }
      r
    case Other => if default then Some(RawMarc) else None
  }

  /** Every content type is found again from its value. */
  lemma ContentTypeRoundTrip(m: ContentType, default: bool)
    ensures ValidateContentType(Text(m.Value()), default) == Some(m)
  {
  }

  /** `validate_record_schema`: the same shape, with UNIMARC as the fallback. */
  function ValidateRecordSchema(schema: Arg<RecordSchema>, default: bool): (r: Option<RecordSchema>)
    ensures schema.Member? ==> r == Some(schema.member)
    ensures schema.Text? ==> (r.Some? <==> schema.text == "MARC21" || schema.text == "UNIMARC")
    ensures schema.Text? && r.Some? ==> r.value.Value() == schema.text
    ensures schema.Other? ==> r == (if default then Some(Unimarc) else None)
  {
    match schema
    case Member(m) => Some(m)
    case Text(s) =>
      var r := FindMember(RecordSchemas, (m: RecordSchema) => m.Value(), s);
      assert Marc21 in RecordSchemas && Unimarc in RecordSchemas;
      r
    case Other => if default then Some(Unimarc) else None
  }

  /**
   `validate_api_name`: member values are integers and Python never finds an int equal to a
   string, so only a member is accepted.
   */
  function ValidateApiName(api: Arg<ApiName>): (r: Option<ApiName>)
    ensures r.Some? <==> api.Member?
    ensures api.Member? ==> r.value == api.member
  {
    match api
    case Member(m) => Some(m)
    case Text(s) => FindMember(ApiNames, (m: ApiName) => PyInt(m.Value()), PyStr(s))
    case Other => None
  }

  // ---------------------------------------------------------------------------
  // __post_biblio

  /** The argument names content type `m`, as a member or by its value. */
  predicate DenotesContentType(format: Arg<ContentType>, m: ContentType) {
    format == Member(m) || format == Text(m.Value())
  }

  /** A MARC format: MARCXML, MARC-in-JSON or raw MARC. */
  predicate PostableFormat(format: Arg<ContentType>) {
    DenotesContentType(format, MarcXml) || DenotesContentType(format, MarcInJson) || DenotesContentType(format, RawMarc)
  }

  predicate KnownSchema(schema: Arg<RecordSchema>) {
    schema.Member? || schema == Text("MARC21") || schema == Text("UNIMARC")
  }

  /** The content type check of `__post_biblio` passes exactly for a MARC format. */
  lemma PostableFormatAccepted(format: Arg<ContentType>)
    ensures (ValidateContentType(format, false).Some? && ValidateContentType(format, false).value !in [Json, RawText])
      <==> PostableFormat(format)
  {
    match format
    case Member(m) =>
      assert ValidateContentType(format, false) == Some(m);
      match m {
        case MarcXml => assert PostableFormat(format);
        case MarcInJson => assert PostableFormat(format);
        case RawMarc => assert PostableFormat(format);
        case RawText => assert !PostableFormat(format);
        case Json => assert !PostableFormat(format);
      }
    case Other =>
    case Text(t) =>
      var c := ValidateContentType(format, false);
      if c.Some? {
        ContentTypeValueInjective(c.value);
        assert format == Text(c.value.Value());
      }
      if PostableFormat(format) {
        var m :| m in [MarcXml, MarcInJson, RawMarc] && format == Text(m.Value());
        ContentTypeRoundTrip(m, false);
      }
  }

  /** Content types are told apart by their values. */
  lemma ContentTypeValueInjective(m: ContentType)
    ensures forall n: ContentType :: n.Value() == m.Value() ==> n == m
  {
    forall n: ContentType ensures n.Value() == m.Value() ==> n == m {
      if n != m {
        assert |n.Value()| != |m.Value()| || n.Value()[12] != m.Value()[12];
      }
    }
  }

  /** The record schema check of `__post_biblio` passes exactly for a known schema. */
  lemma KnownSchemaAccepted(schema: Arg<RecordSchema>)
    ensures ValidateRecordSchema(schema, false).Some? <==> KnownSchema(schema)
  {
  }

  /**
   The checks `__post_biblio` makes before any request, in order; the first failing one
   decides the error, and None means the request is sent.
   */
  function PostBiblioCheck(api: Arg<ApiName>, format: Arg<ContentType>, schema: Arg<RecordSchema>, id: PyValue): (r: Option<KohaError>)
    ensures r == Some(ApiNotSupported) <==> api != Member(AddBiblio) && api != Member(UpdateBiblio)
    ensures r == Some(ContentTypeNotSupported) <==>
      (api == Member(AddBiblio) || api == Member(UpdateBiblio)) && !PostableFormat(format)
    ensures r == Some(RecordSchemaNotSupported) <==>
      (api == Member(AddBiblio) || api == Member(UpdateBiblio)) && PostableFormat(format) && !KnownSchema(schema)
    ensures r == Some(InvalidBibnb) <==>
      api == Member(UpdateBiblio) && PostableFormat(format) && KnownSchema(schema) && !AllDigits(Strip(Str(id)))
    ensures r.None? <==>
      && (api == Member(AddBiblio) || api == Member(UpdateBiblio))
      && PostableFormat(format) && KnownSchema(schema)
      && (api == Member(UpdateBiblio) ==> AllDigits(Strip(Str(id))))
  {
    var apiName := ValidateApiName(api);
    if apiName.None? || apiName.value !in [AddBiblio, UpdateBiblio] then Some(ApiNotSupported)
    else
      var contentType := ValidateContentType(format, false);
      PostableFormatAccepted(format);
      KnownSchemaAccepted(schema);
      if contentType.None? || contentType.value in [Json, RawText] then Some(ContentTypeNotSupported)
      else
        var recordSchema := ValidateRecordSchema(schema, false);
        if recordSchema.None? then Some(RecordSchemaNotSupported)
        else if apiName.value == UpdateBiblio && ValidateBibnb(id).None? then Some(InvalidBibnb)
        else None
  }
}
