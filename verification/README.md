# Koha subject de-duplication: a Dafny model

The Python scripts modelled here remove repeated subject fields from bibliographic records in
a Koha library system.

- `main.py` reads a list of biblionumbers and fetches each record through the Koha REST API.
  For every configured subject tag, it keeps only the first field that carries each authority
  id (subfield `$9`). It sends the record back when something was dropped.
- `prep_list.py` reads a CSV export of biblionumbers and their authority ids. It keeps the
  rows where some authority id occurs more than once.
- `api/Koha_REST_API_Client.py` provides the argument validators and the pre-flight checks of
  the biblio POST/PUT call. `main.py` relies on them: it calls `validate_int` directly, and the
  other validators through `KohaRESTAPIClient` and `__post_biblio`. `prep_list.py` uses none
  of them.

The modules follow the program:

| module | models |
|---|---|
| `Wrappers` | `Option` |
| `PyText` | `str.strip`, `str.split`, `", ".join`, decimal digits, `str(int)` and `int(str)` |
| `PyValues` | the dynamically typed arguments of the validators, with Python's `str()` and `int()` |
| `OrderedDicts` | a Python `dict` with insertion order: `d[k] = v`, `add_to_dict_if_inexistent`, `pop` |
| `KohaApi` | the client's enumerations, validators and `__post_biblio` checks |
| `Marc` | records as sequences of fields; pymarc `get_fields`, `remove_fields`, `get`, `get_subfields` |
| `FirstWins` | a generic "first element per key wins" pass, with its full theory |
| `Seqs` | a generic filter-and-map over sequences |
| `Dedupe` | `dedupe_field`: the per-tag pass on a record, and the rows it reports |
| `Batch` | `main.py`: subject-tag parsing, the record limit, the line loop, and one record's processing |
| `ErrorTypes` | `main.py`'s `Error_Types` enumeration and the names it writes to the errors file |
| `PrepList` | `prep_list.py`: counting authority ids per row, the dupes column, and row selection |

Two points of the code's behaviour shape the model.

- **Deduplication rule.** The code keys each field on its FIRST `$9` value. A field whose
  first `$9` is missing or empty is kept with a warning. The first field for each key
  survives, and survivors keep record order. No other criterion chooses between duplicates:
  there is no preference by other subfields and no reordering.
- **Where fields go back.** The record is rewritten by removing the tag's fields and adding
  the survivors. The model promises the per-tag view (`get_fields`) of the result, not the
  physical position that `add_ordered_field` picks.

## Model

| member | source | states |
|---|---|---|
| FirstWins.KeepsFirstPerKey | main.py:139-148 | the kept fields are the input fields at increasing positions; every keyless field is kept; a kept field's key was not met earlier; kept keys are pairwise distinct; every key of the input is still carried by some kept field |
| FirstWins.DedupeCardinality | main.py:126-148 | the pass keeps exactly one field per distinct key plus every keyless field, never more than it got |
| FirstWins.DedupeChangesIffDuplicates | main.py:150-153 | nothing is dropped exactly when no key repeats, and then the fields come back unchanged |
| FirstWins.DedupeIdempotent | main.py:139-148 | a second pass over the survivors keeps all of them |
| FirstWins.SurvivorsCount | main.py:126-148 | after n fields, the survivors number the keyless fields plus the distinct keys met |
| FirstWins.SurvivorsLength | main.py:151 | survivors never outnumber the fields seen, and equal them exactly when every field was kept, in which case they are those fields |
| FirstWins.KeysUpToMembership | main.py:142 | an id is in the list of ids met exactly when an earlier field carries it |
| Dedupe.AuthKeyIsFirstId | main.py:130-141 | a field has a key exactly when its first `$9` exists and is not empty, and the key is that first `$9` |
| Dedupe.DedupeField | main.py:122-159 | the record changes exactly when some `$9` key repeats under the tag; the tag's fields become the first-wins survivors; other tags are untouched; an unchanged record is returned as is |
| Dedupe.DedupeFieldIdempotent | main.py:150-159 | deduplicating the same tag again reports no change and leaves the record alone |
| Dedupe.AuditTrailAccounts | main.py:129-145 | one deleted-field row per dropped field, one warning per field without an authority id, and every deleted row names an id a surviving field still carries |
| Dedupe.DedupeScan | main.py:126-148 | the loop with its list of ids met keeps exactly the first-wins survivors and writes exactly the modelled report rows |
| Dedupe.ScanField | main.py:129-148 | one turn of the loop keeps the field exactly when it is keyless or its id is new, and extends the ids met by its key |
| Marc.GetFields | main.py:128 | the fields of a tag all carry that tag, are no more than the record's fields, and a field is among them exactly when it is in the record with that tag |
| Marc.GetFieldsAppend | main.py:128 | the fields of a tag in two records put together are the first record's, then the second's: order and repeats follow the record |
| Marc.GetFieldsAllTagged | main.py:128 | fields that all carry the tag are exactly their own fields of that tag, in the same order, and have none of any other tag |
| Marc.RemoveFields | main.py:157 | removing a tag's fields leaves no field of that tag and every other tag's fields as they were |
| Marc.ReplaceFields | main.py:157-158 | after removing a tag and adding fields of that tag, the tag holds exactly the new fields and the other tags are as before |
| Marc.FirstValue | main.py:130 | `field.get(code)` is missing exactly when the code has no subfield, and is otherwise the first value |
| Batch.ReadTag | main.py:27-33 | a piece of the setting gives a tag exactly when it reads as an integer strictly between 9 and 1000; the tag is then three digits, zero-padded, with that value |
| Batch.SubjectTagsSpec | main.py:27-33 | the tags kept are at most the comma-separated pieces, and a tag is kept exactly when some piece reads as it |
| Batch.SubjectTagsConcat | main.py:27-33 | for any two texts, the tags of `a,b` are the tags of `a` followed by the tags of `b`, so the setting's order and repeats are kept |
| Batch.SubjectTagsOnePiece | main.py:28-33 | a setting without a comma gives the tag of its one piece when that piece reads as a tag, and no tag otherwise |
| Batch.SubjectTagsCanonical | main.py:29-33 | every kept tag is three digits and names a data field (10 to 999) |
| Batch.SubjectTagsRoundTrip | main.py:27-33 | every comma-joined list of three-digit data-field tags, the empty list included, parses back to itself in order |
| Batch.CanonicalTagRoundTrip | main.py:28-33 | a three-digit data-field tag reads as its own value and is rendered back to itself |
| Batch.RecordLimit | main.py:51 | the record limit is the value of the setting when its stripped text is a non-empty string of digits, and 500 otherwise (absent, empty, negative or not a number); it is never negative |
| Batch.CheckLineSpec | main.py:191-196 | a line is fetched exactly when its stripped text is a non-empty string of digits with a value of at least 1, and the biblionumber is that value |
| Batch.CheckLineOfNumber | main.py:191-196 | the decimal text of any positive biblionumber is fetched as that number |
| Batch.RunLines | main.py:184-196 | the loop with its security counter produces exactly the planned steps: every line below the limit put through the line check in order, then a security stop if lines remain |
| Batch.PlanFetch | main.py:185-199 | line i is fetched as b exactly when it lies within both the file and the limit and reads as b |
| Batch.PlanShape | main.py:185-190 | there is at most one step per line, each step carries its line index, and only the last step can be a security stop |
| Batch.PlanStops | main.py:186-190 | the security stop happens exactly when the file has more lines than the limit allows |
| Batch.DedupeTagsFields | main.py:234-240 | after the tag loop, each listed tag holds its first-wins survivors, whether listed once or more, and every other tag is unchanged |
| Batch.DedupeTagsChanged | main.py:234-240 | the record counts as changed exactly when some listed tag has a repeated key |
| Batch.LastPassChanged | main.py:234-240 | a later pass over a tag reports a change exactly when that tag was not already listed and its original fields repeat a key; a repeated tag finds its fields already deduplicated |
| Batch.DedupeTagsUnchanged | main.py:234-247 | a record the tag loop reports as unchanged is exactly the record it was given |
| Batch.ProcessRecordSpec | main.py:198-250 | a record is sent back exactly when it parsed, has a 001 field and some subject tag repeats a key, and it then has every subject tag deduplicated and the rest intact; a parsed record with a 001 and no repeat is reported as not changed |
| ErrorTypes.UnaliasedReportsOwnName | main.py:54-64 | when no two names share a value, every name is reported as itself |
| ErrorTypes.ParseFailureReportedAsNoBibnb | main.py:60-61 | as declared, a parse failure is written as NO_BIBNB_IN_RECORD, the same as a record without a 001 field |
| ErrorTypes.OutcomeRowsDistinguishOutcomes | main.py:54-64 | with its own value for FAILED_TO_PARSE_MARC, two error rows share a name exactly when they come from the same kind of outcome |
| KohaApi.ValidateBibnb | api/Koha_REST_API_Client.py:67-74 | accepted exactly when the stripped text is all digits, possibly none; the result is that stripped text |
| KohaApi.ValidateBibnbIdempotent | api/Koha_REST_API_Client.py:67-74 | an accepted biblionumber is accepted again unchanged |
| KohaApi.ValidateBibnbOfInt | api/Koha_REST_API_Client.py:67-74 | an integer is accepted as its decimal text exactly when it is not negative |
| KohaApi.NormaliseDefault | api/Koha_REST_API_Client.py:79-84 | an int default is kept, anything else becomes `int(default)`, or -1 when that raises |
| KohaApi.ValidateInt | api/Koha_REST_API_Client.py:76-89 | the result is the value of the validated digits when they are non-empty, and the normalised default otherwise |
| KohaApi.ValidateIntRoundTrip | api/Koha_REST_API_Client.py:76-89 | every non-negative integer comes back, given as an int or as its text |
| KohaApi.ValidateIntNegative | api/Koha_REST_API_Client.py:76-89 | a negative integer or its text falls back to the default |
| KohaApi.NormaliseDefaultOfText | api/Koha_REST_API_Client.py:80-84 | a default given as the text of an integer becomes that integer |
| KohaApi.NormaliseDefaultPadded | api/Koha_REST_API_Client.py:80-84 | the text of an integer surrounded by whitespace other than U+001C..U+001F still becomes that integer |
| KohaApi.NormaliseDefaultRejectsSeparator | api/Koha_REST_API_Client.py:80-84 | a default text that begins or ends with one of U+001C..U+001F makes `int()` raise, so the default becomes -1 |
| KohaApi.FindMember | api/Koha_REST_API_Client.py:100-102 | the member found has the value sought, and no member has it when none is found |
| KohaApi.ValidateContentType | api/Koha_REST_API_Client.py:91-106 | a member passes through; a string gives the member with that value, or nothing; anything else gives RAW_MARC or nothing, according to `default` |
| KohaApi.ContentTypeRoundTrip | api/Koha_REST_API_Client.py:91-106 | every content type is found again from its value |
| KohaApi.ValidateRecordSchema | api/Koha_REST_API_Client.py:108-123 | the same rules for record schemas, with UNIMARC as the fallback |
| KohaApi.ValidateApiName | api/Koha_REST_API_Client.py:125-135 | only a member is accepted, because a string never equals an integer member value |
| KohaApi.PostableFormatAccepted | api/Koha_REST_API_Client.py:332-338 | the content-type check passes exactly for MARCXML, MARC-in-JSON or raw MARC, given as a member or by its value |
| KohaApi.PostBiblioCheck | api/Koha_REST_API_Client.py:325-351 | each error is returned exactly under its condition, checked in the code's order, and the call goes ahead exactly when all checks pass |
| OrderedDicts.AddIfAbsent | api/Koha_REST_API_Client.py:137-141 | a missing key is added last with the value; a present key and every other entry keep their values |
| OrderedDicts.Pop | prep_list.py:56 | popping a present key removes only that key; the others keep their values, and the key list closes the gap where the key stood |
| PyText.StripIdempotent | api/Koha_REST_API_Client.py:70 | stripping twice is stripping once |
| PyText.JoinThenSplitOn | main.py:27 | for a non-empty list whose parts do not contain the separator, splitting the joined list on the separator gives the list back |
| PyText.SplitOnThenJoin | main.py:27 | joining the pieces of a split with the separator gives the text back |
| PyText.SplitOnConcat | main.py:27 | splitting two texts joined by the separator gives the pieces of the first followed by the pieces of the second |
| PyText.JoinThenWords | prep_list.py:19 | splitting space-joined words on whitespace gives the words back |
| PyText.DigitsRoundTrip | api/Koha_REST_API_Client.py:89 | a digit string without a leading zero is the decimal text of its value |
| PyText.ParseIntOfIntToString | api/Koha_REST_API_Client.py:82 | `int(str(n)) == n` for every integer |
| PyText.ParseIntPadded | api/Koha_REST_API_Client.py:82 | `int()` reads a number the same way whatever whitespace other than U+001C..U+001F surrounds it |
| PyText.ParseIntRejectsSeparator | api/Koha_REST_API_Client.py:82 | `int()` raises on text that begins or ends with one of U+001C..U+001F, which `str.isspace` counts as whitespace |
| Seqs.FilterMapSpec | prep_list.py:52-57 | the filtered list is no longer than its input, and holds exactly the kept images of input elements |
| Seqs.FilterMapAppend | prep_list.py:52-57 | filtering a concatenation is filtering each part, in order |
| Seqs.FilterMapSingle | prep_list.py:55-57 | one element contributes its image when it is kept, and nothing otherwise |
| PrepList.CountIdsSpec | prep_list.py:23-28 | after counting a prefix of the ids, the dict holds exactly those ids, each with its number of occurrences, in first-occurrence order |
| PrepList.CountOneTotal | prep_list.py:25-28 | reading one more id, new or already counted, adds exactly one to the sum of the counts |
| PrepList.AnalyseIdsSpec | prep_list.py:23-28 | the dict holds each id of the row once, in first-occurrence order, with its number of occurrences; the counts add up to the number of ids |
| PrepList.ToDict | prep_list.py:30-44 | the output has the keys `biblinoumber` and `dupes`, in that order, with the row's biblionumber and its dupes text |
| PrepList.DupeItemsSpec | prep_list.py:36-43 | the dupes list has, in first-occurrence order, one item "id (count)" for each id that occurs at least twice |
| PrepList.DupesEmptyIff | prep_list.py:36-43 | the dupes text is empty exactly when no id repeats in the row |
| PrepList.SelectSpec | prep_list.py:52-57 | a row is written, as just its biblionumber, exactly when some authority id repeats in it |
| PrepList.SelectRowsSpec | prep_list.py:46-57 | the output has no more rows than the input, and holds exactly the biblionumbers of the rows with a repeated id |
| PrepList.SelectRowsAppend | prep_list.py:46-57 | the output for two runs of rows is the first run's output followed by the second's, so input order is kept |
| PrepList.SelectRowsOne | prep_list.py:52-57 | one input row gives one output row, just its biblionumber, when an id repeats in it, and no row otherwise |

## Left out

- HTTP and OAuth: the client's token handling and its GET/PUT/POST requests are not modelled. A fetched record is a parameter (`Batch.Fetched`), and the API's answer is one of its cases.
- Logging: `Logger`, `cl_log.py` and the `LOG` calls are not modelled. They only write messages.
- `func_file_check.py` is not part of this model. The file and folder existence checks it provides are I/O.
- File writing: the CSV and text report writers are not modelled. Their rows are modelled as values (`Dedupe.AuditEvent`, `ErrorTypes.OutcomeRow`).
- Environment settings: `.env` loading is not modelled. The settings are parameters.
- Early exits of `main.py` are not modelled: no tag kept, a missing input file or output folder, a failed connection to Koha. A missing `SUBJECTS_TAG` setting is also left out; `.split` raises on it.
- MARC parsing: pymarc's decoder, `as_marc` and the position `add_ordered_field` chooses are not modelled. A record is a sequence of fields, and only the per-tag view is promised.
- `field_as_string`, used only in report text, is not modelled.
- Unicode: digits other than 0-9 (which `\d` and `int()` accept) are not modelled. Whitespace for `str.strip()` and `str.split()` is the set `str.isspace` accepts. `int()` skips the same set except the four separators U+001C..U+001F, which make it raise.
- `Batch.ProcessRecord`: the `record is None` branch cannot be reached after pymarc's constructor. It is kept as the `Fetched.Empty` case rather than proved unreachable.
- `Batch.ProcessRecord`: the truth test of `record.get("001")` is modelled as "the record has a 001 field". A pymarc field with no data would be falsy but still present.
- The PUT answer of `update_biblio` only chooses between an error row and the updated-biblionumbers file. An `Update` outcome stands for both.
- `prep_list.py`: a CSV file whose header lacks the `biblionumber` or `subfield` column raises `KeyError`. A data row shorter than the header gets `None` for its missing cells from `csv.DictReader`: a missing `subfield` then raises `AttributeError` at `.split()`, and a missing `biblionumber` is carried on as `None`. The model takes both columns as present strings.
- `prep_list.py`: the `"dupes": []` placeholder is always overwritten before use and is not modelled.
- `prep_list.py`: the `no_dupes` list is never read and is not modelled.
- Python integers are unbounded, as Dafny's are, so no width is modelled.

## Findings

| source | as written | input that shows it | evidently intended | confidence | as-written member | corrected member |
|---|---|---|---|---|---|---|
| main.py:60-61 | `NO_BIBNB_IN_RECORD` and `FAILED_TO_PARSE_MARC` are both declared with value 21, so the second is an alias of the first | a record pymarc cannot parse: its errors-file row has `error_type` NO_BIBNB_IN_RECORD | a value of its own for FAILED_TO_PARSE_MARC, so that a parse failure is reported under its own name | high that rows are mislabelled; not executed | ErrorTypes.ParseFailureReportedAsNoBibnb | ErrorTypes.OutcomeRowsDistinguishOutcomes |
