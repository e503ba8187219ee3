# Candidate ingestion, modelled in Dafny

This project models the candidate ingestion of the Angular/NestJS candidate
application. On the backend, `CandidateService.processCandidate` turns an uploaded
spreadsheet plus the form's `name` and `surname` into a candidate record. Along
the way it resolves column labels (`normalizeKeys`), selects a data row and
coerces three fields (`toNumber`, `coerceBoolean`). Otherwise it rejects the
upload with the first failing check. On the frontend, `CandidateStore` keeps the
displayed list of candidates.

Modules, in dependency order:

- `Outcomes` (outcomes.dfy): `Option` and `Result`, with `:-` propagation.
- `JsText` (jstext.dfy): `String.prototype.trim`, the `\s` class and
  `toLowerCase`. It has the exact ECMAScript white-space set and lower-casing up
  to Latin-1.
- `JsNumber` (jsnumber.dfy): `Number(s)`. This is the StringToNumber conversion of
  ECMA-262, section 7.1.4.1.1, evaluated over exact reals. It covers decimal
  literals with fraction and exponent, `Infinity`, the `0x`/`0o`/`0b` forms, signs,
  and blank text as 0.
- `Domain` (domain.dfy): raw cells (`Str`, `Num`, `Bool`, `Null`), the form DTO,
  the candidate record, the rejection kinds and their messages.
- `Labels` (labels.dfy): `normalizeKeys`. It covers label normalisation, the alias
  lists, the label index in which a later column overwrites an earlier one, and the
  alias lookup. The lookup is proved equal to a reference reading in which the
  first alias some column spells decides and the last such column wins.
- `Coercion` (coercion.dfy): the seniority check, `toNumber` plus the years checks,
  and `coerceBoolean`.
- `Ingestion` (ingestion.dfy): row selection in header mode and in the headerless
  fallback, the missing-column check, and the complete `processCandidate` up to
  persistence.
- `Scenarios` (scenarios.dfy): the service's test uploads and the null-cell quirks,
  stated as lemmas about the model. They hold for any header labels that normalise to
  the first alias of each field. `ServiceTestLabels` shows that the tests' header
  `Seniority`, `Years of experience`, `Availability` is such a header.
- `CandidateStore` (store.dfy): the frontend list store as a state machine over a
  sequence (`setAll`, `add`, `clear`), with runs of actions.

A thrown `BadRequestException` is an `Err` of the `Error` datatype. A missing
upload is `None`. The sheet reader's output comes in as two inputs: the
header-keyed records, and the positional grid that includes the header row.

## Model

| member | source | states |
|---|---|---|
| Ingestion.ProcessCandidate | backend/src/candidate/candidate.service.ts:46-136 | A missing file is rejected with "File is required" before anything else. An accepted candidate carries the form's name and surname unchanged and a non-negative number of years. |
| Ingestion.Validate | backend/src/candidate/candidate.service.ts:104-133 | Missing columns are reported exactly when a field was never resolved. Each later rejection (seniority, years, availability) occurs exactly when every earlier check passed and its own check fails. The error reported is then the failing coercer's own: invalid years versus negative years as the number parser decides, and the invalid-availability error carrying the cell's text. Success happens exactly when all three coercers accept, and the record then holds their values and the form's names. |
| Ingestion.SelectFields | backend/src/candidate/candidate.service.ts:65-102 | Selection can only fail with "no data rows". It fails exactly when there are no header-keyed records and no grid row after the first has three filled cells. A headerless selection always resolves all three fields. |
| Ingestion.FindDefined | backend/src/candidate/candidate.service.ts:69-75 | Finds the first normalised record that resolves some field. None is returned exactly when no record does. |
| Ingestion.FindDataRow | backend/src/candidate/candidate.service.ts:89-96 | Finds the first row at or after the start position with at least three filled cells. None is returned exactly when there is no such row. |
| Ingestion.KeyedChoiceIsFirstDefined | backend/src/candidate/candidate.service.ts:67-79 | In header mode the fields come from the first record that resolves any field, whatever the later records hold. |
| Ingestion.KeyedChoiceWhenNoneDefined | backend/src/candidate/candidate.service.ts:69-75 | When no record resolves a field, the first record is used and none of its fields are defined. |
| Ingestion.HeaderlessIsPositional | backend/src/candidate/candidate.service.ts:80-101 | Without header-keyed records, the first filled row after row 0 supplies seniority, years and availability from its cells 0, 1 and 2. |
| Ingestion.HeaderRowIgnored | backend/src/candidate/candidate.service.ts:89-90 | In headerless mode, replacing the first grid row never changes the outcome. |
| Ingestion.GridIgnoredWithRecords | backend/src/candidate/candidate.service.ts:67-80 | When there are header-keyed records, the positional grid never changes the outcome. |
| Ingestion.NoAliasMeansMissingColumns | backend/src/candidate/candidate.service.ts:67-79 | If no column label of any record normalises to an alias, the upload is rejected for missing columns. |
| Ingestion.ErrorPrecedence | backend/src/candidate/candidate.service.ts:98-124 | For a present file: no data rows, missing columns, seniority, years and availability are tried in that order. Each rejection is reported exactly when all earlier stages passed and its own stage fails. A years or availability rejection is exactly the error that field's coercer returned for the selected cell. |
| Ingestion.SuccessCarriesCoercedValues | backend/src/candidate/candidate.service.ts:111-133 | A candidate is produced exactly when every stage passes. It carries the form's names and the three coerced values. |
| Ingestion.SingleRecordDecides | backend/src/candidate/candidate.service.ts:67-79 | A single header-keyed record that resolves some field decides the outcome by itself. |
| Ingestion.Normalized | backend/src/candidate/candidate.service.ts:68 | One entry per record, in sheet order, and each entry is that record's key-normalised fields. |
| Ingestion.KeyedChoice | backend/src/candidate/candidate.service.ts:67-79 | No contract of its own. `Ingestion.KeyedChoiceIsFirstDefined` and `Ingestion.KeyedChoiceWhenNoneDefined` pin it down: the first record that resolves some field, or else the first record. |
| Ingestion.IsFilled | backend/src/candidate/candidate.service.ts:94 | No contract of its own. A cell is filled unless it is `null` or text that is blank after trimming. `Scenarios.ThreeFilled` uses it. |
| Ingestion.FilledCount | backend/src/candidate/candidate.service.ts:94-95 | Counts filled cells and never exceeds the row length. `Scenarios.ThreeFilled` shows a row of three filled cells counts three. |
| Ingestion.FirstDataRow | backend/src/candidate/candidate.service.ts:89-96 | No contract of its own. It is `Ingestion.FindDataRow` from position 1, so the header row is skipped, as `Ingestion.HeaderRowIgnored` states. |
| Ingestion.HeaderlessFallbackRejects | backend/src/candidate/candidate.service.ts:80-100 | If no header-keyed records means a grid of at most the header row, the fallback can only reject with "no data rows". |
| Labels.StripSeparators | backend/src/candidate/candidate.service.ts:156 | The result contains no white space, `.`, `_` or `-`, and is no longer than the input. |
| Labels.NormalizeLabel | backend/src/candidate/candidate.service.ts:155-156 | No contract of its own. `Labels.NormalizeIsStripLower` shows it is the lower-cased label with every separator deleted, and `Labels.NormalizedIsClean` that the result holds no capital and no separator. |
| Labels.NormalizedIsClean | backend/src/candidate/candidate.service.ts:155-156 | A normalised label contains no capital letter and no white space, `.`, `_` or `-`. |
| Labels.StripAppend | backend/src/candidate/candidate.service.ts:156 | Deleting separator runs works piecewise: stripping a concatenation is concatenating the stripped pieces. |
| Labels.NormalizeIsStripLower | backend/src/candidate/candidate.service.ts:155-156 | Trimming adds nothing to separator removal: a label normalises to its lower-cased form with all separators deleted. |
| Labels.NormalizeIgnoresSeparator | backend/src/candidate/candidate.service.ts:156 | Inserting a separator anywhere in a label leaves its normal form unchanged. |
| Labels.NormalizeIgnoresCase | backend/src/candidate/candidate.service.ts:156 | Lower-casing a label first leaves its normal form unchanged. |
| Labels.NormalizeIdempotent | backend/src/candidate/candidate.service.ts:155-156 | Normalising twice is normalising once. |
| Labels.CleanIsNormal | backend/src/candidate/candidate.service.ts:155-156 | A label with no capitals and no separators is its own normal form. |
| Labels.AliasesAreNormal | backend/src/candidate/candidate.service.ts:168-178 | Every alias is in normal form, so a header spelled exactly as an alias reaches it. |
| Labels.AliasesDisjoint | backend/src/candidate/candidate.service.ts:168-178 | No alias belongs to two fields. |
| Labels.BuildIndexKeepsLast | backend/src/candidate/candidate.service.ts:157-160 | The label index knows a normalised key exactly when some column spells it. It then names the last such column, so a later column overwrites an earlier one. |
| Labels.LabelIndex | backend/src/candidate/candidate.service.ts:157-160 | No contract of its own. It is `Labels.BuildIndex` over the normalised labels; `Labels.BuildIndexKeepsLast` states what it holds. |
| Labels.BuildIndex | backend/src/candidate/candidate.service.ts:158-160 | No contract of its own. `Labels.BuildIndexKeepsLast` shows a key is present exactly when some column spells it, and then names the last such column. |
| Labels.Keys | backend/src/candidate/candidate.service.ts:158-159 | One normalised label per column of the record, in column order. |
| Labels.Get | backend/src/candidate/candidate.service.ts:163 | No contract of its own. `Labels.GetFindsColumn` shows that a column's own label yields that column's cell. |
| Labels.GetFindsColumn | backend/src/candidate/candidate.service.ts:163 | Looking a column's own label up in the row yields that column's cell. |
| Labels.PickFrom | backend/src/candidate/candidate.service.ts:161-166 | The reference lookup finds nothing exactly when no column label normalises to any of the aliases. |
| Labels.PickIsReference | backend/src/candidate/candidate.service.ts:157-166 | `pick` through the label index equals the reference lookup. The first alias some column spells decides, and the last such column supplies the value. |
| Labels.Pick | backend/src/candidate/candidate.service.ts:161-166 | No contract of its own. `Labels.PickIsReference` equates it with the reference lookup `Labels.PickFrom`. |
| Labels.PickSoleColumn | backend/src/candidate/candidate.service.ts:161-166 | When exactly one column's label normalises into an alias list, that column's cell is picked. |
| Labels.NormalizeKeysResolves | backend/src/candidate/candidate.service.ts:150-180 | Each of the three fields is the reference lookup over that field's aliases. |
| Labels.NormalizeKeys | backend/src/candidate/candidate.service.ts:150-180 | No contract of its own. `Labels.NormalizeKeysResolves` shows each field is the reference lookup over its aliases. |
| Labels.SoleAliasColumns | backend/src/candidate/candidate.service.ts:150-180 | When one distinct column per field carries an alias of that field, each field resolves to that column's cell. |
| Labels.ThreeAliasColumns | backend/src/candidate/candidate.service.ts:150-180 | Three columns labelled with a seniority alias, a years alias and an availability alias feed those fields in that order. |
| Labels.NormalizeToWord | backend/src/candidate/candidate.service.ts:155-156 | A label whose lower-cased form is a plain word normalises to that word. |
| Coercion.CoerceSeniority | backend/src/candidate/candidate.service.ts:111-114 | Accepted exactly for text whose trimmed, lower-cased form is `junior` or `senior`, and the stored value is that word. Anything else, including numbers, booleans and empty cells, is rejected with the seniority error. |
| Coercion.SeniorityWord | backend/src/candidate/candidate.service.ts:111 | No contract of its own. It is the trimmed, lower-cased text of a non-number cell; `Coercion.CoerceSeniority` states how it is judged. |
| Coercion.SeniorityByWord | backend/src/candidate/candidate.service.ts:111-114 | Two texts with the same trimmed, lower-cased word get the same verdict. |
| Coercion.SeniorityIgnoresPadding | backend/src/candidate/candidate.service.ts:111 | Surrounding white space never changes the seniority verdict. |
| Coercion.SeniorityIgnoresCase | backend/src/candidate/candidate.service.ts:111 | Letter case never changes the seniority verdict. |
| Coercion.SeniorityOfWord | backend/src/candidate/candidate.service.ts:111-114 | Text whose word is a seniority's name is accepted as that seniority. |
| Coercion.SeniorityOfOther | backend/src/candidate/candidate.service.ts:112-114 | Text whose word is anything else is rejected. |
| Coercion.ReplaceCommaAfter | backend/src/candidate/candidate.service.ts:191 | Only the first comma becomes a point. |
| Coercion.ReplaceFirstComma | backend/src/candidate/candidate.service.ts:191 | Keeps the length. `Coercion.ReplaceCommaAfter` and `Coercion.ReplaceNoComma` state what it changes. |
| Coercion.ReplaceNoComma | backend/src/candidate/candidate.service.ts:191 | Text without a comma is left unchanged. |
| Coercion.ToNumber | backend/src/candidate/candidate.service.ts:189-193 | A number cell is taken as it is, and an empty cell reads as 0. |
| Coercion.ToNumberWithoutComma | backend/src/candidate/candidate.service.ts:189-192 | On text without a comma, `toNumber` gives exactly what `Number()` gives on the same text: the comma rewrite is its only addition, because `Number()` trims as well. |
| Coercion.CoerceYears | backend/src/candidate/candidate.service.ts:116-122 | Accepted exactly when the number is finite and not negative, and then it is that number. A non-finite number gets the "must be a number" rejection. A finite negative number gets the distinct "cannot be negative" rejection. There is no upper bound. |
| Coercion.YearsOfNull | backend/src/candidate/candidate.service.ts:191-192 | An empty cell counts as zero years. |
| Coercion.YearsOfBoolean | backend/src/candidate/candidate.service.ts:116-119 | A boolean cell is never a number of years. |
| Coercion.YearsOfDigitlessText | backend/src/candidate/candidate.service.ts:116-119 | Text with neither digits nor commas is rejected as not a number, except blank text, which is zero years. |
| Coercion.YearsDecimalComma | backend/src/candidate/candidate.service.ts:183-193 | `whole,fraction` is read as the decimal number `whole.fraction`. |
| Coercion.YearsWholeNumber | backend/src/candidate/candidate.service.ts:189-193 | The decimal numeral of a natural number is accepted as that many years. |
| Coercion.YearsNegativeNumeral | backend/src/candidate/candidate.service.ts:120-122 | A minus sign before a positive numeral gets the negative-years rejection, not the not-a-number one. |
| Coercion.VocabulariesDisjoint | backend/src/candidate/candidate.service.ts:209-211 | No word is both true and false, and the empty text is in neither list. |
| Coercion.ReadWord | backend/src/candidate/candidate.service.ts:209-211 | A word reads as true exactly when it is in the true list. It reads as false exactly when it is in the false list or empty. |
| Coercion.CoerceAvailability | backend/src/candidate/candidate.service.ts:204-216 | Booleans pass unchanged, and numbers read as "not zero". Empty cells are false. Text is true exactly for the true words and false exactly for the false words or blank, after trimming and lower-casing. Any other text is rejected, carrying the raw text. |
| Coercion.AvailabilityByWord | backend/src/candidate/candidate.service.ts:208-211 | Two texts with the same trimmed, lower-cased word read the same. |
| Coercion.AvailabilityIgnoresPadding | backend/src/candidate/candidate.service.ts:208 | Surrounding white space never changes how availability text reads. |
| Coercion.AvailabilityIgnoresCase | backend/src/candidate/candidate.service.ts:208 | Letter case never changes how availability text reads. |
| Coercion.AvailabilityOfTrueWord | backend/src/candidate/candidate.service.ts:208-209 | Text whose word is a true word is available. |
| Coercion.AvailabilityOfFalseWord | backend/src/candidate/candidate.service.ts:208-211 | Text whose word is a false word, or blank, is not available. |
| Coercion.AvailabilityOfUnknownWord | backend/src/candidate/candidate.service.ts:208-215 | Any other text is rejected, and the rejection carries the text itself. |
| Domain.AvailabilityMessageQuotes | backend/src/candidate/candidate.service.ts:213-215 | The availability message quotes the offending value verbatim. |
| Domain.MessagesDistinguish | backend/src/candidate/candidate.service.ts:99-121 | Different rejections have different messages, so in particular non-numeric and negative years can be told apart. |
| Domain.Message | backend/src/candidate/candidate.service.ts:50-121 | No contract of its own. It holds the thrown messages; `Domain.MessagesDistinguish` shows no two rejections share one. |
| Domain.Stringify | backend/src/candidate/candidate.service.ts:111 | No contract of its own. It is `String(value)` of a non-number cell; `Coercion.CoerceSeniority` and `Coercion.StringifiedIsShort` show that `true`, `false` and `null` never pass as a seniority. |
| Domain.StringifyOrEmpty | backend/src/candidate/candidate.service.ts:191 | No contract of its own. It is `String(value ?? '')`; `Coercion.YearsOfNull` and `Coercion.CoerceAvailability` show an empty cell reads as blank text. |
| JsText.Trim | backend/src/candidate/candidate.service.ts:111 | The result has no white space at either end. It is empty exactly when the input is all white space. |
| JsText.TrimPadded | backend/src/candidate/candidate.service.ts:111 | Trimming ignores any white-space padding on either side. |
| JsText.TrimIdempotent | backend/src/candidate/candidate.service.ts:111 | Trimming twice is trimming once. |
| JsText.Lower | backend/src/candidate/candidate.service.ts:111 | Lower-casing keeps the length and lowers every character on its own. |
| JsText.LowerIdempotent | backend/src/candidate/candidate.service.ts:111 | Lower-casing leaves no capital behind, so lowering twice is lowering once. |
| JsText.LowerTrimCommute | backend/src/candidate/candidate.service.ts:111 | Lower-casing and trimming commute. |
| JsNumber.ParsePointed | backend/src/candidate/candidate.service.ts:192 | A decimal numeral with a point is read as its exact value. |
| JsNumber.ParseNatural | backend/src/candidate/candidate.service.ts:192 | The decimal numeral of a natural number is read as that number. |
| JsNumber.NoDigitNoValue | backend/src/candidate/candidate.service.ts:192 | Non-blank text without a decimal digit is never a finite number. |
| JsNumber.NegativeNeedsMinus | backend/src/candidate/candidate.service.ts:191-192 | Text can only be read as a negative number if its trimmed form starts with a minus sign. |
| JsNumber.ParseNumber | backend/src/candidate/candidate.service.ts:192 | No contract of its own. `JsNumber.ParsePointed`, `JsNumber.ParseNatural`, `JsNumber.NoDigitNoValue` and `JsNumber.NegativeNeedsMinus` pin down its values on the inputs the service cares about. |
| Scenarios.ServiceTestLabels | backend/src/candidate/candidate.service.spec.ts:34 | The tests' header `Seniority`, `Years of experience`, `Availability` normalises to the first alias of each field. |
| Scenarios.FieldRecordOutcome | backend/src/candidate/candidate.service.ts:67-79 | A single record under such labels is decided by its three cells. |
| Scenarios.HeaderedJuniorAccepted | backend/src/candidate/candidate.service.spec.ts:32-42 | A header plus `junior, 2, true` gives an available junior with two years, under the form's names. |
| Scenarios.HeaderedDecimalCommaAccepted | backend/src/candidate/candidate.service.spec.ts:44-53 | A header plus `senior, "2,5", "yes"` gives an available senior with 2.5 years. |
| Scenarios.HeaderedMidRejected | backend/src/candidate/candidate.service.spec.ts:59-67 | A header plus `mid, 3, true` is rejected for its seniority. |
| Scenarios.HeaderedNegativeYearsRejected | backend/src/candidate/candidate.service.ts:120-122 | A header plus `junior, -1, true` gets the negative-years rejection. |
| Scenarios.HeaderedMaybeRejected | backend/src/candidate/candidate.service.ts:208-215 | A header plus `junior, 2, "maybe"` gets the availability rejection carrying `maybe`. |
| Scenarios.HeaderedNullCellsAccepted | backend/src/candidate/candidate.service.ts:105-109 | Empty years and availability cells are present, not missing. They read as zero years and not available. |
| Scenarios.HeaderedNullSeniorityRejected | backend/src/candidate/candidate.service.ts:105-114 | An empty seniority cell passes the missing-column check and is then rejected as a seniority. |
| Scenarios.HeaderlessSeniorAccepted | backend/src/candidate/candidate.service.ts:80-101 | Without header-keyed records, the row `senior, 4, "no"` after the header row gives an unavailable senior with four years. |
| CandidateStore.Init | frontend/src/app/services/candidate.store.ts:6 | A fresh store holds no candidates. |
| CandidateStore.SetAll | frontend/src/app/services/candidate.store.ts:8-10 | The given list replaces the state exactly, and an absent list empties the store. |
| CandidateStore.Add | frontend/src/app/services/candidate.store.ts:12-14 | The new candidate comes first, and every earlier entry follows in its old order. |
| CandidateStore.Clear | frontend/src/app/services/candidate.store.ts:16-18 | Clearing returns to the initial store from any state. |
| CandidateStore.AddsPrependReversed | frontend/src/app/services/candidate.store.ts:12-14 | Successive adds end up in front, latest first (the reverse of the order added), followed by the earlier entries in order. |
| CandidateStore.LatestAddFirst | frontend/src/app/services/candidate.store.ts:12-14 | Adding `a` and then `b` to a fresh store lists `b, a`. |
| CandidateStore.AddThenClear | frontend/src/app/services/candidate.store.spec.ts:5-17 | Adding one candidate to a fresh store lists just that candidate, and clearing afterwards gives the initial store. |
| CandidateStore.ClearResets | frontend/src/app/services/candidate.store.ts:16-18 | After any sequence of actions, a final clear gives the initial store. |
| CandidateStore.ClearIdempotent | frontend/src/app/services/candidate.store.ts:16-18 | Clearing twice is clearing once. |
| CandidateStore.SetAllForgets | frontend/src/app/services/candidate.store.ts:8-10 | After `setAll`, the earlier state no longer matters. |
| CandidateStore.OnlyAddsGrow | frontend/src/app/services/candidate.store.ts:12-14 | A run of adds alone grows the list by one per add and keeps the old entries at its end. |

## Left out

- Reading the workbook (`XLSX.read`, first sheet, `sheet_to_json` in both modes): the header-keyed records and the positional grid are inputs to the model, and nothing ties one to the other. The reader's renaming of duplicate or empty header labels, and its dropping of blank rows, are not modelled. The service has no error of its own for a buffer that is not a spreadsheet, so the model has none either.
- Ingestion.SelectFields: the two views of the sheet are independent inputs, so the headerless fallback (`Ingestion.HeaderlessIsPositional`, `Scenarios.HeaderlessSeniorAccepted`) is proved for sheets the reader may never produce. Both views come from the same worksheet with `blankrows: false`. If header mode yields one record per non-blank row after the first, then no records leaves a grid of at most one row (`Ingestion.ReaderConsistent`). `Ingestion.HeaderlessFallbackRejects` shows that every such sheet is rejected with "no data rows". The fallback would then be unreachable, and a sheet without a header row would be read in header mode with its first data row as labels. The reader library is not part of this model, so the link is stated, not assumed.
- Persistence (`repo.create`, `repo.save`, `findAll` and its newest-first ordering): the model stops at the record handed to `repo.create`. The `int unsigned` column type of `years` is left out too, so 2.5 years stay 2.5 in the model.
- The HTTP controller, Nest module wiring, the DTO, the Angular components, resolver, routes and HTTP service: these are plumbing around the modelled logic.
- JsNumber.ParseNumber: numbers are exact reals, with no double rounding, overflow or underflow. NaN and both infinities are a single `NonFinite` value, and `-0` is `0`. So `JsNumber.ParsePointed`, `JsNumber.ParseNatural`, `Coercion.YearsWholeNumber` and `Coercion.YearsDecimalComma` give the exact decimal value. JavaScript gives that value only when it is a double: `0.1` and integers above 2^53 are rounded there. A literal such as `1e400` is finite in the model but `Infinity` in JavaScript, so the model accepts it and the service rejects it. `-1e-400` is negative in the model and gets the negative-years rejection, whereas JavaScript underflows it to `-0`, which `years < 0` lets through.
- Coercion.CoerceSeniority: `String(value)` of a number is not modelled. A number cell is rejected outright, as the service does in effect, since no JavaScript numeral prints as `junior` or `senior`.
- Ingestion.IsFilled: a number or boolean cell always counts as filled. This is because `String(n)` and `String(b)` are never blank, a fact that is assumed here rather than modelled.
- JsText.Lower: `toLowerCase` is modelled for ASCII and Latin-1 capitals only. Other scripts keep their case in the model.
- Property enumeration order: `Object.keys` lists integer-like keys first. Such labels normalise to digit strings, which never equal an alias, so the model keeps column order throughout.
- The scenarios with a header row are proved for every header whose labels normalise to `seniority`, `yearsofexperience` and `availability`, and `Scenarios.ServiceTestLabels` shows the tests' header is one of them.
- The store's Angular signal and change notification: the store is a plain value, and its entries are opaque.
- In header mode, the service resolves a field to the column whose normalised label is the first alias present and, on a label collision, to the last such column. This is the code's behaviour, and the model follows it.
