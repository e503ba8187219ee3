/** `processCandidate`: choose the row that carries the candidate's fields,
    then validate and coerce them in a fixed order, stopping at the first
    failure. */
module Ingestion {
  import opened Outcomes
  import opened JsText
  import opened Domain
  import opened Labels
  import opened Coercion

  /** The first worksheet as the sheet reader presents it, in its two views:
      the header-keyed records (one per non-blank row under the first row's
      labels) and the positional grid of every non-blank row, header included.
      How the two views arise from the workbook bytes is not part of this
      model, so they are independent inputs. */
  datatype Sheet = Sheet(records: seq<HeaderRow>, grid: seq<seq<Cell>>)

  /** Position of the first row that resolves any canonical field. */
  function FindDefined(fields: seq<RawFields>): (r: Option<nat>)
    ensures r.Some? ==> r.value < |fields| && fields[r.value].AnyDefined()
    ensures r.Some? ==> forall j :: 0 <= j < r.value ==> !fields[j].AnyDefined()
    ensures r.None? <==> forall j :: 0 <= j < |fields| ==> !fields[j].AnyDefined()
  {
    if |fields| == 0 then None
    else if fields[0].AnyDefined() then Some(0)
    else match FindDefined(fields[1..])
      case Some(i) => Some(i + 1)
      case None => None
  }

  /** Every record after key normalisation, in sheet order. */
  function Normalized(records: seq<HeaderRow>): (fields: seq<RawFields>)
    ensures |fields| == |records|
    ensures forall i :: 0 <= i < |records| ==> fields[i] == NormalizeKeys(records[i])
  {
    seq(|records|, i requires 0 <= i < |records| => NormalizeKeys(records[i]))
  }

  /** Header mode: the first normalised record with a canonical field,
      otherwise the first record. */
  function KeyedChoice(records: seq<HeaderRow>): RawFields
    requires |records| > 0
  {
    var fields := Normalized(records);
    match FindDefined(fields)
    case Some(i) => fields[i]
    case None => fields[0]
  }

  /** The blank-cell test of the fallback: neither `null` nor blank text.
      Numbers and booleans always print as non-empty text. */
  predicate IsFilled(c: Cell) {
    match c
    case Null => false
    case Str(s) => Trim(s) != []
    case Num(_) => true
    case Bool(_) => true
  }

  /** How many cells of a positional row are filled. */
  function FilledCount(row: seq<Cell>): (n: nat)
    ensures n <= |row|
  {
    if |row| == 0 then 0
    else (if IsFilled(row[0]) then 1 else 0) + FilledCount(row[1..])
  }

  /** The first grid row at or after `from` that has at least three filled cells. */
  function FindDataRow(grid: seq<seq<Cell>>, from: nat): (r: Option<nat>)
    ensures r.Some? ==> from <= r.value < |grid| && FilledCount(grid[r.value]) >= 3
    ensures r.Some? ==> forall j :: from <= j < r.value ==> FilledCount(grid[j]) < 3
    ensures r.None? <==> forall j :: from <= j < |grid| ==> FilledCount(grid[j]) < 3
    decreases |grid| - from
  {
    if from >= |grid| then None
    else if FilledCount(grid[from]) >= 3 then Some(from)
    else FindDataRow(grid, from + 1)
  }

  /** Headerless mode: the header row (row 0) is skipped. */
  function FirstDataRow(grid: seq<seq<Cell>>): Option<nat> {
    FindDataRow(grid, 1)
  }

  /** Steps 1 and 2 of `processCandidate`: the raw seniority, years and
      availability values, or the no-data-rows rejection. */
  function SelectFields(sheet: Sheet): (r: Result<RawFields, Error>)
    ensures r.Err? ==> r.error == NoDataRows
    ensures r.Err? <==>
      (|sheet.records| == 0 && forall j :: 1 <= j < |sheet.grid| ==> FilledCount(sheet.grid[j]) < 3)
    ensures |sheet.records| == 0 && r.Ok? ==> r.value.Complete()
  {
    if |sheet.records| > 0 then Ok(KeyedChoice(sheet.records))
    else match FirstDataRow(sheet.grid)
      case None => Err(NoDataRows)
      case Some(k) =>
        var row := sheet.grid[k];
        Ok(RawFields(Some(row[0]), Some(row[1]), Some(row[2])))
  }

  /** `processCandidate` up to, not including, persistence: either the record
      handed to `repo.create` or the first rejection. A missing upload is
      `None`. */
  function ProcessCandidate(body: CandidateDto, file: Option<Sheet>): (r: Result<Candidate, Error>)
    ensures file.None? ==> r == Err(MissingFile)
    ensures r.Ok? ==> r.value.name == body.name && r.value.surname == body.surname
    ensures r.Ok? ==> r.value.years >= 0.0
  {
    if file.None? then Err(MissingFile)
    else
      var raw :- SelectFields(file.value);
      Validate(body, raw)
  }

  /** Steps 3 and 4: the three fields must be present, then each is coerced,
      seniority first, availability last. */
  function Validate(body: CandidateDto, raw: RawFields): (r: Result<Candidate, Error>)
    ensures !raw.Complete() <==> r == Err(MissingColumns)
    ensures r == Err(InvalidSeniority) <==>
      raw.Complete() && CoerceSeniority(raw.seniority.value).Err?
    ensures r.Err? && (r.error == InvalidYears || r.error == NegativeYears) <==>
      raw.Complete() && CoerceSeniority(raw.seniority.value).Ok? && CoerceYears(raw.years.value).Err?
    ensures raw.Complete() && CoerceSeniority(raw.seniority.value).Ok? && CoerceYears(raw.years.value).Err? ==>
      r == Err(CoerceYears(raw.years.value).error)
    ensures r.Err? && r.error.InvalidAvailability? <==>
      raw.Complete() && CoerceSeniority(raw.seniority.value).Ok? && CoerceYears(raw.years.value).Ok?
      && CoerceAvailability(raw.availability.value).Err?
    ensures
      && raw.Complete() && CoerceSeniority(raw.seniority.value).Ok? && CoerceYears(raw.years.value).Ok?
      && CoerceAvailability(raw.availability.value).Err?
      ==> r == Err(CoerceAvailability(raw.availability.value).error)
    ensures r.Ok? <==>
      raw.Complete() && CoerceSeniority(raw.seniority.value).Ok? && CoerceYears(raw.years.value).Ok?
      && CoerceAvailability(raw.availability.value).Ok?
    ensures r.Ok? ==> r.value.name == body.name && r.value.surname == body.surname
    ensures r.Ok? && raw.Complete() ==>
      && r.value.seniority == CoerceSeniority(raw.seniority.value).value
      && r.value.years == CoerceYears(raw.years.value).value
      && r.value.availability == CoerceAvailability(raw.availability.value).value
    ensures r.Ok? ==> r.value.years >= 0.0
  {
    if !raw.Complete() then Err(MissingColumns)
    else
      var seniority :- CoerceSeniority(raw.seniority.value);
      var years :- CoerceYears(raw.years.value);
      var availability :- CoerceAvailability(raw.availability.value);
      Ok(Candidate(body.name, body.surname, seniority, years, availability))
  }

  /** Header mode picks the first record that resolves any canonical field. */
  lemma KeyedChoiceIsFirstDefined(records: seq<HeaderRow>, i: nat)
    requires i < |records| && NormalizeKeys(records[i]).AnyDefined()
    requires forall j :: 0 <= j < i ==> !NormalizeKeys(records[j]).AnyDefined()
    ensures KeyedChoice(records) == NormalizeKeys(records[i])
  {
    var fields := Normalized(records);
    FindDefinedAt(fields, i);
  }

  lemma FindDefinedAt(fields: seq<RawFields>, i: nat)
    requires i < |fields| && fields[i].AnyDefined()
    requires forall j :: 0 <= j < i ==> !fields[j].AnyDefined()
    ensures FindDefined(fields) == Some(i)
  {
  }

  /** Header mode with no record resolving a field falls back to the first
      record, whose fields are then all absent. */
  lemma KeyedChoiceWhenNoneDefined(records: seq<HeaderRow>)
    requires |records| > 0
    requires forall j :: 0 <= j < |records| ==> !NormalizeKeys(records[j]).AnyDefined()
    ensures KeyedChoice(records) == NormalizeKeys(records[0])
    ensures !KeyedChoice(records).AnyDefined()
  {
    var fields := Normalized(records);
    assert forall j :: 0 <= j < |fields| ==> !fields[j].AnyDefined();
  }

  /** Headerless mode assigns the first three cells of the first data row,
      in order, to seniority, years and availability. */
  lemma HeaderlessIsPositional(sheet: Sheet, k: nat)
    requires |sheet.records| == 0
    requires 1 <= k < |sheet.grid| && FilledCount(sheet.grid[k]) >= 3
    requires forall j :: 1 <= j < k ==> FilledCount(sheet.grid[j]) < 3
    ensures |sheet.grid[k]| >= 3
    ensures SelectFields(sheet)
      == Ok(RawFields(Some(sheet.grid[k][0]), Some(sheet.grid[k][1]), Some(sheet.grid[k][2])))
  {
    var r := FirstDataRow(sheet.grid);
    assert r.Some?;
  }

  /** A link between the two views that the sheet reader plausibly keeps but
      this model does not assume: header mode gives one record per non-blank
      row after the first, so no records leaves at most the header row in the
      grid. */
  predicate ReaderConsistent(sheet: Sheet) {
    |sheet.records| == 0 ==> |sheet.grid| <= 1
  }

  /** If the views are linked that way, the headerless fallback can only
      reject the upload: no sheet reaches its positional reading. */
  lemma HeaderlessFallbackRejects(body: CandidateDto, sheet: Sheet)
    requires ReaderConsistent(sheet) && |sheet.records| == 0
    ensures ProcessCandidate(body, Some(sheet)) == Err(NoDataRows)
  {
    assert SelectFields(sheet).Err?;
  }

  /** Headerless mode never reads the first grid row. */
  lemma HeaderRowIgnored(body: CandidateDto, h1: seq<Cell>, h2: seq<Cell>, rest: seq<seq<Cell>>)
    ensures ProcessCandidate(body, Some(Sheet([], [h1] + rest)))
      == ProcessCandidate(body, Some(Sheet([], [h2] + rest)))
  {
    var g1 := [h1] + rest;
    var g2 := [h2] + rest;
    assert forall j :: 1 <= j < |g1| ==> g1[j] == g2[j];
    FindDataRowAgrees(g1, g2, 1);
  }

  lemma {:induction false} FindDataRowAgrees(g1: seq<seq<Cell>>, g2: seq<seq<Cell>>, from: nat)
    requires |g1| == |g2|
    requires forall j :: from <= j < |g1| ==> g1[j] == g2[j]
    ensures FindDataRow(g1, from) == FindDataRow(g2, from)
    decreases |g1| - from
  {
    if from < |g1| {
      FindDataRowAgrees(g1, g2, from + 1);
    }
  }

  /** Header mode never looks at the positional grid. */
  lemma GridIgnoredWithRecords(body: CandidateDto, records: seq<HeaderRow>, g1: seq<seq<Cell>>, g2: seq<seq<Cell>>)
    requires |records| > 0
    ensures ProcessCandidate(body, Some(Sheet(records, g1)))
      == ProcessCandidate(body, Some(Sheet(records, g2)))
  {
    SameSelectionSameOutcome(body, Sheet(records, g1), Sheet(records, g2));
  }

  /** Everything after row selection depends on the selected fields alone. */
  lemma SameSelectionSameOutcome(body: CandidateDto, s1: Sheet, s2: Sheet)
    requires SelectFields(s1) == SelectFields(s2)
    ensures ProcessCandidate(body, Some(s1)) == ProcessCandidate(body, Some(s2))
  {
  }

  /** When no column label of any record normalises to an alias, the upload
      is rejected for missing columns. */
  lemma NoAliasMeansMissingColumns(body: CandidateDto, sheet: Sheet)
    requires |sheet.records| > 0
    requires forall i, c :: 0 <= i < |sheet.records| && c in sheet.records[i] ==>
      NormalizeLabel(c.header) !in SeniorityAliases
      && NormalizeLabel(c.header) !in YearsAliases
      && NormalizeLabel(c.header) !in AvailabilityAliases
    ensures ProcessCandidate(body, Some(sheet)) == Err(MissingColumns)
  {
    var records := sheet.records;
    forall j | 0 <= j < |records|
      ensures !NormalizeKeys(records[j]).AnyDefined()
    {
      NothingResolves(records[j]);
    }
    KeyedChoiceWhenNoneDefined(records);
  }

  lemma NothingResolves(row: HeaderRow)
    requires forall c :: c in row ==>
      NormalizeLabel(c.header) !in SeniorityAliases
      && NormalizeLabel(c.header) !in YearsAliases
      && NormalizeLabel(c.header) !in AvailabilityAliases
    ensures !NormalizeKeys(row).AnyDefined()
  {
    NormalizeKeysResolves(row);
    NoColumnNoPick(row, SeniorityAliases);
    NoColumnNoPick(row, YearsAliases);
    NoColumnNoPick(row, AvailabilityAliases);
  }

  lemma NoColumnNoPick(row: HeaderRow, aliases: seq<string>)
    requires forall c :: c in row ==> NormalizeLabel(c.header) !in aliases
    ensures PickReference(row, aliases).None?
  {
    var keys := Keys(row);
    forall j | 0 <= j < |keys| ensures keys[j] !in aliases {
      assert row[j] in row;
    }
  }

  /** The stages run in a fixed order and the first failing one is reported:
      each rejection occurs exactly when every earlier stage has passed and
      its own stage fails. */
  lemma ErrorPrecedence(body: CandidateDto, sheet: Sheet)
    ensures var r := ProcessCandidate(body, Some(sheet));
      var sel := SelectFields(sheet);
      && (r == Err(NoDataRows) <==> sel.Err?)
      && (r == Err(MissingColumns) <==> sel.Ok? && !sel.value.Complete())
      && (r == Err(InvalidSeniority) <==>
            sel.Ok? && sel.value.Complete()
            && CoerceSeniority(sel.value.seniority.value).Err?)
      && (r.Err? && (r.error == InvalidYears || r.error == NegativeYears) <==>
            sel.Ok? && sel.value.Complete()
            && CoerceSeniority(sel.value.seniority.value).Ok?
            && CoerceYears(sel.value.years.value).Err?)
      && (r.Err? && r.error.InvalidAvailability? <==>
            sel.Ok? && sel.value.Complete()
            && CoerceSeniority(sel.value.seniority.value).Ok?
            && CoerceYears(sel.value.years.value).Ok?
            && CoerceAvailability(sel.value.availability.value).Err?)
      && (sel.Ok? && sel.value.Complete()
            && CoerceSeniority(sel.value.seniority.value).Ok?
            && CoerceYears(sel.value.years.value).Err? ==>
            r == Err(CoerceYears(sel.value.years.value).error))
      && (sel.Ok? && sel.value.Complete()
            && CoerceSeniority(sel.value.seniority.value).Ok?
            && CoerceYears(sel.value.years.value).Ok?
            && CoerceAvailability(sel.value.availability.value).Err? ==>
            r == Err(CoerceAvailability(sel.value.availability.value).error))
  {
  }

  /** A candidate comes out exactly when every stage passes, and it carries
      the form's name and surname with the three coerced values. */
  lemma SuccessCarriesCoercedValues(body: CandidateDto, sheet: Sheet)
    ensures var r := ProcessCandidate(body, Some(sheet));
      var sel := SelectFields(sheet);
      && (r.Ok? <==>
            sel.Ok? && sel.value.Complete()
            && CoerceSeniority(sel.value.seniority.value).Ok?
            && CoerceYears(sel.value.years.value).Ok?
            && CoerceAvailability(sel.value.availability.value).Ok?)
      && (r.Ok? ==>
            r.value == Candidate(body.name, body.surname,
              CoerceSeniority(sel.value.seniority.value).value,
              CoerceYears(sel.value.years.value).value,
              CoerceAvailability(sel.value.availability.value).value))
  {
  }

  /** With a single header-keyed record that resolves some field, that record
      alone decides the outcome. */
  lemma SingleRecordDecides(body: CandidateDto, row: HeaderRow, grid: seq<seq<Cell>>)
    requires NormalizeKeys(row).AnyDefined()
    ensures ProcessCandidate(body, Some(Sheet([row], grid))) == Validate(body, NormalizeKeys(row))
  {
    KeyedChoiceIsFirstDefined([row], 0);
  }

  /** When all three coercers accept, the candidate holds exactly their values. */
  lemma ValidateAccepts(body: CandidateDto, raw: RawFields, seniority: Seniority, years: real, availability: bool)
    requires raw.Complete()
    requires CoerceSeniority(raw.seniority.value) == Ok(seniority)
    requires CoerceYears(raw.years.value).Ok? && CoerceYears(raw.years.value).value == years
    requires CoerceAvailability(raw.availability.value) == Ok(availability)
    ensures Validate(body, raw) == Ok(Candidate(body.name, body.surname, seniority, years, availability))
  {
  }
}
