/** Concrete uploads, as in the candidate service's own test cases, stated
    as lemmas about the model. */
module Scenarios {
  import opened Outcomes
  import opened JsText
  import opened JsNumber
  import opened Domain
  import opened Labels
  import opened Coercion
  import opened Ingestion

  /** Labels that normalise to the first alias of each field, in the order
      the service tests use. */
  predicate FieldLabels(h1: string, h2: string, h3: string) {
    NormalizeLabel(h1) == "seniority"
    && NormalizeLabel(h2) == "yearsofexperience"
    && NormalizeLabel(h3) == "availability"
  }

  /** A header-keyed record of three columns. */
  function Record(h1: string, h2: string, h3: string, a: Cell, b: Cell, c: Cell): HeaderRow
    requires h1 != h2 && h1 != h3 && h2 != h3
  {
    [Column(h1, a), Column(h2, b), Column(h3, c)]
  }

  lemma SeniorityLabelLowered()
    ensures Lower("Seniority") == "seniority"
  {
  }

  lemma AvailabilityLabelLowered()
    ensures Lower("Availability") == "availability"
  {
  }

  lemma YearsLabelLowered()
    ensures Lower("Years of experience") == "years" + [' '] + ("of" + [' '] + "experience")
  {
  }

  lemma ExperienceIsWord()
    ensures forall i :: 0 <= i < |"experience"| ==> IsWordChar("experience"[i])
  {
  }

  lemma YearsLabelTailStripped()
    ensures StripSeparators("of" + [' '] + "experience") == "of" + "experience"
  {
    OfExperienceJoined();
    ExperienceStripped();
  }

  lemma OfExperienceJoined()
    ensures StripSeparators("of" + [' '] + "experience") == "of" + StripSeparators("experience")
  {
    StripSpaceJoin("of", "experience");
  }

  lemma ExperienceStripped()
    ensures StripSeparators("experience") == "experience"
  {
    ExperienceIsWord();
    StripWord("experience");
  }

  lemma YearsLabelStripped()
    ensures StripSeparators("years" + [' '] + ("of" + [' '] + "experience")) == "years" + ("of" + "experience")
  {
    StripSpaceJoin("years", "of" + [' '] + "experience");
    YearsLabelTailStripped();
  }

  lemma YearsWordsJoined()
    ensures "years" + ("of" + "experience") == "yearsofexperience"
  {
  }

  /** "Seniority" resolves to the first seniority alias. */
  lemma SeniorityLabelNormal()
    ensures NormalizeLabel("Seniority") == "seniority"
  {
    SeniorityLabelLowered();
    NormalizeToWord("Seniority", "seniority");
  }

  /** "Availability" resolves to the first availability alias. */
  lemma AvailabilityLabelNormal()
    ensures NormalizeLabel("Availability") == "availability"
  {
    AvailabilityLabelLowered();
    NormalizeToWord("Availability", "availability");
  }

  /** "Years of experience" loses its spaces and capital and resolves to the
      first years alias. */
  lemma YearsLabelNormal()
    ensures NormalizeLabel("Years of experience") == "yearsofexperience"
  {
    NormalizeIsStripLower("Years of experience");
    YearsLabelLowered();
    YearsLabelStripped();
    YearsWordsJoined();
  }

  /** The header of the service tests names the three fields. */
  lemma ServiceTestLabels()
    ensures FieldLabels("Seniority", "Years of experience", "Availability")
  {
    assert NormalizeLabel("Seniority") == "seniority" by {
      SeniorityLabelNormal();
    }
    assert NormalizeLabel("Years of experience") == "yearsofexperience" by {
      YearsLabelNormal();
    }
    assert NormalizeLabel("Availability") == "availability" by {
      AvailabilityLabelNormal();
    }
  }

  lemma FieldLabelsDistinct(h1: string, h2: string, h3: string)
    requires FieldLabels(h1, h2, h3)
    ensures h1 != h2 && h1 != h3 && h2 != h3
  {
    assert |NormalizeLabel(h1)| == 9 && |NormalizeLabel(h2)| == 17 && |NormalizeLabel(h3)| == 12;
  }

  lemma FieldLabelsAreAliases(h1: string, h2: string, h3: string)
    requires FieldLabels(h1, h2, h3)
    ensures NormalizeLabel(h1) in SeniorityAliases
    ensures NormalizeLabel(h2) in YearsAliases
    ensures NormalizeLabel(h3) in AvailabilityAliases
  {
    assert SeniorityAliases[0] == "seniority";
    assert YearsAliases[0] == "yearsofexperience";
    assert AvailabilityAliases[0] == "availability";
  }

  /** Under such labels each column feeds its own field. */
  lemma FieldLabelsResolve(h1: string, h2: string, h3: string, a: Cell, b: Cell, c: Cell)
    requires FieldLabels(h1, h2, h3)
    ensures h1 != h2 && h1 != h3 && h2 != h3
    ensures NormalizeKeys(Record(h1, h2, h3, a, b, c)) == RawFields(Some(a), Some(b), Some(c))
  {
    FieldLabelsDistinct(h1, h2, h3);
    FieldLabelsAreAliases(h1, h2, h3);
    AliasLabelsResolve(h1, h2, h3, a, b, c);
  }

  lemma AliasLabelsResolve(h1: string, h2: string, h3: string, a: Cell, b: Cell, c: Cell)
    requires h1 != h2 && h1 != h3 && h2 != h3
    requires NormalizeLabel(h1) in SeniorityAliases
    requires NormalizeLabel(h2) in YearsAliases
    requires NormalizeLabel(h3) in AvailabilityAliases
    ensures NormalizeKeys(Record(h1, h2, h3, a, b, c)) == RawFields(Some(a), Some(b), Some(c))
  {
    ThreeAliasColumns(Record(h1, h2, h3, a, b, c));
  }

  /** One such record decides the upload through its three cells. */
  lemma FieldRecordOutcome(name: string, surname: string, h1: string, h2: string, h3: string,
                           a: Cell, b: Cell, c: Cell, grid: seq<seq<Cell>>)
    requires FieldLabels(h1, h2, h3)
    ensures h1 != h2 && h1 != h3 && h2 != h3
    ensures ProcessCandidate(CandidateDto(name, surname), Some(Sheet([Record(h1, h2, h3, a, b, c)], grid)))
      == Validate(CandidateDto(name, surname), RawFields(Some(a), Some(b), Some(c)))
  {
    FieldLabelsResolve(h1, h2, h3, a, b, c);
    SingleRecordDecides(CandidateDto(name, surname), Record(h1, h2, h3, a, b, c), grid);
  }

  lemma JuniorAccepted()
    ensures CoerceSeniority(Str("junior")) == Ok(Junior)
  {
    PlainSeniority("junior", Junior);
  }

  /** The data row `junior, 2, true` passes every check. */
  lemma JuniorRowValid(body: CandidateDto)
    ensures Validate(body, RawFields(Some(Str("junior")), Some(Num(Finite(2.0))), Some(Bool(true))))
      == Ok(Candidate(body.name, body.surname, Junior, 2.0, true))
  {
    JuniorAccepted();
  }

  /** Header plus `junior, 2, true` is stored as an available junior with two
      years, under the form's name and surname. */
  lemma HeaderedJuniorAccepted(name: string, surname: string, h1: string, h2: string, h3: string,
                               grid: seq<seq<Cell>>)
    requires FieldLabels(h1, h2, h3)
    ensures h1 != h2 && h1 != h3 && h2 != h3
    ensures ProcessCandidate(CandidateDto(name, surname),
        Some(Sheet([Record(h1, h2, h3, Str("junior"), Num(Finite(2.0)), Bool(true))], grid)))
      == Ok(Candidate(name, surname, Junior, 2.0, true))
  {
    FieldRecordOutcome(name, surname, h1, h2, h3, Str("junior"), Num(Finite(2.0)), Bool(true), grid);
    JuniorRowValid(CandidateDto(name, surname));
  }

  /** Plain lower-case words, as the service tests write them, are judged
      by the word itself. */
  predicate PlainWord(w: string) {
    forall i :: 0 <= i < |w| ==> IsWordChar(w[i])
  }

  lemma PlainSeniority(w: string, v: Seniority)
    requires PlainWord(w) && w == v.Text()
    ensures CoerceSeniority(Str(w)) == Ok(v)
  {
    WordIsPlain(w);
    SeniorityOfWord(w, v);
  }

  lemma PlainOtherSeniority(w: string)
    requires PlainWord(w) && w != "junior" && w != "senior"
    ensures CoerceSeniority(Str(w)) == Err(InvalidSeniority)
  {
    WordIsPlain(w);
    SeniorityOfOther(w, w);
  }

  lemma PlainTrueWord(w: string)
    requires PlainWord(w) && w in TrueWords
    ensures CoerceAvailability(Str(w)) == Ok(true)
  {
    WordIsPlain(w);
    AvailabilityOfTrueWord(w);
  }

  lemma PlainFalseWord(w: string)
    requires PlainWord(w) && w in FalseWords
    ensures CoerceAvailability(Str(w)) == Ok(false)
  {
    WordIsPlain(w);
    AvailabilityOfFalseWord(w);
  }

  lemma PlainUnknownWord(w: string)
    requires PlainWord(w) && w !in TrueWords && w !in FalseWords && w != ""
    ensures CoerceAvailability(Str(w)) == Err(InvalidAvailability(w))
  {
    WordIsPlain(w);
    AvailabilityOfUnknownWord(w);
  }

  lemma SeniorAccepted()
    ensures CoerceSeniority(Str("senior")) == Ok(Senior)
    ensures IsFilled(Str("senior"))
  {
    PlainSeniority("senior", Senior);
    WordIsFilled("senior");
  }

  lemma MidRejected()
    ensures CoerceSeniority(Str("mid")) == Err(InvalidSeniority)
  {
    PlainOtherSeniority("mid");
  }

  lemma YesAccepted()
    ensures CoerceAvailability(Str("yes")) == Ok(true)
  {
    PlainTrueWord("yes");
  }

  lemma NoAccepted()
    ensures CoerceAvailability(Str("no")) == Ok(false)
    ensures IsFilled(Str("no"))
  {
    PlainFalseWord("no");
    WordIsFilled("no");
  }

  lemma MaybeRejected()
    ensures CoerceAvailability(Str("maybe")) == Err(InvalidAvailability("maybe"))
  {
    PlainUnknownWord("maybe");
  }

  lemma TwoPointFiveDigits()
    ensures AllDigitsIn("2", 10) && AllDigitsIn("5", 10)
    ensures DigitsValue("2", 10) as real + FractionValue("5") == 2.5
  {
    assert DigitsValue("2", 10) == 2;
    assert FractionValue("5") == 0.5;
  }

  /** `"2,5"` is two and a half years. */
  lemma TwoCommaFiveYears()
    ensures CoerceYears(Str("2,5")).Ok? && CoerceYears(Str("2,5")).value == 2.5
  {
    assert "2" + "," + "5" == "2,5";
    TwoPointFiveDigits();
    YearsDecimalComma("2", "5");
  }

  /** The data row `senior, "2,5", yes` passes every check. */
  lemma DecimalCommaRowValid(body: CandidateDto)
    ensures Validate(body, RawFields(Some(Str("senior")), Some(Str("2,5")), Some(Str("yes"))))
      == Ok(Candidate(body.name, body.surname, Senior, 2.5, true))
  {
    SeniorAccepted();
    TwoCommaFiveYears();
    YesAccepted();
    ValidateAccepts(body, RawFields(Some(Str("senior")), Some(Str("2,5")), Some(Str("yes"))), Senior, 2.5, true);
  }

  /** Header plus `senior, "2,5", yes`: the decimal comma gives 2.5 years and
      `yes` makes the candidate available. */
  lemma HeaderedDecimalCommaAccepted(name: string, surname: string, h1: string, h2: string, h3: string,
                                     grid: seq<seq<Cell>>)
    requires FieldLabels(h1, h2, h3)
    ensures h1 != h2 && h1 != h3 && h2 != h3
    ensures ProcessCandidate(CandidateDto(name, surname),
        Some(Sheet([Record(h1, h2, h3, Str("senior"), Str("2,5"), Str("yes"))], grid)))
      == Ok(Candidate(name, surname, Senior, 2.5, true))
  {
    FieldRecordOutcome(name, surname, h1, h2, h3, Str("senior"), Str("2,5"), Str("yes"), grid);
    DecimalCommaRowValid(CandidateDto(name, surname));
  }

  lemma MidRowRejected(body: CandidateDto)
    ensures Validate(body, RawFields(Some(Str("mid")), Some(Num(Finite(3.0))), Some(Bool(true))))
      == Err(InvalidSeniority)
  {
    MidRejected();
  }

  lemma NegativeRowRejected(body: CandidateDto)
    ensures Validate(body, RawFields(Some(Str("junior")), Some(Num(Finite(-1.0))), Some(Bool(true))))
      == Err(NegativeYears)
  {
    JuniorAccepted();
  }

  /** A junior with two years whose availability text is refused. */
  lemma UnknownAvailabilityRowRejected(body: CandidateDto, s: string, a: string)
    requires CoerceSeniority(Str(s)) == Ok(Junior)
    requires CoerceAvailability(Str(a)) == Err(InvalidAvailability(a))
    ensures Validate(body, RawFields(Some(Str(s)), Some(Num(Finite(2.0))), Some(Str(a))))
      == Err(InvalidAvailability(a))
  {
  }

  lemma NullCellsRowValid(body: CandidateDto)
    ensures Validate(body, RawFields(Some(Str("junior")), Some(Null), Some(Null)))
      == Ok(Candidate(body.name, body.surname, Junior, 0.0, false))
  {
    JuniorAccepted();
    YearsOfNull();
    ValidateAccepts(body, RawFields(Some(Str("junior")), Some(Null), Some(Null)), Junior, 0.0, false);
  }

  lemma NullSeniorityRowRejected(body: CandidateDto)
    ensures Validate(body, RawFields(Some(Null), Some(Num(Finite(2.0))), Some(Bool(true))))
      == Err(InvalidSeniority)
  {
  }

  /** Header plus `mid, 3, true` is refused for its seniority. */
  lemma HeaderedMidRejected(name: string, surname: string, h1: string, h2: string, h3: string,
                            grid: seq<seq<Cell>>)
    requires FieldLabels(h1, h2, h3)
    ensures h1 != h2 && h1 != h3 && h2 != h3
    ensures ProcessCandidate(CandidateDto(name, surname),
        Some(Sheet([Record(h1, h2, h3, Str("mid"), Num(Finite(3.0)), Bool(true))], grid)))
      == Err(InvalidSeniority)
  {
    FieldRecordOutcome(name, surname, h1, h2, h3, Str("mid"), Num(Finite(3.0)), Bool(true), grid);
    MidRowRejected(CandidateDto(name, surname));
  }

  /** A negative number of years is refused with its own reason. */
  lemma HeaderedNegativeYearsRejected(name: string, surname: string, h1: string, h2: string, h3: string,
                                      grid: seq<seq<Cell>>)
    requires FieldLabels(h1, h2, h3)
    ensures h1 != h2 && h1 != h3 && h2 != h3
    ensures ProcessCandidate(CandidateDto(name, surname),
        Some(Sheet([Record(h1, h2, h3, Str("junior"), Num(Finite(-1.0)), Bool(true))], grid)))
      == Err(NegativeYears)
  {
    FieldRecordOutcome(name, surname, h1, h2, h3, Str("junior"), Num(Finite(-1.0)), Bool(true), grid);
    NegativeRowRejected(CandidateDto(name, surname));
  }

  /** An availability word outside both vocabularies is refused, with the
      word itself in the error. */
  lemma HeaderedMaybeRejected(name: string, surname: string, h1: string, h2: string, h3: string,
                              grid: seq<seq<Cell>>)
    requires FieldLabels(h1, h2, h3)
    ensures h1 != h2 && h1 != h3 && h2 != h3
    ensures ProcessCandidate(CandidateDto(name, surname),
        Some(Sheet([Record(h1, h2, h3, Str("junior"), Num(Finite(2.0)), Str("maybe"))], grid)))
      == Err(InvalidAvailability("maybe"))
  {
    FieldRecordOutcome(name, surname, h1, h2, h3, Str("junior"), Num(Finite(2.0)), Str("maybe"), grid);
    JuniorAccepted();
    MaybeRejected();
    UnknownAvailabilityRowRejected(CandidateDto(name, surname), "junior", "maybe");
  }

  /** Empty years and availability cells are present, not missing: they read
      as zero years and not available. */
  lemma HeaderedNullCellsAccepted(name: string, surname: string, h1: string, h2: string, h3: string,
                                  grid: seq<seq<Cell>>)
    requires FieldLabels(h1, h2, h3)
    ensures h1 != h2 && h1 != h3 && h2 != h3
    ensures ProcessCandidate(CandidateDto(name, surname),
        Some(Sheet([Record(h1, h2, h3, Str("junior"), Null, Null)], grid)))
      == Ok(Candidate(name, surname, Junior, 0.0, false))
  {
    FieldRecordOutcome(name, surname, h1, h2, h3, Str("junior"), Null, Null, grid);
    NullCellsRowValid(CandidateDto(name, surname));
  }

  /** An empty seniority cell is present too, and reads as the text `null`,
      which is refused. */
  lemma HeaderedNullSeniorityRejected(name: string, surname: string, h1: string, h2: string, h3: string,
                                      grid: seq<seq<Cell>>)
    requires FieldLabels(h1, h2, h3)
    ensures h1 != h2 && h1 != h3 && h2 != h3
    ensures ProcessCandidate(CandidateDto(name, surname),
        Some(Sheet([Record(h1, h2, h3, Null, Num(Finite(2.0)), Bool(true))], grid)))
      == Err(InvalidSeniority)
  {
    FieldRecordOutcome(name, surname, h1, h2, h3, Null, Num(Finite(2.0)), Bool(true), grid);
    NullSeniorityRowRejected(CandidateDto(name, surname));
  }

  lemma FilledFirst(x: Cell, rest: seq<Cell>)
    ensures FilledCount([x] + rest) == (if IsFilled(x) then 1 else 0) + FilledCount(rest)
  {
    assert ([x] + rest)[1..] == rest;
  }

  lemma ThreeFilled(a: Cell, b: Cell, c: Cell)
    requires IsFilled(a) && IsFilled(b) && IsFilled(c)
    ensures FilledCount([a, b, c]) == 3
  {
    FilledFirst(c, []);
    FilledFirst(b, [c]);
    FilledFirst(a, [b, c]);
    assert [c] + [] == [c];
    assert [b] + [c] == [b, c];
    assert [a] + [b, c] == [a, b, c];
  }

  /** Plain words are filled cells. */
  lemma WordIsFilled(w: string)
    requires |w| > 0 && forall i :: 0 <= i < |w| ==> IsWordChar(w[i])
    ensures IsFilled(Str(w))
  {
    WordIsPlain(w);
  }

  lemma FourYearRowFilled(s: string, a: string)
    requires IsFilled(Str(s)) && IsFilled(Str(a))
    ensures FilledCount([Str(s), Num(Finite(4.0)), Str(a)]) == 3
  {
    ThreeFilled(Str(s), Num(Finite(4.0)), Str(a));
  }

  /** A senior with four years whose availability text reads as false. */
  lemma SeniorRowValid(body: CandidateDto, s: string, a: string)
    requires CoerceSeniority(Str(s)) == Ok(Senior)
    requires CoerceAvailability(Str(a)) == Ok(false)
    ensures Validate(body, RawFields(Some(Str(s)), Some(Num(Finite(4.0))), Some(Str(a))))
      == Ok(Candidate(body.name, body.surname, Senior, 4.0, false))
  {
  }

  /** A header-less sheet whose second row is filled is decided by that row. */
  lemma HeaderlessRowOutcome(body: CandidateDto, header: seq<Cell>, row: seq<Cell>)
    requires FilledCount(row) >= 3
    ensures |row| >= 3
    ensures ProcessCandidate(body, Some(Sheet([], [header, row])))
      == Validate(body, RawFields(Some(row[0]), Some(row[1]), Some(row[2])))
  {
    HeaderlessIsPositional(Sheet([], [header, row]), 1);
  }

  /** Without a header-keyed record the first row is skipped and the row
      `senior, 4, no` is read positionally. */
  lemma HeaderlessSeniorAccepted(name: string, surname: string, header: seq<Cell>)
    ensures ProcessCandidate(CandidateDto(name, surname),
        Some(Sheet([], [header, [Str("senior"), Num(Finite(4.0)), Str("no")]])))
      == Ok(Candidate(name, surname, Senior, 4.0, false))
  {
    var row := [Str("senior"), Num(Finite(4.0)), Str("no")];
    SeniorAccepted();
    NoAccepted();
    FourYearRowFilled("senior", "no");
    HeaderlessRowOutcome(CandidateDto(name, surname), header, row);
    assert Validate(CandidateDto(name, surname), RawFields(Some(row[0]), Some(row[1]), Some(row[2])))
      == Ok(Candidate(name, surname, Senior, 4.0, false)) by {
      SeniorRowValid(CandidateDto(name, surname), "senior", "no");
    }
  }
}
