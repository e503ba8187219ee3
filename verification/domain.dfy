/** The values that flow through candidate ingestion: raw spreadsheet cells,
    the record that is handed to persistence, and the rejection reasons. */
module Domain {
  import opened JsNumber

  /** One raw cell as the sheet reader yields it with `raw: true` and
      `defval: null`: text, a number, a boolean, or the empty-cell `null`. */
  datatype Cell = Str(s: string) | Num(n: Number) | Bool(b: bool) | Null

  /** `String(value)` for every cell that is not a number. Number-to-text
      conversion is not modelled: the only callers that would need it decide
      numbers before stringifying. */
  function Stringify(c: Cell): string
    requires !c.Num?
  {
    match c
    case Str(s) => s
    case Bool(b) => if b then "true" else "false"
    case Null => "null"
  }

  /** `String(value ?? '')`: like `Stringify`, but `null` becomes the empty string. */
  function StringifyOrEmpty(c: Cell): string
    requires !c.Num?
  {
    if c.Null? then "" else Stringify(c)
  }

  datatype Seniority = Junior | Senior {
    /** The lower-case word stored in the `seniority` column. */
    function Text(): string {
      if Junior? then "junior" else "senior"
    }
  }

  /** The `name` and `surname` form fields that accompany the upload. */
  datatype CandidateDto = CandidateDto(name: string, surname: string)

  /** The record given to `repo.create`: identity and timestamp are left to
      persistence. */
  datatype Candidate = Candidate(
    name: string,
    surname: string,
    seniority: Seniority,
    years: real,
    availability: bool)

  /** Why an upload is rejected; each maps to one `BadRequestException`. */
  datatype Error =
    | MissingFile
    | NoDataRows
    | MissingColumns
    | InvalidSeniority
    | InvalidYears
    | NegativeYears
    | InvalidAvailability(received: string)

  const AvailabilityPrefix: string :=
    "Availability must be boolean-like (true/false, yes/no, 1/0). Received: \""

  /** The exception message of each rejection. */
  function Message(e: Error): string {
    match e
    case MissingFile => "File is required"
    case NoDataRows => "No candidate data found in excel (no data rows)"
    case MissingColumns => "Missing required columns: seniority, years of experience, availability"
    case InvalidSeniority => "Seniority must be \"junior\" or \"senior\""
    case InvalidYears => "Years of experience must be a number"
    case NegativeYears => "Years of experience cannot be negative"
    case InvalidAvailability(v) => AvailabilityPrefix + v + "\""
  }

  /** The availability message quotes the offending value verbatim. */
  lemma AvailabilityMessageQuotes(v: string)
    ensures var m := Message(InvalidAvailability(v));
      |m| == |AvailabilityPrefix| + |v| + 1
      && m[|AvailabilityPrefix|..|AvailabilityPrefix| + |v|] == v
  {
  }

  /** The two fixed messages of equal length start differently. */
  lemma SeniorityAndNegativeDiffer()
    ensures Message(InvalidSeniority) != Message(NegativeYears)
  {
    assert Message(InvalidSeniority)[0] != Message(NegativeYears)[0];
  }

  lemma AvailabilityMessagesDiffer(v1: string, v2: string)
    requires v1 != v2
    ensures Message(InvalidAvailability(v1)) != Message(InvalidAvailability(v2))
  {
    AvailabilityMessageQuotes(v1);
    AvailabilityMessageQuotes(v2);
  }

  /** The lengths of the fixed messages. */
  lemma FixedMessageLengths()
    ensures |Message(MissingFile)| == 16
    ensures |Message(NoDataRows)| == 47
    ensures |Message(MissingColumns)| == 70
    ensures |Message(InvalidSeniority)| == 38
    ensures |Message(InvalidYears)| == 36
    ensures |Message(NegativeYears)| == 38
    ensures forall v :: |Message(InvalidAvailability(v))| == 73 + |v|
  {
    forall v ensures |Message(InvalidAvailability(v))| == 73 + |v| {
      AvailabilityMessageQuotes(v);
    }
  }

  /** The fixed messages differ in length except those for seniority and
      negative years. */
  lemma LengthsDiffer(e1: Error, e2: Error)
    requires e1 != e2
    requires !(e1.InvalidAvailability? && e2.InvalidAvailability?)
    requires !(e1 in {InvalidSeniority, NegativeYears} && e2 in {InvalidSeniority, NegativeYears})
    ensures |Message(e1)| != |Message(e2)|
  {
    FixedMessageLengths();
  }

  /** Different rejections read differently: a client can tell them apart,
      in particular a non-numeric from a negative number of years. */
  lemma MessagesDistinguish(e1: Error, e2: Error)
    requires e1 != e2
    ensures Message(e1) != Message(e2)
  {
    if e1.InvalidAvailability? && e2.InvalidAvailability? {
      AvailabilityMessagesDiffer(e1.received, e2.received);
    } else if e1 in {InvalidSeniority, NegativeYears} && e2 in {InvalidSeniority, NegativeYears} {
      SeniorityAndNegativeDiffer();
    } else {
      LengthsDiffer(e1, e2);
    }
  }
}
