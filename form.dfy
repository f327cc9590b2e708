/**
 * The search form: `isValidInput`, which checks the four text fields in a
 * fixed order and reports the first problem, and `submitForm`, which turns
 * accepted fields into a query with the limit capped at MAX_RESULT_LIMIT.
 */
module Form {
  import opened Wrappers
  import opened Feed
  import opened Text

  /** The raw text of the topic, limit, start-date and end-date fields. */
  datatype Fields = Fields(topic: string, limit: string, startDate: string, endDate: string)

  /** The problem each alert of the form reports. */
  datatype InputError =
    | MissingTopic
    | InvalidLimit
    | MissingEndDate
    | MissingStartDate
    | InvalidStartDate
    | InvalidEndDate
    | StartNotBeforeEnd

  /** `new Date(text).getTime()`; None where the browser gives "Invalid Date". */
  type DateParser = string -> Option<int>

  /**
   * The limit test as the form has it: blank, not a number to `Number`, or a
   * `parseInt` value of at most 0. A text that `Number` reads but `parseInt`
   * does not (".5", "Infinity") makes `parseInt` NaN, and `NaN <= 0` is false,
   * so that text is not rejected.
   */
  predicate LimitRejectedAsWritten(text: string) {
    var t := Trim(text);
    t == [] || NumberIsNaN(t) || (ParseInt(t).Some? && ParseInt(t).value <= 0)
  }

  /** The limit test with a NaN `parseInt` value rejected as well. */
  predicate LimitRejected(text: string) {
    var t := Trim(text);
    t == [] || NumberIsNaN(t) || ParseInt(t).None? || ParseInt(t).value <= 0
  }

  /** Both date fields blank, or both filled with dates that parse, the start strictly first. */
  predicate DatesAccepted(f: Fields, parse: DateParser) {
    (Blank(f.startDate) && Blank(f.endDate)) ||
    (!Blank(f.startDate) && !Blank(f.endDate) &&
     parse(Trim(f.startDate)).Some? && parse(Trim(f.endDate)).Some? &&
     parse(Trim(f.startDate)).value < parse(Trim(f.endDate)).value)
  }

  /**
   * The date checks, which apply once either date field is filled in: both
   * must be filled in (end date first), both must parse (start date first),
   * and the start must come strictly before the end.
   */
  function DateRangeError(f: Fields, parse: DateParser): (r: Option<InputError>)
    ensures r != Some(MissingTopic) && r != Some(InvalidLimit)
    ensures r.None? ==> (Blank(f.startDate) <==> Blank(f.endDate))
    ensures r.None? && !Blank(f.startDate) ==>
              parse(Trim(f.startDate)).Some? && parse(Trim(f.endDate)).Some? &&
              parse(Trim(f.startDate)).value < parse(Trim(f.endDate)).value
    ensures r.None? <==> DatesAccepted(f, parse)
  {
    if Blank(f.startDate) && Blank(f.endDate) then None
    else if Blank(f.endDate) then Some(MissingEndDate)
    else if Blank(f.startDate) then Some(MissingStartDate)
    else if parse(Trim(f.startDate)).None? then Some(InvalidStartDate)
    else if parse(Trim(f.endDate)).None? then Some(InvalidEndDate)
    else if parse(Trim(f.startDate)).value >= parse(Trim(f.endDate)).value then Some(StartNotBeforeEnd)
    else None
  }

  /** The corrected limit test rejects everything the one as written rejects. */
  lemma LimitTestsAgreeOnRejection(text: string)
    ensures LimitRejectedAsWritten(text) ==> LimitRejected(text)
  {
  }

  /**
   * `isValidInput` as written: None exactly when the topic is filled in, the
   * limit passes the as-written test and the dates are accepted. It accepts
   * every form the corrected check accepts, and a limit it rejects the
   * corrected check rejects too (LimitAsWrittenDiffers says where the two
   * part).
   */
  function ValidateAsWritten(f: Fields, parse: DateParser): (r: Option<InputError>)
    ensures Validate(f, parse).None? ==> r.None?
    ensures r == Some(MissingTopic) <==> Blank(f.topic)
    ensures r == Some(InvalidLimit) ==> Validate(f, parse) == Some(InvalidLimit)
    ensures r.None? <==> !Blank(f.topic) && !LimitRejectedAsWritten(f.limit) && DatesAccepted(f, parse)
  {
    LimitTestsAgreeOnRejection(f.limit);
    if Blank(f.topic) then Some(MissingTopic)
    else if LimitRejectedAsWritten(f.limit) then Some(InvalidLimit)
    else DateRangeError(f, parse)
  }

  /**
   * `isValidInput` with the limit test corrected: None when the form is
   * accepted, and then the limit is a positive integer and the date fields are
   * both blank or both hold dates in increasing order.
   */
  function Validate(f: Fields, parse: DateParser): (r: Option<InputError>)
    ensures r == Some(MissingTopic) <==> Blank(f.topic)
    ensures r.None? ==>
              !Blank(f.topic) &&
              ParseInt(Trim(f.limit)).Some? && ParseInt(Trim(f.limit)).value > 0 &&
              (Blank(f.startDate) <==> Blank(f.endDate)) &&
              (!Blank(f.startDate) ==>
                 parse(Trim(f.startDate)).Some? && parse(Trim(f.endDate)).Some? &&
                 parse(Trim(f.startDate)).value < parse(Trim(f.endDate)).value)
    ensures r.None? <==>
              !Blank(f.topic) && !NumberIsNaN(Trim(f.limit)) &&
              ParseInt(Trim(f.limit)).Some? && ParseInt(Trim(f.limit)).value > 0 &&
              DatesAccepted(f, parse)
  {
    if Blank(f.topic) then Some(MissingTopic)
    else if LimitRejected(f.limit) then Some(InvalidLimit)
    else DateRangeError(f, parse)
  }

  /** A blank date field becomes no date; a filled one the time it parses to. */
  function DateOf(text: string, parse: DateParser): Option<int> {
    if Blank(text) then None else parse(Trim(text))
  }

  /**
   * `submitForm`: a query from accepted fields, with the trimmed topic and the
   * limit capped at MAX_RESULT_LIMIT (`Math.min`); the first problem otherwise.
   */
  function Submit(f: Fields, parse: DateParser): (r: Result<Query, InputError>)
    ensures r.Failure? <==> Validate(f, parse).Some?
    ensures r.Failure? ==> r.error == Validate(f, parse).value
    ensures r.Success? ==> WellFormed(r.value) && r.value.topic == Trim(f.topic)
    ensures r.Success? ==>
              var n := ParseInt(Trim(f.limit)).value;
              r.value.limit == (if n <= MAX_RESULT_LIMIT then n else MAX_RESULT_LIMIT)
    ensures r.Success? ==>
              r.value.startDate == (if Blank(f.startDate) then None else parse(Trim(f.startDate))) &&
              r.value.endDate == (if Blank(f.endDate) then None else parse(Trim(f.endDate)))
  {
    match Validate(f, parse)
    case Some(e) => Failure(e)
    case None =>
      var n := ParseInt(Trim(f.limit)).value;
      Success(Query(Trim(f.topic), if n < MAX_RESULT_LIMIT then n else MAX_RESULT_LIMIT,
                    DateOf(f.startDate, parse), DateOf(f.endDate, parse)))
  }

  /** A plain decimal numeral of a positive number passes the corrected limit test. */
  lemma DecimalLimitAccepted(n: nat)
    requires n >= 1
    ensures !LimitRejected(Decimal(n))
    ensures ParseInt(Trim(Decimal(n))) == Some(n)
  {
    DecimalIsNumber(n);
    ParseIntDecimal(n);
    NumeralAccepted(Decimal(n), n);
  }

  /** A text with nothing to trim that both `Number` and `parseInt` read as a positive number passes. */
  lemma NumeralAccepted(s: string, n: int)
    requires Trim(s) == s && !NumberIsNaN(s) && ParseInt(s) == Some(n) && n >= 1
    ensures !LimitRejected(s) && ParseInt(Trim(s)) == Some(n)
  {
  }

  /**
   * A positive limit typed as a plain decimal numeral, with no dates, is
   * accepted and kept, up to the cap.
   */
  lemma SubmitDecimalLimit(topic: string, n: nat, parse: DateParser)
    requires !Blank(topic) && n >= 1
    ensures Submit(Fields(topic, Decimal(n), "", ""), parse) ==
            Success(Query(Trim(topic), if n < MAX_RESULT_LIMIT then n else MAX_RESULT_LIMIT, None, None))
  {
    var f := Fields(topic, Decimal(n), "", "");
    DecimalLimitAccepted(n);
    assert Blank("");
    assert DateRangeError(f, parse) == None;
    assert Validate(f, parse) == None;
    assert DateOf("", parse) == None;
  }

  /**
   * A point followed by one digit (".5") has nothing to trim, reads as a
   * decimal literal (a fraction alone), and holds no integer for `parseInt`.
   */
  lemma PointDigitText(t: string)
    requires |t| == 2 && t[0] == '.' && IsDigit(t[1])
    ensures Trim(t) == t && !NumberIsNaN(t) && ParseInt(t).None?
  {
    assert !IsSpace(t[0]) && !IsSpace(t[1]);
    TrimUnspaced(t);
    assert DigitRun(t) == 0;
    assert t[0..] == t;
    var u := t[1..];
    assert u[1..] == [];
    assert DigitRun(u) == 1;
    assert t[2..] == [];
    assert UnsignedDecimal(t);
  }

  /** ".5" is a number to `Number` and no integer to `parseInt`. */
  lemma FractionText(t: string)
    requires t == ".5"
    ensures t != [] && Trim(t) == t
    ensures !NumberIsNaN(t)
    ensures ParseInt(t).None?
  {
    assert |t| == 2 && t[0] == '.' && t[1] == '5';
    PointDigitText(t);
  }

  /**
   * The form as written and the corrected check part exactly on a filled-in
   * topic with a limit that `Number` reads but from which `parseInt` reads no
   * integer.
   */
  lemma LimitAsWrittenDiffers(f: Fields, parse: DateParser)
    ensures ValidateAsWritten(f, parse) != Validate(f, parse) <==>
            !Blank(f.topic) && Trim(f.limit) != [] && !NumberIsNaN(Trim(f.limit)) &&
            ParseInt(Trim(f.limit)).None?
  {
  }

  /**
   * A limit with nothing to trim that `Number` reads but `parseInt` does not:
   * the limit test as written passes it, the corrected one does not.
   */
  lemma NumberButNoInteger(t: string)
    requires t != [] && Trim(t) == t && !NumberIsNaN(t) && ParseInt(t).None?
    ensures !LimitRejectedAsWritten(t) && LimitRejected(t)
  {
  }

  /**
   * With that limit, a filled-in topic and no dates, the form as written is
   * accepted and the corrected check reports the limit.
   */
  lemma NumberButNoIntegerForm(f: Fields, parse: DateParser)
    requires !Blank(f.topic) && Blank(f.startDate) && Blank(f.endDate)
    requires f.limit != [] && Trim(f.limit) == f.limit && !NumberIsNaN(f.limit) && ParseInt(f.limit).None?
    ensures ValidateAsWritten(f, parse).None?
    ensures Validate(f, parse) == Some(InvalidLimit)
  {
    NumberButNoInteger(f.limit);
  }

  /**
   * The limit test as written lets ".5" through even though `parseInt` reads
   * no integer from it; the corrected test rejects it.
   */
  lemma FractionLimitAsWritten(topic: string, limit: string, parse: DateParser)
    requires !Blank(topic) && limit == ".5"
    ensures ValidateAsWritten(Fields(topic, limit, "", ""), parse).None?
    ensures ParseInt(limit).None?
    ensures Validate(Fields(topic, limit, "", ""), parse) == Some(InvalidLimit)
  {
    FractionText(limit);
    assert Blank("");
    NumberButNoIntegerForm(Fields(topic, limit, "", ""), parse);
  }
}
