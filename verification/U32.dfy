/** The u32 match: a two-state parser filling bounded arrays, and the dumper that prints them. */
module U32 {
  import opened Common
  import opened Numbers

  const MAXSIZE: nat := 10

  datatype Op = And | LeftShift | RightShift | At

  /** `number` with the operator that stands before it; the first number of a location has none,
      recorded as And. */
  datatype LocElem = LocElem(op: Op, number: uint32)
  datatype Range = Range(min: uint32, max: uint32)
  datatype Test = Test(loc: seq<LocElem>, values: seq<Range>)

  datatype Error =
    | AbruptEnd | NoValue | LocationMissing | ValueMissing
    | SecondLessExpected | SecondGreaterExpected | SecondAmpersandExpected
    | OperatorExpected | NumberExpected | NumberError | CommaExpected
    | TooManyTests | TooManyOperators | TooManyValues

  type Result<+T> = Common.Result<T, Error>

  predicate WellFormed(t: Test) {
    1 <= |t.loc| <= MAXSIZE && 1 <= |t.values| <= MAXSIZE && t.loc[0].op == And
  }

  predicate WellFormedTests(ts: seq<Test>) {
    1 <= |ts| <= MAXSIZE && forall i :: 0 <= i < |ts| ==> WellFormed(ts[i])
  }

  // ---------------------------------------------------------------------------
  // What the parsing loop computes, on the text not yet read.

  function ReadNumber(s: string): (r: Result<(uint32, string)>)
    ensures r.Ok? ==> |r.value.1| < |s|
  {
    match Strtoul(s)
    case NoNumber => Err(NumberExpected)
    case OutOfRange => Err(NumberError)
    case Number(n, rest) => Ok((n, rest))
  }

  function ReadOperator(s: string): (r: Result<(Op, string)>)
    requires s != []
    ensures r.Ok? ==> |r.value.1| < |s|
  {
    if s[0] == '&' then Ok((And, s[1..]))
    else if s[0] == '<' then if |s| > 1 && s[1] == '<' then Ok((LeftShift, s[2..])) else Err(SecondLessExpected)
    else if s[0] == '>' then if |s| > 1 && s[1] == '>' then Ok((RightShift, s[2..])) else Err(SecondGreaterExpected)
    else if s[0] == '@' then Ok((At, s[1..]))
    else Err(OperatorExpected)
  }

  /** One number of a location, after its operator unless it is the first. */
  function ReadLocElem(s: string, first: bool): (r: Result<(LocElem, string)>)
    requires s != []
    ensures r.Ok? ==> |r.value.1| < |s|
  {
    var op := if first then Ok((And, s)) else ReadOperator(s);
    if op.Err? then Err(op.error) else
    var num := ReadNumber(op.value.1);
    if num.Err? then Err(num.error) else
    Ok((LocElem(op.value.0, num.value.0), num.value.1))
  }

  /** `number` or `number : number`. */
  function ReadBounds(s: string): (r: Result<(Range, string)>)
    ensures r.Ok? ==> |r.value.1| < |s|
  {
    var low := ReadNumber(s);
    if low.Err? then Err(low.error) else
    var t := SkipSpace(low.value.1);
    if t != [] && t[0] == ':' then
      var high := ReadNumber(t[1..]);
      if high.Err? then Err(high.error) else Ok((Range(low.value.0, high.value.0), high.value.1))
    else
      Ok((Range(low.value.0, low.value.0), t))
  }

  /** One range, after its comma unless it is the first. */
  function ReadRange(s: string, first: bool): (r: Result<(Range, string)>)
    requires s != []
    ensures r.Ok? ==> |r.value.1| < |s|
  {
    if first then ReadBounds(s) else if s[0] == ',' then ReadBounds(s[1..]) else Err(CommaExpected)
  }

  /** The rest of the loop: `loc` and `values` are what the current test holds so far. */
  function ParseFrom(arg: string, inValues: bool, loc: seq<LocElem>, values: seq<Range>, done: seq<Test>): Result<seq<Test>>
    decreases |arg|
  {
    var a := SkipSpace(arg);
    if a == [] then
      if !inValues then Err(AbruptEnd)
      else if values == [] then Err(NoValue)
      else if |done| + 1 > MAXSIZE then Err(TooManyTests)
      else Ok(done + [Test(loc, values)])
    else if !inValues then
      if a[0] == '=' then
        if loc == [] then Err(LocationMissing) else ParseFrom(a[1..], true, loc, values, done)
      else
        var elem := ReadLocElem(a, loc == []);
        if elem.Err? then Err(elem.error)
        else if |loc| + 1 > MAXSIZE then Err(TooManyOperators)
        else ParseFrom(elem.value.1, false, loc + [elem.value.0], values, done)
    else if a[0] == '&' then
      if |a| == 1 || a[1] != '&' then Err(SecondAmpersandExpected)
      else if values == [] then Err(ValueMissing)
      else if |done| + 1 > MAXSIZE then Err(TooManyTests)
      else ParseFrom(a[2..], false, [], [], done + [Test(loc, values)])
    else
      var range := ReadRange(a, values == []);
      if range.Err? then Err(range.error)
      else if |values| + 1 > MAXSIZE then Err(TooManyValues)
      else ParseFrom(range.value.1, true, loc, values + [range.value.0], done)
  }

  function Parse(arg: string): Result<seq<Test>> {
    ParseFrom(arg, false, [], [], [])
  }

  // ---------------------------------------------------------------------------
  // The language the help text describes. Tests are joined by a double ampersand; a test is a
  // location, an equals sign and its values; a location is a number and then any operators with
  // a number each; values are numbers or pairs of numbers with a colon between, separated by
  // commas. White space may stand before every token. A sentence lists what follows what, from
  // left to right.

  datatype RangeText = Single(low: Numeral) | Span(low: Numeral, space: string, high: Numeral)

  /** What may follow a number of a location. */
  datatype AfterNumber =
    | MoreLocation(space: string, op: Op, num: Numeral, next: AfterNumber)
    | Equals(space: string, range: RangeText, tail: AfterRange)

  /** What may follow a range. */
  datatype AfterRange =
    | MoreValue(space: string, range: RangeText, tail: AfterRange)
    | MoreTests(space: string, num: Numeral, next: AfterNumber)
    | End(space: string)

  datatype Sentence = Sentence(num: Numeral, next: AfterNumber)

  function OpText(op: Op): string {
    match op
    case And => "&"
    case LeftShift => "<<"
    case RightShift => ">>"
    case At => "@"
  }

  predicate ValidRange(r: RangeText) {
    r.low.Valid() && (r.Span? ==> AllSpace(r.space) && r.high.Valid())
  }

  predicate ValidAfterNumber(n: AfterNumber) {
    AllSpace(n.space) &&
    match n
    case MoreLocation(_, _, num, next) => num.Valid() && ValidAfterNumber(next)
    case Equals(_, range, tail) => ValidRange(range) && ValidAfterRange(tail)
  }

  predicate ValidAfterRange(t: AfterRange) {
    AllSpace(t.space) &&
    match t
    case MoreValue(_, range, tail) => ValidRange(range) && ValidAfterRange(tail)
    case MoreTests(_, num, next) => num.Valid() && ValidAfterNumber(next)
    case End(_) => true
  }

  predicate ValidSentence(s: Sentence) {
    s.num.Valid() && ValidAfterNumber(s.next)
  }

  function RangeThen(r: RangeText, rest: string): string {
    match r
    case Single(low) => low.Then(rest)
    case Span(low, space, high) => low.Then(space + ([':'] + high.Then(rest)))
  }

  function TextAfterNumber(n: AfterNumber): string {
    match n
    case MoreLocation(space, op, num, next) => space + (OpText(op) + num.Then(TextAfterNumber(next)))
    case Equals(space, range, tail) => space + (['='] + RangeThen(range, TextAfterRange(tail)))
  }

  function TextAfterRange(t: AfterRange): string {
    match t
    case MoreValue(space, range, tail) => space + ([','] + RangeThen(range, TextAfterRange(tail)))
    case MoreTests(space, num, next) => space + ("&&" + num.Then(TextAfterNumber(next)))
    case End(space) => space
  }

  function Text(s: Sentence): string {
    s.num.Then(TextAfterNumber(s.next))
  }

  function RangeMeaning(r: RangeText): Range
    requires ValidRange(r)
  {
    Range(r.low.Value(), if r.Span? then r.high.Value() else r.low.Value())
  }

  function MeaningAfterNumber(n: AfterNumber, loc: seq<LocElem>): (ts: seq<Test>)
    requires ValidAfterNumber(n)
    ensures ts != [] && |ts[0].loc| >= |loc|
  {
    match n
    case MoreLocation(_, op, num, next) => MeaningAfterNumber(next, loc + [LocElem(op, num.Value())])
    case Equals(_, range, tail) => MeaningAfterRange(tail, loc, [RangeMeaning(range)])
  }

  function MeaningAfterRange(t: AfterRange, loc: seq<LocElem>, values: seq<Range>): (ts: seq<Test>)
    requires ValidAfterRange(t)
    ensures ts != [] && ts[0].loc == loc && |ts[0].values| >= |values|
  {
    match t
    case MoreValue(_, range, tail) => MeaningAfterRange(tail, loc, values + [RangeMeaning(range)])
    case MoreTests(_, num, next) => [Test(loc, values)] + MeaningAfterNumber(next, [LocElem(And, num.Value())])
    case End(_) => [Test(loc, values)]
  }

  /** The tests a sentence stands for. */
  function Meaning(s: Sentence): seq<Test>
    requires ValidSentence(s)
  {
    MeaningAfterNumber(s.next, [LocElem(And, s.num.Value())])
  }

  /** The size limits. */
  predicate Fits(ts: seq<Test>) {
    |ts| <= MAXSIZE && forall i :: 0 <= i < |ts| ==> |ts[i].loc| <= MAXSIZE && |ts[i].values| <= MAXSIZE
  }

  // ---------------------------------------------------------------------------
  // The parser reads every sentence, and only sentences.

  lemma DelimitedAfterNumber(n: AfterNumber)
    requires ValidAfterNumber(n)
    ensures Delimited(TextAfterNumber(n))
  {
    assert n.space != "" ==> IsSpace(n.space[0]);
  }

  lemma DelimitedAfterRange(t: AfterRange)
    requires ValidAfterRange(t)
    ensures Delimited(TextAfterRange(t))
  {
    assert t.space != "" ==> IsSpace(t.space[0]);
  }

  lemma ReadNumeral(n: Numeral, rest: string)
    requires n.Valid() && Delimited(rest)
    ensures ReadNumber(n.Then(rest)) == Ok((n.Value(), rest))
  {
    StrtoulNumeral(n, rest);
  }

  lemma ReadOpText(op: Op, rest: string)
    ensures OpText(op) + rest != [] && !IsSpace((OpText(op) + rest)[0]) && (OpText(op) + rest)[0] != '='
    ensures ReadOperator(OpText(op) + rest) == Ok((op, rest))
  {
    var s := OpText(op) + rest;
    assert s[0] == OpText(op)[0];
    if |OpText(op)| == 2 {
      assert s[1] == OpText(op)[1] && s[2..] == rest;
    } else {
      assert s[1..] == rest;
    }
  }

  lemma SkipTo(space: string, rest: string)
    requires AllSpace(space) && (rest == [] || !IsSpace(rest[0]))
    ensures SkipSpace(space + rest) == rest
  {
    SkipSpaceAppend(space, rest);
  }

  lemma {:induction false} SkipTwice(s: string)
    ensures SkipSpace(SkipSpace(s)) == SkipSpace(s)
  {
  }

  /** The parser skips white space before it looks. */
  lemma ParseSkips(arg: string, inValues: bool, loc: seq<LocElem>, values: seq<Range>, done: seq<Test>)
    ensures ParseFrom(SkipSpace(arg), inValues, loc, values, done) == ParseFrom(arg, inValues, loc, values, done)
  {
    SkipTwice(arg);
  }

  /** A numeral starts, after its white space, with a sign or a digit. */
  lemma NumeralHead(n: Numeral, rest: string)
    requires n.Valid()
    ensures var t := SkipSpace(n.Then(rest));
      t != [] && (t[0] == '+' || t[0] == '-' || DigitValue(t[0]) < 36)
  {
    hide ValueOf, AllDigits;
    FirstIsDigit(n, rest);
    var u := n.sign + (n.prefix + (n.digits + rest));
    assert u[0] == '+' || u[0] == '-' || DigitValue(u[0]) < 36;
    SkipSpaceAppend(n.space, u);
  }

  /** What may follow a range: neither a digit nor, after white space, a colon. */
  predicate EndsRange(rest: string) {
    Delimited(rest) && var t := SkipSpace(rest); t == [] || t[0] != ':'
  }

  lemma EndsRangeText(t: AfterRange)
    requires ValidAfterRange(t)
    ensures EndsRange(TextAfterRange(t))
  {
    DelimitedAfterRange(t);
    match t
    case MoreValue(space, range, tail) => SkipSpaceAppend(space, [','] + RangeThen(range, TextAfterRange(tail)));
    case MoreTests(space, num, next) => SkipSpaceAppend(space, "&&" + num.Then(TextAfterNumber(next)));
    case End(space) =>
      assert space + "" == space;
      SkipSpaceAppend(space, "");
  }

  /** What is left of `rest` when a range has been read. */
  function LeftOf(r: RangeText, rest: string): string {
    if r.Span? then rest else SkipSpace(rest)
  }

  lemma ReadBoundsText(r: RangeText, rest: string)
    requires ValidRange(r) && EndsRange(rest)
    ensures ReadBounds(RangeThen(r, rest)) == Ok((RangeMeaning(r), LeftOf(r, rest)))
  {
    hide Numeral.Valid, Numeral.Then, Numeral.Value, ReadNumber, SkipSpace;
    match r
    case Single(low) =>
      ReadNumeral(low, rest);
    case Span(low, space, high) =>
      var colon := [':'] + high.Then(rest);
      assert Delimited(space + colon) && colon[1..] == high.Then(rest) by {
        assert space != "" ==> IsSpace(space[0]);
      }
      ReadNumeral(low, space + colon);
      SkipTo(space, colon);
      ReadNumeral(high, rest);
      hide AllSpace, Delimited;
  }

  lemma ReadNumberSkips(s: string)
    ensures ReadNumber(SkipSpace(s)) == ReadNumber(s)
  {
    hide ScanUnsigned;
    SkipTwice(s);
  }

  lemma RangeHead(r: RangeText, rest: string)
    requires ValidRange(r)
    ensures var t := SkipSpace(RangeThen(r, rest));
      && t != [] && (t[0] == '+' || t[0] == '-' || DigitValue(t[0]) < 36)
      && ReadBounds(t) == ReadBounds(RangeThen(r, rest))
  {
    hide Numeral.Valid, Numeral.Then, ReadNumber;
    NumeralHead(r.low, if r.Span? then r.space + ([':'] + r.high.Then(rest)) else rest);
    ReadNumberSkips(RangeThen(r, rest));
    hide SkipSpace;
  }

  // One turn of the loop on each form of text.

  lemma StepLocation(space: string, op: Op, num: Numeral, rest: string, loc: seq<LocElem>, done: seq<Test>)
    requires AllSpace(space) && num.Valid() && Delimited(rest) && loc != []
    ensures ParseFrom(space + (OpText(op) + num.Then(rest)), false, loc, [], done)
         == if |loc| + 1 > MAXSIZE then Err(TooManyOperators)
            else ParseFrom(rest, false, loc + [LocElem(op, num.Value())], [], done)
  {
    hide Numeral.Valid, Numeral.Then, Numeral.Value;
    ReadOpText(op, num.Then(rest));
    SkipTo(space, OpText(op) + num.Then(rest));
    ReadNumeral(num, rest);
    hide ReadNumber, ReadOperator, OpText, SkipSpace;
  }

  lemma StepFirst(num: Numeral, rest: string, done: seq<Test>)
    requires num.Valid() && Delimited(rest)
    ensures ParseFrom(num.Then(rest), false, [], [], done)
         == ParseFrom(rest, false, [LocElem(And, num.Value())], [], done)
  {
    hide Numeral.Valid, Numeral.Then, Numeral.Value;
    NumeralHead(num, rest);
    ReadNumberSkips(num.Then(rest));
    ReadNumeral(num, rest);
    var elem := LocElem(And, num.Value());
    assert ReadLocElem(SkipSpace(num.Then(rest)), true) == Ok((elem, rest));
    assert [] + [elem] == [elem];
    hide ReadNumber, SkipSpace, ReadLocElem;
  }

  lemma StepEquals(space: string, range: RangeText, rest: string, loc: seq<LocElem>, done: seq<Test>)
    requires AllSpace(space) && ValidRange(range) && EndsRange(rest) && loc != []
    ensures ParseFrom(space + (['='] + RangeThen(range, rest)), false, loc, [], done)
         == ParseFrom(rest, true, loc, [RangeMeaning(range)], done)
  {
    hide ValidRange, RangeThen, ReadBounds, RangeMeaning;
    var t := RangeThen(range, rest);
    SkipTo(space, ['='] + t);
    assert (['='] + t)[1..] == t;
    ReadBoundsText(range, rest);
    RangeHead(range, rest);
    ParseSkips(rest, true, loc, [RangeMeaning(range)], done);
    assert ParseFrom(space + (['='] + t), false, loc, [], done) == ParseFrom(t, true, loc, [], done);
    assert [] + [RangeMeaning(range)] == [RangeMeaning(range)];
    hide SkipSpace;
  }

  lemma StepComma(space: string, range: RangeText, rest: string, loc: seq<LocElem>, values: seq<Range>, done: seq<Test>)
    requires AllSpace(space) && ValidRange(range) && EndsRange(rest) && values != []
    ensures ParseFrom(space + ([','] + RangeThen(range, rest)), true, loc, values, done)
         == if |values| + 1 > MAXSIZE then Err(TooManyValues)
            else ParseFrom(rest, true, loc, values + [RangeMeaning(range)], done)
  {
    hide ValidRange, RangeThen, ReadBounds, RangeMeaning;
    var t := RangeThen(range, rest);
    SkipTo(space, [','] + t);
    assert ([','] + t)[1..] == t;
    ReadBoundsText(range, rest);
    ParseSkips(rest, true, loc, values + [RangeMeaning(range)], done);
    hide SkipSpace;
  }

  lemma StepAnd(space: string, t: string, loc: seq<LocElem>, values: seq<Range>, done: seq<Test>)
    requires AllSpace(space) && values != []
    ensures ParseFrom(space + ("&&" + t), true, loc, values, done)
         == if |done| + 1 > MAXSIZE then Err(TooManyTests) else ParseFrom(t, false, [], [], done + [Test(loc, values)])
  {
    SkipTo(space, "&&" + t);
    assert ("&&" + t)[2..] == t;
    hide SkipSpace;
  }

  lemma StepEnd(space: string, loc: seq<LocElem>, values: seq<Range>, done: seq<Test>)
    requires AllSpace(space) && values != []
    ensures ParseFrom(space, true, loc, values, done)
         == if |done| + 1 > MAXSIZE then Err(TooManyTests) else Ok(done + [Test(loc, values)])
  {
    assert space + "" == space;
    SkipSpaceAppend(space, "");
  }

  lemma FitsCons(t: Test, ts: seq<Test>)
    ensures Fits([t] + ts) <==> |ts| + 1 <= MAXSIZE && |t.loc| <= MAXSIZE && |t.values| <= MAXSIZE && Fits(ts)
  {
    if Fits([t] + ts) {
      forall i | 0 <= i < |ts|
        ensures |ts[i].loc| <= MAXSIZE && |ts[i].values| <= MAXSIZE
      {
        assert ([t] + ts)[i + 1] == ts[i];
      }
      assert ([t] + ts)[0] == t;
    }
  }

  /** A location read to its end, then the rest of the sentence. */
  lemma {:induction false} ParseReadsNumber(n: AfterNumber, loc: seq<LocElem>, done: seq<Test>)
    requires ValidAfterNumber(n) && 1 <= |loc| <= MAXSIZE && |done| <= MAXSIZE
    ensures var ts := MeaningAfterNumber(n, loc);
      var r := ParseFrom(TextAfterNumber(n), false, loc, [], done);
      if Fits(ts) && |done| + |ts| <= MAXSIZE then r == Ok(done + ts) else r.Err?
    decreases n
  {
    hide ParseFrom, Numeral.Valid, Numeral.Then, Numeral.Value;
    match n
    case MoreLocation(space, op, num, next) =>
      DelimitedAfterNumber(next);
      StepLocation(space, op, num, TextAfterNumber(next), loc, done);
      if |loc| + 1 <= MAXSIZE {
        ParseReadsNumber(next, loc + [LocElem(op, num.Value())], done);
      }
    case Equals(space, range, tail) =>
      EndsRangeText(tail);
      StepEquals(space, range, TextAfterRange(tail), loc, done);
      ParseReadsRange(tail, loc, [RangeMeaning(range)], done);
  }

  lemma {:induction false} ParseReadsRange(t: AfterRange, loc: seq<LocElem>, values: seq<Range>, done: seq<Test>)
    requires ValidAfterRange(t) && 1 <= |loc| <= MAXSIZE && 1 <= |values| <= MAXSIZE && |done| <= MAXSIZE
    ensures var ts := MeaningAfterRange(t, loc, values);
      var r := ParseFrom(TextAfterRange(t), true, loc, values, done);
      if Fits(ts) && |done| + |ts| <= MAXSIZE then r == Ok(done + ts) else r.Err?
    decreases t
  {
    hide ParseFrom, Numeral.Valid, Numeral.Then, Numeral.Value;
    match t
    case MoreValue(space, range, tail) =>
      EndsRangeText(tail);
      StepComma(space, range, TextAfterRange(tail), loc, values, done);
      if |values| + 1 <= MAXSIZE {
        ParseReadsRange(tail, loc, values + [RangeMeaning(range)], done);
      }
    case MoreTests(space, num, next) =>
      var test, first := Test(loc, values), [LocElem(And, num.Value())];
      var more := MeaningAfterNumber(next, first);
      StepAnd(space, num.Then(TextAfterNumber(next)), loc, values, done);
      FitsCons(test, more);
      assert done + ([test] + more) == (done + [test]) + more;
      if |done| + 1 <= MAXSIZE {
        DelimitedAfterNumber(next);
        StepFirst(num, TextAfterNumber(next), done + [test]);
        ParseReadsNumber(next, first, done + [test]);
      }
    case End(space) =>
      StepEnd(space, loc, values, done);
  }

  /** Every sentence within the size limits is read as its meaning; a sentence beyond them is refused. */
  lemma ParseReadsSentence(s: Sentence)
    requires ValidSentence(s)
    ensures if Fits(Meaning(s)) then Parse(Text(s)) == Ok(Meaning(s)) else Parse(Text(s)).Err?
  {
    hide ParseFrom;
    DelimitedAfterNumber(s.next);
    StepFirst(s.num, TextAfterNumber(s.next), []);
    ParseReadsNumber(s.next, [LocElem(And, s.num.Value())], []);
    assert [] + Meaning(s) == Meaning(s);
    hide Fits, Numeral.Valid, Numeral.Then;
  }

  // ---------------------------------------------------------------------------
  // Whatever is accepted is a sentence.

  lemma PadNumeral(space: string, n: Numeral, rest: string) returns (m: Numeral)
    requires AllSpace(space) && n.Valid()
    ensures m.Valid() && m.Value() == n.Value() && m.Then(rest) == space + n.Then(rest)
  {
    hide ValueOf, AllDigits;
    m := n.(space := space + n.space);
    var tail := n.sign + (n.prefix + (n.digits + rest));
    assert (space + n.space) + tail == space + (n.space + tail);
  }

  lemma PadAfterRange(space: string, t: AfterRange, loc: seq<LocElem>, values: seq<Range>) returns (u: AfterRange)
    requires AllSpace(space) && ValidAfterRange(t)
    ensures ValidAfterRange(u) && TextAfterRange(u) == space + TextAfterRange(t)
    ensures MeaningAfterRange(u, loc, values) == MeaningAfterRange(t, loc, values)
  {
    hide ValidRange, Numeral.Valid, Numeral.Then, RangeThen;
    u := t.(space := space + t.space);
    match t
    case MoreValue(s, range, tail) =>
      var rest := [','] + RangeThen(range, TextAfterRange(tail));
      assert (space + s) + rest == space + (s + rest);
    case MoreTests(s, num, next) =>
      var rest := "&&" + num.Then(TextAfterNumber(next));
      assert (space + s) + rest == space + (s + rest);
    case End(s) =>
  }

  lemma ReadIsNumeral(s: string) returns (n: Numeral)
    requires ReadNumber(s).Ok?
    ensures n.Valid() && s == n.Then(ReadNumber(s).value.1) && n.Value() == ReadNumber(s).value.0
  {
    n := StrtoulIsNumeral(s);
  }

  lemma ReadIsOperator(s: string)
    requires s != [] && ReadOperator(s).Ok?
    ensures s == OpText(ReadOperator(s).value.0) + ReadOperator(s).value.1
  {
  }

  lemma ReadIsBounds(s: string) returns (r: RangeText, pad: string)
    requires ReadBounds(s).Ok?
    ensures ValidRange(r) && AllSpace(pad) && RangeMeaning(r) == ReadBounds(s).value.0
    ensures s == RangeThen(r, pad + ReadBounds(s).value.1)
  {
    hide Numeral.Valid, Numeral.Then, Numeral.Value, ReadNumber;
    var low := ReadIsNumeral(s);
    var after := ReadNumber(s).value.1;
    var t := SkipSpace(after);
    var space := SkippedSpace(after);
    hide SkipSpace;
    if t != [] && t[0] == ':' {
      var high := ReadIsNumeral(t[1..]);
      r, pad := Span(low, space, high), "";
      assert t == [':'] + t[1..];
      assert pad + ReadNumber(t[1..]).value.1 == ReadNumber(t[1..]).value.1;
      SpaceEmpty();
    } else {
      r, pad := Single(low), space;
    }
    hide AllSpace;
  }

  lemma {:induction false} AcceptedFirst(arg: string, done: seq<Test>) returns (num: Numeral, next: AfterNumber)
    requires ParseFrom(arg, false, [], [], done).Ok?
    ensures num.Valid() && ValidAfterNumber(next) && arg == num.Then(TextAfterNumber(next))
    ensures ParseFrom(arg, false, [], [], done).value == done + MeaningAfterNumber(next, [LocElem(And, num.Value())])
    decreases |arg|, 1
  {
    hide Numeral.Valid, Numeral.Then, Numeral.Value, ReadNumber;
    var a := SkipSpace(arg);
    var space := SkippedSpace(arg);
    var n := ReadIsNumeral(a);
    var rest := ReadNumber(a).value.1;
    var elem := LocElem(And, n.Value());
    assert [] + [elem] == [elem];
    assert ParseFrom(arg, false, [], [], done) == ParseFrom(rest, false, [elem], [], done);
    num := PadNumeral(space, n, rest);
    hide ParseFrom, SkipSpace;
    next := AcceptedNumber(rest, [elem], done);
  }

  lemma {:induction false} AcceptedNumber(arg: string, loc: seq<LocElem>, done: seq<Test>) returns (n: AfterNumber)
    requires loc != [] && ParseFrom(arg, false, loc, [], done).Ok?
    ensures ValidAfterNumber(n) && arg == TextAfterNumber(n)
    ensures ParseFrom(arg, false, loc, [], done).value == done + MeaningAfterNumber(n, loc)
    decreases |arg|, 0
  {
    hide Numeral.Valid, Numeral.Then, Numeral.Value, ReadNumber, ReadOperator, OpText, RangeThen, ValidRange, ReadBounds;
    var a := SkipSpace(arg);
    var space := SkippedSpace(arg);
    hide SkipSpace;
    if a[0] == '=' {
      var b := SkipSpace(a[1..]);
      var space' := SkippedSpace(a[1..]);
      var r, pad := ReadIsBounds(b);
      var range := PadRange(space', r, pad + ReadBounds(b).value.1);
      var left := ReadBounds(b).value.1;
      assert [] + [RangeMeaning(r)] == [RangeMeaning(r)];
      assert ParseFrom(arg, false, loc, [], done) == ParseFrom(a[1..], true, loc, [], done)
          == ParseFrom(left, true, loc, [RangeMeaning(r)], done);
      assert a == ['='] + a[1..];
      hide ParseFrom;
      var tail := AcceptedRange(left, loc, [RangeMeaning(r)], done);
      tail := PadAfterRange(pad, tail, loc, [RangeMeaning(r)]);
      n := Equals(space, range, tail);
    } else {
      ReadIsOperator(a);
      var (op, t) := ReadOperator(a).value;
      var num := ReadIsNumeral(t);
      var rest := ReadNumber(t).value.1;
      var elem := LocElem(op, num.Value());
      assert ParseFrom(arg, false, loc, [], done) == ParseFrom(rest, false, loc + [elem], [], done);
      hide ParseFrom;
      var next := AcceptedNumber(rest, loc + [elem], done);
      n := MoreLocation(space, op, num, next);
    }
  }

  lemma PadRange(space: string, r: RangeText, rest: string) returns (q: RangeText)
    requires AllSpace(space) && ValidRange(r)
    ensures ValidRange(q) && RangeMeaning(q) == RangeMeaning(r) && RangeThen(q, rest) == space + RangeThen(r, rest)
  {
    hide Numeral.Valid, Numeral.Then, Numeral.Value;
    var low := PadNumeral(space, r.low, if r.Single? then rest else r.space + ([':'] + r.high.Then(rest)));
    q := r.(low := low);
  }

  lemma {:induction false} AcceptedRange(arg: string, loc: seq<LocElem>, values: seq<Range>, done: seq<Test>)
    returns (t: AfterRange)
    requires values != [] && ParseFrom(arg, true, loc, values, done).Ok?
    ensures ValidAfterRange(t) && arg == TextAfterRange(t)
    ensures ParseFrom(arg, true, loc, values, done).value == done + MeaningAfterRange(t, loc, values)
    decreases |arg|, 0
  {
    hide Numeral.Valid, Numeral.Then, Numeral.Value, RangeThen, ValidRange, ReadBounds;
    var a := SkipSpace(arg);
    var space := SkippedSpace(arg);
    hide SkipSpace;
    if a == [] {
      t := End(space);
      assert space + "" == space;
    } else if a[0] == '&' {
      assert a == "&&" + a[2..];
      t := AcceptedTests(space, a[2..], loc, values, done);
    } else {
      assert a == [','] + a[1..];
      t := AcceptedValue(space, a[1..], loc, values, done);
    }
  }

  /** After "&&". */
  lemma {:induction false} AcceptedTests(space: string, arg: string, loc: seq<LocElem>, values: seq<Range>, done: seq<Test>)
    returns (t: AfterRange)
    requires AllSpace(space) && ParseFrom(arg, false, [], [], done + [Test(loc, values)]).Ok?
    ensures ValidAfterRange(t) && TextAfterRange(t) == space + ("&&" + arg)
    ensures ParseFrom(arg, false, [], [], done + [Test(loc, values)]).value == done + MeaningAfterRange(t, loc, values)
    decreases |arg|, 2
  {
    hide ParseFrom, Numeral.Valid, Numeral.Then, Numeral.Value;
    var test := Test(loc, values);
    var num, next := AcceptedFirst(arg, done + [test]);
    t := MoreTests(space, num, next);
    var more := MeaningAfterNumber(next, [LocElem(And, num.Value())]);
    assert (done + [test]) + more == done + ([test] + more);
  }

  /** After a comma. */
  lemma {:induction false} AcceptedValue(space: string, arg: string, loc: seq<LocElem>, values: seq<Range>, done: seq<Test>)
    returns (t: AfterRange)
    requires AllSpace(space) && values != [] && ReadBounds(arg).Ok?
    requires ParseFrom(ReadBounds(arg).value.1, true, loc, values + [ReadBounds(arg).value.0], done).Ok?
    ensures ValidAfterRange(t) && TextAfterRange(t) == space + ([','] + arg)
    ensures ParseFrom(ReadBounds(arg).value.1, true, loc, values + [ReadBounds(arg).value.0], done).value
         == done + MeaningAfterRange(t, loc, values)
    decreases |arg|, 0
  {
    hide ParseFrom, ReadBounds, RangeThen, ValidRange;
    var (range, left) := ReadBounds(arg).value;
    var r, pad := ReadIsBounds(arg);
    var tail := AcceptedRange(left, loc, values + [range], done);
    tail := PadAfterRange(pad, tail, loc, values + [range]);
    t := MoreValue(space, r, tail);
  }

  ghost predicate Denotes(s: Sentence, arg: string, ts: seq<Test>) {
    ValidSentence(s) && Text(s) == arg && Meaning(s) == ts
  }

  /** Every accepted text gives between one and the maximum of tests, each with between one and the
      maximum of numbers and of ranges. */
  lemma {:induction false} AcceptedWellFormed(arg: string, inValues: bool, loc: seq<LocElem>, values: seq<Range>, done: seq<Test>)
    requires ParseFrom(arg, inValues, loc, values, done).Ok?
    requires |loc| <= MAXSIZE && |values| <= MAXSIZE && (inValues ==> loc != []) && (loc != [] ==> loc[0].op == And)
    requires |done| <= MAXSIZE && forall i :: 0 <= i < |done| ==> WellFormed(done[i])
    ensures WellFormedTests(ParseFrom(arg, inValues, loc, values, done).value)
    decreases |arg|
  {
    hide SkipSpace, ReadLocElem, ReadRange;
    var a := SkipSpace(arg);
    if a != [] {
      if inValues {
        AcceptedInValues(arg, loc, values, done);
      } else if a[0] == '=' {
        AcceptedWellFormed(a[1..], true, loc, values, done);
      } else {
        LocElemOp(a, loc == []);
        var elem := ReadLocElem(a, loc == []).value;
        AcceptedWellFormed(elem.1, false, loc + [elem.0], values, done);
      }
    }
  }

  lemma {:induction false} AcceptedInValues(arg: string, loc: seq<LocElem>, values: seq<Range>, done: seq<Test>)
    requires SkipSpace(arg) != [] && ParseFrom(arg, true, loc, values, done).Ok?
    requires 1 <= |loc| <= MAXSIZE && |values| <= MAXSIZE && loc[0].op == And
    requires |done| <= MAXSIZE && forall i :: 0 <= i < |done| ==> WellFormed(done[i])
    ensures WellFormedTests(ParseFrom(arg, true, loc, values, done).value)
    decreases |arg|, 0
  {
    hide SkipSpace, ReadLocElem, ReadRange;
    var a := SkipSpace(arg);
    if a[0] == '&' {
      AcceptedWellFormed(a[2..], false, [], [], done + [Test(loc, values)]);
    } else {
      var range := ReadRange(a, values == []).value;
      AcceptedWellFormed(range.1, true, loc, values + [range.0], done);
    }
  }

  /** The parser accepts exactly the sentences of the grammar that keep the size limits, and
      returns what they stand for. */
  lemma ParseIffSentence(arg: string, ts: seq<Test>)
    ensures Parse(arg) == Ok(ts) <==> WellFormedTests(ts) && exists s :: Denotes(s, arg, ts)
  {
    hide ParseFrom, WellFormed, Meaning, ValidSentence;
    if Parse(arg) == Ok(ts) {
      AcceptedWellFormed(arg, false, [], [], []);
      var s := AcceptedSentence(arg);
      assert Denotes(s, arg, ts);
    }
    if WellFormedTests(ts) && exists s :: Denotes(s, arg, ts) {
      var s :| Denotes(s, arg, ts);
      WellFormedFits(ts);
      ParseReadsSentence(s);
    }
  }

  lemma WellFormedFits(ts: seq<Test>)
    requires WellFormedTests(ts)
    ensures Fits(ts)
  {
    assert forall i :: 0 <= i < |ts| ==> WellFormed(ts[i]);
  }

  lemma AcceptedSentence(arg: string) returns (s: Sentence)
    requires Parse(arg).Ok?
    ensures Denotes(s, arg, Parse(arg).value)
  {
    hide ParseFrom;
    var num, next := AcceptedFirst(arg, []);
    s := Sentence(num, next);
    var m := Meaning(s);
    assert [] + m == m;
  }

  // ---------------------------------------------------------------------------
  // The dumper, as the text still to print, and the sentence it prints.

  /** printf("0x%x", n), then `rest`. */
  function HexThen(n: uint32, rest: string): string {
    "0x" + (Print(n, 16) + rest)
  }

  function RangeDump(r: Range, rest: string): string {
    HexThen(r.min, if r.min == r.max then rest else [':'] + HexThen(r.max, rest))
  }

  /** From test `i` on. */
  function DumpTests(ts: seq<Test>, i: nat): string
    requires i <= |ts| && forall j :: 0 <= j < |ts| ==> WellFormed(ts[j])
    decreases |ts| - i, 2, 0
  {
    if i == |ts| then ""
    else assert WellFormed(ts[i]); (if i > 0 then "&&" else "") + HexThen(ts[i].loc[0].number, DumpNumbers(ts, i, 1))
  }

  /** From number `k` of the location of test `i` on. */
  function DumpNumbers(ts: seq<Test>, i: nat, k: nat): string
    requires i < |ts| && (forall j :: 0 <= j < |ts| ==> WellFormed(ts[j])) && 1 <= k <= |ts[i].loc|
    decreases |ts| - i, 1, |ts[i].loc| - k
  {
    if k == |ts[i].loc| then ['='] + DumpRanges(ts, i, 0)
    else OpText(ts[i].loc[k].op) + HexThen(ts[i].loc[k].number, DumpNumbers(ts, i, k + 1))
  }

  /** From range `k` of test `i` on. */
  function DumpRanges(ts: seq<Test>, i: nat, k: nat): string
    requires i < |ts| && (forall j :: 0 <= j < |ts| ==> WellFormed(ts[j])) && k <= |ts[i].values|
    decreases |ts| - i, 0, |ts[i].values| - k
  {
    if k == |ts[i].values| then DumpTests(ts, i + 1)
    else (if k > 0 then "," else "") + RangeDump(ts[i].values[k], DumpRanges(ts, i, k + 1))
  }

  function NumeralOf(n: uint32): Numeral {
    Numeral("", "", "0x", Print(n, 16))
  }

  lemma NumeralOfValid(n: uint32, rest: string)
    ensures NumeralOf(n).Valid() && NumeralOf(n).Value() == n && NumeralOf(n).Then(rest) == HexThen(n, rest)
  {
    SpaceEmpty();
    hide ValueOf, AllDigits, AllSpace;
  }

  function RangeOf(r: Range): RangeText {
    if r.min == r.max then Single(NumeralOf(r.min)) else Span(NumeralOf(r.min), "", NumeralOf(r.max))
  }

  lemma RangeOfValid(r: Range, rest: string)
    ensures ValidRange(RangeOf(r)) && RangeMeaning(RangeOf(r)) == r && RangeThen(RangeOf(r), rest) == RangeDump(r, rest)
  {
    hide Numeral.Valid, Numeral.Then, Numeral.Value, HexThen;
    SpaceEmpty();
    hide AllSpace;
    NumeralOfValid(r.max, rest);
    var after := if r.min == r.max then rest else [':'] + HexThen(r.max, rest);
    NumeralOfValid(r.min, after);
    assert "" + after == after;
  }

  /** The sentence printed from number `k` of test `i` on. */
  lemma {:induction false} NumbersSentence(ts: seq<Test>, i: nat, k: nat) returns (n: AfterNumber)
    requires i < |ts| && (forall j :: 0 <= j < |ts| ==> WellFormed(ts[j])) && 1 <= k <= |ts[i].loc|
    ensures ValidAfterNumber(n) && TextAfterNumber(n) == DumpNumbers(ts, i, k)
    ensures MeaningAfterNumber(n, ts[i].loc[..k]) == ts[i..]
    decreases |ts| - i, 1, |ts[i].loc| - k
  {
    hide Numeral.Valid, Numeral.Then, Numeral.Value, HexThen, RangeDump, RangeThen;
    SpaceEmpty();
    hide AllSpace;
    assert WellFormed(ts[i]);
    var loc := ts[i].loc;
    if k == |loc| {
      var values := ts[i].values;
      var tail := RangesSentence(ts, i, 1);
      RangeOfValid(values[0], TextAfterRange(tail));
      n := Equals("", RangeOf(values[0]), tail);
      assert loc[..k] == loc && values[..1] == [values[0]];
      assert "" + (['='] + RangeDump(values[0], DumpRanges(ts, i, 1))) == ['='] + DumpRanges(ts, i, 0);
    } else {
      var next := NumbersSentence(ts, i, k + 1);
      NumeralOfValid(loc[k].number, TextAfterNumber(next));
      n := MoreLocation("", loc[k].op, NumeralOf(loc[k].number), next);
      assert loc[..k + 1] == loc[..k] + [loc[k]];
      assert TextAfterNumber(n) == DumpNumbers(ts, i, k);
    }
  }

  /** The sentence printed from range `k` of test `i` on. */
  lemma {:induction false} RangesSentence(ts: seq<Test>, i: nat, k: nat) returns (t: AfterRange)
    requires i < |ts| && (forall j :: 0 <= j < |ts| ==> WellFormed(ts[j])) && 1 <= k <= |ts[i].values|
    ensures ValidAfterRange(t) && TextAfterRange(t) == DumpRanges(ts, i, k)
    ensures MeaningAfterRange(t, ts[i].loc, ts[i].values[..k]) == ts[i..]
    decreases |ts| - i, 0, |ts[i].values| - k
  {
    hide Numeral.Valid, Numeral.Then, Numeral.Value, HexThen, RangeDump, RangeThen;
    SpaceEmpty();
    hide AllSpace;
    var values := ts[i].values;
    if k < |values| {
      var tail := RangesSentence(ts, i, k + 1);
      RangeOfValid(values[k], TextAfterRange(tail));
      t := MoreValue("", RangeOf(values[k]), tail);
      assert values[..k + 1] == values[..k] + [values[k]];
      assert TextAfterRange(t) == DumpRanges(ts, i, k);
    } else {
      assert values[..k] == values && ts[i..] == [ts[i]] + ts[i + 1..];
      if i + 1 < |ts| {
        assert WellFormed(ts[i + 1]);
        var first := ts[i + 1].loc[0];
        var next := NumbersSentence(ts, i + 1, 1);
        NumeralOfValid(first.number, TextAfterNumber(next));
        t := MoreTests("", NumeralOf(first.number), next);
        assert ts[i + 1].loc[..1] == [LocElem(And, first.number)];
        assert TextAfterRange(t) == DumpRanges(ts, i, k);
      } else {
        t := End("");
      }
    }
  }

  /** Parsing undoes dumping. */
  lemma ParseUndoesDump(ts: seq<Test>)
    requires WellFormedTests(ts)
    ensures Parse(DumpTests(ts, 0)) == Ok(ts)
  {
    hide ParseFrom, Numeral.Valid, Numeral.Then, Numeral.Value, HexThen;
    assert WellFormed(ts[0]);
    var next := NumbersSentence(ts, 0, 1);
    var first := ts[0].loc[0];
    NumeralOfValid(first.number, TextAfterNumber(next));
    var s := Sentence(NumeralOf(first.number), next);
    assert ts[0].loc[..1] == [LocElem(And, first.number)] && ts[0..] == ts;
    ParseReadsSentence(s);
    assert "" + HexThen(first.number, DumpNumbers(ts, 0, 1)) == HexThen(first.number, DumpNumbers(ts, 0, 1));
    assert Text(s) == DumpTests(ts, 0);
    assert Fits(ts);
  }

  /** So an accepted text, dumped, is accepted with the same tests. */
  lemma AcceptedReadBack(arg: string)
    requires Parse(arg).Ok?
    ensures WellFormedTests(Parse(arg).value) && Parse(DumpTests(Parse(arg).value, 0)) == Parse(arg)
  {
    hide ParseFrom, WellFormed;
    AcceptedWellFormed(arg, false, [], [], []);
    ParseUndoesDump(Parse(arg).value);
  }

  // ---------------------------------------------------------------------------
  // The program: bounded arrays filled in place.

  /** One test structure, its two arrays of MAXSIZE + 1 elements and their fill counts. */
  datatype Slot = Slot(location: seq<LocElem>, value: seq<Range>, nnums: nat, nvalues: nat)

  predicate Sized(s: Slot) {
    |s.location| == |s.value| == MAXSIZE + 1
  }

  /** The operator of the first number is never read. */
  function Normal(loc: seq<LocElem>): seq<LocElem> {
    if loc == [] then [] else loc[0 := LocElem(And, loc[0].number)]
  }

  function TestOf(s: Slot): Test
    requires Sized(s)
  {
    Test(if s.nnums <= MAXSIZE then Normal(s.location[..s.nnums]) else [],
         if s.nvalues <= MAXSIZE then s.value[..s.nvalues] else [])
  }

  function TestsOf(slots: seq<Slot>): (ts: seq<Test>)
    requires forall i :: 0 <= i < |slots| ==> Sized(slots[i])
    ensures |ts| == |slots| && forall i :: 0 <= i < |slots| ==> ts[i] == TestOf(slots[i])
  {
    if slots == [] then [] else TestsOf(slots[..|slots| - 1]) + [TestOf(slots[|slots| - 1])]
  }

  lemma {:induction false} TestsOfAppend(slots: seq<Slot>, s: Slot)
    requires Sized(s) && forall i :: 0 <= i < |slots| ==> Sized(slots[i])
    ensures TestsOf(slots + [s]) == TestsOf(slots) + [TestOf(s)]
  {
    assert (slots + [s])[..|slots|] == slots;
  }

  lemma LocElemOp(s: string, first: bool)
    requires s != [] && ReadLocElem(s, first).Ok?
    ensures first ==> ReadLocElem(s, first).value.0.op == And
  {
  }

  lemma NoTests()
    ensures TestsOf([]) == []
  {
  }

  class U32Match {
    const tests: array<Slot>
    var ntests: nat

    constructor ()
      ensures Valid() && fresh(tests) && ntests == 0
    {
      var zero := LocElem(And, 0);
      tests := new Slot[MAXSIZE + 1](_ =>
        Slot(seq(MAXSIZE + 1, _ => zero), seq(MAXSIZE + 1, _ => Range(0, 0)), 0, 0));
      ntests := 0;
    }

    ghost predicate Valid()
      reads this, tests
    {
      && tests.Length == MAXSIZE + 1 && ntests <= MAXSIZE + 1
      && forall i :: 0 <= i <= MAXSIZE ==> Sized(tests[i])
    }

    ghost function Contents(): seq<Test>
      requires Valid()
      reads this, tests
    {
      TestsOf(tests[..ntests])
    }

    /** The fields are test `testind` filled up to `locind` and `valind`, after finished tests. */
    ghost predicate Filled(testind: nat, locind: nat, valind: nat, loc: seq<LocElem>, values: seq<Range>, done: seq<Test>)
      reads this, tests
    {
      && Valid() && testind <= MAXSIZE && locind <= MAXSIZE && valind <= MAXSIZE
      && done == TestsOf(tests[..testind])
      && loc == Normal(tests[testind].location[..locind])
      && values == tests[testind].value[..valind]
    }

    /** Stores a number of a location; the first one brings no operator. */
    method SetLocation(testind: nat, locind: nat, elem: LocElem, ghost loc: seq<LocElem>, ghost values: seq<Range>, ghost done: seq<Test>)
      requires Filled(testind, locind, 0, loc, values, done) && (locind == 0 ==> elem.op == And)
      modifies tests
      ensures Valid()
      ensures locind < MAXSIZE ==> Filled(testind, locind + 1, 0, loc + [elem], values, done)
    {
      var ct := tests[testind];
      var written := if locind == 0 then ct.location[0].(number := elem.number) else elem;
      tests[testind] := ct.(location := ct.location[locind := written]);
      assert tests[..testind] == old(tests[..testind]);
      assert tests[testind].location[..locind + 1] == ct.location[..locind] + [written];
    }

    method SetValue(testind: nat, locind: nat, valind: nat, range: Range, ghost loc: seq<LocElem>, ghost values: seq<Range>, ghost done: seq<Test>)
      requires Filled(testind, locind, valind, loc, values, done)
      modifies tests
      ensures Valid()
      ensures valind < MAXSIZE ==> Filled(testind, locind, valind + 1, loc, values + [range], done)
    {
      var ct := tests[testind];
      tests[testind] := ct.(value := ct.value[valind := range]);
      assert tests[..testind] == old(tests[..testind]);
    }

    /** End of a test: record its counts. */
    method FinishTest(testind: nat, locind: nat, valind: nat, ghost loc: seq<LocElem>, ghost values: seq<Range>, ghost done: seq<Test>)
      requires Filled(testind, locind, valind, loc, values, done)
      modifies tests
      ensures Valid() && TestsOf(tests[..testind + 1]) == done + [Test(loc, values)]
    {
      var ct := tests[testind];
      tests[testind] := ct.(nnums := locind, nvalues := valind);
      assert tests[..testind] == old(tests[..testind]);
      assert tests[..testind + 1] == tests[..testind] + [tests[testind]];
      TestsOfAppend(tests[..testind], tests[testind]);
    }

    lemma Restart(testind: nat, done: seq<Test>)
      requires Valid() && testind <= MAXSIZE && TestsOf(tests[..testind]) == done
      ensures Filled(testind, 0, 0, [], [], done)
    {
    }

    /** The parsing loop. `arg` is the text from the read pointer on. */
    method ParseArgument(argument: string) returns (r: Result<()>)
      requires Valid()
      modifies this, tests
      ensures Valid()
      ensures match Parse(argument) case Ok(ts) => r.Ok? && Contents() == ts case Err(e) => r == Err(e)
      ensures r.Ok? ==> 1 <= ntests <= MAXSIZE && forall i :: 0 <= i < ntests ==> Dumpable(tests[i])
    {
      hide TestOf, TestsOf, Normal, ReadLocElem, ReadRange, Sized;
      var testind, locind, valind, inValues, arg := 0, 0, 0, false, argument;
      ghost var loc, values, done := [], [], [];
      NoTests();
      assert tests[..0] == [];
      Restart(0, []);
      while true
        invariant Filled(testind, locind, valind, loc, values, done)
        invariant |loc| == locind && |values| == valind && |done| == testind
        invariant !inValues ==> valind == 0
        invariant ParseFrom(arg, inValues, loc, values, done) == Parse(argument)
        decreases |arg|
      {
        arg := SkipSpace(arg);
        if arg == "" {
          if !inValues {
            return Err(AbruptEnd);
          }
          if valind == 0 {
            return Err(NoValue);
          }
          FinishTest(testind, locind, valind, loc, values, done);
          testind := testind + 1;
          ntests := testind;
          if testind <= MAXSIZE {
            AllDumpable(argument);
            return Ok(());
          }
          return Err(TooManyTests);
        }
        if !inValues {
          if arg[0] == '=' {
            if locind == 0 {
              return Err(LocationMissing);
            }
            arg, inValues := arg[1..], true;
          } else {
            var elem := ReadLocElem(arg, locind == 0);
            if elem.Err? {
              return Err(elem.error);
            }
            LocElemOp(arg, locind == 0);
            SetLocation(testind, locind, elem.value.0, loc, values, done);
            loc := loc + [elem.value.0];
            arg, locind := elem.value.1, locind + 1;
            if locind > MAXSIZE {
              return Err(TooManyOperators);
            }
          }
        } else if arg[0] == '&' {
          if |arg| == 1 || arg[1] != '&' {
            return Err(SecondAmpersandExpected);
          }
          if valind == 0 {
            return Err(ValueMissing);
          }
          FinishTest(testind, locind, valind, loc, values, done);
          done, loc, values := done + [Test(loc, values)], [], [];
          testind := testind + 1;
          if testind > MAXSIZE {
            return Err(TooManyTests);
          }
          arg, inValues, locind, valind := arg[2..], false, 0, 0;
          Restart(testind, done);
        } else {
          var range := ReadRange(arg, valind == 0);
          if range.Err? {
            return Err(range.error);
          }
          SetValue(testind, locind, valind, range.value.0, loc, values, done);
          values := values + [range.value.0];
          arg, valind := range.value.1, valind + 1;
          if valind > MAXSIZE {
            return Err(TooManyValues);
          }
        }
      }
    }

    /** What an accepted text leaves can be dumped. */
    lemma AllDumpable(argument: string)
      requires Valid() && Parse(argument) == Ok(Contents())
      ensures 1 <= ntests <= MAXSIZE && forall i :: 0 <= i < ntests ==> Dumpable(tests[i])
    {
      hide ParseFrom, WellFormed, TestOf, TestsOf, Dumpable, Sized;
      AcceptedWellFormed(argument, false, [], [], []);
      TestsDumpable(tests[..ntests]);
      assert forall i :: 0 <= i < ntests ==> tests[i] == tests[..ntests][i];
    }

    /** A text that is accepted, dumped between quotes, is accepted again with the same tests. */
    method ParseAndDump(argument: string) returns (r: Result<string>)
      requires Valid()
      modifies this, tests
      ensures Valid() && (r.Ok? <==> Parse(argument).Ok?)
      ensures r.Ok? ==> |r.value| >= 3 && Parse(r.value[2..|r.value| - 1]) == Parse(argument)
    {
      hide ParseFrom, WellFormed, TestOf, TestsOf, Dumpable, Sized, DumpTests;
      var parsed := ParseArgument(argument);
      if parsed.Err? {
        return Err(parsed.error);
      }
      AcceptedReadBack(argument);
      var out := Dump();
      ghost var text := DumpTests(Contents(), 0);
      assert out[2..|out| - 1] == text;
      r := Ok(out);
    }

    /** The ranges of one test, each after a comma but the first. */
    method DumpValues(ct: Slot, before: string, ghost ts: seq<Test>, ghost i: nat) returns (out: string)
      requires DumpsAs(ct, ts, i)
      ensures out + DumpTests(ts, i + 1) == before + DumpRanges(ts, i, 0)
    {
      hide HexThen, DumpTests, DumpNumbers;
      out := before;
      var k := 0;
      while k < ct.nvalues
        invariant k <= ct.nvalues && out + DumpRanges(ts, i, k) == before + DumpRanges(ts, i, 0)
      {
        var r := ct.value[k];
        ghost var rest := DumpRanges(ts, i, k + 1);
        var text := (if k > 0 then "," else "") + PrintHex(r.min) + (if r.min == r.max then "" else ":" + PrintHex(r.max));
        RangeDumpIs(r, rest, if k > 0 then "," else "");
        assert text + rest == DumpRanges(ts, i, k);
        assert (out + text) + rest == out + (text + rest);
        out := out + text;
        k := k + 1;
      }
    }

    /** The numbers of one location, each after its operator but the first. */
    method DumpLocation(ct: Slot, before: string, ghost ts: seq<Test>, ghost i: nat) returns (out: string)
      requires DumpsAs(ct, ts, i)
      ensures out + (['='] + DumpRanges(ts, i, 0)) == before + HexThen(ts[i].loc[0].number, DumpNumbers(ts, i, 1))
    {
      hide HexThen, DumpTests, DumpRanges, DumpNumbers, DumpsAs, TestOf, PrintHex, OpText;
      SlotDumps(ct, ts, i);
      out := before + PrintHex(ct.location[0].number);
      ghost var tail := DumpNumbers(ts, i, 1);
      HexThenIs(ct.location[0].number, tail);
      ghost var whole := before + HexThen(ts[i].loc[0].number, tail);
      assert out + tail == before + (PrintHex(ct.location[0].number) + tail);
      var k := 1;
      while k < ct.nnums
        invariant 1 <= k <= ct.nnums && out + DumpNumbers(ts, i, k) == whole
      {
        var elem := ct.location[k];
        ghost var rest := DumpNumbers(ts, i, k + 1);
        NextNumber(ct, ts, i, k);
        var text := OpText(elem.op) + PrintHex(elem.number);
        assert (out + text) + rest == out + (text + rest);
        out := out + text;
        k := k + 1;
      }
      LastNumber(ct, ts, i);
    }

    /** What a slot has to do with its test. */
    lemma SlotDumps(ct: Slot, ts: seq<Test>, i: nat)
      requires DumpsAs(ct, ts, i)
      ensures i < |ts| && (forall j :: 0 <= j < |ts| ==> WellFormed(ts[j]))
      ensures 1 <= ct.nnums == |ts[i].loc| <= |ct.location| && ct.location[0].number == ts[i].loc[0].number
      ensures 1 <= ct.nvalues == |ts[i].values| <= |ct.value|
    {
      assert WellFormed(ts[i]);
    }

    lemma NextNumber(ct: Slot, ts: seq<Test>, i: nat, k: nat)
      requires DumpsAs(ct, ts, i) && 1 <= k < ct.nnums
      ensures k < |ct.location| && k < |ts[i].loc|
      ensures DumpNumbers(ts, i, k)
        == (OpText(ct.location[k].op) + PrintHex(ct.location[k].number)) + DumpNumbers(ts, i, k + 1)
    {
      hide HexThen, DumpTests, DumpRanges, PrintHex, OpText;
      var elem, rest := ct.location[k], DumpNumbers(ts, i, k + 1);
      assert elem == ts[i].loc[k];
      HexThenIs(elem.number, rest);
      assert (OpText(elem.op) + PrintHex(elem.number)) + rest == OpText(elem.op) + (PrintHex(elem.number) + rest);
    }

    lemma LastNumber(ct: Slot, ts: seq<Test>, i: nat)
      requires DumpsAs(ct, ts, i)
      ensures DumpNumbers(ts, i, ct.nnums) == ['='] + DumpRanges(ts, i, 0)
    {
      hide HexThen, DumpTests, DumpRanges;
    }

    method Dump() returns (out: string)
      requires Valid() && forall i :: 0 <= i < ntests ==> Dumpable(tests[i])
      ensures (forall i :: 0 <= i < |Contents()| ==> WellFormed(Contents()[i]))
        && out == " \"" + DumpTests(Contents(), 0) + "\""
    {
      hide HexThen, DumpNumbers, DumpRanges, Dumpable, DumpsAs, TestsOf, TestOf;
      ghost var ts := Contents();
      DumpableTests(tests[..ntests]);
      out := " \"";
      ghost var whole := out + DumpTests(ts, 0);
      var testind := 0;
      while testind < ntests
        invariant testind <= ntests && whole == out + DumpTests(ts, testind)
      {
        var ct := tests[testind];
        assert ct == tests[..ntests][testind];
        ghost var start := HexThen(ts[testind].loc[0].number, DumpNumbers(ts, testind, 1));
        ghost var values := DumpRanges(ts, testind, 0);
        var joined := out + if testind > 0 then "&&" else "";
        assert joined + start == out + DumpTests(ts, testind);
        var located := DumpLocation(ct, joined, ts, testind);
        assert (located + "=") + values == located + (['='] + values);
        out := DumpValues(ct, located + "=", ts, testind);
        testind := testind + 1;
      }
      assert out + "" == out;
      out := out + "\"";
    }
  }

  /** A structure the parser leaves behind: its counts are within its arrays. */
  predicate Dumpable(s: Slot) {
    Sized(s) && 1 <= s.nnums <= MAXSIZE && 1 <= s.nvalues <= MAXSIZE
  }

  ghost predicate DumpsAs(s: Slot, ts: seq<Test>, i: nat) {
    Dumpable(s) && i < |ts| && ts[i] == TestOf(s) && forall j :: 0 <= j < |ts| ==> WellFormed(ts[j])
  }

  lemma DumpableIs(s: Slot)
    requires Sized(s)
    ensures Dumpable(s) <==> WellFormed(TestOf(s))
  {
  }

  lemma DumpableTests(slots: seq<Slot>)
    requires forall i :: 0 <= i < |slots| ==> Sized(slots[i]) && Dumpable(slots[i])
    ensures forall i :: 0 <= i < |slots| ==> DumpsAs(slots[i], TestsOf(slots), i)
    ensures forall i :: 0 <= i < |slots| ==> WellFormed(TestsOf(slots)[i])
  {
    hide TestOf, TestsOf, WellFormed, Dumpable;
    forall i | 0 <= i < |slots|
      ensures WellFormed(TestOf(slots[i]))
    {
      DumpableIs(slots[i]);
    }
  }

  lemma TestsDumpable(slots: seq<Slot>)
    requires (forall i :: 0 <= i < |slots| ==> Sized(slots[i])) && WellFormedTests(TestsOf(slots))
    ensures forall i :: 0 <= i < |slots| ==> Dumpable(slots[i])
  {
    hide TestOf, TestsOf, WellFormed, Dumpable;
    forall i | 0 <= i < |slots|
      ensures Dumpable(slots[i])
    {
      assert WellFormed(TestsOf(slots)[i]);
      DumpableIs(slots[i]);
    }
  }

  function PrintHex(n: uint32): string {
    "0x" + Print(n, 16)
  }

  lemma HexThenIs(n: uint32, rest: string)
    ensures HexThen(n, rest) == PrintHex(n) + rest
  {
  }

  lemma RangeDumpIs(r: Range, rest: string, comma: string)
    ensures comma + RangeDump(r, rest)
         == (comma + PrintHex(r.min) + (if r.min == r.max then "" else ":" + PrintHex(r.max))) + rest
  {
    hide HexThen;
    HexThenIs(r.max, rest);
    HexThenIs(r.min, if r.min == r.max then rest else [':'] + HexThen(r.max, rest));
  }

  // ---------------------------------------------------------------------------
  // The operators, and a text with two tests, a range and single values.

  lemma OperatorsRead(rest: string)
    ensures ReadOperator(['&'] + rest) == Ok((And, rest)) && ReadOperator(['@'] + rest) == Ok((At, rest))
    ensures ReadOperator(['<', '<'] + rest) == Ok((LeftShift, rest)) && ReadOperator(['>', '>'] + rest) == Ok((RightShift, rest))
  {
    assert (['&'] + rest)[1..] == rest && (['@'] + rest)[1..] == rest;
    assert (['<', '<'] + rest)[2..] == rest && (['>', '>'] + rest)[2..] == rest;
  }

  /** A number of one digit. */
  function OneDigit(d: char): Numeral {
    Numeral("", "", "", [d])
  }

  lemma OneDigitMeans(d: char)
    requires '1' <= d <= '7'
    ensures OneDigit(d).Valid() && OneDigit(d).Value() == d as int - '0' as int
    ensures forall rest :: OneDigit(d).Then(rest) == [d] + rest
  {
    assert ValueOf([d], 10) == d as int - '0' as int by {
      assert [d][..0] == "" && ValueOf("", 10) == 0;
    }
    assert AllSpace("");
    hide ValueOf;
    forall rest
      ensures OneDigit(d).Then(rest) == [d] + rest
    {
      assert "" + ("" + ("" + ([d] + rest))) == [d] + rest;
    }
  }

  // The texts of the pieces, without white space.

  lemma PlainEquals(r: RangeText, tail: AfterRange)
    ensures TextAfterNumber(Equals("", r, tail)) == "=" + RangeThen(r, TextAfterRange(tail))
  {
    hide RangeThen;
    var t := "=" + RangeThen(r, TextAfterRange(tail));
    assert "" + t == t;
  }

  lemma PlainRange(c: char, d: char, rest: string)
    requires '1' <= c <= '7' && '1' <= d <= '7'
    ensures RangeThen(Single(OneDigit(c)), rest) == [c] + rest
    ensures RangeThen(Span(OneDigit(c), "", OneDigit(d)), rest) == [c] + (":" + ([d] + rest))
  {
    OneDigitMeans(c);
    OneDigitMeans(d);
    hide Numeral.Then, Numeral.Valid;
    var t := ":" + ([d] + rest);
    assert "" + t == t;
  }

  lemma PlainValue(r: RangeText, tail: AfterRange, d: char, next: AfterNumber)
    requires '1' <= d <= '7'
    ensures TextAfterRange(MoreValue("", r, tail)) == "," + RangeThen(r, TextAfterRange(tail))
    ensures TextAfterRange(MoreTests("", OneDigit(d), next)) == "&&" + ([d] + TextAfterNumber(next))
    ensures TextAfterRange(End("")) == ""
  {
    OneDigitMeans(d);
    hide Numeral.Then, Numeral.Valid, RangeThen;
    var t, u := "," + RangeThen(r, TextAfterRange(tail)), "&&" + ([d] + TextAfterNumber(next));
    assert "" + t == t && "" + u == u;
  }

  function LastTest(): AfterNumber {
    Equals("", Single(OneDigit('3')), End(""))
  }

  function LastValue(): AfterRange {
    MoreValue("", Single(OneDigit('1')), MoreTests("", OneDigit('2'), LastTest()))
  }

  function Values(): AfterNumber {
    Equals("", Span(OneDigit('6'), "", OneDigit('7')), LastValue())
  }

  lemma ValuesValid()
    ensures ValidAfterNumber(Values())
  {
    OneDigitMeans('1');
    OneDigitMeans('2');
    OneDigitMeans('3');
    OneDigitMeans('6');
    OneDigitMeans('7');
    assert AllSpace("");
    hide Numeral.Valid, Numeral.Then, Numeral.Value;
  }

  lemma LastTestText()
    ensures TextAfterNumber(LastTest()) == "=3"
  {
    hide TextAfterNumber, TextAfterRange, RangeThen;
    PlainEquals(Single(OneDigit('3')), End(""));
    PlainRange('3', '3', "");
    PlainValue(Single(OneDigit('3')), End(""), '3', LastTest());
    assert "=" + (['3'] + "") == "=3";
  }

  lemma LastValueText()
    ensures TextAfterRange(LastValue()) == ",1&&2=3"
  {
    hide TextAfterNumber, TextAfterRange, RangeThen;
    LastTestText();
    PlainValue(Single(OneDigit('1')), MoreTests("", OneDigit('2'), LastTest()), '2', LastTest());
    PlainRange('1', '1', "&&" + (['2'] + "=3"));
    assert "," + (['1'] + ("&&" + (['2'] + "=3"))) == ",1&&2=3";
  }

  lemma ValuesText()
    ensures TextAfterNumber(Values()) == "=6:7,1&&2=3"
  {
    hide TextAfterNumber, TextAfterRange, RangeThen;
    LastValueText();
    PlainEquals(Span(OneDigit('6'), "", OneDigit('7')), LastValue());
    PlainRange('6', '7', ",1&&2=3");
    assert "=" + (['6'] + (":" + (['7'] + ",1&&2=3"))) == "=6:7,1&&2=3";
  }

  lemma ExampleMeans()
    requires OneDigit('1').Valid() && OneDigit('1').Value() == 1 && ValidAfterNumber(Values())
    ensures Meaning(Sentence(OneDigit('1'), Values())) == [
      Test([LocElem(And, 1)], [Range(6, 7), Range(1, 1)]), Test([LocElem(And, 2)], [Range(3, 3)])]
  {
    OneDigitMeans('2');
    OneDigitMeans('3');
    OneDigitMeans('6');
    OneDigitMeans('7');
    hide Numeral.Valid, Numeral.Value;
    var one, last := [LocElem(And, 1)], Test([LocElem(And, 2)], [Range(3, 3)]);
    assert MeaningAfterRange(End(""), [LocElem(And, 2)], [Range(3, 3)]) == [last];
    assert [Range(6, 7)] + [Range(1, 1)] == [Range(6, 7), Range(1, 1)];
    assert MeaningAfterRange(MoreTests("", OneDigit('2'), LastTest()), one, [Range(6, 7), Range(1, 1)])
      == [Test(one, [Range(6, 7), Range(1, 1)])] + [last];
  }

  lemma ExampleText()
    ensures Text(Sentence(OneDigit('1'), Values())) == "1=6:7,1&&2=3"
  {
    OneDigitMeans('1');
    ValuesText();
    hide TextAfterNumber, Values, Numeral.Then;
    assert ['1'] + "=6:7,1&&2=3" == "1=6:7,1&&2=3";
  }

  lemma ExampleParses()
    ensures Parse("1=6:7,1&&2=3") == Ok([
      Test([LocElem(And, 1)], [Range(6, 7), Range(1, 1)]), Test([LocElem(And, 2)], [Range(3, 3)])])
  {
    OneDigitMeans('1');
    ValuesValid();
    ExampleText();
    ExampleMeans();
    hide Parse, ParseFrom, Text, Meaning, Values, Numeral.Valid, Numeral.Then;
    ParseReadsSentence(Sentence(OneDigit('1'), Values()));
  }
}
