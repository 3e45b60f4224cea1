/** The argument tokenizer of iptables-restore, and the quoting printers whose text it must undo. */
module RestoreTokenizer {
  import opened Common

  const PARAM_SIZE: nat := 1024
  const NEWARGV_SIZE: nat := 255

  datatype Error =
    | TableOption        // an argument that starts with -t, or is --table
    | TooManyArguments
    | TooLong            // the unquoted check on the buffer
    | Overrun            // a write past the buffer, whose effect C leaves open

  type Result<+T> = Common.Result<T, Error>

  /** The tokenizer between two characters. */
  datatype Scan = Scan(quoteOpen: bool, escaped: bool, param: string, argv: seq<string>)

  predicate IsBlank(c: char) {
    c == ' ' || c == '\t' || c == '\n'
  }

  predicate LooksLikeTable(p: string) {
    "-t" <= p || p == "--table"
  }

  function AddArgv(argv: seq<string>, what: string): Result<seq<string>> {
    if |argv| + 1 < NEWARGV_SIZE then Ok(argv + [what]) else Err(TooManyArguments)
  }

  /** A blank ends the argument, if there is one. */
  function EndParam(s: Scan): Result<Scan> {
    if s.param == "" then Ok(s)
    else if |s.param| >= PARAM_SIZE then Err(Overrun)
    else if LooksLikeTable(s.param) then Err(TableOption)
    else
      var added := AddArgv(s.argv, s.param);
      if added.Err? then Err(added.error) else Ok(s.(param := "", argv := added.value))
  }

  function AppendQuoted(s: Scan, c: char): Result<Scan> {
    if |s.param| >= PARAM_SIZE then Err(Overrun) else Ok(s.(escaped := false, param := s.param + [c]))
  }

  /** One character of the line. */
  function Step(s: Scan, c: char): Result<Scan> {
    if s.quoteOpen then
      if s.escaped then AppendQuoted(s, c)
      else if c == '\\' then Ok(s.(escaped := true))
      else if c == '"' then EndParam(s.(quoteOpen := false))
      else AppendQuoted(s, c)
    else if c == '"' then Ok(s.(quoteOpen := true))
    else if IsBlank(c) then EndParam(s)
    else if |s.param| >= PARAM_SIZE then Err(Overrun)
    else if |s.param| + 1 >= PARAM_SIZE then Err(TooLong)
    else Ok(s.(param := s.param + [c]))
  }

  function Tokenize(s: Scan, line: string): Result<Scan>
    decreases |line|
  {
    if line == "" then Ok(s)
    else
      var next := Step(s, line[0]);
      if next.Err? then next else Tokenize(next.value, line[1..])
  }

  function Start(argv: seq<string>): Scan {
    Scan(false, false, "", argv)
  }

  // ---------------------------------------------------------------------------
  // The program.

  class Restore {
    var newargv: seq<string>
    const paramBuffer: array<char>

    constructor (argv: seq<string>)
      ensures newargv == argv && paramBuffer.Length == PARAM_SIZE && fresh(paramBuffer)
    {
      newargv := argv;
      paramBuffer := new char[PARAM_SIZE];
    }

    /** The fields and locals stand for this scan. */
    ghost predicate Holds(s: Scan, quoteOpen: bool, escaped: bool, paramLen: nat)
      reads this`newargv, paramBuffer
    {
      paramBuffer.Length == PARAM_SIZE && paramLen <= PARAM_SIZE
      && s == Scan(quoteOpen, escaped, paramBuffer[..paramLen], newargv)
    }

    /** The character loop over the line `buffer[..n]`; a closing quote is overwritten by a blank. */
    method ParseLine(buffer: array<char>, n: nat) returns (r: Result<()>)
      requires paramBuffer.Length == PARAM_SIZE && n <= buffer.Length && buffer != paramBuffer
      modifies this`newargv, paramBuffer, buffer
      ensures match Tokenize(Start(old(newargv)), old(buffer[..n]))
        case Ok(s) => r.Ok? && newargv == s.argv
        case Err(e) => r == Err(e)
    {
      var quoteOpen, escaped, paramLen := false, false, 0;
      ghost var line := buffer[..n];
      ghost var s := Start(newargv);
      var i := 0;
      assert line[0..] == line;
      while i < n
        invariant i <= n && buffer[i..n] == line[i..]
        invariant Holds(s, quoteOpen, escaped, paramLen)
        invariant Tokenize(s, line[i..]) == Tokenize(Start(old(newargv)), line)
      {
        var c := buffer[i];
        assert c == line[i] && line[i..][0] == c && line[i..][1..] == line[i + 1..];
        ghost var next := Step(s, c);
        i := i + 1;
        if quoteOpen {
          if escaped || (c != '\\' && c != '"') {
            if paramLen >= PARAM_SIZE {
              return Err(Overrun);
            }
            paramBuffer[paramLen] := c;
            paramLen := paramLen + 1;
            escaped := false;
            s := next.value;
            continue;
          } else if c == '\\' {
            escaped := true;
            s := next.value;
            continue;
          } else {
            quoteOpen := false;
            buffer[i - 1] := ' ';
            c := ' ';
          }
        } else if c == '"' {
          quoteOpen := true;
          s := next.value;
          continue;
        }
        if IsBlank(c) {
          if paramLen == 0 {
            s := next.value;
            continue;
          }
          if paramLen >= PARAM_SIZE {
            return Err(Overrun);
          }
          var param := paramBuffer[..paramLen];
          if LooksLikeTable(param) {
            return Err(TableOption);
          }
          var added := AddArgv(newargv, param);
          if added.Err? {
            return Err(added.error);
          }
          newargv := added.value;
          paramLen := 0;
        } else {
          if paramLen >= PARAM_SIZE {
            return Err(Overrun);
          }
          paramBuffer[paramLen] := c;
          paramLen := paramLen + 1;
          if paramLen >= PARAM_SIZE {
            return Err(TooLong);
          }
        }
        s := next.value;
      }
      assert line[n..] == "";
      r := Ok(());
    }
  }

  // ---------------------------------------------------------------------------
  // Quoting.

  /** A word of a saved line: bare, or between double quotes with '"' and '\' escaped. */
  datatype Word = Bare(text: string) | Quoted(text: string)

  function Escape(s: string): string {
    if s == "" then ""
    else (if s[0] == '"' || s[0] == '\\' then ['\\', s[0]] else [s[0]]) + Escape(s[1..])
  }

  /** LED_save's loop over the identifier. */
  method PrintEscaped(id: string) returns (out: string)
    ensures out == Escape(id)
  {
    out := "";
    var rest := id;
    while rest != ""
      invariant out + Escape(rest) == Escape(id)
      decreases |rest|
    {
      var text := if rest[0] == '"' || rest[0] == '\\' then ['\\', rest[0]] else [rest[0]];
      assert out + (text + Escape(rest[1..])) == (out + text) + Escape(rest[1..]);
      out := out + text;
      rest := rest[1..];
    }
    assert out + "" == out;
  }

  /** A word then `rest`. */
  function WordThen(w: Word, rest: string): string {
    match w
    case Bare(text) => text + rest
    case Quoted(text) => ['"'] + (Escape(text) + (['"'] + rest))
  }

  /** Words separated by spaces, ended by a newline. */
  function Render(words: seq<Word>): string {
    if words == [] then "" else WordThen(words[0], [if |words| == 1 then '\n' else ' '] + Render(words[1..]))
  }

  predicate Fits(text: string) {
    1 <= |text| < PARAM_SIZE && !LooksLikeTable(text)
  }

  /** A word the tokenizer can take: nonempty, shorter than the buffer, not like -t or --table; a
      bare one has no blank and no quote, and is short enough for the unquoted check. */
  predicate Acceptable(w: Word) {
    && Fits(w.text)
    && (w.Bare? ==> forall k :: 0 <= k < |w.text| ==> !IsBlank(w.text[k]) && w.text[k] != '"')
  }

  function Texts(words: seq<Word>): seq<string> {
    if words == [] then [] else [words[0].text] + Texts(words[1..])
  }

  lemma TokenizeStep(s: Scan, c: char, rest: string)
    ensures Tokenize(s, [c] + rest) == var next := Step(s, c); if next.Err? then next else Tokenize(next.value, rest)
  {
    assert ([c] + rest)[1..] == rest;
  }

  /** Inside quotes, escaped text is copied up to the closing quote, which ends the argument. */
  lemma {:induction false} QuotedText(p: string, text: string, argv: seq<string>, rest: string)
    requires |p + text| < PARAM_SIZE
    ensures var end := EndParam(Scan(false, false, p + text, argv));
      Tokenize(Scan(true, false, p, argv), Escape(text) + (['"'] + rest))
      == if end.Err? then end else Tokenize(end.value, rest)
    decreases |text|
  {
    hide LooksLikeTable, Tokenize;
    var s := Scan(true, false, p, argv);
    if text == "" {
      assert p + text == p && Escape(text) + (['"'] + rest) == ['"'] + rest;
      TokenizeStep(s, '"', rest);
    } else {
      hide EndParam, Escape, Step;
      assert p + text == (p + [text[0]]) + text[1..];
      QuotedText(p + [text[0]], text[1..], argv, rest);
      QuotedChar(p, text, argv, ['"'] + rest);
    }
  }

  /** One character of the text, with its backslash if it has one. */
  lemma QuotedChar(p: string, text: string, argv: seq<string>, rest: string)
    requires text != "" && |p| + 1 < PARAM_SIZE
    ensures Tokenize(Scan(true, false, p, argv), Escape(text) + rest)
      == Tokenize(Scan(true, false, p + [text[0]], argv), Escape(text[1..]) + rest)
  {
    hide LooksLikeTable, Tokenize;
    var s := Scan(true, false, p, argv);
    var more := Escape(text[1..]) + rest;
    if text[0] == '"' || text[0] == '\\' {
      assert Escape(text) + rest == ['\\'] + ([text[0]] + more);
      TokenizeStep(s, '\\', [text[0]] + more);
      TokenizeStep(s.(escaped := true), text[0], more);
    } else {
      assert Escape(text) + rest == [text[0]] + more;
      TokenizeStep(s, text[0], more);
    }
  }

  /** A quote straight after bare text goes on with the same argument. */
  lemma {:induction false} BareThenQuote(p: string, text: string, argv: seq<string>, rest: string)
    requires |p + text| < PARAM_SIZE
    requires forall k :: 0 <= k < |text| ==> !IsBlank(text[k]) && text[k] != '"'
    ensures Tokenize(Scan(false, false, p, argv), text + (['"'] + rest)) == Tokenize(Scan(true, false, p + text, argv), rest)
    decreases |text|
  {
    hide Tokenize;
    var s := Scan(false, false, p, argv);
    if text == "" {
      assert p + text == p && text + (['"'] + rest) == ['"'] + rest;
      TokenizeStep(s, '"', rest);
    } else {
      var more := text[1..] + (['"'] + rest);
      assert p + text == (p + [text[0]]) + text[1..];
      assert text + (['"'] + rest) == [text[0]] + more;
      TokenizeStep(s, text[0], more);
      BareThenQuote(p + [text[0]], text[1..], argv, rest);
    }
  }

  /** Arguments once read stay. */
  lemma {:induction false} TokenizeGrows(s: Scan, line: string)
    requires Tokenize(s, line).Ok?
    ensures s.argv <= Tokenize(s, line).value.argv
    decreases |line|
  {
    if line != "" {
      var next := Step(s, line[0]).value;
      TokenizeGrows(next, line[1..]);
      assert s.argv <= next.argv;
    }
  }

  /** Bare text is copied and the next blank ends the argument. */
  lemma {:induction false} BareText(p: string, text: string, argv: seq<string>, c: char, rest: string)
    requires Fits(p + text) && |argv| + 1 < NEWARGV_SIZE && IsBlank(c)
    requires forall k :: 0 <= k < |text| ==> !IsBlank(text[k]) && text[k] != '"'
    ensures Tokenize(Scan(false, false, p, argv), text + ([c] + rest)) == Tokenize(Start(argv + [p + text]), rest)
    decreases |text|
  {
    hide LooksLikeTable, Tokenize;
    var s := Scan(false, false, p, argv);
    if text == "" {
      assert p + text == p && text + ([c] + rest) == [c] + rest;
      TokenizeStep(s, c, rest);
    } else {
      var more := text[1..] + ([c] + rest);
      assert p + text == (p + [text[0]]) + text[1..];
      assert text + ([c] + rest) == [text[0]] + more;
      TokenizeStep(s, text[0], more);
      BareText(p + [text[0]], text[1..], argv, c, rest);
    }
  }

  lemma WordRead(w: Word, argv: seq<string>, c: char, rest: string)
    requires Acceptable(w) && |argv| + 1 < NEWARGV_SIZE && IsBlank(c)
    ensures Tokenize(Start(argv), WordThen(w, [c] + rest)) == Tokenize(Start(argv + [w.text]), rest)
  {
    hide Tokenize, Escape, LooksLikeTable;
    assert "" + w.text == w.text;
    match w
    case Bare(text) => BareText("", text, argv, c, rest);
    case Quoted(text) =>
      var tail := Escape(text) + (['"'] + ([c] + rest));
      TokenizeStep(Start(argv), '"', tail);
      QuotedText("", text, argv, [c] + rest);
      TokenizeStep(Start(argv + [text]), c, rest);
  }

  /** Tokenizing undoes quoting. */
  lemma {:induction false} TokenizeUndoesRender(words: seq<Word>, argv: seq<string>)
    requires forall k :: 0 <= k < |words| ==> Acceptable(words[k])
    requires |argv| + |words| < NEWARGV_SIZE
    ensures Tokenize(Start(argv), Render(words)) == Ok(Start(argv + Texts(words)))
    decreases |words|
  {
    hide Acceptable, WordThen, Tokenize;
    if words == [] {
      TokenizeNothing(Start(argv));
      assert argv + [] == argv;
    } else {
      var rest := words[1..];
      WordRead(words[0], argv, if |words| == 1 then '\n' else ' ', Render(rest));
      TokenizeUndoesRender(rest, argv + [words[0].text]);
      assert argv + [words[0].text] + Texts(rest) == argv + Texts(words);
    }
  }

  lemma TokenizeNothing(s: Scan)
    ensures Tokenize(s, "") == Ok(s)
  {
  }

  // ---------------------------------------------------------------------------
  // Which lines write past the buffer.

  /** What the text between quotes stands for; None if it has a bare quote or ends in a backslash. */
  function InQuotes(raw: string): Option<string> {
    if raw == "" then Some("")
    else if raw[0] == '"' || raw == "\\" then None
    else
      var k := if raw[0] == '\\' then 1 else 0;
      var rest := InQuotes(raw[k + 1..]);
      if rest.None? then None else Some([raw[k]] + rest.value)
  }

  /** After a head that is read to the end of an argument, an argument whose bare start and quoted text
      fill the buffer, and that goes on or is closed. */
  ghost predicate OverflowsAt(argv: seq<string>, line: string, head: string, bare: string, raw: string, rest: string) {
    && line == head + (bare + (['"'] + (raw + rest)))
    && (exists found :: Tokenize(Start(argv), head) == Ok(Start(found)))
    && |bare| < PARAM_SIZE && (forall k :: 0 <= k < |bare| ==> !IsBlank(bare[k]) && bare[k] != '"')
    && InQuotes(raw).Some? && |bare| + |InQuotes(raw).value| == PARAM_SIZE
    && rest != "" && rest != "\\"
  }

  ghost predicate Overflows(argv: seq<string>, line: string) {
    exists head, bare, raw, rest :: OverflowsAt(argv, line, head, bare, raw, rest)
  }

  lemma {:induction false} TokenizeConcat(s: Scan, a: string, b: string)
    ensures Tokenize(s, a + b) == var mid := Tokenize(s, a); if mid.Err? then mid else Tokenize(mid.value, b)
    decreases |a|
  {
    if a == "" {
      assert a + b == b;
    } else {
      assert (a + b)[1..] == a[1..] + b;
      var next := Step(s, a[0]);
      if next.Ok? {
        TokenizeConcat(next.value, a[1..], b);
      }
    }
  }

  /** Text between quotes is collected as long as the buffer has room. */
  lemma {:induction false} RawRead(p: string, raw: string, argv: seq<string>, rest: string)
    requires InQuotes(raw).Some? && |p| + |InQuotes(raw).value| <= PARAM_SIZE
    ensures Tokenize(Scan(true, false, p, argv), raw + rest)
         == Tokenize(Scan(true, false, p + InQuotes(raw).value, argv), rest)
    decreases |raw|
  {
    hide Tokenize, EndParam;
    var s := Scan(true, false, p, argv);
    if raw == "" {
      assert raw + rest == rest && p + "" == p;
    } else {
      var k := if raw[0] == '\\' then 1 else 0;
      var text := InQuotes(raw[k + 1..]).value;
      assert p + ([raw[k]] + text) == (p + [raw[k]]) + text;
      RawRead(p + [raw[k]], raw[k + 1..], argv, rest);
      if k == 1 {
        assert raw + rest == ['\\'] + ([raw[1]] + (raw[2..] + rest));
        TokenizeStep(s, '\\', [raw[1]] + (raw[2..] + rest));
        TokenizeStep(s.(escaped := true), raw[1], raw[2..] + rest);
      } else {
        assert raw + rest == [raw[0]] + (raw[1..] + rest);
        TokenizeStep(s, raw[0], raw[1..] + rest);
      }
    }
  }

  /** A full argument that goes on or is closed is written past the buffer. */
  lemma FullOverruns(p: string, argv: seq<string>, rest: string)
    requires |p| == PARAM_SIZE && rest != "" && rest != "\\"
    ensures Tokenize(Scan(true, false, p, argv), rest) == Err(Overrun)
  {
    hide Tokenize;
    var s := Scan(true, false, p, argv);
    assert rest == [rest[0]] + rest[1..];
    TokenizeStep(s, rest[0], rest[1..]);
    if rest[0] == '\\' {
      assert rest[1..] == [rest[1]] + rest[2..];
      TokenizeStep(s.(escaped := true), rest[1], rest[2..]);
    }
  }

  lemma OverflowsOverruns(argv: seq<string>, line: string)
    requires Overflows(argv, line)
    ensures Tokenize(Start(argv), line) == Err(Overrun)
  {
    hide Tokenize, InQuotes;
    var head, bare, raw, rest :| OverflowsAt(argv, line, head, bare, raw, rest);
    var found :| Tokenize(Start(argv), head) == Ok(Start(found));
    var text := InQuotes(raw).value;
    TokenizeConcat(Start(argv), head, bare + (['"'] + (raw + rest)));
    BareThenQuote("", bare, found, raw + rest);
    assert "" + bare == bare;
    RawRead(bare, raw, found, rest);
    FullOverruns(bare + text, found, rest);
  }

  /** Moving a found overflow behind what is read before it. */
  lemma BehindHead(argv: seq<string>, first: string, found: seq<string>, line: string)
    requires Tokenize(Start(argv), first) == Ok(Start(found)) && Overflows(found, line)
    ensures Overflows(argv, first + line)
  {
    hide Tokenize, InQuotes;
    var head, bare, raw, rest :| OverflowsAt(found, line, head, bare, raw, rest);
    TokenizeConcat(Start(argv), first, head);
    var tail := bare + (['"'] + (raw + rest));
    assert first + (head + tail) == (first + head) + tail;
    assert OverflowsAt(argv, first + line, first + head, bare, raw, rest);
  }

  predicate BareSoFar(p: string) {
    |p| < PARAM_SIZE && forall k :: 0 <= k < |p| ==> !IsBlank(p[k]) && p[k] != '"'
  }

  /** Outside quotes, with the bare text `p` read. */
  lemma {:induction false} BareOverflows(p: string, argv: seq<string>, line: string)
    requires BareSoFar(p) && Tokenize(Scan(false, false, p, argv), line) == Err(Overrun)
    ensures Overflows(argv, p + line)
    decreases |line|, 1
  {
    hide Overflows, Tokenize;
    var s := Scan(false, false, p, argv);
    NothingRead(s, line);
    var c, more := line[0], line[1..];
    assert line == [c] + more;
    TokenizeStep(s, c, more);
    var next := Step(s, c);
    if c == '"' {
      NoRaw();
      assert p + line == p + (['"'] + ("" + more)) && p + "" == p;
      QuotedOverflows(p, "", argv, more);
    } else if IsBlank(c) {
      var found := next.value.argv;
      BareOverflows("", found, more);
      assert "" + more == more;
      assert p + line == (p + [c]) + more;
      ReadBare(p, argv, c);
      BehindHead(argv, p + [c], found, more);
    } else {
      assert p + line == (p + [c]) + more;
      BareOverflows(p + [c], argv, more);
    }
  }

  lemma NothingRead(s: Scan, line: string)
    requires Tokenize(s, line).Err?
    ensures line != ""
  {
  }

  lemma NoRaw()
    ensures InQuotes("") == Some("")
  {
  }

  /** Bare text and a blank. */
  lemma ReadBare(p: string, argv: seq<string>, c: char)
    requires BareSoFar(p) && IsBlank(c) && EndParam(Scan(false, false, p, argv)).Ok?
    ensures Tokenize(Start(argv), p + [c]) == EndParam(Scan(false, false, p, argv))
  {
    hide Tokenize, EndParam;
    BareCollects("", p, argv, [c]);
    assert "" + p == p && [c] == [c] + "";
    TokenizeStep(Scan(false, false, p, argv), c, "");
    TokenizeNothing(EndParam(Scan(false, false, p, argv)).value);
  }

  lemma {:induction false} BareCollects(p: string, text: string, argv: seq<string>, rest: string)
    requires BareSoFar(text) && |p| + |text| < PARAM_SIZE
    ensures Tokenize(Scan(false, false, p, argv), text + rest) == Tokenize(Scan(false, false, p + text, argv), rest)
    decreases |text|
  {
    hide Tokenize, EndParam;
    if text == "" {
      assert text + rest == rest && p + text == p;
    } else {
      assert text + rest == [text[0]] + (text[1..] + rest) && p + text == (p + [text[0]]) + text[1..];
      TokenizeStep(Scan(false, false, p, argv), text[0], text[1..] + rest);
      BareCollects(p + [text[0]], text[1..], argv, rest);
    }
  }

  /** The first character, or the first two when it is a backslash. */
  lemma InQuotesFirst(raw: string)
    requires raw != "" && raw != "\\" && raw[0] != '"'
    ensures var k := if raw[0] == '\\' then 1 else 0;
      var rest := InQuotes(raw[k + 1..]);
      InQuotes(raw) == if rest.None? then None else Some([raw[k]] + rest.value)
  {
  }

  lemma InQuotesStart(raw: string)
    requires InQuotes(raw).Some? && raw != ""
    ensures raw != "\\" && raw[0] != '"'
  {
  }

  /** Adding to the text between quotes. */
  lemma {:induction false} InQuotesConcat(a: string, b: string)
    requires InQuotes(a).Some? && InQuotes(b).Some?
    ensures InQuotes(a + b) == Some(InQuotes(a).value + InQuotes(b).value)
    decreases |a|
  {
    hide InQuotes;
    if a == "" {
      NoRaw();
      assert a + b == b && "" + InQuotes(b).value == InQuotes(b).value;
    } else {
      InQuotesStart(a);
      var k := if a[0] == '\\' then 1 else 0;
      InQuotesFirst(a);
      InQuotesFirst(a + b);
      assert (a + b)[k + 1..] == a[k + 1..] + b && (a + b)[k] == a[k];
      InQuotesConcat(a[k + 1..], b);
      var u, v := InQuotes(a[k + 1..]).value, InQuotes(b).value;
      assert [a[k]] + (u + v) == ([a[k]] + u) + v;
    }
  }

  lemma InQuotesOne(piece: string)
    requires |piece| == 1 || (|piece| == 2 && piece[0] == '\\')
    requires |piece| == 1 ==> piece[0] != '"' && piece[0] != '\\'
    ensures InQuotes(piece) == Some([piece[|piece| - 1]])
  {
    assert piece[|piece|..] == "" && [piece[|piece| - 1]] + "" == [piece[|piece| - 1]];
    assert InQuotes("") == Some("");
  }

  /** Inside quotes, with the bare text and the quoted text `raw` read. */
  lemma {:induction false} QuotedOverflows(bare: string, raw: string, argv: seq<string>, line: string)
    requires BareSoFar(bare) && InQuotes(raw).Some? && |bare| + |InQuotes(raw).value| <= PARAM_SIZE
    requires Tokenize(Scan(true, false, bare + InQuotes(raw).value, argv), line) == Err(Overrun)
    ensures Overflows(argv, bare + (['"'] + (raw + line)))
    decreases |line|, 0
  {
    hide Tokenize, InQuotes, EndParam;
    var q := bare + InQuotes(raw).value;
    var s := Scan(true, false, q, argv);
    NothingRead(s, line);
    assert line == [line[0]] + line[1..];
    TokenizeStep(s, line[0], line[1..]);
    if line == "\\" {
      TokenizeNothing(s.(escaped := true));
    } else if |q| == PARAM_SIZE {
      OverflowHere(argv, bare, raw, line);
    } else if line[0] == '"' {
      ClosedOverflows(bare, raw, argv, line[1..]);
    } else {
      hide Overflows;
      var k := if line[0] == '\\' then 1 else 0;
      if k == 1 {
        assert line[1..] == [line[1]] + line[2..];
        TokenizeStep(s.(escaped := true), line[1], line[2..]);
      }
      var piece, more := line[..k + 1], line[k + 1..];
      InQuotesOne(piece);
      InQuotesConcat(raw, piece);
      assert bare + InQuotes(raw + piece).value == q + [line[k]];
      assert raw + line == (raw + piece) + more;
      QuotedOverflows(bare, raw + piece, argv, more);
    }
  }

  lemma OverflowHere(argv: seq<string>, bare: string, raw: string, rest: string)
    requires BareSoFar(bare) && InQuotes(raw).Some? && |bare| + |InQuotes(raw).value| == PARAM_SIZE
    requires rest != "" && rest != "\\"
    ensures Overflows(argv, bare + (['"'] + (raw + rest)))
  {
    hide InQuotes, Tokenize;
    var tail := bare + (['"'] + (raw + rest));
    assert "" + tail == tail;
    TokenizeNothing(Start(argv));
    assert OverflowsAt(argv, tail, "", bare, raw, rest);
  }

  /** The closing quote ends the argument; the overflow comes later. */
  lemma {:induction false} ClosedOverflows(bare: string, raw: string, argv: seq<string>, more: string)
    requires BareSoFar(bare) && InQuotes(raw).Some? && |bare| + |InQuotes(raw).value| < PARAM_SIZE
    requires Tokenize(Scan(true, false, bare + InQuotes(raw).value, argv), ['"'] + more) == Err(Overrun)
    ensures Overflows(argv, bare + (['"'] + (raw + (['"'] + more))))
    decreases |more|, 2
  {
    hide Tokenize, InQuotes, Overflows, EndParam;
    var q := bare + InQuotes(raw).value;
    TokenizeStep(Scan(true, false, q, argv), '"', more);
    EndKeeps(Scan(false, false, q, argv));
    var found := EndParam(Scan(false, false, q, argv)).value.argv;
    BareOverflows("", found, more);
    assert "" + more == more;
    var first := bare + (['"'] + (raw + ['"']));
    assert first + more == bare + (['"'] + (raw + (['"'] + more)));
    BareThenQuote("", bare, argv, raw + ['"']);
    assert "" + bare == bare && ['"'] == ['"'] + "";
    RawRead(bare, raw, argv, ['"']);
    TokenizeStep(Scan(true, false, q, argv), '"', "");
    TokenizeNothing(Start(found));
    BehindHead(argv, first, found, more);
  }

  lemma EndKeeps(s: Scan)
    requires !s.quoteOpen && !s.escaped && |s.param| < PARAM_SIZE
    ensures EndParam(s).Ok? ==> EndParam(s).value == Start(EndParam(s).value.argv)
    ensures EndParam(s) != Err(Overrun)
  {
  }

  /** A line writes past the buffer exactly when, before any other error, an argument with a quoted part
      fills the buffer and goes on or is closed. */
  lemma OverrunIff(argv: seq<string>, line: string)
    ensures Tokenize(Start(argv), line) == Err(Overrun) <==> Overflows(argv, line)
  {
    hide Tokenize, Overflows;
    if Tokenize(Start(argv), line) == Err(Overrun) {
      BareOverflows("", argv, line);
      assert "" + line == line;
    }
    if Overflows(argv, line) {
      OverflowsOverruns(argv, line);
    }
  }

  /** A line with a bare word, a quoted argument with escapes and a blank, and another word. */
  lemma ExampleLine()
    ensures Tokenize(Start([]), "-m \"a \\\"b\\\\\" c\n") == Ok(Start(["-m", "a \"b\\", "c"]))
  {
    var x, y, z := Bare("-m"), Quoted("a \"b\\"), Bare("c");
    var words := [x] + ([y] + [z]);
    ExampleEscape();
    ExampleAccepted();
    RenderNext(z, []);
    RenderNext(y, [z]);
    RenderNext(x, [y] + [z]);
    hide Escape, Render, Texts, Tokenize, Acceptable;
    assert [z] + [] == [z];
    assert Render([z]) == "c\n";
    assert Render([y] + [z]) == "\"a \\\"b\\\\\" c\n";
    assert Render(words) == "-m \"a \\\"b\\\\\" c\n";
    assert forall k :: 0 <= k < 3 ==> words[k] == x || words[k] == y || words[k] == z;
    TokenizeUndoesRender(words, []);
    assert [] + Texts(words) == Texts(words) == ["-m", "a \"b\\", "c"];
  }

  lemma RenderNext(w: Word, more: seq<Word>)
    ensures Render([w] + more) == WordThen(w, [if more == [] then '\n' else ' '] + Render(more))
    ensures Texts([w] + more) == [w.text] + Texts(more)
    ensures Render([]) == "" && Texts([]) == []
  {
    hide WordThen;
    assert ([w] + more)[1..] == more;
  }

  lemma ExampleAccepted()
    ensures Acceptable(Bare("-m")) && Acceptable(Quoted("a \"b\\")) && Acceptable(Bare("c"))
  {
    assert "-m"[1] != 't' && "a \"b\\"[0] != '-' && "c"[0] != '-';
  }

  lemma ExampleEscape()
    ensures Escape("a \"b\\") == "a \\\"b\\\\"
  {
    EscapeNext('\\', "");
    EscapeNext('b', "\\");
    EscapeNext('"', "b\\");
    EscapeNext(' ', "\"b\\");
    EscapeNext('a', " \"b\\");
    hide Escape;
    assert ['\\'] + "" == "\\" && ['b'] + "\\" == "b\\" && ['"'] + "b\\" == "\"b\\";
    assert [' '] + "\"b\\" == " \"b\\" && ['a'] + " \"b\\" == "a \"b\\";
  }

  lemma EscapeNext(c: char, rest: string)
    ensures Escape([c] + rest) == (if c == '"' || c == '\\' then ['\\', c] else [c]) + Escape(rest) && Escape("") == ""
  {
    assert ([c] + rest)[1..] == rest;
  }
}
