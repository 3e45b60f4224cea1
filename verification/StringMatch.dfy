/** The string match: its two printers, the parser of hex strings, and what survives a save and a
    restore. A pattern is a sequence of byte values. */
module StringMatch {
  import opened Common
  import Numbers
  import opened RestoreTokenizer

  const MAX_PATTERN_SIZE: nat := 128

  datatype HexError =
    | Empty | LiteralInHex | BadLiteral | OddDigits | InvalidBlock | InvalidHexChar | TooLongPattern

  datatype Parsed = Pattern(bytes: string) | Bad(error: HexError)

  predicate IsBytes(s: string) {
    forall k :: 0 <= k < |s| ==> s[k] as int < 256
  }

  predicate IsPrint(c: char) {
    ' ' <= c <= '~'
  }

  predicate IsHexDigit(c: char) {
    Numbers.DigitValue(c) < 16
  }

  // ---------------------------------------------------------------------------
  // Printing.

  /** A byte as two lower-case digits. */
  function HexPair(c: char): string
    requires c as int < 256
  {
    [Numbers.DigitChar(c as int / 16), Numbers.DigitChar(c as int % 16)]
  }

  function HexPairs(s: string): string
    requires IsBytes(s)
  {
    if s == "" then "" else HexPair(s[0]) + HexPairs(s[1..])
  }

  /** What stands between the quotes printed by print_hex_string. */
  function HexText(s: string): string
    requires IsBytes(s)
  {
    ['|'] + (HexPairs(s) + ['|'])
  }

  function EscapeQuotes(s: string): string {
    if s == "" then "" else (if s[0] == '"' then ['\\', '"'] else [s[0]]) + EscapeQuotes(s[1..])
  }

  /** Whether the pattern is printed in hex: some byte is not printable, or the last is a backslash. */
  predicate NeedsHex(s: string) {
    s != "" && ((exists k :: 0 <= k < |s| && !IsPrint(s[k])) || s[|s| - 1] == '\\')
  }

  lemma PrintIsHexPair(c: char)
    requires c as int < 256
    ensures (if c as int <= 0x0F then "0" + Numbers.Print(c as int, 16) else Numbers.Print(c as int, 16)) == HexPair(c)
  {
    hide Numbers.ValueOf, Numbers.AllDigits;
    var n := c as int;
    if n > 0x0F {
      assert Numbers.Print(n, 16) == Numbers.Print(n / 16, 16) + [Numbers.DigitChar(n % 16)];
      assert n / 16 < 16;
      assert Numbers.Print(n / 16, 16) == [Numbers.DigitChar(n / 16)];
    } else {
      assert n / 16 == 0 && n % 16 == n;
      assert Numbers.Print(n, 16) == [Numbers.DigitChar(n)];
    }
  }

  method PrintHexString(str: string) returns (out: string)
    requires IsBytes(str)
    ensures out == ['"'] + (HexText(str) + ['"', ' '])
  {
    hide HexPair;
    out := "\"|";
    var rest := str;
    while rest != ""
      invariant IsBytes(rest) && out + HexPairs(rest) == ['"', '|'] + HexPairs(str)
      decreases |rest|
    {
      PrintIsHexPair(rest[0]);
      var text := if rest[0] as int <= 0x0F then "0" + Numbers.Print(rest[0] as int, 16) else Numbers.Print(rest[0] as int, 16);
      assert out + (text + HexPairs(rest[1..])) == (out + text) + HexPairs(rest[1..]);
      out := out + text;
      rest := rest[1..];
    }
    assert out + "" == out;
    assert ['"'] + (HexText(str) + ['"', ' ']) == (['"', '|'] + HexPairs(str)) + ['|', '"', ' '];
    out := out + "|\" ";
  }

  method PrintString(str: string) returns (out: string)
    ensures out == " \"" + (EscapeQuotes(str) + ['"'])
  {
    out := " \"";
    var rest := str;
    while rest != ""
      invariant out + EscapeQuotes(rest) == " \"" + EscapeQuotes(str)
      decreases |rest|
    {
      var text := if rest[0] == '"' then ['\\', '"'] else [rest[0]];
      assert out + (text + EscapeQuotes(rest[1..])) == (out + text) + EscapeQuotes(rest[1..]);
      out := out + text;
      rest := rest[1..];
    }
    assert out + "" == out;
    out := out + "\"";
  }

  /** The scan for characters that need hex. After an empty pattern, whose last character it asks for
      all the same, it has read the byte `before` the pattern. */
  method IsHexString(str: string, before: char) returns (hex: bool)
    ensures hex == if str == "" then before == '\\' else NeedsHex(str)
  {
    var k := 0;
    while k < |str|
      invariant k <= |str| && forall j :: 0 <= j < k ==> IsPrint(str[j])
    {
      if !IsPrint(str[k]) {
        return true;
      }
      k := k + 1;
    }
    hex := (if |str| == 0 then before else str[|str| - 1]) == '\\';
  }

  // ---------------------------------------------------------------------------
  // Parsing.

  function ParseString(s: string): Parsed {
    if |s| <= MAX_PATTERN_SIZE then Pattern(s) else Bad(TooLongPattern)
  }

  function SpacesAt(s: string, i: nat): (n: nat)
    ensures i <= |s| ==> i + n <= |s|
    decreases |s| - i
  {
    if i < |s| && s[i] == ' ' then 1 + SpacesAt(s, i + 1) else 0
  }

  /** Where a '|' at `i` leads: whether hex mode is on then, and the next character, or None at the end. */
  function AfterBar(s: string, i: nat, hex: bool): (bool, nat)
    requires i < |s|
  {
    if hex then (false, i + 1) else (true, i + 1 + SpacesAt(s, i + 1))
  }

  datatype ByteRead = NoByte | Byte(value: char, width: nat)

  /** One byte from character `i`, and how many characters it takes. */
  function ByteAt(s: string, i: nat, hex: bool): (r: ByteRead)
    requires i < |s|
    ensures r.Byte? ==> r.width > 0
  {
    if !hex then Byte(s[i], 1)
    else if i + 2 >= |s| || !IsHexDigit(s[i]) || !IsHexDigit(s[i + 1]) then NoByte
    else Byte((16 * Numbers.DigitValue(s[i]) + Numbers.DigitValue(s[i + 1])) as char, if s[i + 2] == ' ' then 3 else 2)
  }

  function HexErrorAt(s: string, i: nat): HexError {
    if i + 1 >= |s| then OddDigits else if i + 2 >= |s| then InvalidBlock else InvalidHexChar
  }

  /** The rest of the loop from character `i`, with `pattern` read so far. */
  function ParseHexFrom(s: string, i: nat, hex: bool, pattern: string): Parsed
    decreases |s| - i
  {
    if i >= |s| then Pattern(pattern)
    else if s[i] == '\\' then
      if hex then Bad(LiteralInHex)
      else if i + 1 >= |s| then Bad(BadLiteral)
      else if |pattern| > MAX_PATTERN_SIZE then Bad(TooLongPattern)
      else ParseHexFrom(s, i + 2, false, pattern + [s[i + 1]])
    else
      var (hex', j) := if s[i] == '|' then AfterBar(s, i, hex) else (hex, i);
      if j >= |s| then Pattern(pattern)
      else
        var b := ByteAt(s, j, hex');
        if b.NoByte? then Bad(HexErrorAt(s, j))
        else if |pattern| > MAX_PATTERN_SIZE then Bad(TooLongPattern)
        else ParseHexFrom(s, j + b.width, hex', pattern + [b.value])
  }

  function ParseHexString(s: string): Parsed {
    if s == "" then Bad(Empty) else ParseHexFrom(s, 0, false, "")
  }

  /** The longest pattern that is accepted: one byte more than the pattern has cells. */
  lemma {:induction false} AcceptedLength(s: string, i: nat, hex: bool, read: string)
    requires ParseHexFrom(s, i, hex, read).Pattern? && |read| <= MAX_PATTERN_SIZE + 1
    ensures read <= ParseHexFrom(s, i, hex, read).bytes && |ParseHexFrom(s, i, hex, read).bytes| <= MAX_PATTERN_SIZE + 1
    decreases |s| - i
  {
    if i < |s| {
      if s[i] == '\\' {
        AcceptedLength(s, i + 2, false, read + [s[i + 1]]);
      } else {
        var (hex', j) := if s[i] == '|' then AfterBar(s, i, hex) else (hex, i);
        if j < |s| {
          var b := ByteAt(s, j, hex');
          AcceptedLength(s, j + b.width, hex', read + [b.value]);
        }
      }
    }
  }

  /** Text without bars and backslashes is a pattern as it stands, if it is not longer than that. */
  lemma {:induction false} PlainText(s: string, i: nat)
    requires i <= |s| && '|' !in s && '\\' !in s
    ensures ParseHexFrom(s, i, false, s[..i]) == if i == |s| || |s| <= MAX_PATTERN_SIZE + 1 then Pattern(s) else Bad(TooLongPattern)
    decreases |s| - i
  {
    if i == |s| {
      assert s[..i] == s;
    } else {
      assert s[i] != '|' && s[i] != '\\';
      assert s[..i + 1] == s[..i] + [s[i]];
      PlainText(s, i + 1);
    }
  }

  /** So 129 plain characters are accepted. */
  lemma PlainTextAccepted(s: string)
    requires s != "" && '|' !in s && '\\' !in s
    ensures ParseHexString(s) == Pattern(s) <==> |s| <= MAX_PATTERN_SIZE + 1
  {
    PlainText(s, 0);
  }

  /** A lone bar is accepted as an empty pattern, and so is a bar with spaces after it, and nothing else. */
  lemma EmptyPattern(s: string)
    ensures ParseHexString("|") == Pattern("")
    ensures ParseHexString(s) == Pattern("") <==> s != "" && s[0] == '|' && forall k :: 1 <= k < |s| ==> s[k] == ' '
  {
    EmptyFrom("|");
    EmptyFrom(s);
  }

  lemma EmptyFrom(s: string)
    ensures ParseHexString(s) == Pattern("") <==> s != "" && s[0] == '|' && forall k :: 1 <= k < |s| ==> s[k] == ' '
  {
    if s != "" {
      SpacesToEnd(s, 1);
      hide SpacesAt;
      var parsed := ParseHexFrom(s, 0, false, "");
      if s[0] == '\\' {
        if parsed.Pattern? {
          AcceptedLength(s, 2, false, "" + [s[1]]);
        }
      } else {
        var (hex, j) := if s[0] == '|' then AfterBar(s, 0, false) else (false, 0);
        if j < |s| && parsed.Pattern? {
          var b := ByteAt(s, j, hex);
          AcceptedLength(s, j + b.width, hex, "" + [b.value]);
        }
      }
    }
  }

  lemma {:induction false} SpacesToEnd(s: string, i: nat)
    requires i <= |s|
    ensures i + SpacesAt(s, i) == |s| <==> forall k :: i <= k < |s| ==> s[k] == ' '
    decreases |s| - i
  {
    if i < |s| && s[i] == ' ' {
      SpacesToEnd(s, i + 1);
    }
  }

  datatype Outcome = Stored | Rejected(error: HexError)

  /** The part of xt_string_info the parser writes: the pattern, and the two bytes that follow it. */
  class StringInfo {
    const pattern: array<char>
    var patlen: int
    var flags: int

    constructor ()
      ensures pattern.Length == MAX_PATTERN_SIZE && fresh(pattern)
    {
      pattern := new char[MAX_PATTERN_SIZE](_ => '\0');
      patlen, flags := 0, 0;
    }

    /** The cells hold the bytes read, as far as there are cells for them. */
    ghost predicate Filled(p: string)
      reads pattern
    {
      pattern.Length == MAX_PATTERN_SIZE && if |p| <= MAX_PATTERN_SIZE then pattern[..|p|] == p else pattern[..] <= p
    }

    /** The pattern is in its cells, with its length. */
    ghost predicate Holds(p: string)
      reads this`patlen, pattern
    {
      |p| <= pattern.Length && pattern[..|p|] == p && patlen == |p|
    }

    /** One byte, at an index not yet compared with the size: behind the last cell it lands in the
        length, and one further in the flags. */
    method Put(sindex: nat, c: char, ghost p: string)
      requires Filled(p) && sindex == |p|
      modifies this`patlen, this`flags, pattern
      ensures Filled(p + [c]) && (sindex <= MAX_PATTERN_SIZE ==> flags == old(flags))
    {
      if sindex < pattern.Length {
        pattern[sindex] := c;
        assert pattern[..sindex + 1] == p + [c];
        assert sindex + 1 == pattern.Length ==> pattern[..] == pattern[..sindex + 1];
      } else if sindex == pattern.Length {
        patlen := c as int;
        assert pattern[..] == pattern[..sindex] == p;
      } else {
        flags := c as int;
      }
    }

    /** The parsing loop. A pattern is accepted that has one byte more than there are cells; that byte
        is lost, and the length says it is there. */
    method ParseHex(s: string) returns (r: Outcome)
      requires pattern.Length == MAX_PATTERN_SIZE
      modifies this, pattern
      ensures var parsed := ParseHexString(s);
        if parsed.Bad? then r == Rejected(parsed.error)
        else
          && r == Stored && flags == old(flags) && patlen == |parsed.bytes| && Filled(parsed.bytes)
          && (Holds(parsed.bytes) <==> |parsed.bytes| < 129)
    {
      if |s| == 0 {
        return Rejected(Empty);
      }
      hide Filled, Holds, HexErrorAt, AfterBar, ByteAt, ParseHexString;
      assert ParseHexString(s) == ParseHexFrom(s, 0, false, "") by {
        ParseStart(s);
      }
      var i, hexF, literalF, sindex := 0, false, false, 0;
      ghost var read := "";
      assert Filled(read) by {
        Nothing();
      }
      while i < |s|
        invariant !literalF && sindex == |read| <= MAX_PATTERN_SIZE + 1 && Filled(read) && flags == old(flags)
        invariant ParseHexFrom(s, i, hexF, read) == ParseHexString(s)
        decreases |s| - i
      {
        if s[i] == '\\' && !hexF {
          literalF := true;
        } else if s[i] == '\\' {
          return Rejected(LiteralInHex);
        } else if s[i] == '|' {
          hexF, i := PassBar(s, i, hexF);
          if i >= |s| {
            break;
          }
        }
        var byte;
        if literalF {
          if i + 1 >= |s| {
            return Rejected(BadLiteral);
          }
          byte := s[i + 1];
          i := i + 2;
          literalF := false;
        } else {
          var b, error := ReadByte(s, i, hexF);
          if b.NoByte? {
            return Rejected(error);
          }
          byte := b.value;
          i := i + b.width;
        }
        Put(sindex, byte, read);
        if sindex > MAX_PATTERN_SIZE {
          return Rejected(TooLongPattern);
        }
        sindex := sindex + 1;
        read := read + [byte];
      }
      patlen := sindex;
      FilledHolds(read);
      r := Stored;
    }

    lemma Nothing()
      requires pattern.Length == MAX_PATTERN_SIZE
      ensures Filled("")
    {
    }

    lemma FilledHolds(p: string)
      requires Filled(p) && patlen == |p|
      ensures Holds(p) <==> |p| <= MAX_PATTERN_SIZE
    {
    }
  }

  lemma ParseStart(s: string)
    requires s != ""
    ensures ParseHexString(s) == ParseHexFrom(s, 0, false, "")
  {
  }

  /** A bar switches hex mode; blanks after it are skipped when it switches it on. */
  method PassBar(s: string, i: nat, hexF: bool) returns (hex: bool, j: nat)
    requires i < |s|
    ensures (hex, j) == AfterBar(s, i, hexF)
  {
    hex, j := !hexF, i;
    if hex {
      j := SkipSpaces(s, i);
    }
    j := j + 1;
  }

  /** A character as it is, or in hex mode two hex digits, which must not end the text, and the blank that
      may follow them. */
  method ReadByte(s: string, i: nat, hex: bool) returns (b: ByteRead, error: HexError)
    requires i < |s|
    ensures b == ByteAt(s, i, hex) && (b.NoByte? ==> error == HexErrorAt(s, i))
  {
    b, error := NoByte, InvalidHexChar;
    if !hex {
      b := Byte(s[i], 1);
    } else if i + 1 >= |s| {
      error := OddDigits;
    } else if i + 2 >= |s| {
      error := InvalidBlock;
    } else if IsHexDigit(s[i]) && IsHexDigit(s[i + 1]) {
      var value := (16 * Numbers.DigitValue(s[i]) + Numbers.DigitValue(s[i + 1])) as char;
      b := Byte(value, if s[i + 2] == ' ' then 3 else 2);
    }
  }

  /** Blanks after a bar are skipped: `j` is the last of them, or the bar. */
  method SkipSpaces(s: string, i: nat) returns (j: nat)
    requires i < |s|
    ensures j == i + SpacesAt(s, i + 1) < |s|
  {
    j := i;
    while j + 1 < |s| && s[j + 1] == ' '
      invariant i <= j < |s| && j + SpacesAt(s, j + 1) == i + SpacesAt(s, i + 1)
    {
      j := j + 1;
    }
  }

  // ---------------------------------------------------------------------------
  // The language of hex strings.

  /** Two hex digits and perhaps a blank. */
  datatype Pair = Pair(high: char, low: char, blank: bool)

  /** A character that stands for itself; a backslash and any character; a block of pairs between bars, with
      blanks after the first bar, and the character after the second one, which is always read as it is. */
  datatype HexPiece = Plain(c: char) | Literal(c: char) | Block(blanks: nat, pairs: seq<Pair>, after: char)

  /** How a text can end: after a piece, with a bar and blanks, or with a block that is closed or that stops
      after the blank of a pair. */
  datatype HexEnd = Finished | OpenBar(blanks: nat) | Stopped(blanks: nat, pairs: seq<Pair>) | Closed(blanks: nat, pairs: seq<Pair>)

  datatype HexWords = HexWords(pieces: seq<HexPiece>, end: HexEnd)

  predicate ValidPair(p: Pair) {
    IsHexDigit(p.high) && IsHexDigit(p.low)
  }

  predicate ValidPairs(pairs: seq<Pair>) {
    pairs != [] && forall k :: 0 <= k < |pairs| ==> ValidPair(pairs[k])
  }

  predicate ValidPiece(piece: HexPiece) {
    match piece
    case Plain(c) => c != '|' && c != '\\'
    case Literal(_) => true
    case Block(_, pairs, _) => ValidPairs(pairs)
  }

  predicate ValidEnd(end: HexEnd) {
    match end
    case Stopped(_, pairs) => ValidPairs(pairs) && pairs[|pairs| - 1].blank
    case Closed(_, pairs) => ValidPairs(pairs)
    case _ => true
  }

  predicate ValidWords(t: HexWords) {
    ValidEnd(t.end) && forall k :: 0 <= k < |t.pieces| ==> ValidPiece(t.pieces[k])
  }

  function Blanks(n: nat): (s: string)
    ensures |s| == n
  {
    seq(n, _ => ' ')
  }

  function PairText(p: Pair): string {
    if p.blank then [p.high, p.low, ' '] else [p.high, p.low]
  }

  function PairsThen(pairs: seq<Pair>, rest: string): string {
    if pairs == [] then rest else PairText(pairs[0]) + PairsThen(pairs[1..], rest)
  }

  /** A bar, blanks and pairs. */
  function BarThen(blanks: nat, pairs: seq<Pair>, rest: string): string {
    ['|'] + (Blanks(blanks) + PairsThen(pairs, rest))
  }

  function PieceThen(piece: HexPiece, rest: string): string {
    match piece
    case Plain(c) => [c] + rest
    case Literal(c) => ['\\', c] + rest
    case Block(n, pairs, after) => BarThen(n, pairs, ['|', after] + rest)
  }

  function EndText(end: HexEnd): string {
    match end
    case Finished => ""
    case OpenBar(n) => BarThen(n, [], "")
    case Stopped(n, pairs) => BarThen(n, pairs, "")
    case Closed(n, pairs) => BarThen(n, pairs, "|")
  }

  function WordsText(t: HexWords): string
    decreases |t.pieces|
  {
    if t.pieces == [] then EndText(t.end) else PieceThen(t.pieces[0], WordsText(HexWords(t.pieces[1..], t.end)))
  }

  function PairBytes(pairs: seq<Pair>): string {
    if pairs == [] then ""
    else [(16 * Numbers.DigitValue(pairs[0].high) + Numbers.DigitValue(pairs[0].low)) as char] + PairBytes(pairs[1..])
  }

  function PieceBytes(piece: HexPiece): string {
    match piece
    case Plain(c) => [c]
    case Literal(c) => [c]
    case Block(_, pairs, after) => PairBytes(pairs) + [after]
  }

  function EndBytes(end: HexEnd): string {
    match end
    case Stopped(_, pairs) => PairBytes(pairs)
    case Closed(_, pairs) => PairBytes(pairs)
    case _ => ""
  }

  /** What a text stands for. */
  function WordsBytes(t: HexWords): string
    decreases |t.pieces|
  {
    if t.pieces == [] then EndBytes(t.end) else PieceBytes(t.pieces[0]) + WordsBytes(HexWords(t.pieces[1..], t.end))
  }

  /** The result for all of these bytes. */
  function IfFits(bytes: string): Parsed {
    if |bytes| <= MAX_PATTERN_SIZE + 1 then Pattern(bytes) else Bad(TooLongPattern)
  }

  // Reading from a place in the text.

  lemma {:induction false} SpacesAre(s: string, i: nat, n: nat, rest: string)
    requires i <= |s| && s[i..] == Blanks(n) + rest && (rest == "" || rest[0] != ' ')
    ensures SpacesAt(s, i) == n && i + n <= |s| && s[i + n..] == rest
    decreases n
  {
    assert |s[i..]| == n + |rest|;
    if n == 0 {
      assert s[i..] == rest;
      assert rest != "" ==> s[i] == rest[0];
    } else {
      assert s[i] == s[i..][0] == ' ';
      assert s[i + 1..] == s[i..][1..] == Blanks(n - 1) + rest;
      SpacesAre(s, i + 1, n - 1, rest);
    }
  }

  lemma {:induction false} SpacesShow(s: string, i: nat)
    requires i <= |s|
    ensures var n := SpacesAt(s, i); i + n <= |s| && s[i..] == Blanks(n) + s[i + n..] && (i + n < |s| ==> s[i + n] != ' ')
    decreases |s| - i
  {
    if i < |s| && s[i] == ' ' {
      SpacesShow(s, i + 1);
      var n := SpacesAt(s, i);
      assert Blanks(n) == [' '] + Blanks(n - 1);
      assert s[i..] == [s[i]] + s[i + 1..];
    } else {
      assert s[i..] == Blanks(0) + s[i..];
    }
  }

  /** One step in hex mode on two digits. */
  lemma HexStep(s: string, i: nat, read: string, p: Pair, rest: string)
    requires i <= |s| && s[i..] == PairText(p) + rest
    requires ValidPair(p) && (p.blank || (rest != "" && rest[0] != ' ')) && |read| <= MAX_PATTERN_SIZE + 1
    ensures var j, all := |s| - |rest|, read + PairBytes([p]);
      && 0 <= j <= |s| && s[j..] == rest && i < j
      && ParseHexFrom(s, i, true, read) == if |all| <= MAX_PATTERN_SIZE + 1 then ParseHexFrom(s, j, true, all) else Bad(TooLongPattern)
  {
    hide Numbers.DigitValue;
    var u, w := s[i..], |PairText(p)|;
    assert u[w..] == rest && u[0] == p.high && u[1] == p.low;
    assert u[2] == if p.blank then ' ' else rest[0];
    assert s[i] == u[0] && s[i + 1] == u[1] && s[i + 2] == u[2] && s[i + w..] == u[w..];
    DigitsAreNoMarks(p.high);
    OnePair(p);
    assert ByteAt(s, i, true) == Byte(PairBytes([p])[0], w);
    hide ByteAt, ValidPair, PairBytes;
    assert read + PairBytes([p]) == read + [PairBytes([p])[0]];
  }

  lemma DigitsAreNoMarks(c: char)
    requires IsHexDigit(c)
    ensures c != '|' && c != '\\' && c != ' '
  {
  }

  /** The rest stays where it is. */
  lemma {:induction false} PairsEnd(pairs: seq<Pair>, rest: string)
    ensures var t := PairsThen(pairs, rest); |t| >= |rest| + 2 * |pairs| && t[|t| - |rest|..] == rest
  {
    if pairs != [] {
      PairsEnd(pairs[1..], rest);
      TailOfTail(PairText(pairs[0]), PairsThen(pairs[1..], rest), rest);
    }
  }

  lemma TailOfTail(front: string, t: string, rest: string)
    requires |t| >= |rest| && t[|t| - |rest|..] == rest
    ensures var u := front + t; u[|u| - |rest|..] == rest
  {
    var u := front + t;
    assert u[|u| - |rest|..] == t[|t| - |rest|..];
  }

  lemma RestStays(s: string, i: nat, t: string, rest: string)
    requires i <= |s| && s[i..] == t && |t| >= |rest| && t[|t| - |rest|..] == rest
    ensures |s| >= |rest| + i && s[|s| - |rest|..] == rest
  {
    assert |t| == |s| - i;
    assert s[|s| - |rest|..] == s[i..][|t| - |rest|..];
  }

  lemma PairsNext(pairs: seq<Pair>, rest: string)
    requires ValidPairs(pairs)
    ensures pairs != []
    ensures var p, more := pairs[0], pairs[1..];
      && ValidPair(p) && pairs == [p] + more && (more != [] ==> ValidPairs(more) && pairs[|pairs| - 1] == more[|more| - 1])
      && PairsThen(pairs, rest) == PairText(p) + PairsThen(more, rest)
      && PairBytes(pairs) == PairBytes([p]) + PairBytes(more)
  {
    hide ValidPair;
    OnePair(pairs[0]);
    hide Numbers.DigitValue;
  }

  /** The pairs of a block. */
  lemma {:induction false} PairsAre(s: string, i: nat, read: string, pairs: seq<Pair>, rest: string)
    requires i <= |s| && s[i..] == PairsThen(pairs, rest) && ValidPairs(pairs) && |read| <= MAX_PATTERN_SIZE + 1
    requires if rest == "" then pairs[|pairs| - 1].blank else rest[0] == '|'
    ensures var j, all := |s| - |rest|, read + PairBytes(pairs);
      && 0 <= j <= |s| && s[j..] == rest
      && ParseHexFrom(s, i, true, read) == if |all| <= MAX_PATTERN_SIZE + 1 then ParseHexFrom(s, j, true, all) else Bad(TooLongPattern)
    decreases |pairs|
  {
    hide ParseHexFrom, PairsThen, PairText, PairBytes, ValidPairs, ValidPair;
    PairsEnd(pairs, rest);
    RestStays(s, i, PairsThen(pairs, rest), rest);
    PairsNext(pairs, rest);
    var p, more := pairs[0], pairs[1..];
    if more != [] {
      PairsStart(more, rest);
    }
    NoPairs();
    NoBytes();
    var tail := PairsThen(more, rest);
    HexStep(s, i, read, p, tail);
    var all := read + PairBytes([p]);
    Regroup(read, PairBytes([p]), PairBytes(more));
    if more == [] {
      assert all + "" == all;
    } else if |all| <= MAX_PATTERN_SIZE + 1 {
      PairsAre(s, |s| - |tail|, all, more, rest);
    }
  }

  lemma Regroup(a: string, b: string, c: string)
    ensures a + (b + c) == (a + b) + c
  {
  }

  lemma NoBytes()
    ensures PairBytes([]) == ""
  {
  }

  lemma OnePair(p: Pair)
    ensures PairBytes([p]) == [(16 * Numbers.DigitValue(p.high) + Numbers.DigitValue(p.low)) as char]
  {
    assert [p][1..] == [];
  }

  /** A bar before a block: what follows the blanks is read in hex mode. */
  lemma BarOpens(s: string, i: nat, read: string, n: nat, rest: string)
    requires i <= |s| && s[i..] == ['|'] + (Blanks(n) + rest) && rest != "" && rest[0] != ' ' && rest[0] != '|' && rest[0] != '\\'
    ensures var j := i + 1 + n;
      j < |s| && s[j..] == rest && ParseHexFrom(s, i, false, read) == ParseHexFrom(s, j, true, read)
  {
    hide ByteAt, HexErrorAt, SpacesAt;
    assert s[i] == s[i..][0] && s[i + 1..] == s[i..][1..];
    SpacesAre(s, i + 1, n, rest);
    var j := i + 1 + n;
    assert s[j] == rest[0];
    ByteWidth(s, j);
  }

  lemma ByteWidth(s: string, i: nat)
    requires i < |s|
    ensures ByteAt(s, i, true).Byte? ==> ByteAt(s, i, true).width > 0
  {
  }

  /** A bar and blanks at the end. */
  lemma BarEnds(s: string, i: nat, read: string, n: nat)
    requires i <= |s| && s[i..] == ['|'] + Blanks(n)
    ensures ParseHexFrom(s, i, false, read) == Pattern(read)
  {
    hide SpacesAt;
    assert s[i] == s[i..][0] && s[i + 1..] == s[i..][1..] == Blanks(n) + "";
    SpacesAre(s, i + 1, n, "");
  }

  /** The bar that closes a block, with the character after it, if any. */
  lemma BarCloses(s: string, i: nat, read: string)
    requires i < |s| && s[i] == '|' && |read| <= MAX_PATTERN_SIZE + 1
    ensures ParseHexFrom(s, i, true, read)
      == if i + 1 == |s| then Pattern(read)
         else if |read| <= MAX_PATTERN_SIZE then ParseHexFrom(s, i + 2, false, read + [s[i + 1]])
         else Bad(TooLongPattern)
  {
  }

  /** One piece. */
  lemma PieceRead(s: string, i: nat, read: string, piece: HexPiece, rest: string)
    requires i <= |s| && s[i..] == PieceThen(piece, rest) && ValidPiece(piece) && |read| <= MAX_PATTERN_SIZE + 1
    ensures var j, all := |s| - |rest|, read + PieceBytes(piece);
      && i < j <= |s| && s[j..] == rest
      && ParseHexFrom(s, i, false, read) == if |all| <= MAX_PATTERN_SIZE + 1 then ParseHexFrom(s, j, false, all) else Bad(TooLongPattern)
  {
    var u := s[i..];
    match piece
    case Plain(c) =>
      assert s[i] == u[0] && s[i + 1..] == u[1..] == rest;
    case Literal(c) =>
      assert s[i] == u[0] && s[i + 1] == u[1] && s[i + 2..] == u[2..] == rest;
    case Block(n, pairs, after) =>
      BlockRead(s, i, read, n, pairs, after, rest);
      Regroup(read, PairBytes(pairs), [after]);
  }

  lemma BlockRead(s: string, i: nat, read: string, n: nat, pairs: seq<Pair>, after: char, rest: string)
    requires i <= |s| && s[i..] == BarThen(n, pairs, ['|', after] + rest) && ValidPairs(pairs) && |read| <= MAX_PATTERN_SIZE + 1
    ensures var j, all := |s| - |rest|, (read + PairBytes(pairs)) + [after];
      && i < j <= |s| && s[j..] == rest
      && ParseHexFrom(s, i, false, read) == if |all| <= MAX_PATTERN_SIZE + 1 then ParseHexFrom(s, j, false, all) else Bad(TooLongPattern)
  {
    hide ParseHexFrom, PairBytes, PairsThen, ValidPairs, Blanks;
    var tail := ['|', after] + rest;
    PairsStart(pairs, tail);
    BarOpens(s, i, read, n, PairsThen(pairs, tail));
    PairsAre(s, i + 1 + n, read, pairs, tail);
    PairsEnd(pairs, tail);
    RestStays(s, i + 1 + n, PairsThen(pairs, tail), tail);
    CloseBlock(s, |s| - |tail|, read + PairBytes(pairs), after, rest);
  }

  lemma CloseBlock(s: string, j: nat, all: string, after: char, rest: string)
    requires j <= |s| && s[j..] == ['|', after] + rest
    ensures var k := |s| - |rest|;
      && j < k <= |s| && s[k..] == rest
      && (|all| <= MAX_PATTERN_SIZE + 1 ==>
          ParseHexFrom(s, j, true, all)
            == if |all + [after]| <= MAX_PATTERN_SIZE + 1 then ParseHexFrom(s, k, false, all + [after]) else Bad(TooLongPattern))
  {
    hide ParseHexFrom;
    BarAndAfter(s, j, after, rest);
    if |all| <= MAX_PATTERN_SIZE + 1 {
      BarCloses(s, j, all);
    }
  }

  lemma BarAndAfter(s: string, j: nat, after: char, rest: string)
    requires j <= |s| && s[j..] == ['|', after] + rest
    ensures j + 2 + |rest| == |s| && s[j] == '|' && s[j + 1] == after && s[j + 2..] == rest
  {
    assert s[j] == s[j..][0] && s[j + 1] == s[j..][1] && s[j + 2..] == s[j..][2..];
  }

  lemma PairsStart(pairs: seq<Pair>, rest: string)
    requires ValidPairs(pairs)
    ensures var t := PairsThen(pairs, rest); t != "" && t[0] != ' ' && t[0] != '|' && t[0] != '\\'
  {
    DigitsAreNoMarks(pairs[0].high);
  }

  lemma EndRead(s: string, i: nat, read: string, end: HexEnd)
    requires i <= |s| && s[i..] == EndText(end) && ValidEnd(end) && |read| <= MAX_PATTERN_SIZE + 1
    ensures ParseHexFrom(s, i, false, read) == IfFits(read + EndBytes(end))
  {
    hide PairBytes, IsHexDigit;
    match end
    case Finished =>
      assert read + "" == read;
    case OpenBar(n) =>
      assert Blanks(n) + PairsThen([], "") == Blanks(n) && read + "" == read;
      BarEnds(s, i, read, n);
    case Stopped(n, pairs) => LastBlock(s, i, read, n, pairs, "");
    case Closed(n, pairs) => LastBlock(s, i, read, n, pairs, "|");
  }

  lemma LastBlock(s: string, i: nat, read: string, n: nat, pairs: seq<Pair>, rest: string)
    requires i <= |s| && s[i..] == BarThen(n, pairs, rest) && ValidPairs(pairs) && |read| <= MAX_PATTERN_SIZE + 1
    requires (rest == "" && pairs[|pairs| - 1].blank) || rest == "|"
    ensures ParseHexFrom(s, i, false, read) == IfFits(read + PairBytes(pairs))
  {
    hide ParseHexFrom, PairBytes, PairsThen, ValidPairs, Blanks;
    PairsStart(pairs, rest);
    BarOpens(s, i, read, n, PairsThen(pairs, rest));
    PairsAre(s, i + 1 + n, read, pairs, rest);
    var j, all := |s| - |rest|, read + PairBytes(pairs);
    if |all| <= MAX_PATTERN_SIZE + 1 {
      if rest == "" {
        ReadEnd(s, j, all);
      } else {
        assert s[j] == s[j..][0];
        BarCloses(s, j, all);
      }
    }
  }

  lemma ReadEnd(s: string, i: nat, read: string)
    requires i >= |s|
    ensures forall hex :: ParseHexFrom(s, i, hex, read) == Pattern(read)
  {
  }

  lemma {:induction false} WordsRead(s: string, i: nat, read: string, t: HexWords)
    requires i <= |s| && s[i..] == WordsText(t) && ValidWords(t) && |read| <= MAX_PATTERN_SIZE + 1
    ensures ParseHexFrom(s, i, false, read) == IfFits(read + WordsBytes(t))
    decreases |t.pieces|
  {
    hide ParseHexFrom, PieceBytes, PieceThen, EndText, EndBytes, ValidPiece, ValidEnd;
    if t.pieces == [] {
      EndRead(s, i, read, t.end);
    } else {
      var piece, more := t.pieces[0], HexWords(t.pieces[1..], t.end);
      PieceRead(s, i, read, piece, WordsText(more));
      var all := read + PieceBytes(piece);
      assert read + WordsBytes(t) == all + WordsBytes(more);
      if |all| <= MAX_PATTERN_SIZE + 1 {
        WordsRead(s, |s| - |WordsText(more)|, all, more);
      }
    }
  }

  // Whatever is accepted is such a text.

  /** What follows the pairs of a block. */
  datatype BlockTail = Stops | Closes | GoesOn(after: char, words: HexWords)

  function TailText(tail: BlockTail): string {
    match tail
    case Stops => ""
    case Closes => "|"
    case GoesOn(after, words) => ['|', after] + WordsText(words)
  }

  function TailBytes(tail: BlockTail): string {
    if tail.GoesOn? then [tail.after] + WordsBytes(tail.words) else ""
  }

  predicate ValidTail(tail: BlockTail) {
    tail.GoesOn? ==> ValidWords(tail.words)
  }

  lemma {:induction false} AcceptedWords(s: string, i: nat, read: string) returns (t: HexWords)
    requires i <= |s| && ParseHexFrom(s, i, false, read).Pattern?
    ensures ValidWords(t) && s[i..] == WordsText(t) && ParseHexFrom(s, i, false, read).bytes == read + WordsBytes(t)
    decreases |s| - i, 1
  {
    hide ParseHexFrom, WordsText, WordsBytes, ValidWords;
    if i == |s| {
      t := HexWords([], Finished);
      EndWords(Finished);
      ReadEnd(s, i, read);
      assert s[i..] == "" && read + "" == read;
    } else if s[i] == '|' {
      t := AcceptedBlock(s, i, read);
    } else {
      PieceHere(s, i, read);
      var k := if s[i] == '\\' then 1 else 0;
      var c := s[i + k];
      var more := AcceptedWords(s, i + k + 1, read + [c]);
      t := AddPiece(if k == 1 then Literal(c) else Plain(c), more);
      assert s[i..] == s[i..i + k + 1] + s[i + k + 1..];
      assert k == 1 ==> s[i..i + 2] == ['\\', c];
      assert (read + [c]) + WordsBytes(more) == read + ([c] + WordsBytes(more));
    }
  }

  lemma EndWords(end: HexEnd)
    requires ValidEnd(end)
    ensures var t := HexWords([], end); ValidWords(t) && WordsText(t) == EndText(end) && WordsBytes(t) == EndBytes(end)
  {
    hide EndText, EndBytes;
  }

  /** A plain or a literal character. */
  lemma PieceHere(s: string, i: nat, read: string)
    requires i < |s| && s[i] != '|' && ParseHexFrom(s, i, false, read).Pattern?
    ensures var k := if s[i] == '\\' then 1 else 0;
      i + k < |s| && ParseHexFrom(s, i, false, read) == ParseHexFrom(s, i + k + 1, false, read + [s[i + k]])
  {
  }

  lemma AddPiece(piece: HexPiece, more: HexWords) returns (t: HexWords)
    requires ValidPiece(piece) && ValidWords(more)
    ensures ValidWords(t) && WordsText(t) == PieceThen(piece, WordsText(more)) && WordsBytes(t) == PieceBytes(piece) + WordsBytes(more)
  {
    hide ValidPiece, PieceThen, PieceBytes, ValidEnd;
    t := HexWords([piece] + more.pieces, more.end);
    assert t.pieces[1..] == more.pieces && HexWords(t.pieces[1..], t.end) == more;
  }

  /** From a bar on. */
  lemma {:induction false} AcceptedBlock(s: string, i: nat, read: string) returns (t: HexWords)
    requires i < |s| && s[i] == '|' && ParseHexFrom(s, i, false, read).Pattern?
    ensures ValidWords(t) && s[i..] == WordsText(t) && ParseHexFrom(s, i, false, read).bytes == read + WordsBytes(t)
    decreases |s| - i, 0
  {
    hide ParseHexFrom, WordsText, WordsBytes, ValidWords, PairsThen, PairBytes, TailText, TailBytes, SpacesAt, ValidPair, IsHexDigit;
    SpacesShow(s, i + 1);
    var n := SpacesAt(s, i + 1);
    var j := i + 1 + n;
    assert s[i..] == ['|'] + s[i + 1..] == ['|'] + (Blanks(n) + s[j..]);
    if j == |s| {
      t := HexWords([], OpenBar(n));
      EndWords(OpenBar(n));
      assert Blanks(n) + s[j..] == Blanks(n);
      BarEnds(s, i, read, n);
      NoPairs();
      assert s[j..] == "" && read + "" == read;
    } else {
      OpenReads(s, i, read);
      var pairs, tail := AcceptedPairs(s, j, read);
      PairsNeeded(s, j, pairs, tail);
      t := BlockWords(n, pairs, tail);
      assert (read + PairBytes(pairs)) + TailBytes(tail) == read + (PairBytes(pairs) + TailBytes(tail));
    }
  }

  lemma NoPairs()
    ensures forall rest :: PairsThen([], rest) == rest
  {
  }

  /** An accepted text has a digit after a bar and its blanks. */
  lemma OpenReads(s: string, i: nat, read: string)
    requires i < |s| && s[i] == '|' && ParseHexFrom(s, i, false, read).Pattern?
    requires var j := i + 1 + SpacesAt(s, i + 1); j < |s| && s[j] != ' '
    ensures var j := i + 1 + SpacesAt(s, i + 1);
      s[j] != '|' && IsHexDigit(s[j]) && ParseHexFrom(s, j, true, read) == ParseHexFrom(s, i, false, read)
  {
    hide SpacesAt, Numbers.DigitValue;
    var j := i + 1 + SpacesAt(s, i + 1);
    assert IsHexDigit(s[j]);
    DigitsAreNoMarks(s[j]);
  }

  lemma PairsNeeded(s: string, j: nat, pairs: seq<Pair>, tail: BlockTail)
    requires j < |s| && s[j] != '|' && s[j..] == PairsThen(pairs, TailText(tail))
    ensures pairs != []
  {
    TailStarts(tail);
    hide TailText;
    assert s[j..] != "" && s[j..][0] == s[j];
  }

  lemma TailStarts(tail: BlockTail)
    ensures TailText(tail) == "" || TailText(tail)[0] == '|'
  {
    hide WordsText;
  }

  /** From inside a block on, with no pair or some read. */
  lemma {:induction false} AcceptedPairs(s: string, i: nat, read: string) returns (pairs: seq<Pair>, tail: BlockTail)
    requires i <= |s| && ParseHexFrom(s, i, true, read).Pattern?
    ensures ValidTail(tail) && s[i..] == PairsThen(pairs, TailText(tail))
    ensures ParseHexFrom(s, i, true, read).bytes == (read + PairBytes(pairs)) + TailBytes(tail)
    ensures forall k :: 0 <= k < |pairs| ==> ValidPair(pairs[k])
    ensures tail.Stops? && pairs != [] ==> pairs[|pairs| - 1].blank
    decreases |s| - i, 1
  {
    hide ParseHexFrom, WordsText, WordsBytes, ValidWords, ValidPair;
    if i == |s| {
      pairs, tail := [], Stops;
      ReadEnd(s, i, read);
      assert s[i..] == "" && (read + "") + "" == read;
    } else if s[i] == '|' {
      pairs := [];
      assert read + "" == read;
      AfterClose(s, i, read);
      if i + 1 == |s| {
        tail := Closes;
        assert s[i..] == "|" && read + "" == read;
      } else {
        var words := AcceptedWords(s, i + 2, read + [s[i + 1]]);
        tail := GoesOn(s[i + 1], words);
        assert s[i..] == ['|', s[i + 1]] + s[i + 2..];
        assert (read + [s[i + 1]]) + WordsBytes(words) == read + ([s[i + 1]] + WordsBytes(words));
      }
    } else {
      pairs, tail := AcceptedPair(s, i, read);
    }
  }

  lemma AfterClose(s: string, i: nat, read: string)
    requires i < |s| && s[i] == '|' && ParseHexFrom(s, i, true, read).Pattern?
    ensures ParseHexFrom(s, i, true, read)
      == if i + 1 == |s| then Pattern(read) else ParseHexFrom(s, i + 2, false, read + [s[i + 1]])
  {
  }

  lemma {:induction false} AcceptedPair(s: string, i: nat, read: string) returns (pairs: seq<Pair>, tail: BlockTail)
    requires i < |s| && s[i] != '|' && ParseHexFrom(s, i, true, read).Pattern?
    ensures ValidTail(tail) && s[i..] == PairsThen(pairs, TailText(tail))
    ensures ParseHexFrom(s, i, true, read).bytes == (read + PairBytes(pairs)) + TailBytes(tail)
    ensures forall k :: 0 <= k < |pairs| ==> ValidPair(pairs[k])
    ensures tail.Stops? && pairs != [] ==> pairs[|pairs| - 1].blank
    decreases |s| - i, 0
  {
    hide ParseHexFrom, TailText, TailBytes, ValidTail, PairsThen, PairBytes, ValidPair;
    PairHere(s, i, read);
    var p := Pair(s[i], s[i + 1], s[i + 2] == ' ');
    var w := if p.blank then 3 else 2;
    var all := read + PairBytes([p]);
    var more;
    more, tail := AcceptedPairs(s, i + w, all);
    pairs := [p] + more;
    PairsCons(p, more, TailText(tail));
    assert s[i..] == s[i..i + w] + s[i + w..] && s[i..i + w] == PairText(p);
    assert all + PairBytes(more) == read + PairBytes(pairs);
    if more == [] && tail.Stops? {
      StopsAtEnd(s, i + w, more, tail);
    }
  }

  lemma PairsCons(p: Pair, more: seq<Pair>, rest: string)
    ensures PairBytes([p] + more) == PairBytes([p]) + PairBytes(more)
    ensures PairsThen([p] + more, rest) == PairText(p) + PairsThen(more, rest)
  {
    assert ([p] + more)[1..] == more;
    OnePair(p);
    hide Numbers.DigitValue;
  }

  lemma PairHere(s: string, i: nat, read: string)
    requires i < |s| && s[i] != '|' && ParseHexFrom(s, i, true, read).Pattern?
    ensures i + 2 < |s|
    ensures var p, w := Pair(s[i], s[i + 1], s[i + 2] == ' '), if s[i + 2] == ' ' then 3 else 2;
      ValidPair(p) && ParseHexFrom(s, i, true, read) == ParseHexFrom(s, i + w, true, read + PairBytes([p]))
  {
    hide Numbers.DigitValue;
    OnePair(Pair(s[i], s[i + 1], s[i + 2] == ' '));
  }

  lemma StopsAtEnd(s: string, j: nat, more: seq<Pair>, tail: BlockTail)
    requires j <= |s| && s[j..] == PairsThen(more, TailText(tail)) && more == [] && tail.Stops?
    ensures j == |s|
  {
  }

  /** A block and what follows it, as words. */
  lemma BlockWords(n: nat, pairs: seq<Pair>, tail: BlockTail) returns (t: HexWords)
    requires ValidTail(tail) && ValidPairs(pairs) && (tail.Stops? ==> pairs[|pairs| - 1].blank)
    ensures ValidWords(t) && WordsText(t) == BarThen(n, pairs, TailText(tail)) && WordsBytes(t) == PairBytes(pairs) + TailBytes(tail)
  {
    hide PairsThen, ValidPairs, BarThen, PairBytes, WordsText, WordsBytes, ValidWords;
    match tail
    case Stops =>
      t := HexWords([], Stopped(n, pairs));
      EndWords(t.end);
      assert PairBytes(pairs) + "" == PairBytes(pairs);
    case Closes =>
      t := HexWords([], Closed(n, pairs));
      EndWords(t.end);
      assert PairBytes(pairs) + "" == PairBytes(pairs);
    case GoesOn(after, words) =>
      t := AddPiece(Block(n, pairs, after), words);
      assert (PairBytes(pairs) + [after]) + WordsBytes(words) == PairBytes(pairs) + ([after] + WordsBytes(words));
  }

  ghost predicate Spells(t: HexWords, s: string, p: string) {
    ValidWords(t) && WordsText(t) == s && WordsBytes(t) == p
  }

  /** Every text of the language is read as the bytes it stands for, up to the size that is accepted. */
  lemma ParseHexReads(t: HexWords)
    requires ValidWords(t) && WordsText(t) != ""
    ensures ParseHexString(WordsText(t)) == IfFits(WordsBytes(t))
  {
    hide ParseHexFrom, WordsText, WordsBytes, ValidWords;
    var s := WordsText(t);
    assert s[0..] == s && "" + WordsBytes(t) == WordsBytes(t);
    WordsRead(s, 0, "", t);
  }

  /** A hex string is accepted with a pattern exactly when it is a text of the language that stands for it. */
  lemma ParseHexIff(s: string, p: string)
    ensures ParseHexString(s) == Pattern(p) <==> s != "" && |p| <= MAX_PATTERN_SIZE + 1 && exists t :: Spells(t, s, p)
  {
    hide ParseHexFrom, WordsText, WordsBytes, ValidWords;
    if ParseHexString(s) == Pattern(p) {
      var t := AcceptedWords(s, 0, "");
      assert s[0..] == s && "" + WordsBytes(t) == WordsBytes(t);
      AcceptedLength(s, 0, false, "");
      assert Spells(t, s, p);
    }
    if s != "" && |p| <= MAX_PATTERN_SIZE + 1 && exists t :: Spells(t, s, p) {
      var t :| Spells(t, s, p);
      ParseHexReads(t);
    }
  }

  // ---------------------------------------------------------------------------
  // Round trips.

  lemma {:induction false} HexPairsLength(p: string)
    requires IsBytes(p)
    ensures |HexPairs(p)| == 2 * |p|
  {
    if p != "" {
      HexPairsLength(p[1..]);
    }
  }

  lemma PairIsByte(c: char)
    requires c as int < 256
    ensures var d, e := Numbers.DigitChar(c as int / 16), Numbers.DigitChar(c as int % 16);
      && IsHexDigit(d) && IsHexDigit(e) && d != '\\' && d != '|' && d != ' '
      && (16 * Numbers.DigitValue(d) + Numbers.DigitValue(e)) as char == c
  {
  }

  /** In hex mode the printed pairs are read back one by one up to the closing bar. */
  lemma {:induction false} ParsePairs(before: string, p: string, read: string)
    requires IsBytes(p) && |read| + |p| <= MAX_PATTERN_SIZE
    ensures ParseHexFrom(before + (HexPairs(p) + ['|']), |before|, true, read) == Pattern(read + p)
    decreases |p|
  {
    hide ParseHexFrom, HexPair, HexPairs;
    var s := before + (HexPairs(p) + ['|']);
    if p == "" {
      assert s == before + ['|'] by {
        UnfoldNone();
      }
      assert read + p == read;
      ParseClosingBar(before, read);
    } else {
      var pair := HexPair(p[0]);
      var next := before + pair;
      UnfoldPairs(p);
      assert s == next + (HexPairs(p[1..]) + ['|']);
      AfterPair(p[1..]);
      assert s[|next|] == (HexPairs(p[1..]) + ['|'])[0];
      assert s[|before|] == pair[0] && s[|before| + 1] == pair[1];
      ParsePair(s, |before|, read, p[0]);
      ParsePairs(next, p[1..], read + [p[0]]);
      assert read + p == (read + [p[0]]) + p[1..];
    }
  }

  lemma ParseClosingBar(before: string, read: string)
    ensures ParseHexFrom(before + ['|'], |before|, true, read) == Pattern(read)
  {
  }

  lemma UnfoldNone()
    ensures HexPairs("") == ""
  {
  }

  lemma ParsePair(s: string, i: nat, read: string, c: char)
    requires c as int < 256 && i + 2 < |s| && s[i] == HexPair(c)[0] && s[i + 1] == HexPair(c)[1] && s[i + 2] != ' '
    requires |read| <= MAX_PATTERN_SIZE
    ensures ParseHexFrom(s, i, true, read) == ParseHexFrom(s, i + 2, true, read + [c])
  {
    PairIsByte(c);
    hide Numbers.DigitValue, Numbers.DigitChar, IsHexDigit;
  }

  lemma UnfoldPairs(p: string)
    requires IsBytes(p) && p != ""
    ensures HexPairs(p) == HexPair(p[0]) + HexPairs(p[1..]) && |HexPair(p[0])| == 2
  {
  }

  /** No space follows a printed pair. */
  lemma AfterPair(p: string)
    requires IsBytes(p)
    ensures (HexPairs(p) + ['|'])[0] != ' '
  {
    if p != "" {
      PairIsByte(p[0]);
    }
  }

  /** parse_hex_string undoes print_hex_string. */
  lemma ParseHexUndoesPrint(p: string)
    requires 1 <= |p| <= MAX_PATTERN_SIZE && IsBytes(p)
    ensures ParseHexString(HexText(p)) == Pattern(p)
  {
    hide HexPairs;
    var s := HexText(p);
    ParsePairs("|", p, "");
    UnfoldPairs(p);
    PairIsByte(p[0]);
    assert s[1] == HexPair(p[0])[0];
    assert "|" == ['|'] && "" + p == p;
    assert SpacesAt(s, 1) == 0;
    HexPairsLength(p);
    var first := ByteAt(s, 1, true);
    hide Numbers.DigitValue;
    ParseFromBar(s);
  }

  /** From an opening bar with no space after it, the loop goes on in hex mode. */
  lemma ParseFromBar(s: string)
    requires |s| > 1 && s[0] == '|' && s[1] != ' ' && s[1] != '|' && s[1] != '\\'
    ensures ParseHexString(s) == ParseHexFrom(s, 1, true, "")
  {
  }

  // ---------------------------------------------------------------------------
  // Saving a rule and restoring it.

  /** What string_save prints for a pattern, up to the space before " --algo" goes on; an empty one has
      no backslash before it. The hex printer does not start with a space. */
  function Saved(p: string): string
    requires IsBytes(p)
  {
    if NeedsHex(p) then [' '] + ("--hex-string" + (['"'] + (HexText(p) + ['"', ' '])))
    else [' '] + ("--string" + (" \"" + (EscapeQuotes(p) + ['"', ' '])))
  }

  /** An option and its argument give the pattern. */
  predicate Gives(option: string, argument: string, p: string) {
    || (option == "--string" && ParseString(argument) == Pattern(p))
    || (option == "--hex-string" && ParseHexString(argument) == Pattern(p))
  }

  ghost predicate Restores(p: string, argv: seq<string>)
    requires IsBytes(p)
  {
    exists option, argument :: Gives(option, argument, p)
      && Tokenize(Start(argv), Saved(p)) == Ok(Start(argv + [option, argument]))
  }

  lemma {:induction false} EscapeQuotesIsEscape(p: string)
    requires '\\' !in p
    ensures EscapeQuotes(p) == Escape(p)
  {
    if p != "" {
      EscapeQuotesIsEscape(p[1..]);
    }
  }

  /** After " --string " and the opening quote. */
  lemma SavedString(p: string, argv: seq<string>)
    requires IsBytes(p) && !NeedsHex(p) && |argv| + 2 < NEWARGV_SIZE
    ensures Tokenize(Start(argv), Saved(p))
         == Tokenize(Scan(true, false, "", argv + ["--string"]), EscapeQuotes(p) + (['"'] + " "))
  {
    hide Tokenize, EscapeQuotes;
    var tail := EscapeQuotes(p) + (['"'] + " ");
    assert ['"'] + " " == ['"', ' '];
    assert " \"" + tail == [' '] + (['"'] + tail);
    TokenizeStep(Start(argv), ' ', "--string" + ([' '] + (['"'] + tail)));
    assert "--string"[1] != 't' && "--string"[2] != 't';
    WordRead(Bare("--string"), argv, ' ', ['"'] + tail);
    TokenizeStep(Start(argv + ["--string"]), '"', tail);
  }

  /** A printable pattern without a backslash is restored, unless it looks like a table option. */
  lemma PlainSurvives(p: string, argv: seq<string>)
    requires IsBytes(p) && 1 <= |p| <= MAX_PATTERN_SIZE && |argv| + 2 < NEWARGV_SIZE
    requires !NeedsHex(p) && '\\' !in p
    ensures !LooksLikeTable(p) ==> Restores(p, argv)
    ensures LooksLikeTable(p) ==> Tokenize(Start(argv), Saved(p)) == Err(TableOption)
  {
    hide Saved, Tokenize, LooksLikeTable, Escape, EscapeQuotes;
    SavedString(p, argv);
    EscapeQuotesIsEscape(p);
    var argv' := argv + ["--string"];
    QuotedText("", p, argv', " ");
    assert "" + p == p && " " == [' '] + "";
    if !LooksLikeTable(p) {
      TokenizeStep(Start(argv' + [p]), ' ', "");
      TokenizeNothing(Start(argv' + [p]));
      assert argv' + [p] == argv + ["--string", p];
      assert Gives("--string", p, p);
    }
  }

  /** A pattern that needs hex comes back as one argument, the option name and the text run together. */
  lemma HexRunsTogether(p: string, argv: seq<string>)
    requires IsBytes(p) && |p| <= MAX_PATTERN_SIZE && NeedsHex(p) && |argv| + 2 < NEWARGV_SIZE
    ensures Tokenize(Start(argv), Saved(p)) == Ok(Start(argv + ["--hex-string" + HexText(p)]))
  {
    hide Tokenize, HexText, LooksLikeTable, Escape;
    var option, text := "--hex-string", HexText(p);
    HexTextPlain(p);
    var tail := text + (['"'] + " ");
    assert ['"'] + " " == ['"', ' '] && "" + option == option;
    TokenizeStep(Start(argv), ' ', option + (['"'] + tail));
    BareThenQuote("", option, argv, tail);
    QuotedText(option, text, argv, " ");
    NotTable(option, text);
    assert " " == [' '] + "";
    TokenizeStep(Start(argv + [option + text]), ' ', "");
    TokenizeNothing(Start(argv + [option + text]));
  }

  lemma NotTable(option: string, text: string)
    requires option == "--hex-string"
    ensures !LooksLikeTable(option + text)
  {
    assert (option + text)[1] == '-' && (option + text)[2] == 'h';
  }

  lemma {:induction false} HexTextPlain(p: string)
    requires IsBytes(p) && |p| <= MAX_PATTERN_SIZE
    ensures Escape(HexText(p)) == HexText(p) && |HexText(p)| <= 2 * MAX_PATTERN_SIZE + 2
  {
    HexPairsLength(p);
    PairsPlain(p);
    EscapePlain(HexText(p));
  }

  lemma {:induction false} PairsPlain(p: string)
    requires IsBytes(p)
    ensures forall k :: 0 <= k < |HexPairs(p)| ==> HexPairs(p)[k] != '"' && HexPairs(p)[k] != '\\'
  {
    if p != "" {
      PairsPlain(p[1..]);
    }
  }

  lemma {:induction false} EscapePlain(s: string)
    requires forall k :: 0 <= k < |s| ==> s[k] != '"' && s[k] != '\\'
    ensures Escape(s) == s
  {
    if s != "" {
      EscapePlain(s[1..]);
    }
  }

  /** The argument read from a printed pattern is never longer than it, and shorter when it has a
      backslash. */
  lemma {:induction false} FirstArgument(p: string, text: string, argv: seq<string>, rest: string)
    requires text == "" || text[|text| - 1] != '\\'
    requires p + text != ""
    ensures var r := Tokenize(Scan(true, false, p, argv), EscapeQuotes(text) + (['"'] + rest));
      r.Ok? ==>
        && |r.value.argv| > |argv| && argv <= r.value.argv
        && |r.value.argv[|argv|]| <= |p| + |text| - (if '\\' in text then 1 else 0)
    decreases |text|
  {
    hide Tokenize;
    var s := Scan(true, false, p, argv);
    var whole := EscapeQuotes(text) + (['"'] + rest);
    if text == "" {
      assert whole == ['"'] + rest;
      TokenizeStep(s, '"', rest);
      Settled(s, '"', rest);
    } else if text[0] == '"' {
      var more := EscapeQuotes(text[1..]) + (['"'] + rest);
      assert whole == ['\\'] + (['"'] + more);
      TokenizeStep(s, '\\', ['"'] + more);
      TokenizeStep(s.(escaped := true), '"', more);
      FirstArgument(p + ['"'], text[1..], argv, rest);
    } else if text[0] != '\\' {
      var more := EscapeQuotes(text[1..]) + (['"'] + rest);
      assert whole == [text[0]] + more;
      TokenizeStep(s, text[0], more);
      FirstArgument(p + [text[0]], text[1..], argv, rest);
    } else {
      var c, more := text[1], EscapeQuotes(text[2..]) + (['"'] + rest);
      assert text[1..][1..] == text[2..];
      if c == '"' {
        assert whole == ['\\'] + (['\\'] + (['"'] + more));
        TokenizeStep(s, '\\', ['\\'] + (['"'] + more));
        TokenizeStep(s.(escaped := true), '\\', ['"'] + more);
        TokenizeStep(s.(param := p + ['\\']), '"', more);
        Settled(s.(param := p + ['\\']), '"', more);
      } else {
        assert whole == ['\\'] + ([c] + more);
        TokenizeStep(s, '\\', [c] + more);
        TokenizeStep(s.(escaped := true), c, more);
        FirstArgument(p + [c], text[2..], argv, rest);
      }
    }
  }

  /** A closing quote adds the argument for good. */
  lemma Settled(s: Scan, c: char, rest: string)
    requires s.quoteOpen && !s.escaped && c == '"' && s.param != ""
    ensures var r := Tokenize(s, [c] + rest);
      r.Ok? ==> |r.value.argv| > |s.argv| && s.argv <= r.value.argv && r.value.argv[|s.argv|] == s.param
  {
    TokenizeStep(s, c, rest);
    var next := Step(s, c);
    if next.Ok? && Tokenize(next.value, rest).Ok? {
      TokenizeGrows(next.value, rest);
    }
  }

  /** A saved pattern is restored exactly when it is printable, has no backslash and does not look
      like a table option. */
  /** An empty pattern leaves its option without an argument. */
  lemma EmptyLost(argv: seq<string>)
    requires |argv| + 2 < NEWARGV_SIZE
    ensures Tokenize(Start(argv), Saved("")) == Ok(Start(argv + ["--string"]))
  {
    hide Saved, Tokenize;
    SavedString("", argv);
    var s := Scan(true, false, "", argv + ["--string"]);
    assert EscapeQuotes("") + (['"'] + " ") == ['"'] + ([' '] + "");
    TokenizeStep(s, '"', [' '] + "");
    TokenizeStep(Start(argv + ["--string"]), ' ', "");
    TokenizeNothing(Start(argv + ["--string"]));
  }

  lemma RestoresIff(p: string, argv: seq<string>)
    requires IsBytes(p) && |p| <= MAX_PATTERN_SIZE && |argv| + 2 < NEWARGV_SIZE
    ensures Restores(p, argv) <==> p != "" && !NeedsHex(p) && '\\' !in p && !LooksLikeTable(p)
  {
    hide Saved, Tokenize, LooksLikeTable, EscapeQuotes, ParseHexString, HexText;
    if p == "" {
      EmptyLost(argv);
      forall option: string, argument: string
        ensures argv + [option, argument] != argv + ["--string"]
      {
        assert |argv + [option, argument]| == |argv| + 2;
      }
    } else if NeedsHex(p) {
      HexRunsTogether(p, argv);
      forall option: string, argument: string
        ensures argv + [option, argument] != argv + ["--hex-string" + HexText(p)]
      {
        assert |argv + [option, argument]| == |argv| + 2;
      }
    } else if '\\' !in p {
      PlainSurvives(p, argv);
    } else {
      forall option, argument | Gives(option, argument, p)
        ensures Tokenize(Start(argv), Saved(p)) != Ok(Start(argv + [option, argument]))
      {
        BackslashLost(p, argv, option, argument);
      }
    }
  }

  lemma BackslashLost(p: string, argv: seq<string>, option: string, argument: string)
    requires IsBytes(p) && !NeedsHex(p) && '\\' in p && |argv| + 2 < NEWARGV_SIZE
    requires Gives(option, argument, p)
    ensures Tokenize(Start(argv), Saved(p)) != Ok(Start(argv + [option, argument]))
  {
    hide Saved, Tokenize, EscapeQuotes, ParseHexString;
    SavedString(p, argv);
    var argv' := argv + ["--string"];
    FirstArgument("", p, argv', " ");
    assert (argv + [option, argument])[|argv|] == option && (argv + [option, argument])[|argv'|] == argument;
    assert argv'[|argv|] == "--string";
  }
}
