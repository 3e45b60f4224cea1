/** The relay's log format: eight bytes a line, as hexadecimal columns and as text. */
module HexDump {

  import opened Common

  /** printf's "%X" digit. */
  function HexDigit(d: int): char
    requires 0 <= d < 16
  {
    if d < 10 then '0' + d as char else 'A' + (d - 10) as char
  }

  function HexValue(c: char): int {
    if '0' <= c <= '9' then c as int - '0' as int
    else if 'A' <= c <= 'F' then c as int - 'A' as int + 10
    else -1
  }

  /** The byte as text: printable characters other than the space stand for themselves. */
  function Shown(b: byte): char {
    if 0x20 < b < 0x7F then b as char else '.'
  }

  // ---------------------------------------------------------------------------
  // The layout, cell by cell. A line starts with its offset in three digits; then come two groups of
  // four bytes in hex, and from column 31 on the same bytes as text, again with a gap after four.

  /** The column where the digits of byte `b` of a line start; 31 after the last byte. */
  function HexColumn(b: nat): nat
    requires b <= 8
  {
    5 + 3 * b + (if b >= 4 then 1 else 0) + (if b == 8 then 1 else 0)
  }

  /** The column where byte `b` of a line is shown as text, leaving a gap after four. */
  function TextColumn(b: nat): nat {
    31 + b + (if b >= 4 then 1 else 0)
  }

  /** Digit `k` (0 or 1) of byte `b`, blank past the end. */
  function HexCell(chunk: seq<byte>, b: nat, k: nat): char {
    if k >= 2 || b >= |chunk| then ' ' else HexDigit(if k == 0 then chunk[b] / 16 else chunk[b] % 16)
  }

  function Cell(offset: nat, chunk: seq<byte>, p: nat): char
    requires offset < 0x1000 && 1 <= |chunk| <= 8 && p <= TextColumn(|chunk|)
  {
    if p == 0 then HexDigit(offset / 256)
    else if p == 1 then HexDigit(offset / 16 % 16)
    else if p == 2 then HexDigit(offset % 16)
    else if p < 5 then ' '
    else if p < 17 then HexCell(chunk, (p - 5) / 3, (p - 5) % 3)
    else if p == 17 then ' '
    else if p < 30 then HexCell(chunk, 4 + (p - 18) / 3, (p - 18) % 3)
    else if p == 30 then ' '
    else if p == TextColumn(|chunk|) then '\n'
    else if p < 35 then Shown(chunk[p - 31])
    else if p == 35 then ' '
    else Shown(chunk[p - 32])
  }

  function Line(offset: nat, chunk: seq<byte>): (s: string)
    requires offset < 0x1000 && 1 <= |chunk| <= 8
    ensures |s| == TextColumn(|chunk|) + 1
  {
    seq(TextColumn(|chunk|) + 1, p requires 0 <= p <= TextColumn(|chunk|) => Cell(offset, chunk, p))
  }

  /** The bytes of line `i`. */
  function Chunk(buf: seq<byte>, i: nat): seq<byte>
    requires 8 * i <= |buf|
  {
    if 8 * i + 8 <= |buf| then buf[8 * i..8 * i + 8] else buf[8 * i..]
  }

  function LineCount(n: nat): nat {
    (n + 7) / 8
  }

  function Lines(buf: seq<byte>, i: nat): (s: string)
    requires |buf| <= 4096 && i <= LineCount(|buf|)
    ensures 8 * i <= |buf| ==> |s| == 41 * i
    ensures |s| <= 41 * i
  {
    if i == 0 then "" else Lines(buf, i - 1) + Line(8 * (i - 1), Chunk(buf, i - 1))
  }

  /** What is logged for a buffer. */
  function Layout(buf: seq<byte>): string
    requires |buf| <= 4096
  {
    Lines(buf, LineCount(|buf|)) + "\n"
  }

  // ---------------------------------------------------------------------------
  // The log can be read back.

  lemma CellOf(front: string, offset: nat, chunk: seq<byte>, p: nat)
    requires offset < 0x1000 && 1 <= |chunk| <= 8 && p <= TextColumn(|chunk|)
    ensures (front + Line(offset, chunk))[|front| + p] == Cell(offset, chunk, p)
  {
    hide Cell;
  }

  lemma {:induction false} LinesCell(buf: seq<byte>, i: nat, n: nat, p: nat)
    requires |buf| <= 4096 && i < n <= LineCount(|buf|) && p <= TextColumn(|Chunk(buf, i)|)
    ensures 41 * i + p < |Lines(buf, n)| && Lines(buf, n)[41 * i + p] == Cell(8 * i, Chunk(buf, i), p)
  {
    hide Cell, Chunk, Lines, Line, LineCount;
    LinesNext(buf, n - 1);
    LinesNext(buf, i);
    if i < n - 1 {
      LinesCell(buf, i, n - 1, p);
    } else {
      LinesLength(buf, i);
      CellOf(Lines(buf, i), 8 * i, Chunk(buf, i), p);
    }
  }

  lemma {:induction false} LinesLength(buf: seq<byte>, i: nat)
    requires |buf| <= 4096 && i < LineCount(|buf|)
    ensures |Lines(buf, i)| == 41 * i
  {
  }

  /** The cells byte `b` of a line is responsible for. */
  lemma {:induction false} ByteCells(offset: nat, chunk: seq<byte>, b: nat)
    requires offset < 0x1000 && b < |chunk| <= 8
    ensures HexColumn(b) + 2 < TextColumn(|chunk|)
    ensures Cell(offset, chunk, HexColumn(b)) == HexDigit(chunk[b] / 16)
    ensures Cell(offset, chunk, HexColumn(b) + 1) == HexDigit(chunk[b] % 16)
    ensures Cell(offset, chunk, HexColumn(b) + 2) == ' '
    ensures b == 3 || b == 7 ==> Cell(offset, chunk, HexColumn(b) + 3) == ' '
    ensures Cell(offset, chunk, TextColumn(b)) == Shown(chunk[b])
    ensures b == 3 ==> Cell(offset, chunk, 35) == ' '
  {
    hide HexDigit, Shown;
    var q := 3 * (if b < 4 then b else b - 4);
    assert q / 3 == (if b < 4 then b else b - 4) && q % 3 == 0;
    assert (q + 1) / 3 == q / 3 && (q + 1) % 3 == 1 && (q + 2) / 3 == q / 3 && (q + 2) % 3 == 2;
  }

  /** Byte `b` of line `i`. */
  function DecodeByte(text: string, i: nat, b: nat): int
    requires b < 8
  {
    var p := 41 * i + HexColumn(b);
    if p + 1 < |text| then 16 * HexValue(text[p]) + HexValue(text[p + 1]) else -1
  }

  function Decode(text: string, n: nat): seq<int> {
    seq(n, k requires 0 <= k => DecodeByte(text, k / 8, k % 8))
  }

  lemma DigitsValue(b: byte)
    ensures 16 * HexValue(HexDigit(b / 16)) + HexValue(HexDigit(b % 16)) == b
  {
  }

  lemma LayoutCell(buf: seq<byte>, i: nat, p: nat)
    requires |buf| <= 4096 && 8 * i < |buf| && p <= TextColumn(|Chunk(buf, i)|)
    ensures 41 * i + p < |Layout(buf)| && Layout(buf)[41 * i + p] == Cell(8 * i, Chunk(buf, i), p)
  {
    var n := LineCount(|buf|);
    assert i < n;
    hide Cell, TextColumn, Chunk, LineCount, Lines;
    LinesCell(buf, i, n, p);
  }

  /** The digits of the program's "%X". */
  const UPPER: string := "0123456789ABCDEF"

  lemma DigitIsUpper(d: nat)
    requires d < 16
    ensures HexDigit(d) == UPPER[d]
  {
    assert UPPER[0] == '0' && UPPER[9] == '9' && UPPER[10] == 'A' && UPPER[15] == 'F';
  }

  /** Where a byte shows in the text: its line starts with the offset, its two digits stand in the hex
      columns, and it stands for itself in the text columns if it is printable and not a space. */
  lemma ByteShows(buf: seq<byte>, k: nat)
    requires |buf| <= 4096 && k < |buf|
    ensures var text, start, b := Layout(buf), 41 * (k / 8), k % 8;
      var hex, shown := start + 5 + 3 * b + (if b < 4 then 0 else 1), start + 31 + b + (if b < 4 then 0 else 1);
      && start + 3 <= hex && hex + 2 < shown < |text|
      && text[start] == UPPER[(k - b) / 256] && text[start + 1] == UPPER[(k - b) / 16 % 16] && text[start + 2] == UPPER[(k - b) % 16]
      && text[hex] == UPPER[buf[k] / 16] && text[hex + 1] == UPPER[buf[k] % 16] && text[hex + 2] == ' '
      && text[shown] == if 0x20 < buf[k] < 0x7F then buf[k] as char else '.'
  {
    hide Layout, Cell, HexDigit, Lines, Line;
    var i, b := k / 8, k % 8;
    var chunk := Chunk(buf, i);
    assert chunk[b] == buf[k];
    ByteCells(8 * i, chunk, b);
    LayoutCell(buf, i, 0);
    LayoutCell(buf, i, 1);
    LayoutCell(buf, i, 2);
    OffsetCells(8 * i, chunk);
    LayoutCell(buf, i, HexColumn(b));
    LayoutCell(buf, i, HexColumn(b) + 1);
    LayoutCell(buf, i, HexColumn(b) + 2);
    LayoutCell(buf, i, TextColumn(b));
    DigitIsUpper(buf[k] / 16);
    DigitIsUpper(buf[k] % 16);
    DigitIsUpper(8 * i / 256);
    DigitIsUpper(8 * i / 16 % 16);
    DigitIsUpper(8 * i % 16);
  }

  /** The rest of a line of `n` bytes: a newline after the last text column, and blanks in all other places. */
  lemma LineRest(buf: seq<byte>, i: nat, p: nat)
    requires |buf| <= 4096 && 8 * i < |buf|
    requires var n := if |buf| - 8 * i < 8 then |buf| - 8 * i else 8;
      && 3 <= p <= 31 + n + (if n < 4 then 0 else 1)
      && (forall b :: 0 <= b < n ==> var h := 5 + 3 * b + (if b < 4 then 0 else 1); p != h && p != h + 1)
      && (p < 31 || p == 35 || p == 31 + n + (if n < 4 then 0 else 1))
    ensures var n := if |buf| - 8 * i < 8 then |buf| - 8 * i else 8;
      && 41 * i + p < |Layout(buf)|
      && Layout(buf)[41 * i + p] == if p == 31 + n + (if n < 4 then 0 else 1) then '\n' else ' '
  {
    hide Layout, Lines, Line, HexDigit, Shown;
    LayoutCell(buf, i, p);
    var chunk := Chunk(buf, i);
    if 5 <= p < 30 && p != 17 {
      var b, k := if p < 17 then (p - 5) / 3 else 4 + (p - 18) / 3, if p < 17 then (p - 5) % 3 else (p - 18) % 3;
      assert p == 5 + 3 * b + (if b < 4 then 0 else 1) + k;
    }
  }

  /** The text ends with an empty line. */
  lemma LayoutEnds(buf: seq<byte>)
    requires 1 <= |buf| <= 4096
    ensures var i := (|buf| - 1) / 8;
      var n := |buf| - 8 * i;
      var end := 41 * i + 31 + n + (if n < 4 then 0 else 1);
      |Layout(buf)| == end + 2 && Layout(buf)[end] == Layout(buf)[end + 1] == '\n'
  {
    var i := (|buf| - 1) / 8;
    LinesLength(buf, i);
    LayoutCell(buf, i, TextColumn(|Chunk(buf, i)|));
    assert LineCount(|buf|) == i + 1;
    hide Line, Cell;
    LinesNext(buf, i);
  }

  lemma OffsetCells(offset: nat, chunk: seq<byte>)
    requires offset < 0x1000 && 1 <= |chunk| <= 8
    ensures Cell(offset, chunk, 0) == HexDigit(offset / 256) && Cell(offset, chunk, 1) == HexDigit(offset / 16 % 16)
    ensures Cell(offset, chunk, 2) == HexDigit(offset % 16)
  {
    hide HexDigit, Shown, HexCell;
  }

  lemma DecodeOne(buf: seq<byte>, i: nat, b: nat)
    requires |buf| <= 4096 && b < 8 && 8 * i + b < |buf|
    ensures DecodeByte(Layout(buf), i, b) == buf[8 * i + b]
  {
    hide Cell, HexDigit, HexValue, TextColumn, HexColumn, Layout, Lines;
    var chunk := Chunk(buf, i);
    assert chunk[b] == buf[8 * i + b];
    var p := HexColumn(b);
    ByteCells(8 * i, chunk, b);
    LayoutCell(buf, i, p);
    LayoutCell(buf, i, p + 1);
    DigitsValue(chunk[b]);
    hide Chunk;
  }

  /** The hexadecimal columns of a dump give back the dumped bytes. */
  lemma DecodeLayout(buf: seq<byte>)
    requires |buf| <= 4096
    ensures Decode(Layout(buf), |buf|) == buf
  {
    hide DecodeByte, Layout;
    forall k | 0 <= k < |buf|
      ensures DecodeByte(Layout(buf), k / 8, k % 8) == buf[k]
    {
      DecodeOne(buf, k / 8, k % 8);
    }
  }

  // ---------------------------------------------------------------------------
  // The program.

  /** sprintf into the array: the text and its terminator. */
  method Print(hex: array<char>, pos: nat, text: string)
    requires pos + |text| < hex.Length
    modifies hex
    ensures forall p :: 0 <= p < hex.Length ==>
      hex[p] == if p < pos || p > pos + |text| then old(hex[p]) else if p < pos + |text| then text[p - pos] else '\0'
  {
    var k := 0;
    while k < |text|
      invariant k <= |text|
      invariant forall p :: 0 <= p < hex.Length ==> hex[p] == if pos <= p < pos + k then text[p - pos] else old(hex[p])
    {
      hex[pos + k] := text[k];
      k := k + 1;
    }
    hex[pos + |text|] := '\0';
  }

  /** The cells `from..to` of the line at `start` are final. */
  ghost predicate Done(hex: array<char>, start: nat, offset: nat, chunk: seq<byte>, from: nat, to: nat)
    requires offset < 0x1000 && 1 <= |chunk| <= 8 && to <= TextColumn(|chunk|) + 1
    requires start + to <= hex.Length
    reads hex
  {
    forall p :: from <= p < to ==> hex[start + p] == Cell(offset, chunk, p)
  }

  /** One byte: its digits, its text cell, and the gaps after the fourth and the last. `hexpos` and
      `ploc` are the two cursors; the text cell is `ploc` cells after the digits. */
  method PutByte(hex: array<char>, start: nat, hexpos: nat, ploc: int, b: nat, ghost offset: nat, chunk: seq<byte>)
    returns (hexpos': nat, ploc': int)
    requires offset < 0x1000 && 1 <= |chunk| <= 8 && b < |chunk| && start + TextColumn(|chunk|) < hex.Length
    requires hexpos == start + HexColumn(b) && ploc == 25 - 2 * b
    requires Done(hex, start, offset, chunk, 0, HexColumn(b)) && Done(hex, start, offset, chunk, 31, TextColumn(b))
    modifies hex
    ensures hexpos' == start + HexColumn(b + 1) && ploc' == 25 - 2 * (b + 1)
    ensures Done(hex, start, offset, chunk, 0, HexColumn(b + 1)) && Done(hex, start, offset, chunk, 31, TextColumn(b + 1))
    ensures forall p :: 0 <= p < start ==> hex[p] == old(hex[p])
  {
    hide Cell, HexDigit, Shown;
    ByteCells(offset, chunk, b);
    Print(hex, hexpos, [HexDigit(chunk[b] / 16), HexDigit(chunk[b] % 16), ' ']);
    hexpos' := hexpos + 3;
    ploc' := ploc - 2;
    hex[hexpos' + ploc'] := Shown(chunk[b]);
    if b == 3 {
      hex[hexpos'] := ' ';
      hexpos' := hexpos' + 1;
      hex[hexpos' + ploc'] := ' ';
    } else if b == 7 {
      hex[hexpos'] := ' ';
      hexpos' := hexpos' + 1;
    }
  }

  /** The blank columns of the bytes a short last line does not have. */
  lemma BlankCells(offset: nat, chunk: seq<byte>, c: nat)
    requires offset < 0x1000 && 1 <= |chunk| <= c < 8
    ensures HexColumn(c) + 2 < 31 <= TextColumn(|chunk|)
    ensures Cell(offset, chunk, HexColumn(c)) == ' '
    ensures Cell(offset, chunk, HexColumn(c) + 1) == ' '
    ensures Cell(offset, chunk, HexColumn(c) + 2) == ' '
    ensures c == 3 || c == 7 ==> Cell(offset, chunk, HexColumn(c) + 3) == ' '
  {
    var q := 3 * (if c < 4 then c else c - 4);
    assert q / 3 == (if c < 4 then c else c - 4);
    assert (q + 1) / 3 == q / 3 && (q + 2) / 3 == q / 3;
  }

  method PutBlank(hex: array<char>, start: nat, hexpos: nat, ploc: int, c: nat, ghost offset: nat, chunk: seq<byte>)
    returns (hexpos': nat, ploc': int)
    requires offset < 0x1000 && 1 <= |chunk| <= c < 8 && start + TextColumn(|chunk|) < hex.Length
    requires hexpos == start + HexColumn(c)
    requires Done(hex, start, offset, chunk, 0, HexColumn(c)) && Done(hex, start, offset, chunk, 31, TextColumn(|chunk|))
    modifies hex
    ensures hexpos' == start + HexColumn(c + 1) && ploc' == ploc - 3 - (if c == 3 then 1 else 0)
    ensures Done(hex, start, offset, chunk, 0, HexColumn(c + 1)) && Done(hex, start, offset, chunk, 31, TextColumn(|chunk|))
    ensures forall p :: 0 <= p < start ==> hex[p] == old(hex[p])
  {
    hide Cell;
    BlankCells(offset, chunk, c);
    hexpos', ploc' := hexpos, ploc;
    hex[hexpos'] := ' ';
    hexpos' := hexpos' + 1;
    hex[hexpos'] := ' ';
    hexpos' := hexpos' + 1;
    hex[hexpos'] := ' ';
    hexpos' := hexpos' + 1;
    ploc' := ploc' - 3;
    if c == 3 {
      hex[hexpos'] := ' ';
      hexpos' := hexpos' + 1;
      ploc' := ploc' - 1;
    } else if c == 7 {
      hex[hexpos'] := ' ';
      hexpos' := hexpos' + 1;
    }
  }

  method PutBlanks(hex: array<char>, start: nat, hexpos: nat, ploc: int, ghost offset: nat, chunk: seq<byte>)
    returns (hexpos': nat, ploc': int)
    requires offset < 0x1000 && 1 <= |chunk| <= 8 && start + TextColumn(|chunk|) < hex.Length
    requires hexpos == start + HexColumn(|chunk|) && ploc == 25 - 2 * |chunk|
    requires Done(hex, start, offset, chunk, 0, HexColumn(|chunk|)) && Done(hex, start, offset, chunk, 31, TextColumn(|chunk|))
    modifies hex
    ensures hexpos' == start + 31 && hexpos' + ploc' == start + TextColumn(|chunk|)
    ensures Done(hex, start, offset, chunk, 0, TextColumn(|chunk|))
    ensures forall p :: 0 <= p < start ==> hex[p] == old(hex[p])
  {
    hide Cell;
    hexpos', ploc' := hexpos, ploc;
    var c := |chunk|;
    while c < 8
      invariant |chunk| <= c <= 8 && hexpos' == start + HexColumn(c)
      invariant ploc' == 25 - 2 * |chunk| - 3 * (c - |chunk|) - (if |chunk| <= 3 && c >= 4 then 1 else 0)
      invariant Done(hex, start, offset, chunk, 0, HexColumn(c)) && Done(hex, start, offset, chunk, 31, TextColumn(|chunk|))
      invariant forall p :: 0 <= p < start ==> hex[p] == old(hex[p])
    {
      hexpos', ploc' := PutBlank(hex, start, hexpos', ploc', c, offset, chunk);
      c := c + 1;
    }
  }

  /** One turn of the outer loop: the line at `start`. */
  method PutLine(hex: array<char>, start: nat, offset: nat, chunk: seq<byte>) returns (hexpos: nat)
    requires offset < 0x1000 && 1 <= |chunk| <= 8 && start + TextColumn(|chunk|) < hex.Length
    modifies hex
    ensures hexpos == start + TextColumn(|chunk|) + 1
    ensures hex[start..hexpos] == Line(offset, chunk)
    ensures hex[..start] == old(hex[..start])
  {
    Print(hex, start, [HexDigit(offset / 256), HexDigit(offset / 16 % 16), HexDigit(offset % 16), ' ', ' ']);
    assert Done(hex, start, offset, chunk, 0, HexColumn(0));
    assert forall p :: 0 <= p < start ==> hex[p] == old(hex[p]);
    hide Cell;
    hexpos := start + 5;
    var ploc := 25;
    var b := 0;
    while b < |chunk|
      invariant b <= |chunk| && hexpos == start + HexColumn(b) && ploc == 25 - 2 * b
      invariant Done(hex, start, offset, chunk, 0, HexColumn(b)) && Done(hex, start, offset, chunk, 31, TextColumn(b))
      invariant forall p :: 0 <= p < start ==> hex[p] == old(hex[p])
    {
      hexpos, ploc := PutByte(hex, start, hexpos, ploc, b, offset, chunk);
      b := b + 1;
    }
    hexpos, ploc := PutBlanks(hex, start, hexpos, ploc, offset, chunk);
    hexpos := hexpos + ploc;
    hex[hexpos] := '\n';
    hexpos := hexpos + 1;
    LastCell(offset, chunk);
  }

  lemma LastCell(offset: nat, chunk: seq<byte>)
    requires offset < 0x1000 && 1 <= |chunk| <= 8
    ensures Cell(offset, chunk, TextColumn(|chunk|)) == '\n'
  {
  }

  /** The dump of the first `len` bytes; `hex[..length]` is what is written to the log. */
  method WriteHex(buf: array<byte>, len: nat) returns (hex: array<char>, length: nat)
    requires len <= buf.Length && len <= 4096
    ensures length < hex.Length == 41 * LineCount(len) + 2
    ensures hex[..length] == Layout(buf[..len]) && hex[length] == '\0'
  {
    hide LineCount, Lines, Line, TextColumn;
    var lines := LineCount(len);
    hex := new char[41 * lines + 2];
    ghost var bytes := buf[..len];
    var i := 0;
    length := 0;
    NoLines(bytes);
    while i < lines
      invariant i <= lines && length <= 41 * i && (i < lines ==> length == 41 * i)
      invariant hex[..length] == Lines(bytes, i)
    {
      ghost var start := length;
      LinesNext(bytes, i);
      length := PutLine(hex, length, 8 * i, Chunk(buf[..len], i));
      assert hex[..length] == hex[..start] + hex[start..length];
      i := i + 1;
    }
    hex[length] := '\n';
    assert hex[..length + 1] == hex[..length] + ['\n'];
    length := length + 1;
    hex[length] := '\0';
  }

  lemma NoLines(buf: seq<byte>)
    requires |buf| <= 4096
    ensures Lines(buf, 0) == ""
  {
  }

  /** Line `i` has 41 characters unless it is the last, when it may have fewer. */
  lemma LinesNext(buf: seq<byte>, i: nat)
    requires |buf| <= 4096 && i < LineCount(|buf|)
    ensures 8 * i < |buf|
    ensures 1 <= |Chunk(buf, i)| <= 8 && TextColumn(|Chunk(buf, i)|) + 1 <= 41
    ensures i + 1 < LineCount(|buf|) ==> TextColumn(|Chunk(buf, i)|) + 1 == 41
    ensures Lines(buf, i + 1) == Lines(buf, i) + Line(8 * i, Chunk(buf, i))
  {
    hide Line;
  }
}
