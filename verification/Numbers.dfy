/** Numbers as text: printf's "%x" and "%u", and libc's strtoul with base 0. */
module Numbers {

  /** The largest unsigned long of the 32-bit targets the program is built for. */
  const ULONG_MAX: nat := 0xFFFF_FFFF

  type uint32 = x: nat | x <= 0xFFFF_FFFF

  predicate IsSpace(c: char) {
    c == ' ' || c == '\t' || c == '\n' || c == '\U{0B}' || c == '\U{0C}' || c == '\r'
  }

  predicate AllSpace(s: string) {
    forall i :: 0 <= i < |s| ==> IsSpace(s[i])
  }

  function SkipSpace(s: string): (r: string)
    ensures |r| <= |s|
    ensures r != [] ==> !IsSpace(r[0])
  {
    if s != [] && IsSpace(s[0]) then SkipSpace(s[1..]) else s
  }

  lemma {:induction false} SkippedSpace(s: string) returns (space: string)
    ensures AllSpace(space) && s == space + SkipSpace(s)
  {
    if s != [] && IsSpace(s[0]) {
      space := SkippedSpace(s[1..]);
      assert SkipSpace(s) == SkipSpace(s[1..]);
      hide SkipSpace;
      SpaceBefore(s[0], space, SkipSpace(s));
      assert s == [s[0]] + s[1..];
      space := [s[0]] + space;
    } else {
      assert s == "" + s;
      space := "";
    }
  }

  lemma SpaceBefore(c: char, space: string, rest: string)
    requires IsSpace(c) && AllSpace(space)
    ensures AllSpace([c] + space) && ([c] + space) + rest == [c] + (space + rest)
  {
    hide IsSpace;
  }

  // ---------------------------------------------------------------------------
  // Digits.

  function DigitValue(c: char): nat {
    if '0' <= c <= '9' then c as nat - '0' as nat
    else if 'a' <= c <= 'z' then c as nat - 'a' as nat + 10
    else if 'A' <= c <= 'Z' then c as nat - 'A' as nat + 10
    else 36
  }

  /** The digits, in either case. */
  lemma DigitsMean(d: nat)
    requires d < 16
    ensures DigitValue("0123456789abcdef"[d]) == d && DigitValue("0123456789ABCDEF"[d]) == d
    ensures DigitChar(d) == "0123456789abcdef"[d]
  {
    var lower, upper := "0123456789abcdef", "0123456789ABCDEF";
    assert lower[0] == '0' && lower[9] == '9' && lower[10] == 'a' && lower[15] == 'f';
    assert upper[0] == '0' && upper[9] == '9' && upper[10] == 'A' && upper[15] == 'F';
  }

  predicate AllDigits(s: string, base: nat) {
    forall i :: 0 <= i < |s| ==> DigitValue(s[i]) < base
  }

  /** The value of a run of digits, most significant first. */
  function ValueOf(s: string, base: nat): nat {
    if s == [] then 0 else ValueOf(s[..|s| - 1], base) * base + DigitValue(s[|s| - 1])
  }

  /** The longest prefix made of digits. */
  function DigitRun(s: string, base: nat): (r: string)
    ensures r <= s && AllDigits(r, base)
    ensures |r| < |s| ==> DigitValue(s[|r|]) >= base
  {
    if s != [] && DigitValue(s[0]) < base then [s[0]] + DigitRun(s[1..], base) else []
  }

  function DigitChar(d: nat): (c: char)
    requires d < 16
    ensures DigitValue(c) == d
  {
    if d < 10 then '0' + d as char else 'a' + (d - 10) as char
  }

  lemma DivMod(n: nat, base: nat)
    requires base == 10 || base == 16
    ensures n == (n / base) * base + n % base && 0 <= n % base < base
    ensures n >= base ==> 0 < n / base < n
  {
    if base == 10 {
      assert n == (n / 10) * 10 + n % 10;
    } else {
      assert n == (n / 16) * 16 + n % 16;
    }
  }

  lemma ValueSnoc(s: string, c: char, base: nat)
    ensures ValueOf(s + [c], base) == ValueOf(s, base) * base + DigitValue(c)
  {
    assert (s + [c])[..|s|] == s;
  }

  lemma DigitsSnoc(s: string, d: nat, base: nat)
    requires d < base <= 16 && AllDigits(s, base)
    ensures AllDigits(s + [DigitChar(d)], base) && ValueOf(s + [DigitChar(d)], base) == ValueOf(s, base) * base + d
    ensures DigitChar(d) == '0' <==> d == 0
  {
    ValueSnoc(s, DigitChar(d), base);
    assert DigitChar(d) == '0' <==> d == 0;
    hide ValueOf, DigitValue, DigitChar;
  }

  lemma NoDigits(base: nat)
    ensures AllDigits("", base) && ValueOf("", base) == 0
  {
  }

  /** printf's "%x" (base 16) and "%u" (base 10). */
  function Print(n: nat, base: nat): (s: string)
    requires base == 10 || base == 16
    ensures |s| >= 1 && AllDigits(s, base) && ValueOf(s, base) == n
    ensures n > 0 ==> s[0] != '0'
    ensures n == 0 ==> s == "0"
    decreases n
  {
    hide ValueOf, AllDigits, DigitValue, DigitChar;
    if n < base then
      NoDigits(base);
      DigitsSnoc([], n, base);
      assert [] + [DigitChar(n)] == [DigitChar(n)];
      [DigitChar(n)]
    else
      DivMod(n, base);
      var front := Print(n / base, base);
      DigitsSnoc(front, n % base, base);
      front + [DigitChar(n % base)]
  }

  // ---------------------------------------------------------------------------
  // strtoul(s, &end, 0).

  datatype Scan = NoNumber | OutOfRange | Number(value: uint32, rest: string)

  function Signed(negative: bool, v: nat): uint32
    requires v <= ULONG_MAX
  {
    if negative && v != 0 then ULONG_MAX + 1 - v else v
  }

  predicate HasHexPrefix(s: string) {
    |s| >= 3 && s[0] == '0' && (s[1] == 'x' || s[1] == 'X') && DigitValue(s[2]) < 16
  }

  function Base(s: string): nat {
    if HasHexPrefix(s) then 16 else if s != [] && s[0] == '0' then 8 else 10
  }

  function ScanUnsigned(s: string, negative: bool): (r: Scan)
    ensures r.Number? ==> |r.rest| < |s|
  {
    var body := if HasHexPrefix(s) then s[2..] else s;
    var run := DigitRun(body, Base(s));
    if run == [] then NoNumber
    else if ValueOf(run, Base(s)) > ULONG_MAX then OutOfRange
    else Number(Signed(negative, ValueOf(run, Base(s))), body[|run|..])
  }

  function Strtoul(s: string): (r: Scan)
    ensures r.Number? ==> |r.rest| < |s|
  {
    var t := SkipSpace(s);
    if t != [] && (t[0] == '+' || t[0] == '-') then ScanUnsigned(t[1..], t[0] == '-') else ScanUnsigned(t, false)
  }

  // ---------------------------------------------------------------------------
  // Numerals: the texts strtoul reads as one number.

  datatype Numeral = Numeral(space: string, sign: string, prefix: string, digits: string) {
    function Base(): nat {
      if prefix != "" then 16 else if digits != "" && digits[0] == '0' then 8 else 10
    }

    predicate Valid() {
      && AllSpace(space) && (sign == "" || sign == "+" || sign == "-")
      && (prefix == "" || prefix == "0x" || prefix == "0X")
      && digits != "" && AllDigits(digits, Base()) && ValueOf(digits, Base()) <= ULONG_MAX
    }

    /** The numeral followed by `rest`. */
    function Then(rest: string): string {
      space + (sign + (prefix + (digits + rest)))
    }

    function Value(): uint32
      requires Valid()
    {
      Signed(sign == "-", ValueOf(digits, Base()))
    }
  }

  /** No letter or digit follows, so a number that ends here ends for strtoul. */
  predicate Delimited(rest: string) {
    rest == [] || DigitValue(rest[0]) == 36
  }

  lemma {:induction false} DigitRunAppend(s: string, rest: string, base: nat)
    requires AllDigits(s, base) && base <= 16 && Delimited(rest)
    ensures DigitRun(s + rest, base) == s
  {
    if s != [] {
      assert (s + rest)[1..] == s[1..] + rest;
      DigitRunAppend(s[1..], rest, base);
    } else {
      assert s + rest == rest;
    }
  }

  lemma {:induction false} SkipSpaceAppend(space: string, rest: string)
    requires AllSpace(space)
    ensures SkipSpace(space + rest) == SkipSpace(rest)
  {
    if space != [] {
      assert (space + rest)[1..] == space[1..] + rest;
      SkipSpaceAppend(space[1..], rest);
    } else {
      assert space + rest == rest;
    }
  }

  /** The base strtoul chooses for a numeral is the numeral's own. */
  lemma ChosenBase(n: Numeral, rest: string)
    requires n.Valid() && Delimited(rest)
    ensures HasHexPrefix(n.prefix + (n.digits + rest)) == (n.prefix != "")
    ensures Base(n.prefix + (n.digits + rest)) == n.Base()
  {
    hide ValueOf, AllSpace;
    var tail := n.digits + rest;
    var s := n.prefix + tail;
    assert tail[0] == n.digits[0] && DigitValue(n.digits[0]) < n.Base();
    if n.prefix == "" {
      assert s == tail;
      if |tail| >= 2 {
        assert tail[1] == (if |n.digits| >= 2 then n.digits[1] else rest[0]);
      }
    } else {
      assert s[2] == tail[0];
    }
  }

  lemma ScanUnsignedNumeral(n: Numeral, rest: string)
    requires n.Valid() && Delimited(rest)
    ensures ScanUnsigned(n.prefix + (n.digits + rest), n.sign == "-") == Number(n.Value(), rest)
  {
    var s, tail := n.prefix + (n.digits + rest), n.digits + rest;
    ChosenBase(n, rest);
    DigitRunAppend(n.digits, rest, n.Base());
    assert tail[|n.digits|..] == rest;
    assert (if HasHexPrefix(s) then s[2..] else s) == tail;
    hide ValueOf, AllSpace, DigitRun, HasHexPrefix, Base, AllDigits;
  }

  lemma FirstIsDigit(n: Numeral, rest: string)
    requires n.Valid()
    ensures var u := n.prefix + (n.digits + rest); u != [] && DigitValue(u[0]) < 36
  {
    hide ValueOf;
    assert DigitValue(n.digits[0]) < n.Base();
    assert (n.digits + rest)[0] == n.digits[0];
  }

  /** White space makes no difference. */
  lemma StrtoulSkips(space: string, t: string)
    requires AllSpace(space)
    ensures Strtoul(space + t) == Strtoul(t)
  {
    hide ScanUnsigned, AllSpace;
    SkipSpaceAppend(space, t);
  }

  lemma StrtoulSigned(sign: string, u: string)
    requires (sign == "" || sign == "+" || sign == "-") && u != [] && DigitValue(u[0]) < 36
    ensures Strtoul(sign + u) == ScanUnsigned(u, sign == "-")
  {
    hide ScanUnsigned;
    var t := sign + u;
    if sign == "" {
      assert t == u;
    } else {
      assert t[0] == sign[0] && t[1..] == u;
    }
  }

  /** strtoul reads a numeral back, up to what follows it. */
  lemma StrtoulNumeral(n: Numeral, rest: string)
    requires n.Valid() && Delimited(rest)
    ensures Strtoul(n.Then(rest)) == Number(n.Value(), rest)
  {
    hide ValueOf, ScanUnsigned, AllDigits, AllSpace, Strtoul, Delimited;
    var u := n.prefix + (n.digits + rest);
    FirstIsDigit(n, rest);
    StrtoulSkips(n.space, n.sign + u);
    StrtoulSigned(n.sign, u);
    ScanUnsignedNumeral(n, rest);
  }

  /** The prefix, and what comes after it. */
  lemma PrefixOf(u: string) returns (prefix: string, body: string)
    ensures u == prefix + body && body == (if HasHexPrefix(u) then u[2..] else u)
    ensures (prefix == "" || prefix == "0x" || prefix == "0X") && (prefix != "" <==> HasHexPrefix(u))
  {
    if HasHexPrefix(u) {
      prefix, body := u[..2], u[2..];
      assert prefix == "0x" || prefix == "0X";
    } else {
      prefix, body := "", u;
    }
    hide HasHexPrefix;
  }

  lemma BaseOf(u: string, n: Numeral)
    requires (n.prefix != "" <==> HasHexPrefix(u)) && n.digits != "" && u != ""
    requires n.prefix == "" ==> u[0] == n.digits[0]
    ensures n.Base() == Base(u)
  {
    hide HasHexPrefix;
  }

  lemma ScanUnsignedIsNumeral(u: string, negative: bool) returns (prefix: string, digits: string)
    requires ScanUnsigned(u, negative).Number?
    ensures var n := Numeral("", if negative then "-" else "", prefix, digits);
      n.Valid() && n.Value() == ScanUnsigned(u, negative).value
    ensures u == prefix + (digits + ScanUnsigned(u, negative).rest)
  {
    hide ValueOf, DigitRun, AllSpace, AllDigits, DigitValue, Signed, HasHexPrefix, Base;
    var body;
    prefix, body := PrefixOf(u);
    digits := DigitRun(body, Base(u));
    assert digits[0] == body[0] && body == digits + body[|digits|..];
    SpaceEmpty();
    BaseOf(u, Numeral("", if negative then "-" else "", prefix, digits));
  }

  lemma SpaceEmpty()
    ensures AllSpace("")
  {
  }

  /** Whatever strtoul accepts is a numeral. */
  lemma StrtoulIsNumeral(s: string) returns (n: Numeral)
    requires Strtoul(s).Number?
    ensures n.Valid() && s == n.Then(Strtoul(s).rest) && n.Value() == Strtoul(s).value
  {
    hide ValueOf, ScanUnsigned, DigitRun, AllSpace, AllDigits, DigitValue, SkipSpace;
    var t := SkipSpace(s);
    var space := SkippedSpace(s);
    var sign := if t != [] && (t[0] == '+' || t[0] == '-') then t[..1] else "";
    var u := t[|sign|..];
    assert Strtoul(s) == ScanUnsigned(u, sign == "-");
    var prefix, digits := ScanUnsignedIsNumeral(u, sign == "-");
    n := Numeral(space, sign, prefix, digits);
    assert t == sign + u;
  }
}
