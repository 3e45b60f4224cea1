/** Rates of the limit and hashlimit matches: "rate/unit" to a period in ticks and back. `scale` is
    ticks per second, XT_LIMIT_SCALE or XT_HASHLIMIT_SCALE. */
module Rates {
  import opened Numbers

  /** Small enough that a day of ticks fits 32 bits. */
  type Scale = x: int | 1 <= x <= 49710 witness 1

  const XT_LIMIT_SCALE: Scale := 10000

  datatype Parsed = Period(ticks: nat) | Rejected | TooFast

  // ---------------------------------------------------------------------------
  // parse_rate.

  const INT_MAX: nat := 0x7FFF_FFFF

  /** atoi, which stops at the ends of its range, stored in 32 unsigned bits. */
  function Atoi(s: string): nat {
    var t := SkipSpace(s);
    var negative := t != "" && t[0] == '-';
    var v := ValueOf(DigitRun(if t != "" && (t[0] == '+' || t[0] == '-') then t[1..] else t, 10), 10);
    if !negative then if v > INT_MAX then INT_MAX else v
    else if v == 0 then 0
    else 0x1_0000_0000 - if v > INT_MAX then INT_MAX + 1 else v
  }

  function ToLower(c: char): char {
    if 'A' <= c <= 'Z' then 'a' + (c - 'A') else c
  }

  /** The text is the start of the word, in either case. */
  predicate Abbreviates(s: string, word: string) {
    |s| <= |word| && forall k :: 0 <= k < |s| ==> ToLower(s[k]) == ToLower(word[k])
  }

  /** The first '/', or the length of the text. */
  function Slash(s: string): (k: nat)
    ensures k <= |s|
  {
    if s == "" || s[0] == '/' then 0 else 1 + Slash(s[1..])
  }

  const NONE: nat := 4

  /** The unit a text names, numbered from the coarsest, or NONE. */
  function NamedUnit(s: string): nat {
    if s == "" then NONE
    else if Abbreviates(s, "second") then 3
    else if Abbreviates(s, "minute") then 2
    else if Abbreviates(s, "hour") then 1
    else if Abbreviates(s, "day") then 0
    else NONE
  }

  /** Seconds unless the text says otherwise. */
  function UnitOf(rate: string): (unit: nat)
    ensures unit < 4 || unit == NONE
  {
    if Slash(rate) == |rate| then 3 else NamedUnit(rate[Slash(rate) + 1..])
  }

  function Seconds(unit: nat): (n: nat)
    requires unit < 4
    ensures n > 0
  {
    if unit == 0 then 24 * 60 * 60 else if unit == 1 then 60 * 60 else if unit == 2 then 60 else 1
  }

  /** Ticks in one unit. */
  function Ticks(scale: Scale, unit: nat): (m: nat)
    requires unit < 4
    ensures 0 < m < 0x1_0000_0000
  {
    if unit == 0 then scale * 86400 else if unit == 1 then scale * 3600 else if unit == 2 then scale * 60 else scale
  }

  /** Division of unsigned numbers. */
  function Quotient(a: nat, b: nat): nat
    requires b > 0
  {
    DivBounds(a, b);
    a / b
  }

  function ParseRate(scale: Scale, rate: string): Parsed {
    var unit, r := UnitOf(rate), Atoi(rate);
    if unit == NONE || r == 0 then Rejected
    else if Quotient(r, Seconds(unit)) > scale then TooFast
    else Period(Quotient(Ticks(scale, unit), r))
  }

  // ---------------------------------------------------------------------------
  // print_rate.

  function Name(unit: nat): string
    requires unit < 4
  {
    if unit == 0 then "day" else if unit == 1 then "hour" else if unit == 2 then "min" else "sec"
  }

  /** The loop's break condition. */
  predicate Unsuitable(scale: Scale, period: nat, unit: nat)
    requires unit < 4 && period > 0
  {
    period > Ticks(scale, unit) || Quotient(Ticks(scale, unit), period) < Ticks(scale, unit) % period
  }

  /** The last unit before the first unsuitable one from `i` on. */
  function Chosen(scale: Scale, period: nat, i: nat): (unit: nat)
    requires 1 <= i <= 4 && period > 0
    ensures i - 1 <= unit < 4
    ensures forall j :: i <= j <= unit ==> !Unsuitable(scale, period, j)
    decreases 4 - i
  {
    if i == 4 || Unsuitable(scale, period, i) then i - 1 else Chosen(scale, period, i + 1)
  }

  function RateText(scale: Scale, period: nat): string
    requires period > 0
  {
    var unit := Chosen(scale, period, 1);
    Print(Quotient(Ticks(scale, unit), period), 10) + (['/'] + Name(unit))
  }

  method PrintRate(scale: Scale, period: nat) returns (out: string)
    requires period > 0
    ensures out == " " + RateText(scale, period)
  {
    var i := 1;
    while i < 4
      invariant 1 <= i <= 4 && Chosen(scale, period, i) == Chosen(scale, period, 1)
      decreases 4 - i
    {
      if period > Ticks(scale, i) || Quotient(Ticks(scale, i), period) < Ticks(scale, i) % period {
        break;
      }
      i := i + 1;
    }
    out := " " + (Print(Quotient(Ticks(scale, i - 1), period), 10) + (['/'] + Name(i - 1)));
  }

  // ---------------------------------------------------------------------------
  // Division.

  lemma MulLe(x: int, y: int, b: nat)
    ensures x <= y ==> x * b <= y * b
  {
  }

  lemma MulSwap(k: nat, p: nat, r: nat)
    ensures k * (p * r) == p * (k * r)
  {
    assert k * (p * r) == (k * p) * r == (p * k) * r == p * (k * r);
  }

  lemma DivIs(a: nat, b: nat, q: nat)
    requires b > 0 && q * b <= a < (q + 1) * b
    ensures a / b == q
  {
    var d := a / b;
    DivBounds(a, b);
    MulLe(d + 1, q, b);
    MulLe(q + 1, d, b);
  }

  lemma DivBounds(a: nat, b: nat)
    requires b > 0
    ensures 0 <= a / b && (a / b) * b <= a < (a / b + 1) * b && a == (a / b) * b + a % b && 0 <= a % b < b
  {
    var d := a / b;
    assert (d + 1) * b == d * b + b;
  }

  /** Dividing again by the quotient gives back the divisor, or one more. */
  lemma DivTwice(m: nat, p: nat)
    requires 1 <= p <= m && m % p <= m / p
    ensures m / p >= 1 && m / (m / p) == if m % p == m / p then p + 1 else p
  {
    var q, t := m / p, m % p;
    DivBounds(m, p);
    MulLe(q, 0, p);
    MulLe(1, q, p);
    assert p * q == q * p && (p + 1) * q == q * p + q && (p + 2) * q == q * p + 2 * q;
    DivIs(m, q, if t == q then p + 1 else p);
  }

  /** A quotient is recovered by dividing twice: m/(m/(m/r)) = m/r. */
  lemma DivThrice(m: nat, r: nat)
    requires r > 0 && m / r > 0
    ensures m / (m / r) > 0 && m / (m / (m / r)) == m / r
  {
    var p := m / r;
    DivBounds(m, r);
    var q := m / p;
    DivBounds(m, p);
    MulLe(q + 1, r, p);
    assert r * p == p * r;
    assert q >= r;
    assert q * p == p * q;
    assert (p + 1) * r == r * (p + 1) && (p + 1) * q == q * (p + 1);
    MulLe(r, q, p + 1);
    DivIs(m, q, p);
  }

  lemma DivScaled(a: nat, r: nat, k: nat)
    requires r > 0 && k > 0
    ensures k * r > 0 && (k * a) / (k * r) == a / r
  {
    var p := a / r;
    DivBounds(a, r);
    MulLe(1, k, r);
    MulSwap(k, p, r);
    MulSwap(k, p + 1, r);
    assert k * a == a * k && k * (p * r) == (p * r) * k && k * ((p + 1) * r) == ((p + 1) * r) * k;
    MulLe(p * r, a, k);
    MulLe(a + 1, (p + 1) * r, k);
    assert (a + 1) * k == a * k + k;
    DivIs(k * a, k * r, p);
  }

  // ---------------------------------------------------------------------------
  // The text round trip.

  lemma {:induction false} SlashAfterDigits(digits: string, rest: string)
    requires AllDigits(digits, 10)
    ensures Slash(digits + (['/'] + rest)) == |digits|
  {
    var s := digits + (['/'] + rest);
    if digits == "" {
      assert s == ['/'] + rest;
    } else {
      assert s[1..] == digits[1..] + (['/'] + rest);
      SlashAfterDigits(digits[1..], rest);
    }
  }

  lemma NameIsUnit(unit: nat)
    requires unit < 4
    ensures NamedUnit(Name(unit)) == unit
  {
    var s := Name(unit);
    assert unit == 0 ==> ToLower(s[0]) == 'd';
    assert unit == 1 ==> ToLower(s[0]) == 'h';
    assert unit == 2 ==> ToLower(s[0]) == 'm';
    assert "second"[0] == 's' && "minute"[0] == 'm' && "hour"[0] == 'h' && "day"[0] == 'd';
  }

  lemma AtoiOfPrint(n: nat, rest: string)
    requires n <= INT_MAX
    ensures Atoi(Print(n, 10) + (['/'] + rest)) == n
  {
    hide ValueOf, Print;
    var digits := Print(n, 10);
    var s := digits + (['/'] + rest);
    assert s[0] == digits[0] && DigitValue(digits[0]) < 10;
    assert SkipSpace(s) == s;
    DigitRunAppend(digits, ['/'] + rest, 10);
  }

  /** The printed rate `q/unit` is read as the period of `q` in that unit. */
  lemma ParsePrinted(scale: Scale, q: nat, unit: nat)
    requires unit < 4 && 0 < q <= Ticks(scale, unit) && q <= INT_MAX
    ensures ParseRate(scale, Print(q, 10) + (['/'] + Name(unit))) == Period(Quotient(Ticks(scale, unit), q))
  {
    hide Print, Atoi, NamedUnit, Slash, Name;
    var digits := Print(q, 10);
    var s := digits + (['/'] + Name(unit));
    AtoiOfPrint(q, Name(unit));
    SlashAfterDigits(digits, Name(unit));
    assert s[|digits| + 1..] == Name(unit);
    NameIsUnit(unit);
    PerSecond(scale, q, unit);
    hide Quotient, Ticks, Seconds;
  }

  /** A rate of at most one a tick is not too fast. */
  lemma PerSecond(scale: Scale, q: nat, unit: nat)
    requires unit < 4 && q <= Ticks(scale, unit)
    ensures Quotient(q, Seconds(unit)) <= scale
  {
    var s := Seconds(unit);
    DivBounds(q, s);
    assert Ticks(scale, unit) == scale * s;
    MulLe(scale + 1, q / s, s);
    assert (scale + 1) * s == scale * s + s;
  }

  /** A coarser unit is a whole number of finer ones. */
  lemma CoarserTicks(scale: Scale, coarse: nat, fine: nat) returns (k: nat)
    requires coarse <= fine < 4
    ensures k > 0 && Ticks(scale, coarse) == k * Ticks(scale, fine)
  {
    k := Seconds(coarse) / Seconds(fine);
  }

  /** When the printed unit is the original one or coarser, the period comes back exactly. */
  lemma CoarserExact(scale: Scale, r: nat, original: nat, unit: nat)
    requires unit <= original < 4 && r > 0 && Quotient(Ticks(scale, original), r) > 0
    ensures var p := Quotient(Ticks(scale, original), r);
      var q := Quotient(Ticks(scale, unit), p);
      0 < q <= Ticks(scale, unit) && Quotient(Ticks(scale, unit), q) == p
  {
    var m := Ticks(scale, unit);
    var k := CoarserTicks(scale, unit, original);
    DivScaled(Ticks(scale, original), r, k);
    DivThrice(m, k * r);
    hide Ticks;
    AtMost(m, m / (k * r));
  }

  lemma AtMost(m: nat, p: nat)
    requires p > 0
    ensures Quotient(m, p) <= m
  {
    DivBounds(m, p);
    MulLe(1, p, m / p);
    assert p * (m / p) == (m / p) * p;
  }

  /** What a rate becomes after a save and a restore, with p its period, `unit` the printed unit
      and q the printed number: p, or p + 1 exactly when q equals the remainder. It is p when the
      printed unit is the original or a coarser one. */
  lemma SaveRestore(scale: Scale, rate: string)
    requires ParseRate(scale, rate).Period? && ParseRate(scale, rate).ticks > 0
    ensures var p := ParseRate(scale, rate).ticks;
      var unit := Chosen(scale, p, 1);
      var tie := Quotient(Ticks(scale, unit), p) == Ticks(scale, unit) % p;
      && ParseRate(scale, RateText(scale, p)) == Period(if tie then p + 1 else p)
      && (unit <= UnitOf(rate) ==> !tie)
  {
    hide Atoi, UnitOf, Print, Quotient, Ticks;
    var r, original := Atoi(rate), UnitOf(rate);
    var p := ParseRate(scale, rate).ticks;
    var unit := Chosen(scale, p, 1);
    var m := Ticks(scale, unit);
    var q := Quotient(m, p);
    if unit <= original {
      CoarserExact(scale, r, original, unit);
      NoTie(m, p);
    } else {
      assert !Unsuitable(scale, p, unit);
      QuotientTwice(m, p);
    }
    PrintedInRange(scale, p);
    ParsePrinted(scale, q, unit);
  }

  /** The number printed is in atoi's range: a period of one tick is printed per second. */
  lemma PrintedInRange(scale: Scale, p: nat)
    requires p > 0
    ensures Quotient(Ticks(scale, Chosen(scale, p, 1)), p) <= INT_MAX
  {
    if p == 1 {
      forall unit | 1 <= unit < 4
        ensures !Unsuitable(scale, 1, unit)
      {
        DivIs(Ticks(scale, unit), 1, Ticks(scale, unit));
      }
      assert Chosen(scale, 1, 4) == 3 == Chosen(scale, 1, 3) == Chosen(scale, 1, 2) == Chosen(scale, 1, 1);
      DivIs(Ticks(scale, 3), 1, Ticks(scale, 3));
    } else {
      var m := Ticks(scale, Chosen(scale, p, 1));
      DivBounds(m, p);
      var q := m / p;
      MulLe(2, p, q);
      assert 2 * q <= p * q == q * p <= m;
    }
  }

  lemma QuotientTwice(m: nat, p: nat)
    requires 1 <= p <= m && m % p <= Quotient(m, p)
    ensures 0 < Quotient(m, p) <= m
    ensures Quotient(m, Quotient(m, p)) == if Quotient(m, p) == m % p then p + 1 else p
  {
    DivTwice(m, p);
    AtMost(m, p);
  }

  /** If dividing twice gives p back, quotient and remainder differ. */
  lemma NoTie(m: nat, p: nat)
    requires p > 0 && Quotient(m, p) > 0 && Quotient(m, Quotient(m, p)) == p
    ensures Quotient(m, p) != m % p
  {
    DivBounds(m, p);
    MulLe(m + 1, p, 1);
    if m % p == m / p {
      AtLeastDivisor(m, p);
      DivTwice(m, p);
    }
  }

  lemma AtLeastDivisor(m: nat, p: nat)
    requires p > 0 && Quotient(m, p) > 0
    ensures p <= m
  {
    DivBounds(m, p);
    MulLe(1, m / p, p);
  }

  /** A save and a restore can change a rate: 6967741 a day is a period of 124 ticks, printed as
      80 a second, which is a period of 125. */
  lemma RateDrifts()
    ensures var rate := Print(6967741, 10) + (['/'] + "day");
      && ParseRate(XT_LIMIT_SCALE, rate) == Period(124)
      && ParseRate(XT_LIMIT_SCALE, RateText(XT_LIMIT_SCALE, 124)) == Period(125)
  {
    hide Print, Slash, Atoi, NamedUnit, ValueOf, SkipSpace, DigitRun;
    var scale := XT_LIMIT_SCALE;
    ParsePrinted(scale, 6967741, 0);
    DivIs(864000000, 6967741, 124);
    SaveRestore(scale, Print(6967741, 10) + (['/'] + "day"));
    assert !Unsuitable(scale, 124, 1) && !Unsuitable(scale, 124, 2) && !Unsuitable(scale, 124, 3);
    assert Chosen(scale, 124, 4) == 3 == Chosen(scale, 124, 3) == Chosen(scale, 124, 2) == Chosen(scale, 124, 1);
  }

  /** An accepted rate has period zero, which cannot be printed, exactly when it is more than one a
      tick but less than a whole one a second too many. Per second there is no such rate. */
  lemma ZeroPeriod(scale: Scale, rate: string)
    ensures ParseRate(scale, rate) == Period(0) <==>
      UnitOf(rate) != NONE && Ticks(scale, UnitOf(rate)) < Atoi(rate) < (scale + 1) * Seconds(UnitOf(rate))
  {
    hide Atoi, UnitOf;
    var r, unit := Atoi(rate), UnitOf(rate);
    if unit != NONE && r != 0 {
      var m, n := Ticks(scale, unit), Seconds(unit);
      assert m == scale * n;
      hide Ticks, Seconds;
      DivBounds(m, r);
      DivBounds(r, n);
      MulLe(1, m / r, r);
      MulLe(m / r, 0, r);
      MulLe(scale + 1, r / n, n);
      MulLe(r / n + 1, scale + 1, n);
    }
  }

  /** There is one: 600059 a minute, at 10000 ticks a second. */
  lemma ZeroPeriodAccepted()
    ensures ParseRate(XT_LIMIT_SCALE, Print(600059, 10) + (['/'] + "minute")) == Period(0)
  {
    hide Print, Slash, Atoi, ValueOf, SkipSpace, DigitRun, Quotient;
    var rate := Print(600059, 10) + (['/'] + "minute");
    AtoiOfPrint(600059, "minute");
    SlashAfterDigits(Print(600059, 10), "minute");
    assert rate[|Print(600059, 10)| + 1..] == "minute";
    assert NamedUnit("minute") == 2 by {
      assert !Abbreviates("minute", "second") by {
        assert ToLower("minute"[0]) != ToLower("second"[0]);
      }
    }
    ZeroPeriod(XT_LIMIT_SCALE, rate);
  }

  /** A bare number counts per second, and a unit may be cut to any of its first letters. */
  lemma UnitsMean(scale: Scale, r: nat, word: string, k: nat)
    requires 0 < r <= INT_MAX && word in ["second", "minute", "hour", "day"] && 0 < k <= |word|
    ensures var seconds := if word == "second" then 1 else if word == "minute" then 60 else if word == "hour" then 3600 else 86400;
      ParseRate(scale, Print(r, 10) + (['/'] + word[..k]))
        == if Quotient(r, seconds) > scale then TooFast else Period(Quotient(scale * seconds, r))
    ensures ParseRate(scale, Print(r, 10)) == if r > scale then TooFast else Period(Quotient(scale, r))
  {
    hide Print, Atoi, Slash, NamedUnit, Quotient;
    var digits := Print(r, 10);
    AtoiOfPrint(r, word[..k]);
    SlashAfterDigits(digits, word[..k]);
    var rate := digits + (['/'] + word[..k]);
    assert rate[|digits| + 1..] == word[..k];
    WordIsUnit(word, k);
    AtoiOfDigits(r);
    NoSlash(digits);
    PerOne(r);
  }

  lemma PerOne(r: nat)
    ensures Quotient(r, 1) == r
  {
    DivIs(r, 1, r);
  }

  lemma WordIsUnit(word: string, k: nat)
    requires word in ["second", "minute", "hour", "day"] && 0 < k <= |word|
    ensures NamedUnit(word[..k])
      == if word == "second" then 3 else if word == "minute" then 2 else if word == "hour" then 1 else 0
  {
    var s := word[..k];
    assert "second"[0] == 's' && "minute"[0] == 'm' && "hour"[0] == 'h' && "day"[0] == 'd';
    assert s[0] == word[0];
    assert Abbreviates(s, word);
    assert forall w :: w in ["second", "minute", "hour", "day"] && Abbreviates(s, w) ==> ToLower(s[0]) == ToLower(w[0]);
  }

  lemma AtoiOfDigits(n: nat)
    requires n <= INT_MAX
    ensures Atoi(Print(n, 10)) == n
  {
    hide ValueOf, Print;
    var digits := Print(n, 10);
    assert DigitValue(digits[0]) < 10;
    assert SkipSpace(digits) == digits;
    DigitRunAppend(digits, "", 10);
    assert digits + "" == digits;
  }

  lemma {:induction false} NoSlash(digits: string)
    requires AllDigits(digits, 10)
    ensures Slash(digits) == |digits|
  {
    if digits != "" {
      NoSlash(digits[1..]);
    }
  }
}
