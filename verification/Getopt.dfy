/** getopt32: a table built from the option string, a mini-language that fills its masks, and the
    loop that folds option occurrences into flags. A 32-bit mask is the set of its bit numbers. */
module Getopt {

  type Mask = set<nat>

  const MAX_OPTIONS: nat := 32

  datatype Kind = Text | List | Int

  datatype Entry = Entry(opt: char, hasArg: bool, kind: Kind, counted: bool, on: Mask, off: Mask, incongruous: Mask, needs: Mask)

  // ---------------------------------------------------------------------------
  // The table.

  /** One letter of the option string and whether ':' follows it. */
  datatype Letter = Letter(opt: char, hasArg: bool)

  function OptionText(letters: seq<Letter>): string {
    if letters == [] then "" else [letters[0].opt] + (if letters[0].hasArg then ":" else "") + OptionText(letters[1..])
  }

  function Fresh(l: Letter, bit: nat): Entry {
    Entry(l.opt, l.hasArg, Text, false, {bit}, {}, {}, {})
  }

  function SkipColons(s: string): (r: string)
    ensures |r| <= |s| && (r != "" ==> r[0] != ':')
  {
    if s != "" && s[0] == ':' then SkipColons(s[1..]) else s
  }

  /** The option string without '!' and then '+' or '-'. */
  function Prefixless(s: string): string {
    var t := if s != "" && s[0] == '!' then s[1..] else s;
    if t != "" && (t[0] == '+' || t[0] == '-') then t[1..] else t
  }

  function ReadTable(s: string, n: nat): (t: seq<Entry>)
    decreases |s|
  {
    if s == "" || n >= MAX_OPTIONS then []
    else
      var hasArg := |s| > 1 && s[1] == ':';
      [Fresh(Letter(s[0], hasArg), n)] + ReadTable(SkipColons(s[1..]), n + 1)
  }

  /** The loop over applet_opts. */
  method BuildTable(applet_opts: string) returns (table: seq<Entry>)
    ensures table == ReadTable(Prefixless(applet_opts), 0) && |table| <= MAX_OPTIONS
  {
    table := [];
    var s := applet_opts;
    if s != "" && s[0] == '!' {
      s := s[1..];
    }
    if s != "" && (s[0] == '+' || s[0] == '-') {
      s := s[1..];
    }
    hide ReadTable, SkipColons, Fresh, Prefixless;
    ghost var whole := ReadTable(s, 0);
    assert [] + whole == whole;
    while s != "" && |table| < MAX_OPTIONS
      invariant |table| <= MAX_OPTIONS && table + ReadTable(s, |table|) == whole
      decreases |s|
    {
      var hasArg := |s| > 1 && s[1] == ':';
      ReadEntry(s, table);
      table, s := table + [Fresh(Letter(s[0], hasArg), |table|)], SkipColons(s[1..]);
    }
    ReadNothing(s, table);
  }

  lemma ReadEntry(s: string, table: seq<Entry>)
    requires s != "" && |table| < MAX_OPTIONS
    ensures var hasArg := |s| > 1 && s[1] == ':';
      (table + [Fresh(Letter(s[0], hasArg), |table|)]) + ReadTable(SkipColons(s[1..]), |table| + 1)
      == table + ReadTable(s, |table|)
  {
    ReadFirst(s, |table|);
    hide SkipColons, Fresh, ReadTable;
    var entry := Fresh(Letter(s[0], |s| > 1 && s[1] == ':'), |table|);
    Regroup(table, entry, ReadTable(SkipColons(s[1..]), |table| + 1));
  }

  lemma ReadFirst(s: string, n: nat)
    requires s != "" && n < MAX_OPTIONS
    ensures var entry := Fresh(Letter(s[0], |s| > 1 && s[1] == ':'), n);
      ReadTable(s, n) == [entry] + ReadTable(SkipColons(s[1..]), n + 1)
  {
    hide SkipColons, Fresh;
  }

  lemma Regroup(table: seq<Entry>, entry: Entry, rest: seq<Entry>)
    ensures (table + [entry]) + rest == table + ([entry] + rest)
  {
  }

  lemma ReadNothing(s: string, table: seq<Entry>)
    requires s == "" || |table| >= MAX_OPTIONS
    ensures table + ReadTable(s, |table|) == table
  {
  }

  /** Letters that are neither ':' nor one of the prefixes. */
  predicate PlainLetters(letters: seq<Letter>) {
    |letters| <= MAX_OPTIONS
    && forall k :: 0 <= k < |letters| ==> letters[k].opt != ':' && letters[k].opt != '!' && letters[k].opt != '+' && letters[k].opt != '-'
  }

  function TableOf(letters: seq<Letter>): (t: seq<Entry>)
    ensures |t| == |letters|
  {
    seq(|letters|, k requires 0 <= k < |letters| => Fresh(letters[k], k))
  }

  /** A string of plain letters gives one entry a letter, in order: it sets the bit of its position, has an
      argument if a colon follows, and nothing else is asked of it yet. */
  lemma TableRead(letters: seq<Letter>)
    requires PlainLetters(letters)
    ensures ReadTable(Prefixless(OptionText(letters)), 0) == TableOf(letters)
    ensures forall k :: 0 <= k < |letters| ==>
      var e := TableOf(letters)[k];
      && e.opt == letters[k].opt && e.hasArg == letters[k].hasArg && e.kind == Text && !e.counted
      && e.on == {k} && e.off == e.incongruous == e.needs == {}
  {
    var s := OptionText(letters);
    assert letters[0..] == letters;
    assert s != "" ==> s[0] == letters[0].opt;
    assert Prefixless(s) == s;
    TableReadFrom(letters, 0);
    assert TableOf(letters)[0..] == TableOf(letters);
  }

  lemma {:induction false} TableReadFrom(letters: seq<Letter>, n: nat)
    requires PlainLetters(letters) && n <= |letters|
    ensures ReadTable(OptionText(letters[n..]), n) == TableOf(letters)[n..]
    decreases |letters| - n
  {
    if n < |letters| {
      TextOfLetter(letters, n);
      TableReadFrom(letters, n + 1);
      hide OptionText, SkipColons, PlainLetters;
      assert TableOf(letters)[n..] == [Fresh(letters[n], n)] + TableOf(letters)[n + 1..];
    }
  }

  lemma TextOfLetter(letters: seq<Letter>, n: nat)
    requires PlainLetters(letters) && n < |letters|
    ensures var s := OptionText(letters[n..]);
      && s != "" && s[0] == letters[n].opt && letters[n].hasArg == (|s| > 1 && s[1] == ':')
      && SkipColons(s[1..]) == OptionText(letters[n + 1..])
  {
    var s, rest := OptionText(letters[n..]), letters[n + 1..];
    assert letters[n..][1..] == rest;
    var tail := OptionText(rest);
    if rest != [] {
      assert tail[0] == rest[0].opt == letters[n + 1].opt;
    }
    assert s[1..] == (if letters[n].hasArg then ":" else "") + tail;
    assert letters[n].hasArg ==> s[1..][1..] == tail;
    assert SkipColons(tail) == tail;
  }

  /** The first entry for a letter, or the length of the table. */
  function Find(table: seq<Entry>, c: char): (k: nat)
    ensures k <= |table| && (k < |table| ==> table[k].opt == c)
    ensures forall j :: 0 <= j < k ==> table[j].opt != c
  {
    if table == [] || table[0].opt == c then 0 else 1 + Find(table[1..], c)
  }

  // ---------------------------------------------------------------------------
  // The loop over option occurrences.

  /** An occurrence: the entry found, or none (an unknown option or a missing argument), and the
      number its argument spells. */
  datatype Occurrence = Occurrence(entry: nat, number: int)

  function Toggled(e: Entry): Mask {
    e.on * e.off
  }

  /** Bits to be both set and cleared are flipped; the others of the two masks are cleared, then set. */
  function Update(flags: Mask, e: Entry): Mask {
    var trigger := Toggled(e);
    var f := (flags - (e.off - trigger)) + (e.on - trigger);
    (f - trigger) + (trigger - f)
  }

  datatype State = Running(flags: Mask, numbers: map<nat, int>) | Failed

  function Process(table: seq<Entry>, s: State, o: Occurrence): State {
    if s.Failed? || o.entry >= |table| || s.flags * table[o.entry].incongruous != {} then Failed
    else Running(Update(s.flags, table[o.entry]),
                 if table[o.entry].kind == Int then s.numbers[o.entry := o.number] else s.numbers)
  }

  function ProcessAll(table: seq<Entry>, s: State, occs: seq<Occurrence>): State {
    if occs == [] then s else Process(table, ProcessAll(table, s, occs[..|occs| - 1]), occs[|occs| - 1])
  }

  /** The checks after the loop; `required` and the limits come from the mini-language. */
  predicate Acceptable(table: seq<Entry>, flags: Mask, required: Mask, rest: nat, minArg: int, maxArg: int) {
    && (forall k :: 0 <= k < |table| && table[k].needs != {} && flags * table[k].on != {} ==> flags * table[k].needs != {})
    && (required != {} ==> flags * required != {})
    && minArg <= rest && (maxArg < 0 || rest <= maxArg)
  }

  method ParseOptions(table: seq<Entry>, initial: Mask, occs: seq<Occurrence>, required: Mask, rest: nat, minArg: int, maxArg: int)
    returns (s: State)
    ensures var end := ProcessAll(table, Running(initial, map[]), occs);
      s == if end.Running? && Acceptable(table, end.flags, required, rest, minArg, maxArg) then end else Failed
    ensures s.Running? <==> Permitted(table, initial, occs) && Met(table, initial, occs, required, rest, minArg, maxArg)
    ensures s.Running? ==>
      && (forall b :: b in s.flags <==> BitAfter(table, initial, occs, b))
      && forall x :: x in s.numbers ==> LastOf(occs, x, x) >= 0 && s.numbers[x] == occs[LastOf(occs, x, x)].number
    ensures s.Running? ==>
      forall x :: 0 <= x < |table| ==> (x in s.numbers <==> table[x].kind == Int && LastOf(occs, x, x) >= 0)
  {
    OptionsMean(table, initial, occs, required, rest, minArg, maxArg);
    hide Permitted, Met, BitAfter, LastOf;
    s := Running(initial, map[]);
    var i := 0;
    ghost var start := s;
    assert occs[..0] == [];
    while i < |occs|
      invariant i <= |occs| && s == ProcessAll(table, start, occs[..i]) && s.Running?
    {
      var o := occs[i];
      assert occs[..i + 1][..i] == occs[..i];
      if o.entry >= |table| || s.flags * table[o.entry].incongruous != {} {
        FailureStays(table, start, occs, i + 1);
        return Failed;
      }
      s := Running(Update(s.flags, table[o.entry]),
                   if table[o.entry].kind == Int then s.numbers[o.entry := o.number] else s.numbers);
      i := i + 1;
    }
    assert occs[..i] == occs;
    var k := 0;
    while k < |table|
      invariant k <= |table|
      invariant forall j :: 0 <= j < k && table[j].needs != {} && s.flags * table[j].on != {} ==> s.flags * table[j].needs != {}
    {
      if table[k].needs != {} && s.flags * table[k].on != {} && s.flags * table[k].needs == {} {
        return Failed;
      }
      k := k + 1;
    }
    if (required != {} && s.flags * required == {}) || rest < minArg || (maxArg >= 0 && rest > maxArg) {
      return Failed;
    }
  }

  lemma OptionsMean(table: seq<Entry>, initial: Mask, occs: seq<Occurrence>, required: Mask, rest: nat, minArg: int, maxArg: int)
    ensures var end := ProcessAll(table, Running(initial, map[]), occs);
      && (end.Running? && Acceptable(table, end.flags, required, rest, minArg, maxArg)
          <==> Permitted(table, initial, occs) && Met(table, initial, occs, required, rest, minArg, maxArg))
      && (end.Running? ==>
          && (forall b :: b in end.flags <==> BitAfter(table, initial, occs, b))
          && (forall x :: x in end.numbers ==> LastOf(occs, x, x) >= 0 && end.numbers[x] == occs[LastOf(occs, x, x)].number)
          && forall x :: 0 <= x < |table| ==> (x in end.numbers <==> table[x].kind == Int && LastOf(occs, x, x) >= 0))
  {
    hide ProcessAll, Acceptable, Permitted, Met, BitAfter, LastOf;
    RunsIff(table, initial, occs);
    if ProcessAll(table, Running(initial, map[]), occs).Running? {
      AcceptableMeans(table, initial, occs, required, rest, minArg, maxArg);
      forall b
        ensures b in ProcessAll(table, Running(initial, map[]), occs).flags <==> BitAfter(table, initial, occs, b)
      {
        LastOccurrenceDecides(table, initial, occs, b);
      }
      forall x: nat
        ensures var numbers, j := ProcessAll(table, Running(initial, map[]), occs).numbers, LastOf(occs, x, x);
          && (x in numbers <==> j >= 0 && x < |table| && table[x].kind == Int)
          && (x in numbers ==> numbers[x] == occs[j].number)
      {
        NumbersKept(table, initial, occs, x);
      }
    }
  }

  lemma {:induction false} FailureStays(table: seq<Entry>, s: State, occs: seq<Occurrence>, k: nat)
    requires k <= |occs| && ProcessAll(table, s, occs[..k]).Failed?
    ensures ProcessAll(table, s, occs).Failed?
  {
    if k < |occs| {
      assert occs[..|occs| - 1][..k] == occs[..k];
      FailureStays(table, s, occs[..|occs| - 1], k);
    } else {
      assert occs[..k] == occs;
    }
  }

  // ---------------------------------------------------------------------------
  // What decides a bit.

  /** The occurrence sets or clears the bit for good. */
  predicate Decides(table: seq<Entry>, o: Occurrence, b: nat) {
    o.entry < |table| && (b in table[o.entry].on) != (b in table[o.entry].off)
  }

  predicate Flips(table: seq<Entry>, o: Occurrence, b: nat) {
    o.entry < |table| && b in Toggled(table[o.entry])
  }

  /** The last occurrence that decides the bit, or -1. */
  function LastDeciding(table: seq<Entry>, occs: seq<Occurrence>, b: nat): (j: int)
    ensures -1 <= j < |occs|
    ensures j >= 0 ==> Decides(table, occs[j], b)
    ensures forall k :: j < k < |occs| ==> !Decides(table, occs[k], b)
  {
    if occs == [] then -1
    else if Decides(table, occs[|occs| - 1], b) then |occs| - 1
    else LastDeciding(table, occs[..|occs| - 1], b)
  }

  /** How often the bit is flipped after occurrence `j`. */
  function FlipsAfter(table: seq<Entry>, occs: seq<Occurrence>, j: int, b: nat): nat {
    if |occs| - 1 <= j || occs == [] then 0
    else FlipsAfter(table, occs[..|occs| - 1], j, b) + if Flips(table, occs[|occs| - 1], b) then 1 else 0
  }

  predicate BitAfter(table: seq<Entry>, initial: Mask, occs: seq<Occurrence>, b: nat) {
    var j := LastDeciding(table, occs, b);
    var base := if j >= 0 then b in table[occs[j].entry].on else b in initial;
    base != (FlipsAfter(table, occs, j, b) % 2 == 1)
  }

  /** Each flag bit is decided by the last occurrence that sets or clears it, then flipped once for
      each later toggle. */
  lemma {:induction false} LastOccurrenceDecides(table: seq<Entry>, initial: Mask, occs: seq<Occurrence>, b: nat)
    requires ProcessAll(table, Running(initial, map[]), occs).Running?
    ensures b in ProcessAll(table, Running(initial, map[]), occs).flags <==> BitAfter(table, initial, occs, b)
  {
    if occs != [] {
      var front, o := occs[..|occs| - 1], occs[|occs| - 1];
      LastOccurrenceDecides(table, initial, front, b);
      if !Decides(table, o, b) {
        var j := LastDeciding(table, front, b);
        assert j >= 0 ==> front[j] == occs[j];
        var n := FlipsAfter(table, front, j, b);
        assert (n + 1) % 2 == 1 - n % 2;
      }
    }
  }

  // ---------------------------------------------------------------------------
  // What is accepted.

  /** Every occurrence is a known option, and none comes while a bit it is incongruous with is on. */
  ghost predicate Permitted(table: seq<Entry>, initial: Mask, occs: seq<Occurrence>) {
    forall k :: 0 <= k < |occs| ==> PermittedAt(table, initial, occs[..k], occs[k])
  }

  ghost predicate PermittedAt(table: seq<Entry>, initial: Mask, before: seq<Occurrence>, o: Occurrence) {
    o.entry < |table| && forall b :: b in table[o.entry].incongruous ==> !BitAfter(table, initial, before, b)
  }

  /** Some bit of a mask is on in the end. */
  ghost predicate SomeBit(table: seq<Entry>, initial: Mask, occs: seq<Occurrence>, m: Mask) {
    exists b :: b in m && BitAfter(table, initial, occs, b)
  }

  /** What options need and what is required is on, and the number of other arguments is right. */
  ghost predicate Met(table: seq<Entry>, initial: Mask, occs: seq<Occurrence>, required: Mask, rest: nat, minArg: int, maxArg: int) {
    && (forall k :: 0 <= k < |table| && table[k].needs != {} && SomeBit(table, initial, occs, table[k].on) ==>
          SomeBit(table, initial, occs, table[k].needs))
    && (required != {} ==> SomeBit(table, initial, occs, required))
    && minArg <= rest && (maxArg < 0 || rest <= maxArg)
  }

  lemma {:induction false} RunsIff(table: seq<Entry>, initial: Mask, occs: seq<Occurrence>)
    ensures ProcessAll(table, Running(initial, map[]), occs).Running? <==> Permitted(table, initial, occs)
  {
    hide BitAfter, Update;
    if occs != [] {
      var n := |occs| - 1;
      var front, o := occs[..n], occs[n];
      RunsIff(table, initial, front);
      var s := ProcessAll(table, Running(initial, map[]), front);
      if s.Running? && o.entry < |table| {
        MeetsNone(table, initial, front, table[o.entry].incongruous);
      }
      PermittedSnoc(table, initial, occs);
    }
  }

  lemma PermittedSnoc(table: seq<Entry>, initial: Mask, occs: seq<Occurrence>)
    requires occs != []
    ensures var n := |occs| - 1;
      Permitted(table, initial, occs) <==> Permitted(table, initial, occs[..n]) && PermittedAt(table, initial, occs[..n], occs[n])
  {
    hide PermittedAt;
    var n := |occs| - 1;
    assert forall k :: 0 <= k < n ==> occs[..n][..k] == occs[..k] && occs[..n][k] == occs[k];
    if Permitted(table, initial, occs[..n]) && PermittedAt(table, initial, occs[..n], occs[n]) {
      forall k | 0 <= k < |occs|
        ensures PermittedAt(table, initial, occs[..k], occs[k])
      {
        if k < n {
          assert PermittedAt(table, initial, occs[..n][..k], occs[..n][k]);
        }
      }
    }
    if Permitted(table, initial, occs) {
      forall k | 0 <= k < n
        ensures PermittedAt(table, initial, occs[..n][..k], occs[..n][k])
      {
        assert PermittedAt(table, initial, occs[..k], occs[k]);
      }
    }
  }

  /** The flags meet a mask exactly when some bit of it is on. */
  lemma MeetsNone(table: seq<Entry>, initial: Mask, occs: seq<Occurrence>, m: Mask)
    requires ProcessAll(table, Running(initial, map[]), occs).Running?
    ensures ProcessAll(table, Running(initial, map[]), occs).flags * m != {} <==> SomeBit(table, initial, occs, m)
  {
    hide ProcessAll, BitAfter;
    var flags := ProcessAll(table, Running(initial, map[]), occs).flags;
    forall b
      ensures b in flags <==> BitAfter(table, initial, occs, b)
    {
      LastOccurrenceDecides(table, initial, occs, b);
    }
    if flags * m != {} {
      var b :| b in flags * m;
    }
    if SomeBit(table, initial, occs, m) {
      var b :| b in m && BitAfter(table, initial, occs, b);
      assert b in flags * m;
    }
  }

  lemma AcceptableMeans(table: seq<Entry>, initial: Mask, occs: seq<Occurrence>, required: Mask, rest: nat, minArg: int, maxArg: int)
    requires ProcessAll(table, Running(initial, map[]), occs).Running?
    ensures Acceptable(table, ProcessAll(table, Running(initial, map[]), occs).flags, required, rest, minArg, maxArg)
      <==> Met(table, initial, occs, required, rest, minArg, maxArg)
  {
    hide ProcessAll, SomeBit;
    forall m
      ensures ProcessAll(table, Running(initial, map[]), occs).flags * m != {} <==> SomeBit(table, initial, occs, m)
    {
      MeetsNone(table, initial, occs, m);
    }
  }

  /** The number kept for an option is that of its last occurrence. */
  lemma {:induction false} NumbersKept(table: seq<Entry>, initial: Mask, occs: seq<Occurrence>, x: nat)
    requires ProcessAll(table, Running(initial, map[]), occs).Running?
    ensures var numbers, j := ProcessAll(table, Running(initial, map[]), occs).numbers, LastOf(occs, x, x);
      && (x in numbers <==> j >= 0 && x < |table| && table[x].kind == Int)
      && (x in numbers ==> numbers[x] == occs[j].number)
  {
    hide Update;
    if occs != [] {
      var front := occs[..|occs| - 1];
      NumbersKept(table, initial, front, x);
      var j := LastOf(front, x, x);
      assert j >= 0 ==> front[j] == occs[j];
    }
  }

  /** Two options that exclude each other, whose bits nothing else sets, are never both on. */
  lemma {:induction false} Exclusion(table: seq<Entry>, initial: Mask, occs: seq<Occurrence>, x: nat, y: nat)
    requires x < |table| && y < |table| && x != y && !(x in initial && y in initial)
    requires y in table[x].incongruous && x in table[y].incongruous
    requires forall k :: 0 <= k < |table| ==> (x in table[k].on ==> k == x) && (y in table[k].on ==> k == y)
    requires ProcessAll(table, Running(initial, map[]), occs).Running?
    ensures var flags := ProcessAll(table, Running(initial, map[]), occs).flags; !(x in flags && y in flags)
  {
    if occs != [] {
      var front, o := occs[..|occs| - 1], occs[|occs| - 1];
      Exclusion(table, initial, front, x, y);
      var before := ProcessAll(table, Running(initial, map[]), front).flags;
      var hit := before * table[o.entry].incongruous;
      assert o.entry == x ==> y !in before by {
        assert y !in hit;
      }
      assert o.entry == y ==> x !in before by {
        assert x !in hit;
      }
    }
  }

  // ---------------------------------------------------------------------------
  // The mini-language of opt_complementary.

  /** What the groups fill in: the table's masks, flags set from the start, the letters of which one is
      required, the argument limits, and the special flags. */
  datatype Spec = Spec(table: seq<Entry>, flags: Mask, required: Mask, minArg: int, maxArg: int,
                       usageOnError: bool, allAreOpts: bool, firstIsOpt: bool)

  datatype Compiled = Done(spec: Spec) | NoOption(c: char)

  /** The character after `k` more, or NUL at the end. */
  function At(s: string, k: nat): char {
    if k < |s| then s[k] else '\0'
  }

  function Drop(s: string, k: nat): (r: string)
    ensures |s| > 0 && k > 0 ==> |r| < |s|
    ensures k <= |s| ==> r == s[k..]
  {
    if k <= |s| then s[k..] else ""
  }

  predicate IsDigit(c: char) {
    '0' <= c <= '9'
  }

  predicate EndsGroup(c: char) {
    c == ':' || c == '\0'
  }

  /** Which mask the letters of a group go to. */
  datatype Target = ToOn | ToOff | ToIncongruous | ToNeeds

  function AfterDash(t: Target): Target {
    if t == ToOff then ToIncongruous else ToOff
  }

  function AddTo(e: Entry, t: Target, m: Mask): Entry {
    match t
    case ToOn => e.(on := e.on + m)
    case ToOff => e.(off := e.off + m)
    case ToIncongruous => e.(incongruous := e.incongruous + m)
    case ToNeeds => e.(needs := e.needs + m)
  }

  /** One character of a group after its main option `k`. */
  function PairChar(table: seq<Entry>, k: nat, t: Target, c: char): (seq<Entry>, Target)
    requires k < |table|
  {
    if c == '?' then (table, ToNeeds)
    else if c == '-' then (table, AfterDash(t))
    else
      var j := Find(table, c);
      if j < |table| then (table[k := AddTo(table[k], t, table[j].on)], t) else (table, t)
  }

  /** The inner loop: up to ':' or the end. */
  function PairFrom(s: string, table: seq<Entry>, k: nat, t: Target): (r: (seq<Entry>, string))
    requires k < |table|
    ensures |r.1| <= |s|
  {
    if s == "" || s[0] == ':' then (table, s)
    else var next := PairChar(table, k, t, s[0]); PairFrom(s[1..], next.0, k, next.1)
  }

  /** The outer loop, on what is left of opt_complementary. */
  function CompileFrom(s: string, p: Spec): Compiled
    decreases |s|
  {
    if s == "" then Done(p)
    else if s[0] == ':' then CompileFrom(s[1..], p)
    else
      var c := At(s, 1);
      if s[0] == '?' then
        if IsDigit(c) then CompileFrom(s[2..], p.(maxArg := c as int - '0' as int))
        else CompileFrom(s[1..], p.(usageOnError := true))
      else if s[0] == '-' then
        if IsDigit(c) then CompileFrom(s[2..], p.(minArg := c as int - '0' as int))
        else if c == '-' then CompileFrom(s[2..], p.(firstIsOpt := true))
        else CompileFrom(s[1..], p.(allAreOpts := true))
      else if s[0] == '=' then
        var n := c as int - '0' as int;
        CompileFrom(Drop(s, 2), p.(minArg := n, maxArg := n))
      else
        var k := Find(p.table, s[0]);
        if k == |p.table| then NoOption(s[0])
        else
          var e := p.table[k];
          if c == ':' && At(s, 2) == ':' then CompileFrom(s[1..], p.(table := p.table[k := e.(kind := List)]))
          else if c == '+' && EndsGroup(At(s, 2)) then CompileFrom(s[2..], p.(table := p.table[k := e.(kind := Int)]))
          else if EndsGroup(c) then CompileFrom(s[1..], p.(required := p.required + e.on))
          else if c == '-' && EndsGroup(At(s, 2)) then
            CompileFrom(s[2..], p.(table := p.table[k := e.(incongruous := e.incongruous + e.on)], flags := p.flags + e.on))
          else
            var counted := c == s[0];
            var t := if counted then p.table[k := e.(counted := true)] else p.table;
            var pair := PairFrom(if counted then s[2..] else s[1..], t, k, ToOn);
            CompileFrom(pair.1, p.(table := pair.0))
  }

  /** A group, by what it asks for. */
  datatype Rule =
    | AtMost(n: nat)                          // "?N"
    | UsageOnError                            // "?"
    | AtLeast(n: nat)                         // "-N"
    | FirstIsOption                           // "--"
    | AllAreOptions                           // "-"
    | Exactly(n: nat)                         // "=N"
    | ListOption(opt: char)                   // "a::"
    | IntOption(opt: char)                    // "a+"
    | Required(opt: char)                     // "a"
    | ShowUsage(opt: char)                    // "a-"
    | Group(opt: char, counted: bool, rest: string)  // "abc", "aa", "a-b", "a--b", "a?b"

  function Digit(n: nat): char
    requires n <= 9
  {
    '0' + n as char
  }

  /** A character that can start a group about an option: the others are marks. */
  predicate IsLetter(c: char) {
    c != ':' && c != '?' && c != '-' && c != '=' && c != '\0'
  }

  predicate ValidRule(r: Rule) {
    match r
    case AtMost(n) => n <= 9
    case AtLeast(n) => n <= 9
    case Exactly(n) => n <= 9
    case ListOption(c) => IsLetter(c)
    case IntOption(c) => IsLetter(c)
    case Required(c) => IsLetter(c)
    case ShowUsage(c) => IsLetter(c)
    case Group(c, counted, rest) =>
      && IsLetter(c) && ':' !in rest && '\0' !in rest
      && (!counted ==> rest != "" && rest[0] != c && rest != "-" && rest != "+")
      && (c == '+' && counted ==> rest != "")
    case _ => true
  }

  function RuleText(r: Rule): string
    requires ValidRule(r)
  {
    match r
    case AtMost(n) => ['?', Digit(n)]
    case UsageOnError => "?"
    case AtLeast(n) => ['-', Digit(n)]
    case FirstIsOption => "--"
    case AllAreOptions => "-"
    case Exactly(n) => ['=', Digit(n)]
    case ListOption(c) => [c, ':']
    case IntOption(c) => [c, '+']
    case Required(c) => [c]
    case ShowUsage(c) => [c, '-']
    case Group(c, counted, rest) => (if counted then [c, c] else [c]) + rest
  }

  /** Groups separated by colons. */
  function SpecText(rules: seq<Rule>): string
    requires forall k :: 0 <= k < |rules| ==> ValidRule(rules[k])
  {
    if rules == [] then ""
    else RuleText(rules[0]) + if |rules| == 1 && !rules[0].ListOption? then "" else [':'] + SpecText(rules[1..])
  }

  /** Characters of a group that are not marks name options. */
  predicate Names(c: char) {
    c != '?' && c != '-'
  }

  /** The dashes before `i` that no '?' follows. */
  function DashesSince(rest: string, i: nat): nat
    requires i <= |rest|
  {
    if i == 0 || rest[i - 1] == '?' then 0 else DashesSince(rest, i - 1) + if rest[i - 1] == '-' then 1 else 0
  }

  /** Which mask the letter at `i` goes to: the marks before it say. */
  function MaskAt(rest: string, i: nat): Target
    requires i <= |rest|
  {
    var d := DashesSince(rest, i);
    if d == 0 then (if '?' in rest[..i] then ToNeeds else ToOn)
    else if d % 2 == 1 then ToOff
    else ToIncongruous
  }

  /** The bits of the option a letter names; none if there is no such option. */
  function BitsOf(table: seq<Entry>, c: char): Mask {
    var j := Find(table, c);
    if j < |table| then table[j].on else {}
  }

  /** The union of the bits that the first `n` characters name for a mask. */
  function Asked(table: seq<Entry>, rest: string, n: nat, u: Target): Mask
    requires n <= |rest|
  {
    set i, b | 0 <= i < n && Names(rest[i]) && MaskAt(rest, i) == u && b in BitsOf(table, rest[i]) :: b
  }

  /** What a group that names its own option adds besides: the bits that option has gained by then. */
  function AskedOfItself(table: seq<Entry>, k: nat, rest: string, n: nat, u: Target): Mask
    requires n <= |rest|
  {
    set i, b | 0 <= i < n && Names(rest[i]) && MaskAt(rest, i) == u && Find(table, rest[i]) == k
               && b in Asked(table, rest, i, ToOn) :: b
  }

  function Gained(table: seq<Entry>, k: nat, rest: string, n: nat, u: Target): Mask
    requires n <= |rest|
  {
    Asked(table, rest, n, u) + AskedOfItself(table, k, rest, n, u)
  }

  /** The entry of the group's main option after the first `n` characters: each mask has gained the
      bits asked for it, and nothing else has changed. */
  function Grown(table: seq<Entry>, k: nat, rest: string, n: nat): Entry
    requires k < |table| && n <= |rest|
  {
    var e := table[k];
    e.(on := e.on + Gained(table, k, rest, n, ToOn), off := e.off + Gained(table, k, rest, n, ToOff),
       incongruous := e.incongruous + Gained(table, k, rest, n, ToIncongruous),
       needs := e.needs + Gained(table, k, rest, n, ToNeeds))
  }

  /** The table a group leaves. */
  function AfterGroup(table: seq<Entry>, k: nat, r: Rule): seq<Entry>
    requires r.Group? && k < |table|
  {
    var t := Counted(table, k, r);
    t[k := Grown(t, k, r.rest, |r.rest|)]
  }

  function Counted(table: seq<Entry>, k: nat, r: Rule): (t: seq<Entry>)
    requires r.Group? && k < |table|
    ensures |t| == |table|
  {
    if r.counted then table[k := table[k].(counted := true)] else table
  }

  /** What each group asks for, as documented. */
  function Apply(p: Spec, r: Rule): Compiled {
    match r
    case AtMost(n) => Done(p.(maxArg := n))
    case UsageOnError => Done(p.(usageOnError := true))
    case AtLeast(n) => Done(p.(minArg := n))
    case FirstIsOption => Done(p.(firstIsOpt := true))
    case AllAreOptions => Done(p.(allAreOpts := true))
    case Exactly(n) => Done(p.(minArg := n, maxArg := n))
    case ListOption(c) => ApplyTo(p, r, c, Find(p.table, c))
    case IntOption(c) => ApplyTo(p, r, c, Find(p.table, c))
    case Required(c) => ApplyTo(p, r, c, Find(p.table, c))
    case ShowUsage(c) => ApplyTo(p, r, c, Find(p.table, c))
    case Group(c, _, _) => ApplyTo(p, r, c, Find(p.table, c))
  }

  /** A group about the option at entry `k`. */
  function ApplyTo(p: Spec, r: Rule, c: char, k: nat): Compiled {
    if k >= |p.table| then NoOption(c) else
    var e := p.table[k];
    if r.ListOption? then Done(p.(table := p.table[k := e.(kind := List)]))
    else if r.IntOption? then Done(p.(table := p.table[k := e.(kind := Int)]))
    else if r.Required? then Done(p.(required := p.required + e.on))
    else if r.ShowUsage? then
      Done(p.(table := p.table[k := e.(incongruous := e.incongruous + e.on)], flags := p.flags + e.on))
    else if r.Group? then
      Done(p.(table := AfterGroup(p.table, k, r)))
    else Done(p)
  }

  function ApplyAll(p: Spec, rules: seq<Rule>): Compiled
    decreases |rules|
  {
    if rules == [] then Done(p)
    else if Apply(p, rules[0]).Done? then ApplyAll(Apply(p, rules[0]).spec, rules[1..])
    else Apply(p, rules[0])
  }

  // ---------------------------------------------------------------------------
  // The compiler's loop over a group adds exactly that.

  /** The letters and marks of a group in turn. */
  function AddRest(table: seq<Entry>, k: nat, t: Target, rest: string): (r: seq<Entry>)
    requires k < |table|
    ensures |r| == |table|
    decreases |rest|
  {
    if rest == "" then table
    else var next := PairChar(table, k, t, rest[0]); AddRest(next.0, k, next.1, rest[1..])
  }

  /** The table and the target of the loop before character `n`. */
  function PairState(table: seq<Entry>, k: nat, rest: string, n: nat): (r: (seq<Entry>, Target))
    requires k < |table| && n <= |rest|
    ensures |r.0| == |table|
  {
    if n == 0 then (table, ToOn)
    else var before := PairState(table, k, rest, n - 1); PairChar(before.0, k, before.1, rest[n - 1])
  }

  lemma {:induction false} AddRestFrom(table: seq<Entry>, k: nat, rest: string, n: nat)
    requires k < |table| && n <= |rest|
    ensures var now := PairState(table, k, rest, n);
      AddRest(table, k, ToOn, rest) == AddRest(now.0, k, now.1, rest[n..])
  {
    if n == 0 {
      assert rest[0..] == rest;
    } else {
      AddRestFrom(table, k, rest, n - 1);
      assert rest[n - 1..][1..] == rest[n..];
      hide PairChar, PairState;
      PairStateNext(table, k, rest, n);
    }
  }

  lemma PairStateNext(table: seq<Entry>, k: nat, rest: string, n: nat)
    requires k < |table| && 0 < n <= |rest|
    ensures var before := PairState(table, k, rest, n - 1);
      PairState(table, k, rest, n) == PairChar(before.0, k, before.1, rest[n - 1])
  {
  }

  lemma {:induction false} FindSame(s: seq<Entry>, t: seq<Entry>, c: char)
    requires |s| == |t| && forall j :: 0 <= j < |s| ==> s[j].opt == t[j].opt
    ensures Find(s, c) == Find(t, c)
  {
    if s != [] {
      FindSame(s[1..], t[1..], c);
    }
  }

  /** What character `n` adds to the bits asked for a mask. */
  lemma GainedNext(table: seq<Entry>, k: nat, rest: string, n: nat, u: Target)
    requires n < |rest|
    ensures Gained(table, k, rest, n + 1, u) == Gained(table, k, rest, n, u)
      + (if Names(rest[n]) && MaskAt(rest, n) == u
         then BitsOf(table, rest[n]) + (if Find(table, rest[n]) == k then Asked(table, rest, n, ToOn) else {})
         else {})
  {
    hide MaskAt, Find, BitsOf;
  }

  lemma GainedOn(table: seq<Entry>, k: nat, rest: string, n: nat)
    requires n <= |rest|
    ensures Gained(table, k, rest, n, ToOn) == Asked(table, rest, n, ToOn)
  {
    hide MaskAt, Find, BitsOf;
  }

  lemma NextMask(rest: string, n: nat)
    requires n < |rest|
    ensures rest[n] == '?' ==> MaskAt(rest, n + 1) == ToNeeds
    ensures rest[n] == '-' ==> MaskAt(rest, n + 1) == AfterDash(MaskAt(rest, n))
    ensures Names(rest[n]) ==> MaskAt(rest, n + 1) == MaskAt(rest, n)
  {
    assert rest[..n + 1] == rest[..n] + [rest[n]];
  }

  function MaskOf(e: Entry, u: Target): Mask {
    match u
    case ToOn => e.on
    case ToOff => e.off
    case ToIncongruous => e.incongruous
    case ToNeeds => e.needs
  }

  predicate SameButMasks(e: Entry, f: Entry) {
    e.opt == f.opt && e.hasArg == f.hasArg && e.kind == f.kind && e.counted == f.counted
  }

  lemma GrownMasks(table: seq<Entry>, k: nat, rest: string, n: nat)
    requires k < |table| && n <= |rest|
    ensures SameButMasks(Grown(table, k, rest, n), table[k])
    ensures forall u :: MaskOf(Grown(table, k, rest, n), u) == MaskOf(table[k], u) + Gained(table, k, rest, n, u)
  {
    hide Gained;
  }

  lemma MasksDecide(e: Entry, f: Entry)
    requires SameButMasks(e, f) && forall u :: MaskOf(e, u) == MaskOf(f, u)
    ensures e == f
  {
    assert MaskOf(e, ToOn) == MaskOf(f, ToOn) && MaskOf(e, ToOff) == MaskOf(f, ToOff);
    assert MaskOf(e, ToIncongruous) == MaskOf(f, ToIncongruous) && MaskOf(e, ToNeeds) == MaskOf(f, ToNeeds);
  }

  lemma AddedMasks(e: Entry, t: Target, m: Mask)
    ensures SameButMasks(AddTo(e, t, m), e)
    ensures forall u :: MaskOf(AddTo(e, t, m), u) == MaskOf(e, u) + if u == t then m else {}
  {
  }

  /** The bits a letter finds when the loop reads it. */
  lemma BitsNow(table: seq<Entry>, k: nat, rest: string, n: nat)
    requires k < |table| && n < |rest|
    ensures var now, c := table[k := Grown(table, k, rest, n)], rest[n];
      var j := Find(table, c);
      && Find(now, c) == j
      && (if j < |table| then now[j].on else {}) == BitsOf(table, c) + if j == k then Asked(table, rest, n, ToOn) else {}
  {
    hide Find, Gained, Asked, MaskAt;
    GrownMasks(table, k, rest, n);
    FindSame(table[k := Grown(table, k, rest, n)], table, rest[n]);
    GainedOn(table, k, rest, n);
    assert MaskOf(Grown(table, k, rest, n), ToOn) == table[k].on + Gained(table, k, rest, n, ToOn);
  }

  /** One character: the bits it asks for are gained. */
  lemma GrownNext(table: seq<Entry>, k: nat, rest: string, n: nat)
    requires k < |table| && n < |rest|
    ensures var c, e := rest[n], Grown(table, k, rest, n);
      var bits := BitsOf(table, c) + if Find(table, c) == k then Asked(table, rest, n, ToOn) else {};
      Grown(table, k, rest, n + 1) == if Names(c) then AddTo(e, MaskAt(rest, n), bits) else e
  {
    hide Gained, Grown, Asked, MaskAt, Find, BitsOf, AddTo, Names;
    var c, e, f := rest[n], Grown(table, k, rest, n), Grown(table, k, rest, n + 1);
    var bits := BitsOf(table, c) + if Find(table, c) == k then Asked(table, rest, n, ToOn) else {};
    GrownMasks(table, k, rest, n);
    GrownMasks(table, k, rest, n + 1);
    AddedMasks(e, MaskAt(rest, n), bits);
    var g := if Names(c) then AddTo(e, MaskAt(rest, n), bits) else e;
    forall u
      ensures MaskOf(f, u) == MaskOf(g, u)
    {
      GainedNext(table, k, rest, n, u);
    }
    MasksDecide(f, g);
  }

  lemma CharMeans(table: seq<Entry>, k: nat, rest: string, n: nat)
    requires k < |table| && n < |rest|
    ensures PairChar(table[k := Grown(table, k, rest, n)], k, MaskAt(rest, n), rest[n])
      == (table[k := Grown(table, k, rest, n + 1)], MaskAt(rest, n + 1))
  {
    hide Grown, MaskAt, Asked, Find;
    NextMask(rest, n);
    BitsNow(table, k, rest, n);
    GrownNext(table, k, rest, n);
    var e, c := Grown(table, k, rest, n), rest[n];
    var j := Find(table, c);
    var now := table[k := e];
    var f := AddTo(e, MaskAt(rest, n), if j < |table| then now[j].on else {});
    assert now[k := f] == table[k := f];
    if Names(c) && j == |table| {
      AddNone(e, MaskAt(rest, n));
    }
  }

  lemma AddNone(e: Entry, t: Target)
    ensures AddTo(e, t, {}) == e && AddTo(e, t, {} + {}) == e
  {
    AddedMasks(e, t, {});
    MasksDecide(AddTo(e, t, {}), e);
  }

  /** At every character, the masks have gained what was asked so far, and the target is the one that
      the marks say. */
  lemma {:induction false} PairStateMeans(table: seq<Entry>, k: nat, rest: string, n: nat)
    requires k < |table| && n <= |rest|
    ensures PairState(table, k, rest, n) == (table[k := Grown(table, k, rest, n)], MaskAt(rest, n))
  {
    hide PairChar, Grown, MaskAt;
    if n == 0 {
      GrownNone(table, k, rest);
    } else {
      PairStateMeans(table, k, rest, n - 1);
      PairStateNext(table, k, rest, n);
      CharMeans(table, k, rest, n - 1);
      hide PairState;
    }
  }

  lemma GrownNone(table: seq<Entry>, k: nat, rest: string)
    requires k < |table|
    ensures table[k := Grown(table, k, rest, 0)] == table && MaskAt(rest, 0) == ToOn
  {
    GrownMasks(table, k, rest, 0);
    forall u
      ensures Gained(table, k, rest, 0, u) == {}
    {
    }
    hide Grown, Gained;
    MasksDecide(Grown(table, k, rest, 0), table[k]);
  }

  lemma ApplyGroup(p: Spec, r: Rule)
    requires r.Group? && Find(p.table, r.opt) < |p.table|
    ensures Apply(p, r) == Done(p.(table := AfterGroup(p.table, Find(p.table, r.opt), r)))
  {
    hide Find, Grown;
  }

  /** So a group has the documented effect. */
  lemma GroupApplied(p: Spec, r: Rule)
    requires r.Group? && Find(p.table, r.opt) < |p.table|
    ensures var k := Find(p.table, r.opt);
      Apply(p, r) == Done(p.(table := AddRest(Counted(p.table, k, r), k, ToOn, r.rest)))
  {
    hide Find, PairState, PairChar, Grown, AddRest, MaskAt, Apply, Counted;
    ApplyGroup(p, r);
    var k := Find(p.table, r.opt);
    var t := Counted(p.table, k, r);
    AddRestFrom(t, k, r.rest, |r.rest|);
    PairStateMeans(t, k, r.rest, |r.rest|);
    assert r.rest[|r.rest|..] == "";
    AddNothing(PairState(t, k, r.rest, |r.rest|).0, k, PairState(t, k, r.rest, |r.rest|).1);
  }

  /** The effect of a group bit by bit: a mask of the main option has a bit if it had it before or if a
      letter that the marks send to that mask names an option with the bit, or the main option itself
      after it gained the bit; nothing else changes. */
  lemma GroupMeans(p: Spec, r: Rule)
    requires r.Group? && Find(p.table, r.opt) < |p.table|
    ensures var k := Find(p.table, r.opt);
      && Apply(p, r).Done? && |Apply(p, r).spec.table| == |p.table|
      && (var q := Apply(p, r).spec;
          && q == p.(table := q.table) && (forall j :: 0 <= j < |p.table| && j != k ==> q.table[j] == p.table[j])
          && q.table[k].opt == p.table[k].opt && q.table[k].hasArg == p.table[k].hasArg && q.table[k].kind == p.table[k].kind
          && q.table[k].counted == (p.table[k].counted || r.counted)
          && forall u, b :: b in MaskOf(q.table[k], u) <==>
              || b in MaskOf(p.table[k], u)
              || exists i :: 0 <= i < |r.rest| && Names(r.rest[i]) && MaskAt(r.rest, i) == u && Gives(p.table, k, r.rest, i, b))
  {
    hide Find, Apply, AfterGroup, MaskAt, Gives, MaskOf;
    ApplyGroup(p, r);
    GroupEntry(p.table, Find(p.table, r.opt), r);
  }

  lemma GroupEntry(table: seq<Entry>, k: nat, r: Rule)
    requires r.Group? && k < |table|
    ensures var t := AfterGroup(table, k, r);
      && |t| == |table| && (forall j :: 0 <= j < |t| && j != k ==> t[j] == table[j])
      && t[k].opt == table[k].opt && t[k].hasArg == table[k].hasArg && t[k].kind == table[k].kind
      && t[k].counted == (table[k].counted || r.counted)
      && forall u, b :: b in MaskOf(t[k], u) <==>
          || b in MaskOf(table[k], u)
          || exists i :: 0 <= i < |r.rest| && Names(r.rest[i]) && MaskAt(r.rest, i) == u && Gives(table, k, r.rest, i, b)
  {
    hide Find, Grown, Gained, MaskAt, Gives, MaskOf;
    var t := Counted(table, k, r);
    GrownMasks(t, k, r.rest, |r.rest|);
    CountedMasks(table[k]);
    forall u, b
      ensures b in Gained(t, k, r.rest, |r.rest|, u) <==>
        exists i :: 0 <= i < |r.rest| && Names(r.rest[i]) && MaskAt(r.rest, i) == u && Gives(table, k, r.rest, i, b)
    {
      GainedMeans(table, t, k, r.rest, u, b);
    }
  }

  lemma CountedMasks(e: Entry)
    ensures forall u :: MaskOf(e.(counted := true), u) == MaskOf(e, u)
  {
  }

  /** The letter at `i` stands for a bit: its option has it, or is the main option and gained it from an
      earlier letter. */
  ghost predicate Gives(table: seq<Entry>, k: nat, rest: string, i: nat, b: nat)
    requires i < |rest|
  {
    || b in BitsOf(table, rest[i])
    || (Find(table, rest[i]) == k
        && exists j :: 0 <= j < i && Names(rest[j]) && MaskAt(rest, j) == ToOn && b in BitsOf(table, rest[j]))
  }

  lemma GainedMeans(table: seq<Entry>, t: seq<Entry>, k: nat, rest: string, u: Target, b: nat)
    requires |t| == |table| && forall j :: 0 <= j < |t| ==> t[j].opt == table[j].opt && t[j].on == table[j].on
    ensures b in Gained(t, k, rest, |rest|, u) <==>
      exists i :: 0 <= i < |rest| && Names(rest[i]) && MaskAt(rest, i) == u && Gives(table, k, rest, i, b)
  {
    forall c
      ensures Find(t, c) == Find(table, c) && BitsOf(t, c) == BitsOf(table, c)
    {
      FindSame(t, table, c);
    }
    hide Find, MaskAt, BitsOf, Asked, Names;
    forall i | 0 <= i < |rest|
      ensures (b in BitsOf(t, rest[i]) || (Find(t, rest[i]) == k && b in Asked(t, rest, i, ToOn))) <==> Gives(table, k, rest, i, b)
    {
      AskedMeans(t, rest, i, ToOn, b);
    }
    AskedMeans(t, rest, |rest|, u, b);
    hide Gives;
  }

  lemma AskedMeans(table: seq<Entry>, rest: string, n: nat, u: Target, b: nat)
    requires n <= |rest|
    ensures b in Asked(table, rest, n, u) <==>
      exists i :: 0 <= i < n && Names(rest[i]) && MaskAt(rest, i) == u && b in BitsOf(table, rest[i])
  {
    hide Find, MaskAt, BitsOf;
  }

  lemma {:induction false} PairFromRest(rest: string, after: string, table: seq<Entry>, k: nat, t: Target)
    requires k < |table| && ':' !in rest && (after == "" || after[0] == ':')
    ensures PairFrom(rest + after, table, k, t) == (AddRest(table, k, t, rest), after)
    decreases |rest|
  {
    if rest == "" {
      assert rest + after == after;
    } else {
      assert (rest + after)[1..] == rest[1..] + after;
      var next := PairChar(table, k, t, rest[0]);
      PairFromRest(rest[1..], after, next.0, k, next.1);
    }
  }

  lemma StartOfText(rules: seq<Rule>)
    requires rules != [] && forall k :: 0 <= k < |rules| ==> ValidRule(rules[k])
    ensures SpecText(rules) != "" && SpecText(rules)[0] != ':'
  {
    assert ValidRule(rules[0]);
  }

  /** What follows a group: nothing, or a colon and the next group. */
  predicate Follows(r: Rule, after: string) {
    && (after == "" || after[0] == ':') && (|after| > 1 ==> after[1] != ':')
    && (r.ListOption? ==> after != "")
  }

  function ThenCompile(c: Compiled, after: string): Compiled {
    if c.Done? then CompileFrom(after, c.spec) else c
  }

  lemma CompileMark(r: Rule, after: string, p: Spec)
    requires ValidRule(r) && Follows(r, after)
    requires r.AtMost? || r.UsageOnError? || r.AtLeast? || r.FirstIsOption? || r.AllAreOptions? || r.Exactly?
    ensures CompileFrom(RuleText(r) + after, p) == ThenCompile(Apply(p, r), after)
  {
    var s := RuleText(r) + after;
    assert s[|RuleText(r)|..] == after;
  }

  lemma CompileLetter(r: Rule, after: string, p: Spec)
    requires ValidRule(r) && Follows(r, after) && (r.ListOption? || r.IntOption? || r.Required? || r.ShowUsage?)
    ensures CompileFrom(RuleText(r) + after, p) == ThenCompile(Apply(p, r), after)
  {
    hide Find, PairFrom;
    var s := RuleText(r) + after;
    if r.ListOption? {
      assert s[1..] == [':'] + after && ([':'] + after)[1..] == after;
    } else {
      assert s[|RuleText(r)|..] == after;
    }
  }

  lemma CompileGroup(r: Rule, after: string, p: Spec)
    requires ValidRule(r) && Follows(r, after) && r.Group?
    ensures CompileFrom(RuleText(r) + after, p) == ThenCompile(Apply(p, r), after)
  {
    hide Find, PairFrom, AddRest, AfterGroup;
    var s, tail := RuleText(r) + after, r.rest + after;
    assert s == (if r.counted then [r.opt, r.opt] else [r.opt]) + tail;
    assert if r.counted then s[2..] == tail else s[1..] == tail;
    var k := Find(p.table, r.opt);
    if k < |p.table| {
      PairFromRest(r.rest, after, if r.counted then p.table[k := p.table[k].(counted := true)] else p.table, k, ToOn);
      GroupApplied(p, r);
    }
    assert !r.counted ==> s[1] == r.rest[0] && (|r.rest| > 1 ==> At(s, 2) == r.rest[1]);
  }

  /** One group followed by a colon or by nothing. */
  lemma CompileRule(r: Rule, after: string, p: Spec)
    requires ValidRule(r) && Follows(r, after)
    ensures CompileFrom(RuleText(r) + after, p) == ThenCompile(Apply(p, r), after)
  {
    hide CompileFrom, Apply, RuleText, Follows, ValidRule, ThenCompile;
    if r.Group? {
      CompileGroup(r, after, p);
    } else if r.ListOption? || r.IntOption? || r.Required? || r.ShowUsage? {
      CompileLetter(r, after, p);
    } else {
      CompileMark(r, after, p);
    }
  }

  /** Compiling the text of a list of groups does what each group asks for, in turn. */
  lemma {:induction false} CompileSpec(rules: seq<Rule>, p: Spec)
    requires forall k :: 0 <= k < |rules| ==> ValidRule(rules[k])
    ensures CompileFrom(SpecText(rules), p) == ApplyAll(p, rules)
    decreases |rules|
  {
    if rules != [] {
      hide Apply, RuleText;
      var r, rest := rules[0], SpecText(rules[1..]);
      var after := if |rules| == 1 && !r.ListOption? then "" else [':'] + rest;
      if rules[1..] != [] {
        StartOfText(rules[1..]);
      }
      CompileRule(r, after, p);
      var q := Apply(p, r);
      if q.Done? {
        CompileSpec(rules[1..], q.spec);
        assert after != "" ==> after[1..] == rest;
      }
    }
  }

  /** The loop over opt_complementary. */
  method Compile(text: string, initial: Spec) returns (r: Compiled)
    ensures r == CompileFrom(text, initial)
  {
    var s, p := text, initial;
    while s != ""
      invariant CompileFrom(s, p) == CompileFrom(text, initial)
      decreases |s|
    {
      var c := At(s, 1);
      if s[0] == ':' {
        s := s[1..];
      } else if s[0] == '?' {
        if IsDigit(c) {
          s, p := s[2..], p.(maxArg := c as int - '0' as int);
        } else {
          s, p := s[1..], p.(usageOnError := true);
        }
      } else if s[0] == '-' {
        if IsDigit(c) {
          s, p := s[2..], p.(minArg := c as int - '0' as int);
        } else if c == '-' {
          s, p := s[2..], p.(firstIsOpt := true);
        } else {
          s, p := s[1..], p.(allAreOpts := true);
        }
      } else if s[0] == '=' {
        var n := c as int - '0' as int;
        s, p := Drop(s, 2), p.(minArg := n, maxArg := n);
      } else {
        var k := Find(p.table, s[0]);
        if k == |p.table| {
          return NoOption(s[0]);
        }
        var e := p.table[k];
        if c == ':' && At(s, 2) == ':' {
          s, p := s[1..], p.(table := p.table[k := e.(kind := List)]);
        } else if c == '+' && EndsGroup(At(s, 2)) {
          s, p := s[2..], p.(table := p.table[k := e.(kind := Int)]);
        } else if EndsGroup(c) {
          s, p := s[1..], p.(required := p.required + e.on);
        } else if c == '-' && EndsGroup(At(s, 2)) {
          p := p.(table := p.table[k := e.(incongruous := e.incongruous + e.on)], flags := p.flags + e.on);
          s := s[2..];
        } else {
          var table, rest := p.table, s[1..];
          if c == s[0] {
            table, rest := table[k := e.(counted := true)], s[2..];
          }
          table, s := CompilePair(rest, table, k);
          p := p.(table := table);
        }
      }
    }
    r := Done(p);
  }

  /** The loop over the letters of one group. */
  method CompilePair(text: string, initial: seq<Entry>, k: nat) returns (table: seq<Entry>, s: string)
    requires k < |initial|
    ensures (table, s) == PairFrom(text, initial, k, ToOn)
  {
    s, table := text, initial;
    var target := ToOn;
    while s != "" && s[0] != ':'
      invariant k < |table| && PairFrom(s, table, k, target) == PairFrom(text, initial, k, ToOn)
      decreases |s|
    {
      if s[0] == '?' {
        target := ToNeeds;
      } else if s[0] == '-' {
        target := if target == ToOff then ToIncongruous else ToOff;
      } else {
        var j := Find(table, s[0]);
        if j < |table| {
          table := table[k := AddTo(table[k], target, table[j].on)];
        }
      }
      s := s[1..];
    }
  }

  // ---------------------------------------------------------------------------
  // grep's context options.

  /** Entries a and b are numbers with their own bits, entry c is a number that clears them, and
      nothing else touches the three bits. */
  predicate ContextTable(table: seq<Entry>, a: nat, b: nat, c: nat) {
    && a < |table| && b < |table| && c < |table| && a != b && b != c && a != c
    && table[a].on == {a} && table[b].on == {b} && table[c].on == {c}
    && table[a].off == table[b].off == {} && table[c].off == {a, b}
    && table[a].kind == table[b].kind == table[c].kind == Int
    && forall k :: 0 <= k < |table| && k != a && k != b && k != c ==>
        (table[k].on + table[k].off) * {a, b, c} == {}
  }

  /** The last occurrence of either option, or -1. */
  function LastOf(occs: seq<Occurrence>, x: nat, y: nat): (j: int)
    ensures -1 <= j < |occs|
    ensures j >= 0 ==> occs[j].entry == x || occs[j].entry == y
    ensures forall k :: j < k < |occs| ==> occs[k].entry != x && occs[k].entry != y
  {
    if occs == [] then -1
    else if occs[|occs| - 1].entry == x || occs[|occs| - 1].entry == y then |occs| - 1
    else LastOf(occs[..|occs| - 1], x, y)
  }

  /** What main makes of -A (or -B) `x` and -C `c`. */
  function Effective(s: State, x: nat, c: nat): int
    requires s.Running?
  {
    var own := if x in s.numbers then s.numbers[x] else 0;
    if c in s.flags && x !in s.flags then (if c in s.numbers then s.numbers[c] else 0) else own
  }

  /** One occurrence: -A, -B or -C takes effect, and any other leaves both letters as they were. */
  lemma ContextStep(table: seq<Entry>, s: State, o: Occurrence, x: nat, a: nat, b: nat, c: nat)
    requires ContextTable(table, a, b, c) && (x == a || x == b) && Process(table, s, o).Running?
    ensures s.Running? && o.entry < |table|
    ensures var t := Process(table, s, o);
      && (o.entry == x ==> x in t.flags && x in t.numbers && t.numbers[x] == o.number)
      && (o.entry == c ==> x !in t.flags && c in t.flags && c in t.numbers && t.numbers[c] == o.number)
      && (o.entry != x && o.entry != c ==>
          && (x in t.flags <==> x in s.flags) && (c in t.flags <==> c in s.flags)
          && (x in t.numbers <==> x in s.numbers) && (c in t.numbers <==> c in s.numbers)
          && (x in t.numbers ==> t.numbers[x] == s.numbers[x]) && (c in t.numbers ==> t.numbers[c] == s.numbers[c]))
  {
    var e := table[o.entry];
    if o.entry != a && o.entry != b && o.entry != c {
      assert x !in (e.on + e.off) * {a, b, c} && c !in (e.on + e.off) * {a, b, c};
    }
  }

  lemma {:induction false} ContextState(table: seq<Entry>, occs: seq<Occurrence>, x: nat, a: nat, b: nat, c: nat)
    requires ContextTable(table, a, b, c) && (x == a || x == b)
    requires ProcessAll(table, Running({}, map[]), occs).Running?
    ensures var s := ProcessAll(table, Running({}, map[]), occs);
      var j := LastOf(occs, x, c);
      && (j == -1 ==> x !in s.flags && c !in s.flags && x !in s.numbers)
      && (j >= 0 && occs[j].entry == x ==> x in s.flags && x in s.numbers && s.numbers[x] == occs[j].number)
      && (j >= 0 && occs[j].entry == c ==>
          x !in s.flags && c in s.flags && c in s.numbers && s.numbers[c] == occs[j].number)
  {
    if occs != [] {
      var front := occs[..|occs| - 1];
      ContextState(table, front, x, a, b, c);
      var j := LastOf(front, x, c);
      assert j >= 0 ==> front[j] == occs[j];
      ContextStep(table, ProcessAll(table, Running({}, map[]), front), occs[|occs| - 1], x, a, b, c);
      hide ContextTable;
    }
  }

  /** The effective after-context is the argument of the last of -A and -C, and the effective
      before-context that of the last of -B and -C; zero when there is none. */
  lemma LastContextWins(table: seq<Entry>, occs: seq<Occurrence>, a: nat, b: nat, c: nat)
    requires ContextTable(table, a, b, c)
    requires ProcessAll(table, Running({}, map[]), occs).Running?
    ensures var s := ProcessAll(table, Running({}, map[]), occs);
      && Effective(s, a, c) == (var j := LastOf(occs, a, c); if j == -1 then 0 else occs[j].number)
      && Effective(s, b, c) == (var j := LastOf(occs, b, c); if j == -1 then 0 else occs[j].number)
  {
    ContextState(table, occs, a, a, b, c);
    ContextState(table, occs, b, a, b, c);
  }

  /** The options of grep in this build. */
  function GrepLetters(): seq<Letter> {
    [Letter('l', false), Letter('n', false), Letter('q', false), Letter('v', false), Letter('s', false), Letter('c', false),
     Letter('F', false), Letter('i', false), Letter('H', false), Letter('h', false), Letter('e', true), Letter('f', true),
     Letter('L', false), Letter('o', false), Letter('r', false), Letter('m', true), Letter('w', false), Letter('x', false),
     Letter('A', true), Letter('B', true), Letter('C', true), Letter('z', false), Letter('a', false), Letter('I', false)]
  }

  /** "H-h:C-AB:e::f::m+:A+:B+:C+" */
  function GrepRules(): (rules: seq<Rule>)
    ensures forall k :: 0 <= k < |rules| ==> ValidRule(rules[k])
  {
    [Group('H', false, "-h"), Group('C', false, "-AB"), ListOption('e'), ListOption('f'), IntOption('m'),
     IntOption('A'), IntOption('B'), IntOption('C')]
  }

  /** grep's option table before its groups are read. */
  function GrepStart(): Spec {
    Spec(TableOf(GrepLetters()), {}, {}, 0, -1, false, false, false)
  }

  /** grep's option table. */
  function GrepCompiled(): Compiled {
    CompileFrom(SpecText(GrepRules()), GrepStart())
  }

  /** The bit of a grep option. */
  function Position(c: char): nat {
    if c == 'l' then 0 else if c == 'n' then 1 else if c == 'q' then 2 else if c == 'v' then 3 else if c == 's' then 4 else if c == 'c' then 5 else
    if c == 'F' then 6 else if c == 'i' then 7 else if c == 'H' then 8 else if c == 'h' then 9 else if c == 'e' then 10 else if c == 'f' then 11 else
    if c == 'L' then 12 else if c == 'o' then 13 else if c == 'r' then 14 else if c == 'm' then 15 else if c == 'w' then 16 else if c == 'x' then 17 else
    if c == 'A' then 18 else if c == 'B' then 19 else if c == 'C' then 20 else if c == 'z' then 21 else if c == 'a' then 22 else if c == 'I' then 23 else
    24
  }

  predicate HasGrepLetters(table: seq<Entry>) {
    |table| == 24 && forall k :: 0 <= k < 24 ==> Position(table[k].opt) == k
  }

  lemma FindAt(table: seq<Entry>, c: char)
    requires HasGrepLetters(table) && Position(c) < 24 && table[Position(c)].opt == c
    ensures Find(table, c) == Position(c)
  {
    hide Position, Find;
    var k := Find(table, c);
    assert k <= Position(c);
    assert Position(table[k].opt) == k;
  }

  lemma GrepLettersDistinct()
    ensures HasGrepLetters(TableOf(GrepLetters()))
  {
    var l := GrepLetters();
    assert forall k :: 0 <= k < 24 ==> Position(l[k].opt) == k;
  }

  /** The entries grep's groups are about. */
  predicate Letters(table: seq<Entry>) {
    && HasGrepLetters(table)
    && table[8].opt == 'H' && table[9].opt == 'h' && table[10].opt == 'e' && table[11].opt == 'f' && table[15].opt == 'm'
    && table[18].opt == 'A' && table[19].opt == 'B' && table[20].opt == 'C'
  }

  /** The table while grep's groups are applied: bit 9 (-h) is cleared by -H, bits 18 and 19 (-A, -B)
      by -C, once their groups have been read. */
  predicate Shape(table: seq<Entry>, h: bool, c: bool) {
    && Letters(table)
    && forall k :: 0 <= k < 24 ==>
        && table[k].on == {k}
        && table[k].off == (if k == 8 && h then {9} else if k == 20 && c then {18, 19} else {})
        && table[k].incongruous == {} && table[k].needs == {}
  }

  /** A change of one entry that keeps its letter. */
  lemma KeepsLetters(table: seq<Entry>, k: nat, e: Entry)
    requires Letters(table) && k < 24 && e.opt == table[k].opt
    ensures Letters(table[k := e])
  {
    hide Position;
  }

  lemma FindLetter(table: seq<Entry>, k: nat)
    requires Letters(table) && k < 24
    ensures |table| == 24 && Find(table, table[k].opt) == k
  {
    hide Position;
    FindAt(table, table[k].opt);
  }

  /** A group that only sets the kind of an option. */
  lemma StepKind(p: Spec, r: Rule, k: nat, h: bool, c: bool) returns (q: Spec)
    requires Shape(p.table, h, c) && (r.IntOption? || r.ListOption?)
    requires k < 24 && p.table[k].opt == r.opt
    ensures Apply(p, r) == Done(q) && q == p.(table := q.table) && Shape(q.table, h, c) && |q.table| == |p.table| == 24
    ensures q.table == p.table[k := p.table[k].(kind := if r.IntOption? then Int else List)]
  {
    hide Find, Apply, Letters;
    FindLetter(p.table, k);
    ApplyKind(p, r);
    var e := p.table[k].(kind := if r.IntOption? then Int else List);
    KeepsLetters(p.table, k, e);
    q := p.(table := p.table[k := e]);
  }

  lemma ApplyKind(p: Spec, r: Rule)
    requires (r.IntOption? || r.ListOption?) && Find(p.table, r.opt) < |p.table|
    ensures var k := Find(p.table, r.opt);
      Apply(p, r) == Done(p.(table := p.table[k := p.table[k].(kind := if r.IntOption? then Int else List)]))
  {
    hide Find;
  }

  /** A letter of a group adds that option's bits to the mask in turn. */
  lemma AddLetter(table: seq<Entry>, k: nat, t: Target, c: char, rest: string)
    requires k < |table| && c != '?' && c != '-' && Find(table, c) < |table|
    ensures AddRest(table, k, t, [c] + rest) == AddRest(table[k := AddTo(table[k], t, table[Find(table, c)].on)], k, t, rest)
  {
    assert ([c] + rest)[1..] == rest;
  }

  /** "-" after the main option: what follows is cleared. */
  lemma AddDash(table: seq<Entry>, k: nat, rest: string)
    requires k < |table|
    ensures AddRest(table, k, ToOn, ['-'] + rest) == AddRest(table, k, ToOff, rest)
  {
    assert (['-'] + rest)[1..] == rest;
  }

  lemma AddNothing(table: seq<Entry>, k: nat, t: Target)
    requires k < |table|
    ensures AddRest(table, k, t, "") == table
  {
  }

  lemma StepH(p: Spec) returns (q: Spec)
    requires Shape(p.table, false, false)
    ensures Apply(p, Group('H', false, "-h")) == Done(q) && q == p.(table := q.table) && Shape(q.table, true, false)
  {
    hide Find, Position, AddRest, HasGrepLetters, Apply;
    FindLetter(p.table, 8);
    FindLetter(p.table, 9);
    GroupApplied(p, Group('H', false, "-h"));
    var e := p.table[8].(off := {9});
    KeepsLetters(p.table, 8, e);
    OneOff(p.table[8], p.table[9].on);
    assert "-h" == ['-'] + (['h'] + "");
    AddDash(p.table, 8, ['h'] + "");
    AddLetter(p.table, 8, ToOff, 'h', "");
    AddNothing(p.table[8 := e], 8, ToOff);
    q := p.(table := p.table[8 := e]);
    hide Letters;
  }

  lemma OneOff(e: Entry, m: Mask)
    requires e.off == {}
    ensures AddTo(e, ToOff, m) == e.(off := m)
  {
  }

  lemma StepC(p: Spec) returns (q: Spec)
    requires Shape(p.table, true, false)
    ensures Apply(p, Group('C', false, "-AB")) == Done(q) && q == p.(table := q.table) && Shape(q.table, true, true)
  {
    hide Find, Position, AddRest, HasGrepLetters, Apply, AddTo;
    FindLetter(p.table, 20);
    var d, e := p.table[20].(off := {18}), p.table[20].(off := {18, 19});
    var t, u := p.table[20 := d], p.table[20 := e];
    KeepsLetters(p.table, 20, d);
    FindLetter(p.table, 18);
    FindLetter(t, 19);
    GroupApplied(p, Group('C', false, "-AB"));
    ShapeC(p.table);
    OneOff(p.table[20], p.table[18].on);
    TwoOff(d, t[19].on);
    hide Shape, Letters;
    AddBoth(p.table, 20, d, e);
    q := p.(table := u);
  }

  lemma TwoOff(e: Entry, m: Mask)
    requires e.off == {18} && m == {19}
    ensures AddTo(e, ToOff, m) == e.(off := {18, 19})
  {
  }

  /** The letters A and B after a dash. */
  lemma AddBoth(table: seq<Entry>, k: nat, d: Entry, e: Entry)
    requires k < |table| && Find(table, 'A') < |table| && AddTo(table[k], ToOff, table[Find(table, 'A')].on) == d
    requires var t := table[k := d]; Find(t, 'B') < |t| && AddTo(d, ToOff, t[Find(t, 'B')].on) == e
    ensures AddRest(table, k, ToOn, "-AB") == table[k := e]
  {
    hide Find, AddRest, AddTo;
    var t := table[k := d];
    assert "-AB" == ['-'] + (['A'] + (['B'] + ""));
    AddDash(table, k, ['A'] + (['B'] + ""));
    AddLetter(table, k, ToOff, 'A', ['B'] + "");
    AddLetter(t, k, ToOff, 'B', "");
    AddNothing(t[k := e], k, ToOff);
    assert t[k := e] == table[k := e];
  }

  lemma ShapeC(table: seq<Entry>)
    requires Shape(table, true, false) && |table| == 24
    ensures Shape(table[20 := table[20].(off := {18, 19})], true, true)
  {
    KeepsLetters(table, 20, table[20].(off := {18, 19}));
    hide Letters;
  }

  lemma ApplyOne(p: Spec, q: Spec, r: Rule, rest: seq<Rule>)
    requires Apply(p, r) == Done(q)
    ensures ApplyAll(p, [r] + rest) == ApplyAll(q, rest)
  {
    hide Apply;
    assert ([r] + rest)[1..] == rest;
  }

  function KindRules(): seq<Rule> {
    [ListOption('e')] + ([ListOption('f')] + ([IntOption('m')] + ([IntOption('A')] + ([IntOption('B')] + ([IntOption('C')] + [])))))
  }

  lemma StepsKind(p: Spec) returns (q: Spec)
    requires Shape(p.table, true, true)
    ensures q == p.(table := q.table) && Shape(q.table, true, true)
    ensures ApplyAll(p, KindRules()) == Done(q) && |q.table| == 24
    ensures q.table[18].kind == q.table[19].kind == q.table[20].kind == Int
  {
    hide Apply, Position, GrepLetters, ApplyAll, HasGrepLetters;
    var e := StepKind(p, ListOption('e'), 10, true, true);
    var f := StepKind(e, ListOption('f'), 11, true, true);
    var m := StepKind(f, IntOption('m'), 15, true, true);
    var a := StepKind(m, IntOption('A'), 18, true, true);
    var b := StepKind(a, IntOption('B'), 19, true, true);
    q := StepKind(b, IntOption('C'), 20, true, true);
    hide Shape, Letters;
    ApplyNone(q);
    ApplyOne(b, q, IntOption('C'), []);
    var rules := [IntOption('C')] + [];
    ApplyOne(a, b, IntOption('B'), rules);
    rules := [IntOption('B')] + rules;
    ApplyOne(m, a, IntOption('A'), rules);
    rules := [IntOption('A')] + rules;
    ApplyOne(f, m, IntOption('m'), rules);
    rules := [IntOption('m')] + rules;
    ApplyOne(e, f, ListOption('f'), rules);
    rules := [ListOption('f')] + rules;
    ApplyOne(p, e, ListOption('e'), rules);
  }

  lemma ApplyNone(p: Spec)
    ensures ApplyAll(p, []) == Done(p)
  {
  }

  /** What grep's groups make of its table. */
  lemma GrepTable() returns (table: seq<Entry>)
    ensures GrepCompiled() == Done(GrepStart().(table := table))
    ensures ContextTable(table, 18, 19, 20)
    ensures |table| == 24 && forall k :: 0 <= k < 24 ==> table[k].incongruous == {} && table[k].needs == {}
  {
    hide Position, GrepLetters, CompileFrom, SpecText, Apply, ApplyAll, HasGrepLetters, KindRules, Letters, GrepStart,
      GrepRules, ContextTable;
    var p := GrepStart();
    CompileSpec(GrepRules(), p);
    StartShape();
    var h := StepH(p);
    var c := StepC(h);
    var q := StepsKind(c);
    table := q.table;
    ApplyOne(h, c, Group('C', false, "-AB"), KindRules());
    ApplyOne(p, h, Group('H', false, "-h"), [Group('C', false, "-AB")] + KindRules());
    GrepRulesSplit();
    ShapeIsContext(table);
  }

  lemma GrepRulesSplit()
    ensures GrepRules() == [Group('H', false, "-h")] + ([Group('C', false, "-AB")] + KindRules())
  {
  }

  lemma StartShape()
    ensures Shape(GrepStart().table, false, false)
  {
    GrepLettersDistinct();
    hide Position, HasGrepLetters;
  }

  lemma ShapeIsContext(table: seq<Entry>)
    requires |table| == 24 && Shape(table, true, true) && table[18].kind == table[19].kind == table[20].kind == Int
    ensures ContextTable(table, 18, 19, 20)
    ensures forall k :: 0 <= k < 24 ==> table[k].incongruous == {} && table[k].needs == {}
  {
    hide Letters;
  }

  /** For grep's own options, every sequence of options it has is accepted, with any other arguments, and the
      last of -A and -C, and the last of -B and -C, win. */
  lemma GrepContextWins(occs: seq<Occurrence>, rest: nat) returns (p: Spec)
    requires forall k :: 0 <= k < |occs| ==> occs[k].entry < 24
    ensures GrepCompiled() == Done(p)
    ensures Permitted(p.table, p.flags, occs) && Met(p.table, p.flags, occs, p.required, rest, p.minArg, p.maxArg)
    ensures var s := ProcessAll(p.table, Running(p.flags, map[]), occs);
      && s.Running?
      && Effective(s, 18, 20) == (var j := LastOf(occs, 18, 20); if j == -1 then 0 else occs[j].number)
      && Effective(s, 19, 20) == (var j := LastOf(occs, 19, 20); if j == -1 then 0 else occs[j].number)
  {
    hide GrepCompiled, ProcessAll, ContextTable, Effective, LastOf, BitAfter, GrepLetters;
    var table := GrepTable();
    p := GrepStart().(table := table);
    RunsIff(table, {}, occs);
    LastContextWins(table, occs, 18, 19, 20);
  }
}
