/** iptables-xml: how one rule becomes tags, and which rules are combined. The arguments are
    already split, with a mark on those that were quoted. */
module XmlRules {
  import opened Common

  datatype Arg = Arg(text: string, quoted: bool)

  datatype Tag = Root | Table | Chain | Rule | Conditions | Actions | Level(name: string)

  /** What is printed: tags with their attribute, text, the comment that marks a combined action, and
      other comments. */
  datatype Event =
    | Open(tag: Tag, attribute: string)
    | Close(tag: Tag)
    | Leaf(tag: Tag, attribute: string)
    | Data(text: string)
    | Combined
    | Note(text: string)

  // ---------------------------------------------------------------------------
  // Nesting.

  function Push(stack: seq<Tag>, e: Event): Option<seq<Tag>> {
    match e
    case Open(t, _) => Some(stack + [t])
    case Close(t) => if stack != [] && stack[|stack| - 1] == t then Some(stack[..|stack| - 1]) else None
    case _ => Some(stack)
  }

  /** The tags open after the events, or None when a tag was closed out of order. */
  function Nested(stack: seq<Tag>, events: seq<Event>): Option<seq<Tag>>
    decreases |events|
  {
    if events == [] then Some(stack)
    else match Push(stack, events[0]) case None => None case Some(s) => Nested(s, events[1..])
  }

  lemma {:induction false} NestedConcat(stack: seq<Tag>, a: seq<Event>, b: seq<Event>)
    ensures Nested(stack, a + b) == match Nested(stack, a) case None => None case Some(s) => Nested(s, b)
    decreases |a|
  {
    if a == [] {
      assert a + b == b;
    } else {
      assert (a + b)[1..] == a[1..] + b;
      match Push(stack, a[0])
      case None =>
      case Some(s) => NestedConcat(s, a[1..], b);
    }
  }

  // ---------------------------------------------------------------------------
  // do_rule_part.

  predicate IsTarget(s: string) {
    s == "-j" || s == "--jump" || s == "-g" || s == "--goto"
  }

  predicate IsGoto(s: string) {
    s == "-g" || s == "--goto"
  }

  predicate IsTerminatingTarget(s: string) {
    s == "ACCEPT" || s == "DROP" || s == "QUEUE" || s == "RETURN"
  }

  predicate IsModule(s: string) {
    s == "-m" || s == "--module"
  }

  predicate StartsDash(s: string) {
    s != "" && s[0] == '-'
  }

  function SkipDashes(s: string): string {
    if StartsDash(s) then SkipDashes(s[1..]) else s
  }

  /** Closes a level if it is open. */
  function CloseLevel(level: Option<string>): seq<Event> {
    if level.Some? then [Close(Level(level.value))] else []
  }

  /** Closes the inner level, then the outer one. */
  function CloseLevels(level1: Option<string>, level2: Option<string>): seq<Event> {
    CloseLevel(level2) + CloseLevel(level1)
  }

  /** The locals of the loop. */
  datatype Part = Part(conditions: bool, level1: Option<string>, level2: Option<string>, invertNext: bool, spacer: string)

  /** An unquoted flag that starts a first-level tag. */
  predicate StartsLevel(a: Arg) {
    !a.quoted && (IsTarget(a.text) || IsModule(a.text))
  }

  /** The loop from argument `i` on; `known` are the chains that exist. */
  function PartFrom(args: seq<Arg>, i: nat, p: Part, known: set<string>): seq<Event>
    decreases |args| - i
  {
    if i >= |args| || (p.conditions && !args[i].quoted && IsTarget(args[i].text)) then
      CloseLevels(p.level1, p.level2)
    else
      var a := args[i];
      if !a.quoted && a.text == "!" then
        if i + 1 < |args| && StartsDash(args[i + 1].text) then
          PartFrom(args, i + 1, p.(invertNext := true, spacer := " "), known)
        else
          [Data(p.spacer + "!")] + PartFrom(args, i + 1, p.(spacer := " "), known)
      else if !a.quoted && IsTarget(a.text) && i + 2 == |args| && args[i + 1].text in known then
        var name := if IsGoto(a.text) then "goto" else "call";
        CloseLevels(p.level1, p.level2) + [Open(Level(name), ""), Leaf(Level(args[i + 1].text), "")]
        + PartFrom(args, i + 2, Part(p.conditions, Some(name), None, false, ""), known)
      else if StartsLevel(a) then
        if i + 1 >= |args| then CloseLevels(p.level1, p.level2)
        else
          var name := args[i + 1].text;
          var empty := i + 2 >= |args| || StartsLevel(args[i + 2]);
          CloseLevels(p.level1, p.level2) + [if empty then Leaf(Level(name), "") else Open(Level(name), "")]
          + PartFrom(args, i + 2, Part(p.conditions, if empty then None else Some(name), None, false, ""), known)
      else if !a.quoted && StartsDash(a.text) then
        var name := SkipDashes(a.text);
        var empty := i + 1 >= |args| || StartsDash(args[i + 1].text);
        var attribute := if p.invertNext then "invert" else "";
        CloseLevel(p.level2) + [if empty then Leaf(Level(name), attribute) else Open(Level(name), attribute)]
        + PartFrom(args, i + 1, Part(p.conditions, p.level1, if empty then None else Some(name), false, ""), known)
      else
        var q := if a.quoted || ' ' in a.text then "\"" else "";
        [Data(p.spacer + q + a.text + q)] + PartFrom(args, i + 1, p.(spacer := " "), known)
  }

  /** The first unquoted target flag from `i` on, or the end. */
  function TargetFrom(args: seq<Arg>, i: nat): (t: nat)
    ensures i <= |args| ==> i <= t <= |args|
    ensures forall k :: i <= k < t && k < |args| ==> args[k].quoted || !IsTarget(args[k].text)
    ensures t < |args| ==> !args[t].quoted && IsTarget(args[t].text)
    decreases |args| - i
  {
    if i >= |args| || (!args[i].quoted && IsTarget(args[i].text)) then i else TargetFrom(args, i + 1)
  }

  /** do_rule_part for the conditions, or for the action. */
  function PartEvents(args: seq<Arg>, conditions: bool, known: set<string>): seq<Event> {
    var start := if conditions then 1 else TargetFrom(args, 1);
    var p := Part(conditions, None, None, false, "");
    if start < |args| && StartsDash(args[start].text) && !IsTarget(args[start].text) && args[start].text != "-m" then
      [Open(Level("match"), "")] + PartFrom(args, start, p.(level1 := Some("match")), known)
    else
      PartFrom(args, start, p, known)
  }

  function LevelTags(p: Part): seq<Tag> {
    (if p.level1.Some? then [Level(p.level1.value)] else [])
    + (if p.level2.Some? then [Level(p.level2.value)] else [])
  }

  lemma CloseLevelNested(stack: seq<Tag>, level: Option<string>)
    ensures Nested(stack + (if level.Some? then [Level(level.value)] else []), CloseLevel(level)) == Some(stack)
  {
    if level.Some? {
      var s := stack + [Level(level.value)];
      assert s[..|s| - 1] == stack;
    } else {
      assert stack + [] == stack;
    }
  }

  lemma CloseLevelsNested(stack: seq<Tag>, p: Part)
    ensures Nested(stack + LevelTags(p), CloseLevels(p.level1, p.level2)) == Some(stack)
  {
    hide CloseLevel;
    var one := stack + if p.level1.Some? then [Level(p.level1.value)] else [];
    assert stack + LevelTags(p) == one + if p.level2.Some? then [Level(p.level2.value)] else [];
    CloseLevelNested(one, p.level2);
    CloseLevelNested(stack, p.level1);
    NestedConcat(stack + LevelTags(p), CloseLevel(p.level2), CloseLevel(p.level1));
  }

  lemma NestedOne(stack: seq<Tag>, e: Event)
    ensures Nested(stack, [e]) == Push(stack, e)
  {
    assert [e][1..] == [];
  }

  /** Closing `before`, one event, then the rest. */
  lemma NestedThen(stack: seq<Tag>, mid: seq<Tag>, before: seq<Event>, e: Event, rest: seq<Event>)
    requires Nested(stack, before) == Some(mid) && Push(mid, e).Some?
    ensures Nested(stack, before + [e] + rest) == Nested(Push(mid, e).value, rest)
  {
    hide Push;
    NestedConcat(stack, before + [e], rest);
    NestedConcat(stack, before, [e]);
    NestedOne(mid, e);
  }

  /** Whatever the arguments, the loop closes exactly the levels it opened. */
  lemma {:induction false} PartFromNested(args: seq<Arg>, i: nat, p: Part, known: set<string>, stack: seq<Tag>)
    ensures Nested(stack + LevelTags(p), PartFrom(args, i, p, known)) == Some(stack)
    decreases |args| - i
  {
    hide CloseLevels, CloseLevel, Nested;
    var s := stack + LevelTags(p);
    CloseLevelsNested(stack, p);
    if i >= |args| || (p.conditions && !args[i].quoted && IsTarget(args[i].text)) {
    } else {
      var a := args[i];
      if !a.quoted && a.text == "!" {
        if i + 1 < |args| && StartsDash(args[i + 1].text) {
          PartFromNested(args, i + 1, p.(invertNext := true, spacer := " "), known, stack);
        } else {
          PartFromNested(args, i + 1, p.(spacer := " "), known, stack);
          DataNested(s, Data(p.spacer + "!"), PartFrom(args, i + 1, p.(spacer := " "), known));
        }
      } else if !a.quoted && IsTarget(a.text) && i + 2 == |args| && args[i + 1].text in known {
        var name := if IsGoto(a.text) then "goto" else "call";
        var q := Part(p.conditions, Some(name), None, false, "");
        var rest := PartFrom(args, i + 2, q, known);
        PartFromNested(args, i + 2, q, known, stack);
        var open, leaf := Open(Level(name), ""), Leaf(Level(args[i + 1].text), "");
        NestedThen(s, stack, CloseLevels(p.level1, p.level2), open, [leaf] + rest);
        DataNested(stack + [Level(name)], leaf, rest);
        assert CloseLevels(p.level1, p.level2) + [open, leaf] + rest == CloseLevels(p.level1, p.level2) + [open] + ([leaf] + rest);
        assert stack + LevelTags(q) == stack + [Level(name)];
      } else if StartsLevel(a) {
        if i + 1 < |args| {
          var name := args[i + 1].text;
          var empty := i + 2 >= |args| || StartsLevel(args[i + 2]);
          var q := Part(p.conditions, if empty then None else Some(name), None, false, "");
          PartFromNested(args, i + 2, q, known, stack);
          NestedThen(s, stack, CloseLevels(p.level1, p.level2), if empty then Leaf(Level(name), "") else Open(Level(name), ""),
                     PartFrom(args, i + 2, q, known));
          assert stack + LevelTags(q) == if empty then stack else stack + [Level(name)];
        }
      } else if !a.quoted && StartsDash(a.text) {
        DashNested(args, i, p, known, stack);
      } else {
        var quote := if a.quoted || ' ' in a.text then "\"" else "";
        PartFromNested(args, i + 1, p.(spacer := " "), known, stack);
        DataNested(s, Data(p.spacer + quote + a.text + quote), PartFrom(args, i + 1, p.(spacer := " "), known));
      }
    }
  }

  lemma {:induction false} DashNested(args: seq<Arg>, i: nat, p: Part, known: set<string>, stack: seq<Tag>)
    requires i < |args| && !args[i].quoted && StartsDash(args[i].text) && args[i].text != "!"
    requires !StartsLevel(args[i])
    ensures Nested(stack + LevelTags(p), PartFrom(args, i, p, known)) == Some(stack)
    decreases |args| - i, 0
  {
    hide CloseLevel, Nested;
    var s := stack + LevelTags(p);
    var one := stack + if p.level1.Some? then [Level(p.level1.value)] else [];
    assert s == one + if p.level2.Some? then [Level(p.level2.value)] else [];
    CloseLevelNested(one, p.level2);
    var name := SkipDashes(args[i].text);
    var empty := i + 1 >= |args| || StartsDash(args[i + 1].text);
    var attribute := if p.invertNext then "invert" else "";
    var q := Part(p.conditions, p.level1, if empty then None else Some(name), false, "");
    PartFromNested(args, i + 1, q, known, stack);
    NestedThen(s, one, CloseLevel(p.level2), if empty then Leaf(Level(name), attribute) else Open(Level(name), attribute),
               PartFrom(args, i + 1, q, known));
    assert stack + LevelTags(q) == if empty then one else one + [Level(name)];
  }

  lemma DataNested(stack: seq<Tag>, e: Event, rest: seq<Event>)
    requires !e.Open? && !e.Close?
    ensures Nested(stack, [e] + rest) == Nested(stack, rest)
  {
    assert ([e] + rest)[1..] == rest;
  }

  /** Each part of a rule is balanced. */
  lemma PartNested(args: seq<Arg>, conditions: bool, known: set<string>, stack: seq<Tag>)
    ensures Nested(stack, PartEvents(args, conditions, known)) == Some(stack)
  {
    hide PartFrom;
    var start := if conditions then 1 else TargetFrom(args, 1);
    var p := Part(conditions, None, None, false, "");
    assert stack + LevelTags(p) == stack;
    PartFromNested(args, start, p, known, stack);
    var q := p.(level1 := Some("match"));
    PartFromNested(args, start, q, known, stack);
    assert stack + LevelTags(q) == stack + [Level("match")];
    var rest := PartFrom(args, start, q, known);
    assert ([Open(Level("match"), "")] + rest)[1..] == rest;
  }

  // ---------------------------------------------------------------------------
  // What a part of a rule says, from its arguments alone.

  /** An element with the element it stands in, or text with the element it stands in. */
  datatype Piece = Element(name: string, inverted: bool, parent: Option<string>) | Text(text: string, parent: Option<string>)

  /** Arguments that belong together: a module or target flag with its argument, or without one at the end;
      a "!" before a flag; another flag; any other argument. */
  datatype Unit = Extension(flag: Arg, value: Arg) | Dangling(flag: Arg) | Not | Flag(arg: Arg) | Word(arg: Arg)

  function Units(args: seq<Arg>): seq<Unit> {
    if args == [] then []
    else
      var a := args[0];
      if !a.quoted && a.text == "!" && |args| > 1 && StartsDash(args[1].text) then [Not] + Units(args[1..])
      else if StartsLevel(a) then
        if |args| > 1 then [Extension(a, args[1])] + Units(args[2..]) else [Dangling(a)]
      else if !a.quoted && StartsDash(a.text) then [Flag(a)] + Units(args[1..])
      else [Word(a)] + Units(args[1..])
  }

  function ArgsOf(u: Unit): (a: seq<Arg>)
    ensures a != []
  {
    match u
    case Extension(f, v) => [f, v]
    case Dangling(f) => [f]
    case Not => [Arg("!", false)]
    case Flag(a) => [a]
    case Word(a) => [a]
  }

  function AllArgs(units: seq<Unit>): seq<Arg> {
    if units == [] then [] else ArgsOf(units[0]) + AllArgs(units[1..])
  }

  /** The units are the arguments, all of them, in order and once each. */
  lemma {:induction false} UnitsAreArgs(args: seq<Arg>)
    ensures AllArgs(Units(args)) == args
  {
    if args != [] {
      var units := Units(args);
      var rest := if units[0].Extension? then args[2..] else args[1..];
      UnitsAreArgs(rest);
      assert units[1..] == Units(rest);
      assert args == ArgsOf(units[0]) + rest;
    }
  }

  /** Conditions stop at the first target flag that is not another flag's argument. */
  predicate IsTargetUnit(u: Unit) {
    (u.Extension? || u.Dangling?) && IsTarget(u.flag.text)
  }

  function UntilTarget(units: seq<Unit>): (front: seq<Unit>)
    ensures front <= units && (forall u :: u in front ==> !IsTargetUnit(u))
    ensures |front| < |units| ==> IsTargetUnit(units[|front|])
  {
    if units == [] || IsTargetUnit(units[0]) then [] else [units[0]] + UntilTarget(units[1..])
  }

  /** An argument as text, in quotes if it was quoted or has a blank. */
  function Printed(a: Arg): string {
    if a.quoted || ' ' in a.text then "\"" + a.text + "\"" else a.text
  }

  /** A flag's name, without its dashes. */
  lemma {:induction false} SkipDashesMeans(s: string)
    ensures var name := SkipDashes(s);
      |name| <= |s| && s[|s| - |name|..] == name && (forall k :: 0 <= k < |s| - |name| ==> s[k] == '-') && !StartsDash(name)
  {
    if StartsDash(s) {
      SkipDashesMeans(s[1..]);
      var n := |s| - |SkipDashes(s)|;
      assert forall k :: 0 < k < n ==> s[k] == s[1..][k - 1];
    }
  }

  /** What the units say. An extension is an element of its own, and what follows stands in it; a flag is an
      element in the extension, and the arguments that follow, unless the next one starts with a dash, stand
      in the flag's. A last target that is the name of a known chain is a call of that chain, or a goto. */
  function Said(units: seq<Unit>, extension: Option<string>, flag: Option<string>, inverted: bool, known: set<string>): seq<Piece> {
    if units == [] then []
    else
      var rest := units[1..];
      match units[0]
      case Dangling(_) => []
      case Not => Said(rest, extension, flag, true, known)
      case Word(a) => [Text(Printed(a), if flag.Some? then flag else extension)] + Said(rest, extension, flag, inverted, known)
      case Flag(a) =>
        var name := SkipDashes(a.text);
        var alone := rest == [] || StartsDash(ArgsOf(rest[0])[0].text);
        [Element(name, inverted, extension)] + Said(rest, extension, if alone then None else Some(name), false, known)
      case Extension(f, v) =>
        if IsTarget(f.text) && rest == [] && v.text in known then
          var name := if f.text == "-g" || f.text == "--goto" then "goto" else "call";
          [Element(name, false, None), Element(v.text, false, Some(name))]
        else
          var alone := rest == [] || rest[0].Extension? || rest[0].Dangling?;
          [Element(v.text, false, None)] + Said(rest, if alone then None else Some(v.text), None, false, known)
  }

  /** A flag that comes first, other than "-m" or a target, stands in an element "match". */
  function SaidBy(args: seq<Arg>, conditions: bool, known: set<string>): seq<Piece> {
    var units := if conditions then UntilTarget(Units(args)) else Units(args);
    if args != [] && StartsDash(args[0].text) && !IsTarget(args[0].text) && args[0].text != "-m" then
      [Element("match", false, None)] + Said(units, Some("match"), None, false, known)
    else
      Said(units, None, None, false, known)
  }

  /** The conditions of a rule: from its chain on, up to the target; none when the first argument after the
      chain is a target. */
  function ConditionsOf(args: seq<Arg>): seq<Piece> {
    if |args| >= 3 && !IsTarget(args[2].text) then SaidBy(args[1..], true, {}) else []
  }

  /** The action of a rule: from the first target flag after its first argument on. */
  function ActionOf(args: seq<Arg>, known: set<string>): seq<Piece> {
    if args == [] then [] else SaidBy(args[TargetFrom(args, 1)..], false, known)
  }

  // ---------------------------------------------------------------------------
  // Reading the tags.

  /** A reader: the elements it is in, and the pieces it has seen. */
  datatype Seen = Seen(path: seq<string>, pieces: seq<Piece>)

  const UNSEEN := Seen([], [])

  function Owner(path: seq<string>): Option<string> {
    if path == [] then None else Some(path[|path| - 1])
  }

  function See(s: Seen, e: Event): Seen {
    match e
    case Open(Level(n), a) => Seen(s.path + [n], s.pieces + [Element(n, a == "invert", Owner(s.path))])
    case Leaf(Level(n), a) => s.(pieces := s.pieces + [Element(n, a == "invert", Owner(s.path))])
    case Close(Level(_)) => if s.path == [] then s else s.(path := s.path[..|s.path| - 1])
    case Data(t) => s.(pieces := s.pieces + [Text(if t != "" && t[0] == ' ' then t[1..] else t, Owner(s.path))])
    case _ => s
  }

  function SeeAll(s: Seen, events: seq<Event>): Seen
    decreases |events|
  {
    if events == [] then s else SeeAll(See(s, events[0]), events[1..])
  }

  lemma {:induction false} SeeConcat(s: Seen, a: seq<Event>, b: seq<Event>)
    ensures SeeAll(s, a + b) == SeeAll(SeeAll(s, a), b)
    decreases |a|
  {
    if a == [] {
      assert a + b == b;
    } else {
      assert (a + b)[1..] == a[1..] + b;
      SeeConcat(See(s, a[0]), a[1..], b);
    }
  }

  lemma SeeOne(s: Seen, e: Event, rest: seq<Event>)
    ensures SeeAll(s, [e] + rest) == SeeAll(See(s, e), rest)
  {
    assert ([e] + rest)[1..] == rest;
  }

  function PathOf(p: Part): seq<string> {
    (if p.level1.Some? then [p.level1.value] else []) + (if p.level2.Some? then [p.level2.value] else [])
  }

  lemma SeeCloseLevel(path: seq<string>, level: Option<string>, pieces: seq<Piece>)
    ensures SeeAll(Seen(path + (if level.Some? then [level.value] else []), pieces), CloseLevel(level)) == Seen(path, pieces)
  {
    if level.Some? {
      var s := path + [level.value];
      assert s[..|s| - 1] == path;
      assert CloseLevel(level) == [Close(Level(level.value))] + [];
      SeeOne(Seen(s, pieces), Close(Level(level.value)), []);
    } else {
      assert path + [] == path;
    }
  }

  lemma SeeCloseLevels(p: Part, pieces: seq<Piece>)
    ensures SeeAll(Seen(PathOf(p), pieces), CloseLevels(p.level1, p.level2)) == Seen([], pieces)
  {
    hide CloseLevel, SeeAll;
    var one := if p.level1.Some? then [p.level1.value] else [];
    SeeCloseLevel(one, p.level2, pieces);
    SeeCloseLevel([], p.level1, pieces);
    assert [] + one == one;
    SeeConcat(Seen(PathOf(p), pieces), CloseLevel(p.level2), CloseLevel(p.level1));
  }

  /** Closing the levels, one element, then the rest. */
  lemma SeeElement(p: Part, pieces: seq<Piece>, e: Event, rest: seq<Event>)
    ensures SeeAll(Seen(PathOf(p), pieces), CloseLevels(p.level1, p.level2) + [e] + rest) == SeeAll(See(Seen([], pieces), e), rest)
  {
    hide CloseLevels, SeeAll, See;
    var c := CloseLevels(p.level1, p.level2);
    assert c + [e] + rest == c + ([e] + rest);
    SeeConcat(Seen(PathOf(p), pieces), c, [e] + rest);
    SeeCloseLevels(p, pieces);
    SeeOne(Seen([], pieces), e, rest);
  }

  lemma SeeFlag(p: Part, pieces: seq<Piece>, e: Event, rest: seq<Event>)
    ensures SeeAll(Seen(PathOf(p), pieces), CloseLevel(p.level2) + [e] + rest)
      == SeeAll(See(Seen(if p.level1.Some? then [p.level1.value] else [], pieces), e), rest)
  {
    hide CloseLevel, SeeAll, See;
    var c := CloseLevel(p.level2);
    assert c + [e] + rest == c + ([e] + rest);
    SeeConcat(Seen(PathOf(p), pieces), c, [e] + rest);
    var one := if p.level1.Some? then [p.level1.value] else [];
    SeeCloseLevel(one, p.level2, pieces);
    SeeOne(Seen(one, pieces), e, rest);
  }

  /** An argument as the loop prints it. */
  function DataText(spacer: string, a: Arg): string {
    var q := if a.quoted || ' ' in a.text then "\"" else "";
    spacer + q + a.text + q
  }

  lemma DataTextIs(spacer: string, a: Arg)
    requires spacer == "" || spacer == " "
    ensures var t := DataText(spacer, a); (if t != "" && t[0] == ' ' then t[1..] else t) == Printed(a)
  {
    var q := if a.quoted || ' ' in a.text then "\"" else "";
    var printed := Printed(a);
    assert q + a.text + q == printed && DataText(spacer, a) == spacer + printed;
    assert printed != "" ==> printed[0] != ' ';
  }

  lemma SeeText(p: Part, pieces: seq<Piece>, a: Arg, rest: seq<Event>)
    requires p.spacer == "" || p.spacer == " "
    ensures SeeAll(Seen(PathOf(p), pieces), [Data(DataText(p.spacer, a))] + rest)
      == SeeAll(Seen(PathOf(p), pieces + [Text(Printed(a), if p.level2.Some? then p.level2 else p.level1)]), rest)
  {
    hide SeeAll, DataText, Printed;
    SeeOne(Seen(PathOf(p), pieces), Data(DataText(p.spacer, a)), rest);
    DataTextIs(p.spacer, a);
    assert Owner(PathOf(p)) == if p.level2.Some? then p.level2 else p.level1;
  }

  function Cut(conditions: bool, units: seq<Unit>): seq<Unit> {
    if conditions then UntilTarget(units) else units
  }

  /** The state of the reader after the loop from argument `i` on. */
  ghost predicate ReadsFrom(args: seq<Arg>, i: nat, p: Part, known: set<string>, pieces: seq<Piece>)
    requires i <= |args|
  {
    SeeAll(Seen(PathOf(p), pieces), PartFrom(args, i, p, known))
      == Seen([], pieces + Said(Cut(p.conditions, Units(args[i..])), p.level1, p.level2, p.invertNext, known))
  }

  lemma {:induction false} UnitsStep(here: seq<Arg>)
    requires here != []
    ensures Units(here) != []
    ensures var u := Units(here)[0];
      && ArgsOf(u) <= here && Units(here) == [u] + Units(here[|ArgsOf(u)|..])
      && (IsTargetUnit(u) ==> !here[0].quoted && IsTarget(here[0].text))
      && (|ArgsOf(u)| == 2 ==> u.Extension? && u.value == here[1])
  {
    assert StartsLevel(here[0]) ==> !here[0].quoted;
    hide StartsLevel, StartsDash;
  }

  lemma {:induction false} UntilStep(u: Unit, rest: seq<Unit>)
    requires !IsTargetUnit(u)
    ensures UntilTarget([u] + rest) == [u] + UntilTarget(rest)
  {
    assert ([u] + rest)[1..] == rest;
  }

  /** The first unit from an argument on, when conditions do not stop there. */
  lemma {:induction false} FirstUnit(args: seq<Arg>, i: nat, conditions: bool)
    requires i < |args| && (!conditions || args[i].quoted || !IsTarget(args[i].text))
    ensures Units(args[i..]) != []
    ensures var u, units := Units(args[i..])[0], Cut(conditions, Units(args[i..]));
      var n := |ArgsOf(u)|;
      && i + n <= |args| && units == [u] + Cut(conditions, Units(args[i + n..]))
      && ArgsOf(u)[0] == args[i] && (n == 2 ==> u.Extension? && u.value == args[i + 1])
  {
    hide Units, UntilTarget, ArgsOf, IsTargetUnit, IsTarget;
    var here := args[i..];
    UnitsStep(here);
    var u := Units(here)[0];
    var n := |ArgsOf(u)|;
    assert here[n..] == args[i + n..];
    assert here[0] == args[i] && ArgsOf(u)[0] == here[0];
    if conditions {
      UntilStep(u, Units(here[n..]));
    }
  }

  /** The event loop prints what the arguments say. */
  lemma {:induction false} PartFromRead(args: seq<Arg>, i: nat, p: Part, known: set<string>, pieces: seq<Piece>)
    requires i <= |args| && (p.spacer == "" || p.spacer == " ")
    ensures ReadsFrom(args, i, p, known, pieces)
    decreases |args| - i
  {
    if i == |args| || (p.conditions && !args[i].quoted && IsTarget(args[i].text)) {
      StopRead(args, i, p, known, pieces);
    } else if !args[i].quoted && args[i].text == "!" && i + 1 < |args| && StartsDash(args[i + 1].text) {
      PartFromRead(args, i + 1, p.(invertNext := true, spacer := " "), known, pieces);
      NotRead(args, i, p, known, pieces);
    } else if StartsLevel(args[i]) {
      if i + 1 == |args| {
        StopRead(args, i, p, known, pieces);
      } else {
        ExtensionRead(args, i, p, known, pieces);
      }
    } else if !args[i].quoted && args[i].text != "!" && StartsDash(args[i].text) {
      FlagRead(args, i, p, known, pieces);
    } else {
      var said := pieces + [Text(Printed(args[i]), if p.level2.Some? then p.level2 else p.level1)];
      PartFromRead(args, i + 1, p.(spacer := " "), known, said);
      WordRead(args, i, p, known, pieces);
    }
  }

  lemma StopRead(args: seq<Arg>, i: nat, p: Part, known: set<string>, pieces: seq<Piece>)
    requires i <= |args|
    requires i == |args| || (p.conditions && !args[i].quoted && IsTarget(args[i].text)) || (i + 1 == |args| && StartsLevel(args[i]))
    ensures ReadsFrom(args, i, p, known, pieces)
  {
    SeeCloseLevels(p, pieces);
    hide CloseLevels, SeeAll;
    assert pieces + [] == pieces;
    if i < |args| {
      assert args[i..][0] == args[i];
      var u := Units(args[i..])[0];
      assert ArgsOf(u)[0] == args[i];
    }
  }

  lemma NotRead(args: seq<Arg>, i: nat, p: Part, known: set<string>, pieces: seq<Piece>)
    requires i + 1 < |args| && !args[i].quoted && args[i].text == "!" && StartsDash(args[i + 1].text)
    requires ReadsFrom(args, i + 1, p.(invertNext := true, spacer := " "), known, pieces)
    ensures ReadsFrom(args, i, p, known, pieces)
  {
    FirstUnit(args, i, p.conditions);
    NotUnit(args, i);
    hide Units, SeeAll, Cut;
  }

  lemma NotUnit(args: seq<Arg>, i: nat)
    requires i + 1 < |args| && !args[i].quoted && args[i].text == "!" && StartsDash(args[i + 1].text)
    ensures Units(args[i..]) != [] && Units(args[i..])[0] == Not
  {
    assert args[i..][0] == args[i] && args[i..][1] == args[i + 1];
  }

  lemma WordRead(args: seq<Arg>, i: nat, p: Part, known: set<string>, pieces: seq<Piece>)
    requires i < |args| && !StartsLevel(args[i]) && (p.spacer == "" || p.spacer == " ")
    requires args[i].quoted || !StartsDash(args[i].text)
    requires args[i].quoted || args[i].text != "!" || i + 1 == |args| || !StartsDash(args[i + 1].text)
    requires ReadsFrom(args, i + 1, p.(spacer := " "), known,
                       pieces + [Text(Printed(args[i]), if p.level2.Some? then p.level2 else p.level1)])
    ensures ReadsFrom(args, i, p, known, pieces)
  {
    assert args[i].quoted || !IsTarget(args[i].text);
    hide Units, SeeAll, Cut, PartFrom, Said, Printed, PathOf, StartsLevel, StartsDash, DataText, IsTarget;
    FirstUnit(args, i, p.conditions);
    WordUnit(args, i);
    WordEvents(args, i, p, known);
    SeeText(p, pieces, args[i], PartFrom(args, i + 1, p.(spacer := " "), known));
    SamePath(p);
    var rest := Cut(p.conditions, Units(args[i + 1..]));
    SaidWord(args[i], rest, p.level1, p.level2, p.invertNext, known);
    var t := Text(Printed(args[i]), if p.level2.Some? then p.level2 else p.level1);
    RegroupPieces(pieces, t, Said(rest, p.level1, p.level2, p.invertNext, known));
  }

  lemma SamePath(p: Part)
    ensures PathOf(p.(spacer := " ")) == PathOf(p)
  {
  }

  lemma RegroupPieces(a: seq<Piece>, t: Piece, b: seq<Piece>)
    ensures (a + [t]) + b == a + ([t] + b)
  {
  }

  lemma SaidWord(a: Arg, rest: seq<Unit>, extension: Option<string>, flag: Option<string>, inverted: bool, known: set<string>)
    ensures Said([Word(a)] + rest, extension, flag, inverted, known)
      == [Text(Printed(a), if flag.Some? then flag else extension)] + Said(rest, extension, flag, inverted, known)
  {
    hide Printed;
    assert ([Word(a)] + rest)[1..] == rest;
  }

  lemma WordUnit(args: seq<Arg>, i: nat)
    requires i < |args| && !StartsLevel(args[i]) && (args[i].quoted || !StartsDash(args[i].text))
    requires args[i].quoted || args[i].text != "!" || i + 1 == |args| || !StartsDash(args[i + 1].text)
    ensures Units(args[i..]) != [] && Units(args[i..])[0] == Word(args[i])
  {
    assert args[i..][0] == args[i] && (i + 1 < |args| ==> args[i..][1] == args[i + 1]);
  }

  lemma WordEvents(args: seq<Arg>, i: nat, p: Part, known: set<string>)
    requires i < |args| && !StartsLevel(args[i]) && (args[i].quoted || !StartsDash(args[i].text))
    requires args[i].quoted || args[i].text != "!" || i + 1 == |args| || !StartsDash(args[i + 1].text)
    ensures PartFrom(args, i, p, known) == [Data(DataText(p.spacer, args[i]))] + PartFrom(args, i + 1, p.(spacer := " "), known)
  {
    hide CloseLevels, SkipDashes;
    assert !args[i].quoted && args[i].text == "!" ==> ' ' !in args[i].text && p.spacer + "" + "!" + "" == p.spacer + "!";
  }

  lemma {:induction false} FlagRead(args: seq<Arg>, i: nat, p: Part, known: set<string>, pieces: seq<Piece>)
    requires i < |args| && !StartsLevel(args[i]) && !args[i].quoted && args[i].text != "!" && StartsDash(args[i].text)
    requires p.spacer == "" || p.spacer == " "
    ensures ReadsFrom(args, i, p, known, pieces)
    decreases |args| - i, 0
  {
    hide Units, SeeAll, Cut, PartFrom, SkipDashes, CloseLevel, Said, PathOf, See;
    FirstUnit(args, i, p.conditions);
    FlagUnit(args, i, p.conditions);
    FlagEvents(args, i, p, known);
    SaidFlag(args[i], Cut(p.conditions, Units(args[i + 1..])), p.level1, p.level2, p.invertNext, known);
    var name := SkipDashes(args[i].text);
    var alone := i + 1 == |args| || StartsDash(args[i + 1].text);
    var q := Part(p.conditions, p.level1, if alone then None else Some(name), false, "");
    var e := Element(name, p.invertNext, p.level1);
    PartFromRead(args, i + 1, q, known, pieces + [e]);
    var attribute := if p.invertNext then "invert" else "";
    SeeFlag(p, pieces, if alone then Leaf(Level(name), attribute) else Open(Level(name), attribute), PartFrom(args, i + 1, q, known));
    SeeFlagElement(p, pieces, name, alone, p.invertNext);
    RegroupPieces(pieces, e, Said(Cut(p.conditions, Units(args[i + 1..])), q.level1, q.level2, false, known));
  }

  lemma SeeFlagElement(p: Part, pieces: seq<Piece>, name: string, alone: bool, inverted: bool)
    ensures var attribute := if inverted then "invert" else "";
      See(Seen(if p.level1.Some? then [p.level1.value] else [], pieces),
          if alone then Leaf(Level(name), attribute) else Open(Level(name), attribute))
      == Seen(PathOf(Part(p.conditions, p.level1, if alone then None else Some(name), false, "")),
              pieces + [Element(name, inverted, p.level1)])
  {
  }

  lemma SaidFlag(a: Arg, rest: seq<Unit>, extension: Option<string>, flag: Option<string>, inverted: bool, known: set<string>)
    ensures var name := SkipDashes(a.text);
      var alone := rest == [] || StartsDash(ArgsOf(rest[0])[0].text);
      Said([Flag(a)] + rest, extension, flag, inverted, known)
        == [Element(name, inverted, extension)] + Said(rest, extension, if alone then None else Some(name), false, known)
  {
    hide SkipDashes;
    assert ([Flag(a)] + rest)[1..] == rest;
  }

  lemma SaidExtension(f: Arg, v: Arg, rest: seq<Unit>, extension: Option<string>, flag: Option<string>, inverted: bool, known: set<string>)
    ensures var units := [Extension(f, v)] + rest;
      Said(units, extension, flag, inverted, known)
        == if IsTarget(f.text) && rest == [] && v.text in known then
             var name := if IsGoto(f.text) then "goto" else "call";
             [Element(name, false, None), Element(v.text, false, Some(name))]
           else
             var alone := rest == [] || rest[0].Extension? || rest[0].Dangling?;
             [Element(v.text, false, None)] + Said(rest, if alone then None else Some(v.text), None, false, known)
  {
    assert ([Extension(f, v)] + rest)[1..] == rest;
  }

  /** The flag's unit, and when its element has nothing in it. */
  lemma FlagUnit(args: seq<Arg>, i: nat, conditions: bool)
    requires i < |args| && !StartsLevel(args[i]) && !args[i].quoted && args[i].text != "!" && StartsDash(args[i].text)
    ensures Units(args[i..]) != [] && Units(args[i..])[0] == Flag(args[i])
    ensures var rest := Cut(conditions, Units(args[i + 1..]));
      (i + 1 == |args| || StartsDash(args[i + 1].text)) <==> rest == [] || StartsDash(ArgsOf(rest[0])[0].text)
  {
    assert args[i..][0] == args[i];
    NextStarts(args, i + 1, conditions);
    hide Units, Cut;
  }

  lemma NextStarts(args: seq<Arg>, i: nat, conditions: bool)
    requires i <= |args|
    ensures var rest := Cut(conditions, Units(args[i..]));
      && (i == |args| ==> rest == [])
      && (i < |args| ==> if rest == [] then conditions && !args[i].quoted && IsTarget(args[i].text) else ArgsOf(rest[0])[0] == args[i])
      && (i < |args| && rest != [] ==> (rest[0].Extension? || rest[0].Dangling? <==> StartsLevel(args[i])))
  {
    if i < |args| {
      assert args[i..][0] == args[i];
    }
  }

  lemma FlagEvents(args: seq<Arg>, i: nat, p: Part, known: set<string>)
    requires i < |args| && !StartsLevel(args[i]) && !args[i].quoted && args[i].text != "!" && StartsDash(args[i].text)
    ensures var name := SkipDashes(args[i].text);
      var alone := i + 1 == |args| || StartsDash(args[i + 1].text);
      var attribute := if p.invertNext then "invert" else "";
      PartFrom(args, i, p, known)
        == CloseLevel(p.level2) + [if alone then Leaf(Level(name), attribute) else Open(Level(name), attribute)]
           + PartFrom(args, i + 1, Part(p.conditions, p.level1, if alone then None else Some(name), false, ""), known)
  {
    hide CloseLevel, CloseLevels, SkipDashes;
  }

  lemma {:induction false} ExtensionRead(args: seq<Arg>, i: nat, p: Part, known: set<string>, pieces: seq<Piece>)
    requires i + 1 < |args| && StartsLevel(args[i]) && (!p.conditions || !IsTarget(args[i].text))
    requires p.spacer == "" || p.spacer == " "
    ensures ReadsFrom(args, i, p, known, pieces)
    decreases |args| - i, 0
  {
    hide Units, SeeAll, Cut, PartFrom, CloseLevels, Said, IsTarget;
    FirstUnit(args, i, p.conditions);
    ExtensionUnit(args, i, p.conditions);
    var name := args[i + 1].text;
    SaidExtension(args[i], args[i + 1], Cut(p.conditions, Units(args[i + 2..])), p.level1, p.level2, p.invertNext, known);
    if IsTarget(args[i].text) && i + 2 == |args| && name in known {
      CallRead(args, i, p, known, pieces);
    } else {
      ExtensionEvents(args, i, p, known);
      var alone := i + 2 == |args| || StartsLevel(args[i + 2]);
      var q := Part(p.conditions, if alone then None else Some(name), None, false, "");
      var e := Element(name, false, None);
      PartFromRead(args, i + 2, q, known, pieces + [e]);
      SeeElement(p, pieces, if alone then Leaf(Level(name), "") else Open(Level(name), ""), PartFrom(args, i + 2, q, known));
      SeeExtension(pieces, name, alone, p.conditions);
      var rest := Cut(p.conditions, Units(args[i + 2..]));
      StopsOrNot(args, i, p.conditions, known);
      RegroupPieces(pieces, e, Said(rest, q.level1, q.level2, false, known));
    }
  }

  lemma SeeExtension(pieces: seq<Piece>, name: string, alone: bool, conditions: bool)
    ensures See(Seen([], pieces), if alone then Leaf(Level(name), "") else Open(Level(name), ""))
      == Seen(PathOf(Part(conditions, if alone then None else Some(name), None, false, "")), pieces + [Element(name, false, None)])
  {
    assert [] + [name] == [name];
  }

  /** Only the last target of an action can be a call. */
  lemma StopsOrNot(args: seq<Arg>, i: nat, conditions: bool, known: set<string>)
    requires i + 1 < |args| && StartsLevel(args[i]) && (!conditions || !IsTarget(args[i].text))
    requires !(IsTarget(args[i].text) && i + 2 == |args| && args[i + 1].text in known)
    ensures !(IsTarget(args[i].text) && Cut(conditions, Units(args[i + 2..])) == [] && args[i + 1].text in known)
  {
    if !conditions {
      ExtensionUnit(args, i, conditions);
    }
  }

  lemma ExtensionUnit(args: seq<Arg>, i: nat, conditions: bool)
    requires i + 1 < |args| && StartsLevel(args[i])
    ensures Units(args[i..]) != [] && Units(args[i..])[0] == Extension(args[i], args[i + 1])
    ensures var rest := Cut(conditions, Units(args[i + 2..]));
      && ((i + 2 == |args| || StartsLevel(args[i + 2])) <==> rest == [] || rest[0].Extension? || rest[0].Dangling?)
      && (!conditions ==> (rest == [] <==> i + 2 == |args|))
  {
    assert args[i..][0] == args[i] && args[i..][1] == args[i + 1];
    NextStarts(args, i + 2, conditions);
    hide Units, Cut;
  }

  lemma ExtensionEvents(args: seq<Arg>, i: nat, p: Part, known: set<string>)
    requires i + 1 < |args| && StartsLevel(args[i]) && (!p.conditions || !IsTarget(args[i].text))
    requires !(IsTarget(args[i].text) && i + 2 == |args| && args[i + 1].text in known)
    ensures var name := args[i + 1].text;
      var alone := i + 2 == |args| || StartsLevel(args[i + 2]);
      PartFrom(args, i, p, known)
        == CloseLevels(p.level1, p.level2) + [if alone then Leaf(Level(name), "") else Open(Level(name), "")]
           + PartFrom(args, i + 2, Part(p.conditions, if alone then None else Some(name), None, false, ""), known)
  {
    hide CloseLevels, SkipDashes;
  }

  /** The call of a chain, or the goto. */
  lemma CallRead(args: seq<Arg>, i: nat, p: Part, known: set<string>, pieces: seq<Piece>)
    requires i + 2 == |args| && StartsLevel(args[i]) && IsTarget(args[i].text) && args[i + 1].text in known && !p.conditions
    requires Cut(p.conditions, Units(args[i..])) == [Extension(args[i], args[i + 1])] + Cut(p.conditions, Units(args[i + 2..]))
    ensures ReadsFrom(args, i, p, known, pieces)
  {
    hide PartFrom, CloseLevels, SeeAll, Units, Said, Cut, IsTarget;
    var name, chain := if IsGoto(args[i].text) then "goto" else "call", args[i + 1].text;
    var open, leaf := Open(Level(name), ""), Leaf(Level(chain), "");
    var q := Part(false, Some(name), None, false, "");
    var e, f := Element(name, false, None), Element(chain, false, Some(name));
    NothingLeft(args, i + 2, p.conditions);
    SaidExtension(args[i], args[i + 1], [], p.level1, p.level2, p.invertNext, known);
    assert [Extension(args[i], args[i + 1])] + [] == [Extension(args[i], args[i + 1])];
    CallEvents(args, i, p, known);
    var closing := CloseLevels(q.level1, q.level2);
    SeeCloseLevels(q, (pieces + [e]) + [f]);
    assert CloseLevels(p.level1, p.level2) + [open, leaf] + closing == CloseLevels(p.level1, p.level2) + [open] + ([leaf] + closing);
    SeeElement(p, pieces, open, [leaf] + closing);
    SeeExtension(pieces, name, false, false);
    SeeOne(Seen([name], pieces + [e]), leaf, closing);
    assert PathOf(q) == [name];
    assert (pieces + [e]) + [f] == pieces + [e, f];
  }

  lemma NothingLeft(args: seq<Arg>, i: nat, conditions: bool)
    requires i == |args|
    ensures Cut(conditions, Units(args[i..])) == []
  {
  }

  lemma CallEvents(args: seq<Arg>, i: nat, p: Part, known: set<string>)
    requires i + 2 == |args| && StartsLevel(args[i]) && IsTarget(args[i].text) && args[i + 1].text in known && !p.conditions
    ensures var name := if IsGoto(args[i].text) then "goto" else "call";
      PartFrom(args, i, p, known) == CloseLevels(p.level1, p.level2) + [Open(Level(name), ""), Leaf(Level(args[i + 1].text), "")]
        + CloseLevels(Some(name), None)
  {
    hide CloseLevels, SkipDashes;
  }

  /** What is printed for a part of a rule is what the arguments say. */
  lemma PartRead(args: seq<Arg>, conditions: bool, known: set<string>)
    requires args != []
    ensures var from := if conditions then 1 else TargetFrom(args, 1);
      from <= |args| && SeeAll(UNSEEN, PartEvents(args, conditions, known)) == Seen([], SaidBy(args[from..], conditions, known))
  {
    hide PartFrom, SeeAll, Units, Said, UntilTarget, StartsDash, IsTarget;
    var start := if conditions then 1 else TargetFrom(args, 1);
    var p := Part(conditions, None, None, false, "");
    var here := args[start..];
    if here != [] {
      assert here[0] == args[start];
    }
    if here != [] && StartsDash(here[0].text) && !IsTarget(here[0].text) && here[0].text != "-m" {
      var q, e := p.(level1 := Some("match")), Element("match", false, None);
      PartFromRead(args, start, q, known, [] + [e]);
      SeeOne(UNSEEN, Open(Level("match"), ""), PartFrom(args, start, q, known));
      assert [] + ["match"] == ["match"] == PathOf(q);
      assert [] + [e] == [e];
    } else {
      PartFromRead(args, start, p, known, []);
      assert PathOf(p) == [];
      var said := Said(Cut(conditions, Units(here)), None, None, false, known);
      assert [] + said == said;
    }
  }

  // ---------------------------------------------------------------------------
  // Which rules are combined.

  function TextsOf(args: seq<Arg>): (t: seq<string>)
    ensures |t| == |args| && forall k :: 0 <= k < |args| ==> t[k] == args[k].text
  {
    seq(|args|, k requires 0 <= k < |args| => args[k].text)
  }

  /** The action at `k` ends the chain for a packet, so no further action can follow it. */
  predicate FinalAction(rule: seq<string>, k: nat)
    requires k < |rule|
  {
    IsGoto(rule[k]) || (IsTarget(rule[k]) && k + 1 < |rule| && IsTerminatingTarget(rule[k + 1]))
  }

  /** The flags and targets by name. */
  lemma FinalActions(target: string, next: string)
    ensures var rule := ["-j", target, next];
      FinalAction(rule, 0) <==> target in ["ACCEPT", "DROP", "QUEUE", "RETURN"]
    ensures FinalAction(["-g", target], 0) && FinalAction(["--goto", target], 0)
    ensures FinalAction(["--jump", target], 0) <==> FinalAction(["-j", target], 0)
    ensures IsTarget(target) <==> target in ["-j", "--jump", "-g", "--goto"]
    ensures IsModule(target) <==> target in ["-m", "--module"]
  {
  }

  /** Both rules have their first target flag at `k`, the same arguments before it, and the earlier
      rule's action is not final. */
  predicate MergeAt(before: seq<string>, rule: seq<string>, k: nat) {
    && k < |before| && k < |rule| && IsTarget(before[k]) && IsTarget(rule[k])
    && before[..k] == rule[..k] && (forall j :: 0 <= j < k ==> !IsTarget(rule[j]))
    && !FinalAction(before, k)
  }

  ghost predicate SameConditions(before: seq<string>, rule: seq<string>) {
    exists k: nat :: MergeAt(before, rule, k)
  }

  /** compareRules */
  method CompareRules(before: seq<string>, rule: seq<string>) returns (same: bool)
    ensures same <==> SameConditions(before, rule)
  {
    var k := 0;
    same := false;
    while k < |rule| && k < |before|
      invariant k <= |rule| && k <= |before| && !same
      invariant before[..k] == rule[..k]
      invariant forall j :: 0 <= j < k ==> !IsTarget(rule[j])
    {
      if IsTarget(before[k]) && IsTarget(rule[k]) {
        same := !(((before[k] == "-j" || before[k] == "--jump") && k + 1 < |before| && IsTerminatingTarget(before[k + 1]))
                  || before[k] == "-g" || before[k] == "--goto");
        assert same <==> !FinalAction(before, k);
        if same {
          assert MergeAt(before, rule, k);
        } else {
          forall j: nat | MergeAt(before, rule, j)
            ensures j == k
          {
          }
        }
        return;
      }
      if before[k] != rule[k] {
        forall j: nat
          ensures !MergeAt(before, rule, j)
        {
          if j < k {
            assert !IsTarget(rule[j]);
          } else if j > k && j < |before| && j < |rule| {
            assert before[..j][k] == before[k] && rule[..j][k] == rule[k];
          }
        }
        return;
      }
      assert before[..k + 1] == before[..k] + [before[k]] && rule[..k + 1] == rule[..k] + [rule[k]];
      k := k + 1;
    }
  }

  /** Conditions never mention a chain, so the chains that exist do not matter. */
  lemma {:induction false} ConditionsIgnoreChains(args: seq<Arg>, i: nat, p: Part, a: set<string>, b: set<string>)
    requires p.conditions
    ensures PartFrom(args, i, p, a) == PartFrom(args, i, p, b)
    decreases |args| - i
  {
    if i < |args| && (args[i].quoted || !IsTarget(args[i].text)) {
      ConditionsIgnoreChains(args, i + 1, p.(invertNext := true, spacer := " "), a, b);
      ConditionsIgnoreChains(args, i + 1, p.(spacer := " "), a, b);
      if i + 1 < |args| {
        var name := args[i + 1].text;
        var empty := i + 2 >= |args| || StartsLevel(args[i + 2]);
        ConditionsIgnoreChains(args, i + 2, Part(true, if empty then None else Some(name), None, false, ""), a, b);
      }
      var name := SkipDashes(args[i].text);
      var empty := i + 1 >= |args| || StartsDash(args[i + 1].text);
      ConditionsIgnoreChains(args, i + 1, Part(true, p.level1, if empty then None else Some(name), false, ""), a, b);
    }
  }

  /** Two argument lists with the same arguments, marks included, before their first unquoted
      target flag, which is not taken by a module flag before it. */
  ghost predicate SamePrefix(x: seq<Arg>, y: seq<Arg>, k: nat) {
    && k < |x| && k < |y| && (forall j :: 0 <= j < k ==> x[j] == y[j])
    && !x[k].quoted && IsTarget(x[k].text) && !y[k].quoted && IsTarget(y[k].text)
    && (forall j :: 0 <= j < k ==> x[j].quoted || !IsTarget(x[j].text))
    && (k > 0 ==> x[k - 1].quoted || !IsModule(x[k - 1].text))
  }

  /** They have the same condition tags. */
  lemma {:induction false} SamePrefixSamePart(x: seq<Arg>, y: seq<Arg>, k: nat, i: nat, p: Part)
    requires SamePrefix(x, y, k) && p.conditions && i <= k
    ensures PartFrom(x, i, p, {}) == PartFrom(y, i, p, {})
    decreases k - i, 1
  {
    if i == k {
      SameEnd(x, y, k, p);
    } else if StartsLevel(x[i]) {
      SameLevel(x, y, k, i, p);
    } else if !x[i].quoted && x[i].text != "!" && StartsDash(x[i].text) {
      SameFlag(x, y, k, i, p);
    } else {
      SameWord(x, y, k, i, p);
    }
  }

  lemma SameEnd(x: seq<Arg>, y: seq<Arg>, k: nat, p: Part)
    requires SamePrefix(x, y, k) && p.conditions
    ensures PartFrom(x, k, p, {}) == PartFrom(y, k, p, {})
  {
    hide CloseLevels, CloseLevel, SkipDashes, IsModule, IsTarget;
  }

  lemma {:induction false} SameWord(x: seq<Arg>, y: seq<Arg>, k: nat, i: nat, p: Part)
    requires SamePrefix(x, y, k) && p.conditions && i < k && !StartsLevel(x[i])
    requires x[i].quoted || x[i].text == "!" || !StartsDash(x[i].text)
    ensures PartFrom(x, i, p, {}) == PartFrom(y, i, p, {})
    decreases k - i, 0
  {
    SameDash(x, y, k, i + 1);
    hide CloseLevels, CloseLevel, SkipDashes, IsModule, IsTarget, StartsDash;
    SamePrefixSamePart(x, y, k, i + 1, p.(invertNext := true, spacer := " "));
    SamePrefixSamePart(x, y, k, i + 1, p.(spacer := " "));
  }

  /** All target flags start with a dash. */
  lemma SameDash(x: seq<Arg>, y: seq<Arg>, k: nat, i: nat)
    requires SamePrefix(x, y, k) && i <= k
    ensures StartsDash(x[i].text) == StartsDash(y[i].text)
  {
  }

  lemma {:induction false} SameLevel(x: seq<Arg>, y: seq<Arg>, k: nat, i: nat, p: Part)
    requires SamePrefix(x, y, k) && p.conditions && i < k && StartsLevel(x[i])
    ensures PartFrom(x, i, p, {}) == PartFrom(y, i, p, {})
    decreases k - i, 0
  {
    hide CloseLevels, CloseLevel, SkipDashes;
    assert i + 1 < k;
    assert StartsLevel(x[i + 2]) == StartsLevel(y[i + 2]);
    var name, empty := x[i + 1].text, StartsLevel(x[i + 2]);
    SamePrefixSamePart(x, y, k, i + 2, Part(true, if empty then None else Some(name), None, false, ""));
  }

  lemma {:induction false} SameFlag(x: seq<Arg>, y: seq<Arg>, k: nat, i: nat, p: Part)
    requires SamePrefix(x, y, k) && p.conditions && i < k && !StartsLevel(x[i])
    requires !x[i].quoted && x[i].text != "!" && StartsDash(x[i].text)
    ensures PartFrom(x, i, p, {}) == PartFrom(y, i, p, {})
    decreases k - i, 0
  {
    hide CloseLevels, CloseLevel, SkipDashes, IsModule;
    SameDash(x, y, k, i + 1);
    var name, empty := SkipDashes(x[i].text), StartsDash(x[i + 1].text);
    SamePrefixSamePart(x, y, k, i + 1, Part(true, p.level1, if empty then None else Some(name), false, ""));
  }

  /** So combined rules have the same conditions. */
  lemma SamePrefixSameConditions(x: seq<Arg>, y: seq<Arg>, k: nat)
    requires SamePrefix(x, y, k) && k >= 3
    ensures ConditionsOf(x) == ConditionsOf(y)
  {
    SamePrefixSameEvents(x, y, k);
    hide PartEvents, SaidBy;
    if |x| >= 3 && !IsTarget(x[2].text) {
      PartRead(x, true, {});
      PartRead(y, true, {});
    }
  }

  lemma SamePrefixSameEvents(x: seq<Arg>, y: seq<Arg>, k: nat)
    requires SamePrefix(x, y, k) && k >= 3
    ensures x[2] == y[2] && PartEvents(x, true, {}) == PartEvents(y, true, {})
  {
    hide PartFrom;
    assert x[1] == y[1] && x[2] == y[2];
    var p := Part(true, None, None, false, "");
    SamePrefixSamePart(x, y, k, 1, p);
    SamePrefixSamePart(x, y, k, 1, p.(level1 := Some("match")));
  }

  /** Only the last argument is ever looked up among the chains. */
  lemma {:induction false} PartAsksForLast(args: seq<Arg>, i: nat, p: Part, a: set<string>, b: set<string>)
    requires args != [] && (args[|args| - 1].text in a <==> args[|args| - 1].text in b)
    ensures PartFrom(args, i, p, a) == PartFrom(args, i, p, b)
    decreases |args| - i
  {
    hide CloseLevels, CloseLevel, SkipDashes, IsModule, IsGoto;
    if i < |args| && (!p.conditions || args[i].quoted || !IsTarget(args[i].text)) {
      var x := args[i];
      if !x.quoted && x.text == "!" {
        PartAsksForLast(args, i + 1, p.(invertNext := true, spacer := " "), a, b);
        PartAsksForLast(args, i + 1, p.(spacer := " "), a, b);
      } else if StartsLevel(x) {
        LevelAsksForLast(args, i, p, a, b);
      } else if !x.quoted && StartsDash(x.text) {
        var name, empty := SkipDashes(x.text), i + 1 >= |args| || StartsDash(args[i + 1].text);
        PartAsksForLast(args, i + 1, Part(p.conditions, p.level1, if empty then None else Some(name), false, ""), a, b);
      } else {
        PartAsksForLast(args, i + 1, p.(spacer := " "), a, b);
      }
    }
  }

  lemma {:induction false} LevelAsksForLast(args: seq<Arg>, i: nat, p: Part, a: set<string>, b: set<string>)
    requires i < |args| && StartsLevel(args[i]) && (args[|args| - 1].text in a <==> args[|args| - 1].text in b)
    requires !p.conditions || !IsTarget(args[i].text)
    ensures PartFrom(args, i, p, a) == PartFrom(args, i, p, b)
    decreases |args| - i, 0
  {
    hide CloseLevels, CloseLevel, SkipDashes, IsGoto;
    var flag := if IsGoto(args[i].text) then "goto" else "call";
    PartAsksForLast(args, i + 2, Part(p.conditions, Some(flag), None, false, ""), a, b);
    if i + 1 < |args| {
      var name, empty := args[i + 1].text, i + 2 >= |args| || StartsLevel(args[i + 2]);
      PartAsksForLast(args, i + 2, Part(p.conditions, if empty then None else Some(name), None, false, ""), a, b);
    }
  }

  lemma ActionsAskForLast(args: seq<Arg>, a: set<string>, b: set<string>)
    requires args != [] && (args[|args| - 1].text in a <==> args[|args| - 1].text in b)
    ensures ActionOf(args, a) == ActionOf(args, b)
  {
    PartRead(args, false, a);
    PartRead(args, false, b);
    hide SaidBy;
    assert PartEvents(args, false, a) == PartEvents(args, false, b) by {
      ActionEventsAskForLast(args, a, b);
    }
  }

  lemma ActionEventsAskForLast(args: seq<Arg>, a: set<string>, b: set<string>)
    requires args != [] && (args[|args| - 1].text in a <==> args[|args| - 1].text in b)
    ensures PartEvents(args, false, a) == PartEvents(args, false, b)
  {
    hide PartFrom;
    var start, p := TargetFrom(args, 1), Part(false, None, None, false, "");
    PartAsksForLast(args, start, p, a, b);
    PartAsksForLast(args, start, p.(level1 := Some("match")), a, b);
  }
}
