/** iptables-xml over whole runs: the tags it leaves to be closed, and the rules it combines. */
module XmlConverter {
  import opened Common
  import opened XmlRules

  const MAXNAMELEN: nat := 32
  const MAX_CHAINS: nat := 10240

  datatype Saved = Saved(name: string, policy: string, created: bool)

  /** An input line, with names and arguments already split off. */
  datatype InputLine =
    | Blank
    | CommentLine(text: string)
    | Commit
    | TableLine(name: string)
    | ChainLine(name: string, policy: string)
    | RuleLine(args: seq<Arg>)

  /** A name as far as its fixed-size buffer holds it. */
  function Truncate(name: string): string {
    if |name| <= MAXNAMELEN then name else name[..MAXNAMELEN]
  }

  /** The chain of a rule: the argument after the last "-A". */
  function ChainOf(texts: seq<string>): Option<string> {
    if |texts| < 2 then None
    else if texts[|texts| - 2] == "-A" then Some(texts[|texts| - 1])
    else ChainOf(texts[..|texts| - 1])
  }

  // ---------------------------------------------------------------------------
  // Reading the rules back from the output.

  datatype Mode = Outside | InConditions | InActions

  /** A rule as it is found: its table, its chain, and what its conditions and its action say. */
  datatype Found = Found(table: string, chain: string, conditions: seq<Piece>, action: seq<Piece>)

  /** A reader of the output: the table and the chain it is in, the chains it has met, what it has seen of the
      part it is in, the conditions of the rule it is in, and the rules finished. */
  datatype Groups = Groups(mode: Mode, table: string, chain: string, chains: set<(string, string)>, seen: Seen,
                           conditions: seq<Piece>, done: seq<Found>)

  function Group(g: Groups, e: Event): Groups {
    match g.mode
    case Outside =>
      if e.Open? && e.tag == Conditions then g.(mode := InConditions, conditions := [])
      else if e.Open? && e.tag == Actions then g.(mode := InActions)
      else if (e.Open? || e.Close?) && e.tag == Rule then g.(conditions := [])
      else if e.Open? && e.tag == Table then g.(table := e.attribute)
      else if e.Close? && e.tag == Table then g.(table := "")
      else if e.Open? && e.tag == Chain then g.(chain := e.attribute, chains := g.chains + {(g.table, e.attribute)})
      else if e.Leaf? && e.tag == Chain then g.(chains := g.chains + {(g.table, e.attribute)})
      else if e.Close? && e.tag == Chain then g.(chain := "")
      else g
    case InConditions =>
      if e.Close? && e.tag == Conditions then g.(mode := Outside, conditions := g.seen.pieces, seen := UNSEEN)
      else if e.Note? then g
      else g.(seen := See(g.seen, e))
    case InActions =>
      if e.Close? && e.tag == Actions then
        g.(mode := Outside, seen := UNSEEN, done := g.done + [Found(g.table, g.chain, g.conditions, g.seen.pieces)])
      else if e.Combined? then g.(seen := UNSEEN, done := g.done + [Found(g.table, g.chain, g.conditions, g.seen.pieces)])
      else if e.Note? then g
      else g.(seen := See(g.seen, e))
  }

  function GroupAll(g: Groups, events: seq<Event>): Groups
    decreases |events|
  {
    if events == [] then g else GroupAll(Group(g, events[0]), events[1..])
  }

  const NOTHING := Groups(Outside, "", "", {}, UNSEEN, [], [])

  function Pairs(g: Groups): seq<Found> {
    if g.mode.InActions? then g.done + [Found(g.table, g.chain, g.conditions, g.seen.pieces)] else g.done
  }

  /** Ungroup the output: each rule's conditions with each of its actions. */
  function Ungroup(events: seq<Event>): seq<Found> {
    Pairs(GroupAll(NOTHING, events))
  }

  /** The chains that have an element, with their tables. */
  function ChainsIn(events: seq<Event>): set<(string, string)> {
    GroupAll(NOTHING, events).chains
  }

  lemma {:induction false} GroupConcat(g: Groups, a: seq<Event>, b: seq<Event>)
    ensures GroupAll(g, a + b) == GroupAll(GroupAll(g, a), b)
    decreases |a|
  {
    if a == [] {
      assert a + b == b;
    } else {
      assert (a + b)[1..] == a[1..] + b;
      GroupConcat(Group(g, a[0]), a[1..], b);
    }
  }

  lemma GroupOne(g: Groups, e: Event)
    ensures GroupAll(g, [e]) == Group(g, e)
  {
    assert [e][1..] == [];
  }

  /** Tags and text of the kind rule parts are made of. */
  predicate Inner(e: Event) {
    match e
    case Open(t, _) => t.Level?
    case Close(t) => t.Level?
    case Leaf(t, _) => t.Level?
    case Data(_) => true
    case _ => false
  }

  predicate AllInner(events: seq<Event>) {
    forall e :: e in events ==> Inner(e)
  }

  lemma InnerConcat(a: seq<Event>, e: Event, b: seq<Event>)
    requires AllInner(a) && Inner(e) && AllInner(b)
    ensures AllInner(a + [e] + b) && AllInner([e] + b)
  {
  }

  lemma CloseInner(level1: Option<string>, level2: Option<string>)
    ensures AllInner(CloseLevels(level1, level2)) && AllInner(CloseLevel(level2))
  {
  }

  lemma {:induction false} PartFromInner(args: seq<Arg>, i: nat, p: Part, known: set<string>)
    ensures AllInner(PartFrom(args, i, p, known))
    decreases |args| - i
  {
    hide AllInner, CloseLevels, CloseLevel;
    CloseInner(p.level1, p.level2);
    if i < |args| && !(p.conditions && !args[i].quoted && IsTarget(args[i].text)) {
      var a := args[i];
      if !a.quoted && a.text == "!" {
        PartFromInner(args, i + 1, p.(invertNext := true, spacer := " "), known);
        PartFromInner(args, i + 1, p.(spacer := " "), known);
        InnerConcat(CloseLevel(p.level2), Data(p.spacer + "!"), PartFrom(args, i + 1, p.(spacer := " "), known));
      } else if !a.quoted && IsTarget(a.text) && i + 2 == |args| && args[i + 1].text in known {
        var name := if IsGoto(a.text) then "goto" else "call";
        var q := Part(p.conditions, Some(name), None, false, "");
        var rest := PartFrom(args, i + 2, q, known);
        PartFromInner(args, i + 2, q, known);
        var open, leaf := Open(Level(name), ""), Leaf(Level(args[i + 1].text), "");
        InnerConcat(CloseLevel(p.level2), leaf, rest);
        InnerConcat(CloseLevels(p.level1, p.level2), open, [leaf] + rest);
        assert CloseLevels(p.level1, p.level2) + [open, leaf] + rest == CloseLevels(p.level1, p.level2) + [open] + ([leaf] + rest);
      } else if StartsLevel(a) {
        if i + 1 < |args| {
          var name := args[i + 1].text;
          var empty := i + 2 >= |args| || StartsLevel(args[i + 2]);
          var q := Part(p.conditions, if empty then None else Some(name), None, false, "");
          PartFromInner(args, i + 2, q, known);
          InnerConcat(CloseLevels(p.level1, p.level2), if empty then Leaf(Level(name), "") else Open(Level(name), ""),
                      PartFrom(args, i + 2, q, known));
        }
      } else if !a.quoted && StartsDash(a.text) {
        var name := SkipDashes(a.text);
        var empty := i + 1 >= |args| || StartsDash(args[i + 1].text);
        var attribute := if p.invertNext then "invert" else "";
        var q := Part(p.conditions, p.level1, if empty then None else Some(name), false, "");
        PartFromInner(args, i + 1, q, known);
        InnerConcat(CloseLevel(p.level2), if empty then Leaf(Level(name), attribute) else Open(Level(name), attribute),
                    PartFrom(args, i + 1, q, known));
      } else {
        var quote := if a.quoted || ' ' in a.text then "\"" else "";
        PartFromInner(args, i + 1, p.(spacer := " "), known);
        InnerConcat(CloseLevel(p.level2), Data(p.spacer + quote + a.text + quote), PartFrom(args, i + 1, p.(spacer := " "), known));
      }
    }
  }

  lemma PartInner(args: seq<Arg>, conditions: bool, known: set<string>)
    ensures AllInner(PartEvents(args, conditions, known))
  {
    hide PartFrom;
    var start := if conditions then 1 else TargetFrom(args, 1);
    var p := Part(conditions, None, None, false, "");
    PartFromInner(args, start, p, known);
    PartFromInner(args, start, p.(level1 := Some("match")), known);
  }

  /** Inside conditions or an action, such events are seen as they come. */
  lemma {:induction false} GroupInner(g: Groups, events: seq<Event>)
    requires AllInner(events) && !g.mode.Outside?
    ensures GroupAll(g, events) == g.(seen := SeeAll(g.seen, events))
    decreases |events|
  {
    hide See;
    if events != [] {
      assert Inner(events[0]);
      GroupInner(Group(g, events[0]), events[1..]);
    }
  }

  // ---------------------------------------------------------------------------
  // What a run does, as predicates over its lines. `declared` and `chain` are the chains declared in
  // the table and the chain that is open.

  /** do_rule's test: this rule's action is added to the previous rule. */
  ghost predicate Merges(combine: bool, before: seq<string>, args: seq<Arg>) {
    combine && |args| > 2 && !IsTarget(args[2].text) && SameConditions(before, TextsOf(args))
  }

  /** Table and chain names are not empty, and a rule in a table names a chain. */
  predicate Named(lines: seq<InputLine>, inTable: bool)
    decreases |lines|
  {
    lines == [] ||
    match lines[0]
    case Commit => Named(lines[1..], false)
    case TableLine(name) => name != "" && Named(lines[1..], true)
    case ChainLine(name, _) => name != "" && Named(lines[1..], inTable)
    case RuleLine(args) => (inTable ==> ChainOf(TextsOf(args)).Some?) && Named(lines[1..], inTable)
    case _ => Named(lines[1..], inTable)
  }

  /** The run succeeds: chains, rules and commits stand in a table, no table declares too many
      chains, and the last table is committed. `n` chains are declared so far. */
  predicate Succeeds(lines: seq<InputLine>, inTable: bool, n: nat)
    decreases |lines|
  {
    if lines == [] then !inTable else
    match lines[0]
    case Commit => inTable && Succeeds(lines[1..], false, 0)
    case TableLine(_) => Succeeds(lines[1..], true, 0)
    case ChainLine(_, _) => inTable && n < MAX_CHAINS && Succeeds(lines[1..], inTable, n + 1)
    case RuleLine(_) => inTable && Succeeds(lines[1..], inTable, n)
    case _ => Succeeds(lines[1..], inTable, n)
  }

  /** The rule's chain needs no opening: it is open, or it was never declared. */
  predicate ChainKept(args: seq<Arg>, declared: set<string>, chain: string) {
    var name := ChainOf(TextsOf(args));
    name.None? || name.value == chain || name.value !in declared
  }

  /** The chain that is open once the rule's chain has been looked for. */
  function ChainAfter(args: seq<Arg>, declared: set<string>, chain: string): string {
    if ChainKept(args, declared, chain) then chain else Truncate(ChainOf(TextsOf(args)).value)
  }

  /** Some rule is printed while no chain is open: its chain is not declared, and neither was that of
      any rule before it in the table. */
  predicate Orphaned(lines: seq<InputLine>, declared: set<string>, chain: string)
    decreases |lines|
  {
    lines != [] &&
    match lines[0]
    case Commit => Orphaned(lines[1..], {}, "")
    case TableLine(_) => Orphaned(lines[1..], {}, "")
    case ChainLine(name, _) => Orphaned(lines[1..], declared + {name}, chain)
    case RuleLine(args) =>
      var next := ChainAfter(args, declared, chain);
      next == "" || Orphaned(lines[1..], declared, next)
    case _ => Orphaned(lines[1..], declared, chain)
  }

  /** The rules of the input, each with its table, the chain it is printed in, and what its arguments say. */
  function Rules(lines: seq<InputLine>, table: string, declared: set<string>, chain: string): seq<Found>
    decreases |lines|
  {
    if lines == [] then [] else
    match lines[0]
    case Commit => Rules(lines[1..], "", {}, "")
    case TableLine(name) => Rules(lines[1..], Truncate(name), {}, "")
    case ChainLine(name, _) => Rules(lines[1..], table, declared + {name}, chain)
    case RuleLine(args) =>
      var next := ChainAfter(args, declared, chain);
      [Found(table, next, ConditionsOf(args), ActionOf(args, {next} + declared))] + Rules(lines[1..], table, declared, next)
    case _ => Rules(lines[1..], table, declared, chain)
  }

  /** The chains declared, with their tables. */
  function DeclaredChains(lines: seq<InputLine>, table: string): set<(string, string)>
    decreases |lines|
  {
    if lines == [] then {} else
    match lines[0]
    case Commit => DeclaredChains(lines[1..], "")
    case TableLine(name) => DeclaredChains(lines[1..], Truncate(name))
    case ChainLine(name, _) => {(table, Truncate(name))} + DeclaredChains(lines[1..], table)
    case _ => DeclaredChains(lines[1..], table)
  }

  /** Some rule is combined with a rule whose conditions are not its own, or were closed with their
      chain: it takes the conditions of the rule `before` when the chain stays open, and none when not. */
  ghost predicate LosesConditions(lines: seq<InputLine>, combine: bool, before: seq<Arg>, declared: set<string>, chain: string)
    decreases |lines|
  {
    lines != [] &&
    match lines[0]
    case Commit => LosesConditions(lines[1..], combine, before, {}, "")
    case TableLine(_) => LosesConditions(lines[1..], combine, before, {}, "")
    case ChainLine(name, _) => LosesConditions(lines[1..], combine, before, declared + {name}, chain)
    case RuleLine(args) =>
      || (Merges(combine, TextsOf(before), args)
          && (if ChainKept(args, declared, chain) then ConditionsOf(before) else []) != ConditionsOf(args))
      || LosesConditions(lines[1..], combine, args, declared, ChainAfter(args, declared, chain))
    case _ => LosesConditions(lines[1..], combine, before, declared, chain)
  }

  // ---------------------------------------------------------------------------
  // How the output keeps up with the input.

  /** Where a run stands: the rules in the output, the conditions of the open rule, the last rule, and
      whether some rule lost its conditions. */
  datatype Progress = Progress(shown: seq<Found>, leader: seq<Piece>, before: seq<Arg>, lost: bool)

  ghost predicate Follows(combine: bool, lines: seq<InputLine>, rest: seq<InputLine>, p: Progress,
                          ruleOpen: bool, table: string, chain: string, declared: set<string>)
  {
    var all := Rules(lines, "", {}, "");
    && |p.shown| <= |all| && all[|p.shown|..] == Rules(rest, table, declared, chain)
    && (p.lost <==> p.shown != all[..|p.shown|])
    && (LosesConditions(lines, combine, [], {}, "") <==>
        p.lost || LosesConditions(rest, combine, p.before, declared, chain))
    && (chain != "" && !p.lost ==> (if ruleOpen then p.leader else []) == ConditionsOf(p.before))
  }

  /** What a rule is shown with, and where the run stands then. */
  function Next(p: Progress, table: string, chain: string, args: seq<Arg>, kept: bool, merged: bool, known: set<string>): Progress {
    var conditions := if !merged then ConditionsOf(args) else if kept then p.leader else [];
    Progress(p.shown + [Found(table, chain, conditions, ActionOf(args, known))], if merged then p.leader else ConditionsOf(args),
             args, p.lost || conditions != ConditionsOf(args))
  }

  /** One rule line, in an open chain. */
  lemma {:induction false} RuleFollows(combine: bool, lines: seq<InputLine>, rest: seq<InputLine>, p: Progress, ruleOpen: bool,
                                       table: string, chain: string, declared: set<string>, args: seq<Arg>, kept: bool, merged: bool)
    requires Follows(combine, lines, rest, p, ruleOpen, table, chain, declared)
    requires rest != [] && rest[0] == RuleLine(args) && ChainAfter(args, declared, chain) != ""
    requires kept == (ChainKept(args, declared, chain) && ruleOpen)
    requires merged == Merges(combine, TextsOf(p.before), args)
    ensures var next := ChainAfter(args, declared, chain);
      Follows(combine, lines, rest[1..], Next(p, table, next, args, kept, merged, {next} + declared), kept || !merged,
              table, next, declared)
  {
    hide ActionOf, Merges, ChainOf, ConditionsOf, TextsOf;
    var all := Rules(lines, "", {}, "");
    var n, after := |p.shown|, ChainAfter(args, declared, chain);
    var own := Found(table, after, ConditionsOf(args), ActionOf(args, {after} + declared));
    assert Rules(rest, table, declared, chain) == [own] + Rules(rest[1..], table, declared, after);
    assert all[n] == all[n..][0] == own;
    assert all[n + 1..] == all[n..][1..];
    assert all[..n + 1] == all[..n] + [own];
    var q := Next(p, table, after, args, kept, merged, {after} + declared);
    assert q.shown[..n] == p.shown && q.shown[n] == own.(conditions := q.shown[n].conditions);
    assert all[..n + 1][..n] == all[..n];
    assert LosesConditions(rest, combine, p.before, declared, chain) <==>
      (merged && (if ChainKept(args, declared, chain) then ConditionsOf(p.before) else []) != own.conditions)
      || LosesConditions(rest[1..], combine, args, declared, after);
    hide LosesConditions, Rules;
  }

  lemma NoSaved()
    ensures NamesOf([]) == {} && forall table :: SavedSet(table, []) == {}
  {
  }

  /** What the predicates over the lines say of a line that is not a rule. */
  lemma {:induction false} OtherLine(rest: seq<InputLine>, inTable: bool, n: nat, table: string, declared: set<string>, chain: string)
    requires rest != [] && !rest[0].RuleLine?
    ensures var line, more := rest[0], rest[1..];
      && (line.Commit? ==>
          && (Named(rest, inTable) ==> Named(more, false)) && (Succeeds(rest, inTable, n) <==> inTable && Succeeds(more, false, 0))
          && Orphaned(rest, declared, chain) == Orphaned(more, {}, "") && DeclaredChains(rest, table) == DeclaredChains(more, ""))
      && (line.TableLine? ==>
          && (Named(rest, inTable) ==> line.name != "" && Named(more, true)) && (Succeeds(rest, inTable, n) <==> Succeeds(more, true, 0))
          && Orphaned(rest, declared, chain) == Orphaned(more, {}, "")
          && DeclaredChains(rest, table) == DeclaredChains(more, Truncate(line.name)))
      && (line.ChainLine? ==>
          && (Named(rest, inTable) ==> line.name != "" && Named(more, inTable))
          && (Succeeds(rest, inTable, n) <==> inTable && n < MAX_CHAINS && Succeeds(more, inTable, n + 1))
          && Orphaned(rest, declared, chain) == Orphaned(more, declared + {line.name}, chain)
          && DeclaredChains(rest, table) == {(table, Truncate(line.name))} + DeclaredChains(more, table))
      && (line.Blank? || line.CommentLine? ==>
          && (Named(rest, inTable) ==> Named(more, inTable)) && (Succeeds(rest, inTable, n) <==> Succeeds(more, inTable, n))
          && Orphaned(rest, declared, chain) == Orphaned(more, declared, chain)
          && DeclaredChains(rest, table) == DeclaredChains(more, table))
  {
    hide Truncate;
  }

  /** A line that is not a rule. */
  lemma OtherFollows(combine: bool, lines: seq<InputLine>, rest: seq<InputLine>, p: Progress, ruleOpen: bool,
                     table: string, chain: string, declared: set<string>)
    requires Follows(combine, lines, rest, p, ruleOpen, table, chain, declared) && rest != [] && !rest[0].RuleLine?
    ensures rest[0].Commit? ==> Follows(combine, lines, rest[1..], p, false, "", "", {})
    ensures rest[0].TableLine? ==> Follows(combine, lines, rest[1..], p, false, Truncate(rest[0].name), "", {})
    ensures rest[0].ChainLine? ==>
      Follows(combine, lines, rest[1..], p, ruleOpen, table, chain, declared + {rest[0].name})
    ensures rest[0].Blank? || rest[0].CommentLine? ==> Follows(combine, lines, rest[1..], p, ruleOpen, table, chain, declared)
  {
    hide ConditionsOf, ActionOf, Merges, Truncate;
  }

  // ---------------------------------------------------------------------------
  // The program.

  function NamesOf(chains: seq<Saved>): set<string> {
    set c | c in chains :: c.name
  }

  /** Their elements. */
  function SavedSet(table: string, chains: seq<Saved>): set<(string, string)> {
    set c | c in chains :: (table, Truncate(c.name))
  }

  lemma SavedSetSnoc(table: string, chains: seq<Saved>, c: Saved)
    ensures SavedSet(table, chains + [c]) == SavedSet(table, chains) + {(table, Truncate(c.name))}
  {
    hide Truncate;
  }

  function PendingTags(table: bool, chain: bool, rule: bool, action: bool): seq<Tag> {
    var t := if table then [Root] + [Table] else [Root];
    var c := if chain then t + [Chain] else t;
    var r := if rule then c + [Rule] else c;
    if action then r + [Actions] else r
  }

  /** What is open after a rule was printed outside any chain, and perhaps a chain opened after it. */
  function StrayTags(rule: bool, chain: bool): seq<Tag> {
    var r := if rule then [Root] + [Table] + [Rule] else [Root] + [Table];
    if chain then r + [Actions] + [Chain] else r + [Actions]
  }

  lemma OpenRoot()
    ensures Nested([], [Open(Root, "")]) == Some([Root])
  {
    NestedOne([], Open(Root, ""));
    assert [] + [Root] == [Root];
  }

  /** Push on a stack that may be lost already. */
  function PushOn(n: Option<seq<Tag>>, e: Event): Option<seq<Tag>> {
    if n.None? then None else Push(n.value, e)
  }

  class Converter {
    const combine: bool
    var out: seq<Event>
    var curTable: string
    var curChain: string
    var closeAction: bool
    var closeRule: bool
    var chains: seq<Saved>
    var oldargs: seq<string>

    constructor (combine: bool)
      ensures this.combine == combine && Proper() && On([], []) && out == [Open(Root, "")] && !InTable()
      ensures curChain == "" && chains == [] && oldargs == []
    {
      this.combine := combine;
      out := [Open(Root, "")];
      curTable, curChain, closeAction, closeRule, chains, oldargs := "", "", false, false, [], [];
      new;
      OpenRoot();
      GroupRoot();
    }

    predicate InTable()
      reads this`curTable
    {
      curTable != ""
    }

    ghost function Stack(): Option<seq<Tag>>
      reads this`out
    {
      Nested([], out)
    }

    ghost predicate Proper()
      reads this`curChain, this`chains
    {
      |curChain| <= MAXNAMELEN && forall c :: c in chains ==> c.name != ""
    }

    /** The output so far is well nested, and the fields say exactly which tags are open. */
    ghost predicate Valid()
      reads this`out, this`curTable, this`curChain, this`closeAction, this`closeRule
    {
      && Stack() == Some(PendingTags(curTable != "", curChain != "", closeRule, closeAction))
      && (curChain != "" ==> curTable != "") && (closeRule || closeAction ==> curChain != "")
    }

    /** A rule was printed outside any chain: its tags are closed out of order, now or later. */
    ghost predicate Stray()
      reads this`out, this`curTable, this`curChain, this`closeAction, this`closeRule
    {
      Stack().Some? ==> InTable() && closeAction && Stack().value == StrayTags(closeRule, curChain != "")
    }

    ghost function Reading(): Groups
      reads this`out
    {
      GroupAll(NOTHING, out)
    }

    /** What the reader of the output makes of it: the rules `shown`, and, while a rule is open, its
        conditions `leader`. */
    ghost predicate Shows(shown: seq<Found>, leader: seq<Piece>)
      reads this`out, this`curTable, this`curChain, this`closeAction, this`closeRule
    {
      && Pairs(Reading()) == shown && !Reading().mode.InConditions?
      && (closeAction <==> Reading().mode.InActions?)
      && Reading().conditions == (if closeRule then leader else [])
      && (closeRule ==> closeAction)
      && Reading().table == curTable && Reading().chain == curChain
      && (Reading().mode.Outside? ==> Reading().seen == UNSEEN)
    }

    /** The chains that are marked have their elements. */
    ghost predicate Created()
      reads this`out, this`curTable, this`chains
    {
      forall c :: c in chains && c.created ==> (curTable, Truncate(c.name)) in Reading().chains
    }

    ghost predicate On(shown: seq<Found>, leader: seq<Piece>)
      reads this`out, this`curTable, this`curChain, this`closeAction, this`closeRule
    {
      Valid() && Shows(shown, leader)
    }

    method Emit(e: Event)
      modifies this`out
      ensures Reading() == Group(old(Reading()), e) && Stack() == PushOn(old(Stack()), e)
    {
      GroupConcat(NOTHING, out, [e]);
      GroupOne(Reading(), e);
      NestedConcat([], out, [e]);
      if Stack().Some? {
        NestedOne(Stack().value, e);
      }
      out := out + [e];
    }

    /** A part of a rule, inside its element. */
    method EmitPart(args: seq<Arg>, conditions: bool, known: set<string>)
      requires args != []
      modifies this`out
      ensures Stack() == old(Stack())
      ensures var g := old(Reading());
        var from := if conditions then 1 else TargetFrom(args, 1);
        !g.mode.Outside? && g.seen == UNSEEN ==>
          from <= |args| && Reading() == g.(seen := Seen([], SaidBy(args[from..], conditions, known)))
    {
      hide PartEvents, SaidBy;
      ghost var events := PartEvents(args, conditions, known);
      if Stack().Some? {
        PartNested(args, conditions, known, Stack().value);
      }
      PartInner(args, conditions, known);
      PartRead(args, conditions, known);
      GroupConcat(NOTHING, out, events);
      if !Reading().mode.Outside? {
        GroupInner(Reading(), events);
      }
      NestedConcat([], out, events);
      out := out + PartEvents(args, conditions, known);
    }

    /** Close the pending action and rule. */
    method CloseTags(ghost shown: seq<Found>, ghost leader: seq<Piece>)
      requires On(shown, leader) || Stray()
      modifies this`out, this`closeAction, this`closeRule
      ensures !closeAction && !closeRule
      ensures old(On(shown, leader)) ==> On(shown, leader) && Reading().chains == old(Reading().chains)
      ensures old(Stray()) ==> Stack() == if old(Stack()).Some? && curChain == "" then Some([Root] + [Table]) else None
    {
      hide GroupAll, Nested;
      if closeAction {
        Emit(Close(Actions));
        closeAction := false;
      }
      if closeRule {
        Emit(Close(Rule));
      }
      closeRule := false;
    }

    method CloseChain(ghost shown: seq<Found>, ghost leader: seq<Piece>)
      requires Proper() && (On(shown, leader) || Stray())
      modifies this`out, this`closeAction, this`closeRule, this`curChain
      ensures Proper() && curChain == ""
      ensures old(On(shown, leader)) ==>
        On(shown, leader) && !closeAction && !closeRule && Reading().chains == old(Reading().chains)
      ensures old(Stray()) ==> Stray()
    {
      if curChain == "" {
        return;
      }
      CloseTags(shown, leader);
      hide GroupAll, Nested;
      Emit(Close(Chain));
      curChain := "";
    }

    method OpenChain(name: string, policy: string, close: bool, ghost shown: seq<Found>, ghost leader: seq<Piece>)
      requires Proper() && (On(shown, leader) || Stray()) && InTable() && name != ""
      modifies this`out, this`closeAction, this`closeRule, this`curChain
      ensures Proper() && curChain == if close then "" else Truncate(name)
      ensures old(On(shown, leader)) ==>
        On(shown, leader) && !closeAction && !closeRule
        && Reading().chains == old(Reading().chains) + {(curTable, Truncate(name))}
      ensures old(Stray()) ==> Stray()
    {
      CloseChain(shown, leader);
      hide GroupAll, Nested;
      if close {
        Emit(Leaf(Chain, Truncate(name)));
      } else {
        Emit(Open(Chain, Truncate(name)));
        curChain := Truncate(name);
      }
    }

    /** existsChain */
    method ExistsChain(name: string) returns (found: bool)
      ensures found <==> name in {curChain} + NamesOf(chains)
    {
      found := name == curChain;
      var c := 0;
      while c < |chains| && !found
        invariant c <= |chains|
        invariant found <==> name in {curChain} + NamesOf(chains[..c])
      {
        assert chains[..c + 1] == chains[..c] + [chains[c]];
        found := chains[c].name == name;
        c := c + 1;
      }
      assert found || chains[..c] == chains;
    }

    /** needChain: open every saved chain of that name, unless it is the current one. */
    method NeedChain(name: string, ghost shown: seq<Found>, ghost leader: seq<Piece>)
      requires Proper() && ((On(shown, leader) && Created()) || Stray()) && InTable()
      modifies this`out, this`closeAction, this`closeRule, this`curChain, this`chains
      ensures Proper() && NamesOf(chains) == old(NamesOf(chains)) && |chains| == old(|chains|)
      ensures SavedSet(curTable, chains) == old(SavedSet(curTable, chains))
      ensures var kept := name == old(curChain) || name !in NamesOf(chains);
        && curChain == (if kept then old(curChain) else Truncate(name))
        && (old(On(shown, leader) && Created()) ==>
            && On(shown, leader) && Created() && closeRule == (kept && old(closeRule))
            && Reading().chains + SavedSet(curTable, chains) == old(Reading().chains + SavedSet(curTable, chains)))
      ensures old(Stray()) ==> Stray()
    {
      if curChain == name {
        return;
      }
      hide Valid, Stray, Shows, On, Truncate, Created;
      var c := 0;
      ghost var names, on, saved := NamesOf(chains), On(shown, leader) && Created(), SavedSet(curTable, chains);
      ghost var printed := Reading().chains;
      while c < |chains|
        invariant c <= |chains| == old(|chains|) && Proper() && NamesOf(chains) == names && SavedSet(curTable, chains) == saved
        invariant (on ==> On(shown, leader) && Created() && Reading().chains + saved == printed + saved) && (old(Stray()) ==> Stray())
        invariant name in NamesOf(chains[..c]) ==> curChain == Truncate(name) && (on ==> !closeRule)
        invariant name !in NamesOf(chains[..c]) ==> curChain == old(curChain) && (on ==> closeRule == old(closeRule))
        invariant forall k :: c <= k < |chains| ==> chains[k] == old(chains[k])
      {
        assert chains[..c + 1] == chains[..c] + [chains[c]];
        if chains[c].name == name {
          OpenSaved(c, shown, leader);
          assert chains[c] in chains[..c + 1] && chains[c].name == name;
        }
        c := c + 1;
      }
      assert chains[..c] == chains;
    }

    /** Opens saved chain `c` and marks it. */
    method OpenSaved(c: nat, ghost shown: seq<Found>, ghost leader: seq<Piece>)
      requires c < |chains| && Proper() && ((On(shown, leader) && Created()) || Stray()) && InTable()
      modifies this`out, this`closeAction, this`closeRule, this`curChain, this`chains
      ensures Proper() && chains == old(chains[c := chains[c].(created := true)]) && curChain == Truncate(chains[c].name)
      ensures NamesOf(chains) == old(NamesOf(chains)) && SavedSet(curTable, chains) == old(SavedSet(curTable, chains))
      ensures old(On(shown, leader) && Created()) ==>
        && On(shown, leader) && Created() && !closeRule
        && Reading().chains + SavedSet(curTable, chains) == old(Reading().chains) + SavedSet(curTable, chains)
      ensures old(Stray()) ==> Stray()
    {
      hide Valid, Stray, Shows, On, Truncate;
      var saved := chains[c];
      assert (curTable, Truncate(saved.name)) in SavedSet(curTable, chains);
      MarkKeepsNames(chains, c);
      MarkKeepsSaved(curTable, chains, c);
      OpenChain(saved.name, saved.policy, false, shown, leader);
      chains := chains[c := saved.(created := true)];
    }

    /** saveChain: false when there are too many. */
    method SaveChain(name: string, policy: string) returns (ok: bool)
      requires Proper() && name != ""
      modifies this`chains
      ensures Proper() && (ok <==> old(|chains|) < MAX_CHAINS)
      ensures ok ==> NamesOf(chains) == old(NamesOf(chains)) + {name} && |chains| == old(|chains|) + 1
      ensures ok ==> SavedSet(curTable, chains) == old(SavedSet(curTable, chains)) + {(curTable, Truncate(name))}
      ensures old(Created()) ==> Created()
    {
      if |chains| >= MAX_CHAINS {
        return false;
      }
      SavedSetSnoc(curTable, chains, Saved(name, policy, false));
      chains := chains + [Saved(name, policy, false)];
      ok := true;
    }

    /** finishChains: chains without rules become empty elements, so every chain has an element now. */
    method FinishChains(ghost shown: seq<Found>, ghost leader: seq<Piece>)
      requires Proper() && ((On(shown, leader) && Created()) || Stray()) && (chains != [] ==> InTable()) && curChain == ""
      modifies this`out, this`closeAction, this`closeRule, this`curChain, this`chains
      ensures Proper() && chains == [] && curChain == ""
      ensures old(On(shown, leader) && Created()) ==>
        On(shown, leader) && !closeRule && Reading().chains == old(Reading().chains + SavedSet(curTable, chains))
      ensures old(Stray()) ==> Stray()
    {
      hide Shows, Stray, Valid, Truncate;
      var c := 0;
      ghost var on, all := On(shown, leader) && Created(), Reading().chains + SavedSet(curTable, chains);
      assert curChain == "" && on ==> !closeRule by {
        NoRuleOpen(shown, leader);
      }
      while c < |chains|
        invariant c <= |chains| && chains == old(chains) && Proper() && curChain == ""
        invariant (on ==> On(shown, leader) && !closeRule && Created() && Reading().chains + SavedSet(curTable, chains) == all)
        invariant on ==> SavedSet(curTable, chains[..c]) <= Reading().chains
        invariant old(Stray()) ==> Stray()
      {
        assert chains[..c + 1] == chains[..c] + [chains[c]];
        SavedSetSnoc(curTable, chains[..c], chains[c]);
        assert (curTable, Truncate(chains[c].name)) in SavedSet(curTable, chains);
        if !chains[c].created {
          OpenChain(chains[c].name, chains[c].policy, true, shown, leader);
        }
        c := c + 1;
      }
      assert chains[..c] == chains;
      chains := [];
    }

    lemma NoRuleOpen(shown: seq<Found>, leader: seq<Piece>)
      ensures On(shown, leader) && curChain == "" ==> !closeRule
    {
    }

    method CloseTable(ghost shown: seq<Found>, ghost leader: seq<Piece>)
      requires Proper() && ((On(shown, leader) && Created()) || Stray()) && (chains != [] ==> InTable())
      modifies this`out, this`closeAction, this`closeRule, this`curChain, this`chains, this`curTable
      ensures Proper() && chains == [] && !InTable() && curChain == ""
      ensures old(On(shown, leader) && Created()) ==>
        On(shown, leader) && !closeRule && Reading().chains == old(Reading().chains + SavedSet(curTable, chains))
      ensures old(Stray()) ==> Stack() == None
    {
      CloseChain(shown, leader);
      FinishChains(shown, leader);
      hide GroupAll, Nested;
      if curTable != "" {
        Emit(Close(Table));
      }
      curTable := "";
    }

    method OpenTable(name: string, ghost shown: seq<Found>, ghost leader: seq<Piece>)
      requires Proper() && ((On(shown, leader) && Created()) || Stray()) && (chains != [] ==> InTable()) && name != ""
      modifies this`out, this`closeAction, this`closeRule, this`curChain, this`chains, this`curTable
      ensures Proper() && chains == [] && curTable == Truncate(name) && InTable() && curChain == ""
      ensures old(On(shown, leader) && Created()) ==>
        On(shown, leader) && !closeRule && Reading().chains == old(Reading().chains + SavedSet(curTable, chains))
      ensures old(Stray()) ==> Stray()
    {
      CloseTable(shown, leader);
      hide GroupAll, Nested;
      curTable := Truncate(name);
      Emit(Open(Table, curTable));
    }

    /** do_rule: combine the action with the previous rule's, or start a rule. */
    method DoRule(args: seq<Arg>, known: set<string>, ghost shown: seq<Found>, ghost leader: seq<Piece>)
      returns (ghost merged: bool)
      requires (On(shown, leader) || Stray()) && InTable() && args != []
      modifies this`out, this`closeAction, this`closeRule
      ensures merged == Merges(combine, oldargs, args)
      ensures old(On(shown, leader)) && curChain != "" ==>
        && closeRule == (old(closeRule) || !merged) && Reading().chains == old(Reading().chains)
        && On(shown + [Found(curTable, curChain, if !merged then ConditionsOf(args) else if closeRule then leader else [],
                             ActionOf(args, known))],
              if merged then leader else ConditionsOf(args))
      ensures old(Stray()) || curChain == "" ==> Stray()
    {
      hide GroupAll, Nested, ActionOf, ConditionsOf, SameConditions, See;
      var same := false;
      if combine && |args| > 2 && !IsTarget(args[2].text) {
        same := CompareRules(oldargs, TextsOf(args));
      }
      merged := same;
      if same {
        Emit(Combined);
      } else {
        CloseTags(shown, leader);
        StartRule(args);
      }
      AddAction(args, known, shown, if same then leader else ConditionsOf(args));
    }

    /** The action, in the actions element, which is opened unless it is open. */
    method AddAction(args: seq<Arg>, known: set<string>, ghost shown: seq<Found>, ghost leader: seq<Piece>)
      requires args != []
      modifies this`out, this`closeAction
      ensures closeAction && Stack() == if old(closeAction) then old(Stack()) else PushOn(old(Stack()), Open(Actions, ""))
      ensures (var g := old(Reading());
          && !g.mode.InConditions? && (old(closeAction) <==> g.mode.InActions?) && g.seen == UNSEEN
          && g.table == curTable && g.chain == curChain
          && g.done == shown && g.conditions == (if closeRule then leader else [])) ==>
        && Shows(shown + [Found(curTable, curChain, if closeRule then leader else [], ActionOf(args, known))], leader)
        && Reading().chains == old(Reading().chains)
    {
      hide GroupAll, Nested, SaidBy, See;
      if !closeAction {
        Emit(Open(Actions, ""));
        closeAction := true;
      }
      EmitPart(args, false, known);
    }

    /** The rule tag and its conditions. */
    method StartRule(args: seq<Arg>)
      modifies this`out, this`closeRule
      ensures closeRule && Stack() == PushOn(old(Stack()), Open(Rule, ""))
      ensures old(Reading()).mode.Outside? && old(Reading()).seen == UNSEEN ==>
        Reading() == old(Reading()).(conditions := ConditionsOf(args))
    {
      hide GroupAll, Nested, SaidBy, See;
      Emit(Open(Rule, ""));
      closeRule := true;
      if |args| >= 3 && !IsTarget(args[2].text) {
        ghost var outer := Stack();
        Emit(Open(Conditions, ""));
        EmitPart(args, true, {});
        Emit(Close(Conditions));
        assert outer.Some? ==> (outer.value + [Conditions])[..|outer.value|] == outer.value;
      }
    }

    /** A rule line: open its chain, print the rule, and remember its arguments. */
    method PrintRule(args: seq<Arg>, ghost p: Progress)
      requires Proper() && ((On(p.shown, p.leader) && Created()) || Stray()) && InTable() && ChainOf(TextsOf(args)).Some?
      requires oldargs == TextsOf(p.before)
      modifies this`out, this`closeAction, this`closeRule, this`curChain, this`chains, this`oldargs
      ensures Proper() && oldargs == TextsOf(args) && NamesOf(chains) == old(NamesOf(chains)) && |chains| == old(|chains|)
      ensures SavedSet(curTable, chains) == old(SavedSet(curTable, chains))
      ensures curChain == ChainAfter(args, NamesOf(chains), old(curChain))
      ensures old(On(p.shown, p.leader) && Created()) && curChain != "" ==>
        var kept := ChainKept(args, NamesOf(chains), old(curChain)) && old(closeRule);
        var merged := Merges(combine, TextsOf(p.before), args);
        var next := Next(p, curTable, curChain, args, kept, merged, {curChain} + NamesOf(chains));
        && closeRule == (kept || !merged) && On(next.shown, next.leader) && Created()
        && Reading().chains + SavedSet(curTable, chains) == old(Reading().chains + SavedSet(curTable, chains))
      ensures old(Stray()) || curChain == "" ==> Stray()
    {
      hide Valid, Stray, Shows, ConditionsOf, ActionOf, PendingTags, Merges, ChainOf;
      var texts := TextsOf(args);
      NeedChain(ChainOf(texts).value, p.shown, p.leader);
      ChainHasArguments(texts);
      var last := args[|args| - 1].text;
      var found := ExistsChain(last);
      var known := if found then {last} else {};
      ActionsAskForLast(args, known, {curChain} + NamesOf(chains));
      ghost var merged := DoRule(args, known, p.shown, p.leader);
      oldargs := texts;
    }

    /** What the run has done with the lines before `rest`; `stray` when a rule was printed outside any
        chain. */
    ghost predicate Tracks(lines: seq<InputLine>, rest: seq<InputLine>, p: Progress, stray: bool)
      reads this
    {
      && Proper() && oldargs == TextsOf(p.before) && (chains != [] ==> InTable()) && Named(rest, InTable())
      && (Succeeds(lines, false, 0) <==> Succeeds(rest, InTable(), |chains|))
      && (stray ==> Stray() && Orphaned(lines, {}, ""))
      && (!stray ==>
          && On(p.shown, p.leader) && Created()
          && Follows(combine, lines, rest, p, closeRule, curTable, curChain, NamesOf(chains))
          && (Orphaned(lines, {}, "") <==> Orphaned(rest, NamesOf(chains), curChain))
          && Reading().chains + SavedSet(curTable, chains) + DeclaredChains(rest, curTable) == DeclaredChains(lines, ""))
    }

    method ConvertRule(args: seq<Arg>, ghost lines: seq<InputLine>, ghost rest: seq<InputLine>, ghost p: Progress, ghost stray: bool)
      returns (ghost next: Progress, ghost nowStray: bool)
      requires Tracks(lines, rest, p, stray) && InTable() && rest != [] && rest[0] == RuleLine(args)
      modifies this`out, this`closeAction, this`closeRule, this`curChain, this`chains, this`oldargs
      ensures Tracks(lines, rest[1..], next, nowStray)
    {
      hide Proper, Valid, Shows, On, Created, Stray, Follows, Merges, ChainKept, ChainAfter, ConditionsOf, ActionOf, Truncate,
        ChainOf, SavedSet;
      ghost var ruleOpen, chain, declared := closeRule, curChain, NamesOf(chains);
      ghost var kept := ChainKept(args, declared, chain) && ruleOpen;
      ghost var merged := Merges(combine, TextsOf(p.before), args);
      PrintRule(args, p);
      next := Next(p, curTable, curChain, args, kept, merged, {curChain} + declared);
      nowStray := stray || curChain == "";
      if !nowStray {
        RuleFollows(combine, lines, rest, p, ruleOpen, curTable, chain, declared, args, kept, merged);
      }
    }

    method ConvertOther(line: InputLine, ghost lines: seq<InputLine>, ghost rest: seq<InputLine>, ghost p: Progress, ghost stray: bool)
      returns (ok: bool)
      requires Tracks(lines, rest, p, stray) && rest != [] && rest[0] == line && !line.RuleLine?
      modifies this`out, this`closeAction, this`closeRule, this`curChain, this`chains, this`curTable
      ensures ok ==> Tracks(lines, rest[1..], p, stray)
      ensures !ok ==> !Succeeds(lines, false, 0) && (Orphaned(lines, {}, "") || Stack().Some?)
    {
      OtherLine(rest, InTable(), |chains|, curTable, NamesOf(chains), curChain);
      StackKnown(p.shown, p.leader);
      hide PendingTags, Valid, Shows, On, Stray, Created, Proper, Stack, Reading, Follows, Truncate, Named, Succeeds, Orphaned, DeclaredChains,
        SavedSet;
      ok := !((line.Commit? || line.ChainLine?) && curTable == "");
      if !ok {
        return;
      }
      match line
      case Blank => ConvertText(line, lines, rest, p, stray);
      case CommentLine(_) => ConvertText(line, lines, rest, p, stray);
      case Commit => ConvertCommit(lines, rest, p, stray);
      case TableLine(name) => ConvertTable(name, lines, rest, p, stray);
      case ChainLine(name, policy) => ok := ConvertChain(name, policy, lines, rest, p, stray);
    }

    method ConvertCommit(ghost lines: seq<InputLine>, ghost rest: seq<InputLine>, ghost p: Progress, ghost stray: bool)
      requires Tracks(lines, rest, p, stray) && rest != [] && rest[0] == Commit && InTable()
      modifies this`out, this`closeAction, this`closeRule, this`curChain, this`chains, this`curTable
      ensures Tracks(lines, rest[1..], p, stray)
    {
      OtherLine(rest, InTable(), |chains|, curTable, NamesOf(chains), curChain);
      NoSaved();
      hide Valid, Shows, On, Stray, Created, Proper, Stack, Reading, Follows, Truncate, Named, Succeeds, Orphaned, DeclaredChains,
        SavedSet;
      if !stray {
        OtherFollows(combine, lines, rest, p, closeRule, curTable, curChain, NamesOf(chains));
      }
      CloseTable(p.shown, p.leader);
    }

    method ConvertTable(name: string, ghost lines: seq<InputLine>, ghost rest: seq<InputLine>, ghost p: Progress, ghost stray: bool)
      requires Tracks(lines, rest, p, stray) && rest != [] && rest[0] == TableLine(name)
      modifies this`out, this`closeAction, this`closeRule, this`curChain, this`chains, this`curTable
      ensures Tracks(lines, rest[1..], p, stray)
    {
      OtherLine(rest, InTable(), |chains|, curTable, NamesOf(chains), curChain);
      NoSaved();
      hide Valid, Shows, On, Stray, Created, Proper, Stack, Reading, Follows, Truncate, Named, Succeeds, Orphaned, DeclaredChains,
        SavedSet;
      if !stray {
        OtherFollows(combine, lines, rest, p, closeRule, curTable, curChain, NamesOf(chains));
      }
      OpenTable(name, p.shown, p.leader);
    }

    method ConvertChain(name: string, policy: string, ghost lines: seq<InputLine>, ghost rest: seq<InputLine>, ghost p: Progress,
                        ghost stray: bool)
      returns (ok: bool)
      requires Tracks(lines, rest, p, stray) && rest != [] && rest[0] == ChainLine(name, policy) && InTable()
      modifies this`chains
      ensures ok ==> Tracks(lines, rest[1..], p, stray)
      ensures !ok ==> !Succeeds(lines, false, 0)
    {
      OtherLine(rest, InTable(), |chains|, curTable, NamesOf(chains), curChain);
      hide Valid, Shows, On, Stray, Created, Proper, Stack, Reading, Follows, Truncate, Named, Succeeds, Orphaned, DeclaredChains,
        SavedSet, NamesOf;
      if !stray {
        OtherFollows(combine, lines, rest, p, closeRule, curTable, curChain, NamesOf(chains));
        OneMore(Reading().chains, SavedSet(curTable, chains), (curTable, Truncate(name)), DeclaredChains(rest[1..], curTable));
      }
      ok := SaveChain(name, policy);
    }

    lemma OneMore(a: set<(string, string)>, b: set<(string, string)>, x: (string, string), c: set<(string, string)>)
      ensures a + (b + {x}) + c == a + b + ({x} + c)
    {
    }

    method ConvertText(line: InputLine, ghost lines: seq<InputLine>, ghost rest: seq<InputLine>, ghost p: Progress, ghost stray: bool)
      requires Tracks(lines, rest, p, stray) && rest != [] && rest[0] == line && (line.Blank? || line.CommentLine?)
      modifies this`out, this`closeAction, this`closeRule, this`curChain, this`chains, this`curTable
      ensures Tracks(lines, rest[1..], p, stray)
    {
      OtherLine(rest, InTable(), |chains|, curTable, NamesOf(chains), curChain);
      NoSaved();
      hide Valid, Shows, On, Stray, Created, Proper, Stack, Reading, Follows, Truncate, Named, Succeeds, Orphaned, DeclaredChains,
        SavedSet;
      if !stray {
        OtherFollows(combine, lines, rest, p, closeRule, curTable, curChain, NamesOf(chains));
      }
      if line.CommentLine? {
        PrintNote(line.text, p.shown, p.leader);
      }
    }

    method PrintNote(text: string, ghost shown: seq<Found>, ghost leader: seq<Piece>)
      requires On(shown, leader) || Stray()
      modifies this`out
      ensures old(On(shown, leader)) ==> On(shown, leader) && Reading().chains == old(Reading().chains)
      ensures old(Created()) && old(On(shown, leader)) ==> Created()
      ensures old(Stray()) ==> Stray()
    {
      hide GroupAll, Nested;
      Emit(Note(text));
    }

    lemma StackKnown(shown: seq<Found>, leader: seq<Piece>)
      ensures On(shown, leader) ==> Stack().Some?
    {
    }

    /** The whole run: it succeeds exactly when the lines say so; then its tags are well nested and all
        closed exactly when no rule stands outside a chain; and then every chain has an element in its table,
        and the rules can be read back, each in its chain, exactly when none lost its conditions. */
    method Convert(lines: seq<InputLine>) returns (ok: bool)
      requires Proper() && On([], []) && !InTable() && curChain == "" && chains == [] && oldargs == []
      requires out == [Open(Root, "")] && Named(lines, false)
      modifies this
      ensures ok <==> Succeeds(lines, false, 0)
      ensures !Orphaned(lines, {}, "") ==> Nested([], out).Some?
      ensures ok ==> (Nested([], out) == Some([]) <==> !Orphaned(lines, {}, ""))
      ensures ok && !Orphaned(lines, {}, "") ==>
        && ChainsIn(out) == DeclaredChains(lines, "")
        && (Ungroup(out) == Rules(lines, "", {}, "") <==> !LosesConditions(lines, combine, [], {}, ""))
    {
      var i := 0;
      ghost var p, stray := Progress([], [], [], false), false;
      StartFollows(combine, lines);
      GroupRoot();
      assert lines[0..] == lines && NamesOf([]) == {} && SavedSet("", []) == {};
      while i < |lines|
        invariant i <= |lines| && Tracks(lines, lines[i..], p, stray)
      {
        ghost var rest := lines[i..];
        assert rest[0] == lines[i] && rest[1..] == lines[i + 1..];
        var line := lines[i];
        i := i + 1;
        if line.RuleLine? {
          if curTable == "" {
            return false;
          }
          p, stray := ConvertRule(line.args, lines, rest, p, stray);
        } else {
          ok := ConvertOther(line, lines, rest, p, stray);
          if !ok {
            return false;
          }
        }
      }
      ok := curTable == "";
      if ok {
        if !stray {
          EndFollows(combine, lines, p, closeRule, curTable, curChain, NamesOf(chains));
        }
        assert lines[i..] == [] && DeclaredChains([], "") == {} && SavedSet("", []) == {};
        hide Nested, GroupAll, Follows, Rules, LosesConditions, DeclaredChains;
        Emit(Close(Root));
      }
    }
  }

  lemma ChainHasArguments(texts: seq<string>)
    requires ChainOf(texts).Some?
    ensures |texts| >= 2
  {
  }

  lemma GroupRoot()
    ensures GroupAll(NOTHING, [Open(Root, "")]) == NOTHING
  {
    GroupOne(NOTHING, Open(Root, ""));
  }

  lemma StartFollows(combine: bool, lines: seq<InputLine>)
    ensures Follows(combine, lines, lines, Progress([], [], [], false), false, "", "", {})
  {
  }

  lemma EndFollows(combine: bool, lines: seq<InputLine>, p: Progress, ruleOpen: bool, table: string, chain: string, declared: set<string>)
    ensures Follows(combine, lines, [], p, ruleOpen, table, chain, declared) ==>
      (p.shown == Rules(lines, "", {}, "") <==> !LosesConditions(lines, combine, [], {}, ""))
  {
    var all := Rules(lines, "", {}, "");
    if |p.shown| <= |all| {
      assert all == all[..|p.shown|] + all[|p.shown|..];
    }
  }

  lemma MarkKeepsSaved(table: string, chains: seq<Saved>, c: nat)
    requires c < |chains|
    ensures SavedSet(table, chains[c := chains[c].(created := true)]) == SavedSet(table, chains)
  {
    hide Truncate;
    var marked := chains[c := chains[c].(created := true)];
    forall s | s in chains
      ensures (table, Truncate(s.name)) in SavedSet(table, marked)
    {
      var k :| 0 <= k < |chains| && chains[k] == s;
      assert marked[k] in marked && marked[k].name == s.name;
    }
  }

  lemma MarkKeepsNames(chains: seq<Saved>, c: nat)
    requires c < |chains|
    ensures NamesOf(chains[c := chains[c].(created := true)]) == NamesOf(chains)
  {
    var marked := chains[c := chains[c].(created := true)];
    forall s | s in chains
      ensures s.name in NamesOf(marked)
    {
      var k :| 0 <= k < |chains| && chains[k] == s;
      assert marked[k] in marked && marked[k].name == s.name;
    }
  }

  // ---------------------------------------------------------------------------
  // Rules of the usual shape.

  /** The shape "-A chain ...", with a chain name that fits. */
  predicate Shaped(args: seq<Arg>) {
    && |args| >= 2 && args[0].text == "-A" && ChainOf(TextsOf(args)) == Some(args[1].text)
    && |args[1].text| <= MAXNAMELEN && !IsTarget(args[1].text)
  }

  /** If these rules are combined, they were quoted alike. */
  ghost predicate QuotedAlike(before: seq<Arg>, args: seq<Arg>) {
    forall k: nat :: MergeAt(TextsOf(before), TextsOf(args), k) ==> SamePrefix(before, args, k)
  }

  /** Every rule is shaped, in a chain declared before it, and combined only with a rule quoted alike. */
  ghost predicate Regular(lines: seq<InputLine>, before: seq<Arg>, declared: set<string>)
    decreases |lines|
  {
    lines == [] ||
    match lines[0]
    case Commit => Regular(lines[1..], before, {})
    case TableLine(_) => Regular(lines[1..], before, {})
    case ChainLine(name, _) => name != "" && Regular(lines[1..], before, declared + {name})
    case RuleLine(args) =>
      Shaped(args) && args[1].text in declared && QuotedAlike(before, args) && Regular(lines[1..], args, declared)
    case _ => Regular(lines[1..], before, declared)
  }

  /** Some rule is combined with a rule before the start or the end of its table. */
  ghost predicate MergesAcrossTables(lines: seq<InputLine>, combine: bool, before: seq<Arg>, boundary: bool)
    decreases |lines|
  {
    lines != [] &&
    match lines[0]
    case Commit => MergesAcrossTables(lines[1..], combine, before, true)
    case TableLine(_) => MergesAcrossTables(lines[1..], combine, before, true)
    case RuleLine(args) =>
      (boundary && Merges(combine, TextsOf(before), args)) || MergesAcrossTables(lines[1..], combine, args, false)
    case _ => MergesAcrossTables(lines[1..], combine, before, boundary)
  }

  /** A shaped rule that is combined has conditions and the chain of the rule before it; quoted alike,
      it has the same conditions. */
  lemma MergeMeans(combine: bool, before: seq<Arg>, args: seq<Arg>)
    requires Shaped(args) && Merges(combine, TextsOf(before), args)
    ensures ConditionsOf(args) != [] && |before| >= 2 && before[1].text == args[1].text
    ensures QuotedAlike(before, args) ==> ConditionsOf(before) == ConditionsOf(args)
  {
    hide ConditionsOf, ChainOf;
    var k: nat :| MergeAt(TextsOf(before), TextsOf(args), k);
    assert k >= 3;
    assert TextsOf(before)[..k][1] == TextsOf(args)[..k][1];
    ConditionsNotEmpty(args);
    if QuotedAlike(before, args) {
      SamePrefixSameConditions(before, args, k);
    }
  }

  lemma {:induction false} ConditionsNotEmpty(args: seq<Arg>)
    requires |args| >= 4 && !IsTarget(args[1].text) && !IsTarget(args[2].text)
    ensures ConditionsOf(args) != []
  {
    var here := args[1..];
    assert here[0] == args[1] && here[1] == args[2] && |here| >= 3;
    FirstNotTarget(here);
    var units := UntilTarget(Units(here));
    if units[0].Not? {
      NotBefore(here);
      SaidNotEmpty(units[1..], None, None, true);
      assert Said(units, None, None, false, {}) == Said(units[1..], None, None, true, {});
    } else {
      SaidNotEmpty(units, None, None, false);
    }
    hide Units, UntilTarget, Said;
  }

  lemma {:induction false} SaidNotEmpty(units: seq<Unit>, extension: Option<string>, flag: Option<string>, inverted: bool)
    requires units != [] && !units[0].Not? && !units[0].Dangling?
    ensures Said(units, extension, flag, inverted, {}) != []
  {
    hide Printed, SkipDashes;
  }

  lemma {:induction false} FirstNotTarget(here: seq<Arg>)
    requires here != [] && !IsTarget(here[0].text)
    ensures Units(here) != [] && UntilTarget(Units(here)) != [] && UntilTarget(Units(here))[0] == Units(here)[0]
    ensures !Units(here)[0].Dangling? || |here| == 1
  {
  }

  lemma {:induction false} NotBefore(here: seq<Arg>)
    requires |here| >= 3 && !IsTarget(here[0].text) && !IsTarget(here[1].text) && Units(here)[0] == Not
    ensures var units := UntilTarget(Units(here)); |units| > 1 && !units[1].Not? && !units[1].Dangling?
  {
    var more := here[1..];
    assert more[0] == here[1] && |more| >= 2;
    assert Units(here) == [Not] + Units(more);
    FirstNotTarget(more);
    UntilStep(Not, Units(more));
    assert StartsDash(more[0].text);
  }

  /** Then conditions are lost only across tables. */
  lemma {:induction false} RegularLoses(lines: seq<InputLine>, combine: bool, before: seq<Arg>, declared: set<string>, chain: string)
    requires Regular(lines, before, declared) && "" !in declared
    requires chain != "" ==> Shaped(before) && chain == before[1].text
    ensures LosesConditions(lines, combine, before, declared, chain) <==> MergesAcrossTables(lines, combine, before, chain == "")
    ensures !Orphaned(lines, declared, chain)
    decreases |lines|
  {
    hide Merges, QuotedAlike, ConditionsOf, ChainOf;
    if lines != [] {
      match lines[0]
      case Commit => RegularLoses(lines[1..], combine, before, {}, "");
      case TableLine(_) => RegularLoses(lines[1..], combine, before, {}, "");
      case ChainLine(name, _) => RegularLoses(lines[1..], combine, before, declared + {name}, chain);
      case RuleLine(args) =>
        RegularLoses(lines[1..], combine, args, declared, args[1].text);
        if Merges(combine, TextsOf(before), args) {
          MergeMeans(combine, before, args);
        }
      case _ => RegularLoses(lines[1..], combine, before, declared, chain);
    }
  }

  // ---------------------------------------------------------------------------
  // Three inputs on which the conversion goes wrong.

  /** One chain INPUT and one rule in it, in a table of its own. */
  lemma TableHere(l: seq<InputLine>, before: seq<Arg>, args: seq<Arg>, declared: set<string>, chain: string)
    requires |l| >= 4 && l[0].TableLine? && l[1] == ChainLine("INPUT", "ACCEPT") && l[2] == RuleLine(args) && l[3] == Commit
    requires ChainOf(TextsOf(args)) == Some("INPUT") && l[0].name != ""
    ensures Succeeds(l, false, 0) == Succeeds(l[4..], false, 0) && Named(l, false) == Named(l[4..], false)
    ensures Orphaned(l, declared, chain) == Orphaned(l[4..], {}, "")
    ensures LosesConditions(l, true, before, declared, chain)
      == ((Merges(true, TextsOf(before), args) && ConditionsOf(args) != []) || LosesConditions(l[4..], true, args, {}, ""))
  {
    assert l[1..][1..] == l[2..] && l[2..][1..] == l[3..] && l[3..][1..] == l[4..];
    assert "INPUT" in {} + {"INPUT"};
    hide Merges, ConditionsOf, ChainOf;
    RuleHere(l[2..], before, args, {} + {"INPUT"}, "");
    assert Succeeds(l[3..], true, 1) == Succeeds(l[4..], false, 0);
    assert Named(l[3..], true) == Named(l[4..], false);
  }

  lemma RuleHere(l: seq<InputLine>, before: seq<Arg>, args: seq<Arg>, declared: set<string>, chain: string)
    requires l != [] && l[0] == RuleLine(args) && ChainOf(TextsOf(args)) == Some("INPUT") && "INPUT" in declared
    ensures forall n :: Succeeds(l, true, n) == Succeeds(l[1..], true, n)
    ensures Named(l, true) == Named(l[1..], true)
    ensures Orphaned(l, declared, chain) == Orphaned(l[1..], declared, "INPUT")
    ensures LosesConditions(l, true, before, declared, chain)
      == ((Merges(true, TextsOf(before), args)
           && (if chain == "INPUT" then ConditionsOf(before) else []) != ConditionsOf(args))
          || LosesConditions(l[1..], true, args, declared, "INPUT"))
  {
    hide Merges, ConditionsOf, ChainOf;
  }

  /** Arguments without quotes, but for the quoted one. */
  function Marked(texts: seq<string>, quoted: int): (args: seq<Arg>)
    ensures |args| == |texts| && forall k :: 0 <= k < |texts| ==> args[k] == Arg(texts[k], k == quoted)
  {
    seq(|texts|, k requires 0 <= k < |texts| => Arg(texts[k], k == quoted))
  }

  /** "-A INPUT --comment x -j LOG", with x quoted or not. */
  function LogComment(quoted: bool): seq<Arg> {
    Marked(["-A", "INPUT", "--comment", "x", "-j", "LOG"], if quoted then 3 else -1)
  }

  /** Two tables with the same rule. */
  function TwoTables(): seq<InputLine> {
    [TableLine("filter"), ChainLine("INPUT", "ACCEPT"), RuleLine(LogComment(false)), Commit,
     TableLine("mangle"), ChainLine("INPUT", "ACCEPT"), RuleLine(LogComment(false)), Commit]
  }

  /** One table with the rule twice, quoted and not. */
  function TwoQuotings(): seq<InputLine> {
    [TableLine("filter"), ChainLine("INPUT", "ACCEPT"), RuleLine(LogComment(true)), RuleLine(LogComment(false)), Commit]
  }

  /** The rule in a chain that was not declared. */
  function NoChain(): seq<InputLine> {
    [TableLine("filter"), RuleLine(LogComment(false)), Commit]
  }

  lemma LogCommentMerges(quoted: bool)
    ensures ChainOf(TextsOf(LogComment(quoted))) == Some("INPUT")
    ensures Merges(true, TextsOf(LogComment(quoted)), LogComment(false))
  {
    var t := TextsOf(LogComment(quoted));
    assert t == ["-A", "INPUT", "--comment", "x", "-j", "LOG"] == TextsOf(LogComment(false));
    LastFlag(t, 2);
    LastFlag(t, 3);
    LastFlag(t, 4);
    LastFlag(t, 5);
    assert t[..6] == t && ChainOf(t[..2]) == Some("INPUT");
    hide ChainOf;
    assert MergeAt(t, t, 4);
  }

  lemma LastFlag(t: seq<string>, n: nat)
    requires 2 <= n < |t| && t[n - 1] != "-A"
    ensures ChainOf(t[..n + 1]) == ChainOf(t[..n])
  {
    assert t[..n + 1][..n] == t[..n];
  }

  /** The comment is printed with its quotes. */
  lemma LogCommentConditions(quoted: bool)
    ensures ConditionsOf(LogComment(quoted))
      == [Text("INPUT", None), Element("comment", false, None), Text(if quoted then "\"x\"" else "x", Some("comment"))]
  {
    var args := LogComment(quoted);
    var input, comment, x, rest := Arg("INPUT", false), Arg("--comment", false), Arg("x", quoted), args[4..];
    assert args[1..] == [input] + ([comment] + ([x] + rest)) && rest[0] == Arg("-j", false) && |rest| == 2 && args[2] == comment;
    hide Units, UntilTarget, Printed, SkipDashes, LogComment, Said;
    LogUnits(input, comment, x, rest);
    LogSaid(quoted, [Word(input)] + ([Flag(comment)] + ([Word(x)] + [])));
    assert [Word(input)] + ([Flag(comment)] + ([Word(x)] + [])) == [Word(input), Flag(comment), Word(x)];
    assert args[1..][0] == input;
  }

  lemma LogSaid(quoted: bool, units: seq<Unit>)
    requires units == [Word(Arg("INPUT", false))] + ([Flag(Arg("--comment", false))] + ([Word(Arg("x", quoted))] + []))
    ensures Said(units, None, None, false, {})
      == [Text("INPUT", None), Element("comment", false, None), Text(if quoted then "\"x\"" else "x", Some("comment"))]
  {
    hide Said, Printed, SkipDashes;
    PrintedWords(quoted);
    CommentName();
    var x := [Word(Arg("x", quoted))] + [];
    SaidWord(Arg("INPUT", false), [Flag(Arg("--comment", false))] + x, None, None, false, {});
    SaidFlag(Arg("--comment", false), x, None, None, false, {});
    assert x[0] == Word(Arg("x", quoted)) && !StartsDash("x");
    SaidWord(Arg("x", quoted), [], None, Some("comment"), false, {});
    SaidNothing();
  }

  lemma SaidNothing()
    ensures forall e, f, i, known :: Said([], e, f, i, known) == []
  {
  }

  lemma PrintedWords(quoted: bool)
    ensures Printed(Arg("INPUT", false)) == "INPUT" && Printed(Arg("x", quoted)) == if quoted then "\"x\"" else "x"
  {
    assert ' ' !in "INPUT" && ' ' !in "x" && "\"" + "x" + "\"" == "\"x\"";
  }

  lemma CommentName()
    ensures SkipDashes("--comment") == "comment"
  {
    assert "--comment"[1..] == "-comment" && "-comment"[1..] == "comment";
  }

  /** A chain name, a flag and its argument, before a target. */
  lemma {:induction false} LogUnits(input: Arg, comment: Arg, x: Arg, rest: seq<Arg>)
    requires input.text == "INPUT" && comment == Arg("--comment", false) && x.text == "x" && !input.quoted
    requires |rest| == 2 && rest[0] == Arg("-j", false)
    ensures UntilTarget(Units([input] + ([comment] + ([x] + rest)))) == [Word(input), Flag(comment), Word(x)]
  {
    hide Units, UntilTarget;
    WordNext(x, rest);
    FlagNext(comment, [x] + rest);
    WordNext(input, [comment] + ([x] + rest));
    UntilStep(Word(x), Units(rest));
    UntilStep(Flag(comment), [Word(x)] + Units(rest));
    UntilStep(Word(input), [Flag(comment)] + ([Word(x)] + Units(rest)));
    TargetNext(rest);
  }

  lemma {:induction false} WordNext(a: Arg, rest: seq<Arg>)
    requires !StartsDash(a.text) && a.text != "!"
    ensures Units([a] + rest) == [Word(a)] + Units(rest)
  {
    assert ([a] + rest)[1..] == rest;
  }

  lemma {:induction false} FlagNext(a: Arg, rest: seq<Arg>)
    requires !a.quoted && StartsDash(a.text) && a.text != "!" && !StartsLevel(a)
    ensures Units([a] + rest) == [Flag(a)] + Units(rest)
  {
    assert ([a] + rest)[1..] == rest;
  }

  lemma {:induction false} TargetNext(rest: seq<Arg>)
    requires |rest| >= 2 && !rest[0].quoted && IsTarget(rest[0].text)
    ensures UntilTarget(Units(rest)) == []
  {
  }

  /** The second table's rule is combined with the first table's and loses its conditions. */
  lemma TwoTablesMerge()
    ensures Named(TwoTables(), false) && Succeeds(TwoTables(), false, 0) && !Orphaned(TwoTables(), {}, "")
    ensures LosesConditions(TwoTables(), true, [], {}, "")
  {
    var l, args := TwoTables(), LogComment(false);
    LogCommentMerges(false);
    LogCommentConditions(false);
    hide Merges, ChainOf, ConditionsOf, LogComment;
    TableHere(l, [], args, {}, "");
    TableHere(l[4..], args, args, {}, "");
    assert l[4..][4..] == [];
  }

  /** The second rule is combined with the first, whose comment was quoted. */
  lemma TwoQuotingsMerge()
    ensures Named(TwoQuotings(), false) && Succeeds(TwoQuotings(), false, 0) && !Orphaned(TwoQuotings(), {}, "")
    ensures LosesConditions(TwoQuotings(), true, [], {}, "")
  {
    var l, first, second := TwoQuotings(), LogComment(true), LogComment(false);
    LogCommentMerges(true);
    LogCommentMerges(false);
    LogCommentConditions(true);
    LogCommentConditions(false);
    hide Merges, ChainOf, ConditionsOf, LogComment;
    assert l[1..][1..] == l[2..] && l[2..][1..] == l[3..] && l[3..][1..] == l[4..] && l[4..][1..] == [];
    RuleHere(l[2..], [], first, {} + {"INPUT"}, "");
    RuleHere(l[3..], first, second, {} + {"INPUT"}, "INPUT");
    assert Succeeds(l[4..], true, 1) && Named(l[4..], true) && !Orphaned(l[4..], {} + {"INPUT"}, "INPUT");
  }

  lemma NoChainOrphaned()
    ensures Named(NoChain(), false) && Succeeds(NoChain(), false, 0) && Orphaned(NoChain(), {}, "")
  {
    var l := NoChain();
    LogCommentMerges(false);
    hide ChainOf, LogComment;
    assert l[1..][1..] == l[2..] && l[2..][1..] == [];
  }

  /** The runs themselves: what is read back is not what was put in, or nothing can be read back. */
  method ConvertLosing(quotings: bool) returns (out: seq<Event>)
    ensures Nested([], out) == Some([])
    ensures Ungroup(out) != Rules(if quotings then TwoQuotings() else TwoTables(), "", {}, "")
  {
    hide Nested, GroupAll, Rules, LosesConditions, Orphaned, Succeeds, Named;
    var c := new Converter(true);
    var lines := if quotings then TwoQuotings() else TwoTables();
    TwoTablesMerge();
    TwoQuotingsMerge();
    var ok := c.Convert(lines);
    out := c.out;
  }

  method ConvertOrphan() returns (out: seq<Event>)
    ensures Nested([], out) != Some([])
  {
    hide Nested, GroupAll, Rules, LosesConditions, Orphaned, Succeeds, Named;
    var c := new Converter(true);
    NoChainOrphaned();
    var ok := c.Convert(NoChain());
    out := c.out;
  }
}
