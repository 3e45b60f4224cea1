/** The multiport match: a list of ports and ranges packed into two arrays, and the printer that
    must give the list back. */
module Multiport {
  import opened Common
  import opened Numbers

  const MULTI_PORTS: nat := 15

  type Port = x: nat | x <= 0xFFFF

  datatype Item = One(port: Port) | Span(low: Port, high: Port)

  datatype Error = TooMany | BadPort | BadRange

  type Result<+T> = Common.Result<T, Error>

  // ---------------------------------------------------------------------------
  // The packed form.

  /** How many slots an item takes. */
  function Width(item: Item): nat {
    if item.One? then 1 else 2
  }

  function Slots(item: Item): (p: seq<Port>)
    ensures |p| == Width(item)
  {
    match item
    case One(p) => [p]
    case Span(low, high) => [low, high]
  }

  /** A flag marks the start of a range. */
  function Marks(item: Item): (f: seq<bool>)
    ensures |f| == Width(item)
  {
    if item.One? then [false] else [true, false]
  }

  function PortsOf(items: seq<Item>): seq<Port> {
    if items == [] then [] else Slots(items[0]) + PortsOf(items[1..])
  }

  function FlagsOf(items: seq<Item>): (f: seq<bool>)
    ensures |f| == |PortsOf(items)|
  {
    if items == [] then [] else Marks(items[0]) + FlagsOf(items[1..])
  }

  predicate ValidItem(item: Item) {
    item.Span? ==> item.low < item.high
  }

  predicate ValidItems(items: seq<Item>) {
    forall k :: 0 <= k < |items| ==> ValidItem(items[k])
  }

  /** Reading the packed form: an error when a range has no second slot. */
  function Unpack(ports: seq<Port>, flags: seq<bool>): Result<seq<Item>>
    requires |ports| == |flags|
  {
    if ports == [] then Ok([])
    else if flags[0] && |ports| == 1 then Err(BadRange)
    else
      var item := if flags[0] then Span(ports[0], ports[1]) else One(ports[0]);
      var rest := Unpack(ports[Width(item)..], flags[Width(item)..]);
      if rest.Err? then rest else Ok([item] + rest.value)
  }

  lemma {:induction false} PackAppend(a: seq<Item>, b: seq<Item>)
    ensures PortsOf(a + b) == PortsOf(a) + PortsOf(b) && FlagsOf(a + b) == FlagsOf(a) + FlagsOf(b)
  {
    if a == [] {
      assert a + b == b;
      EmptyFront(PortsOf(b));
      EmptyFront(FlagsOf(b));
    } else {
      AppendCons(a, b);
      PackAppend(a[1..], b);
      PackCons(a);
      PackCons(a + b);
      hide PortsOf, FlagsOf, Slots, Marks;
      Regroup(Slots(a[0]), PortsOf(a[1..]), PortsOf(b));
      Regroup(Marks(a[0]), FlagsOf(a[1..]), FlagsOf(b));
    }
  }

  lemma EmptyFront<T>(s: seq<T>)
    ensures [] + s == s
  {
  }

  lemma Regroup<T>(a: seq<T>, b: seq<T>, c: seq<T>)
    ensures a + (b + c) == (a + b) + c
  {
  }

  lemma AppendCons<T>(a: seq<T>, b: seq<T>)
    requires a != []
    ensures a + b != [] && (a + b)[0] == a[0] && (a + b)[1..] == a[1..] + b
  {
  }

  lemma PackCons(items: seq<Item>)
    requires items != []
    ensures PortsOf(items) == Slots(items[0]) + PortsOf(items[1..])
    ensures FlagsOf(items) == Marks(items[0]) + FlagsOf(items[1..])
  {
    hide Slots, Marks;
  }

  lemma PackOne(item: Item)
    ensures PortsOf([item]) == Slots(item) && FlagsOf([item]) == Marks(item)
  {
    assert [item][1..] == [];
    assert PortsOf([]) == [] && FlagsOf([]) == [];
  }

  /** The packed form is read back as the list it was made from. */
  lemma {:induction false} UnpackPacked(items: seq<Item>)
    ensures Unpack(PortsOf(items), FlagsOf(items)) == Ok(items)
  {
    if items != [] {
      var item, ports, flags := items[0], PortsOf(items), FlagsOf(items);
      UnpackPacked(items[1..]);
      assert ports == Slots(item) + PortsOf(items[1..]) && flags == Marks(item) + FlagsOf(items[1..]);
      hide PortsOf, FlagsOf;
      assert ports[Width(item)..] == PortsOf(items[1..]) && flags[Width(item)..] == FlagsOf(items[1..]);
      assert items == [item] + items[1..];
    }
  }

  // ---------------------------------------------------------------------------
  // Parsing.

  /** xtables_parse_port: a number, or a service name. */
  function ParsePort(s: string, services: map<string, Port>): Result<Port> {
    var t := SkipSpace(s);
    var scan := Strtoul(s);
    if (t == "" || t[0] != '-') && scan.Number? && scan.value <= 0xFFFF && scan.rest == "" then Ok(scan.value)
    else if s in services then Ok(services[s])
    else Err(BadPort)
  }

  function IndexOf(s: string, c: char): (k: nat)
    ensures k <= |s| && (k < |s| ==> s[k] == c)
    ensures forall j :: 0 <= j < k ==> s[j] != c
  {
    if s == "" || s[0] == c then 0 else 1 + IndexOf(s[1..], c)
  }

  /** One item of the list, when `used` slots are taken. */
  function ParseItem(s: string, used: nat, services: map<string, Port>): (r: Result<Item>)
    requires used < MULTI_PORTS
    ensures r.Ok? ==> ValidItem(r.value) && used + Width(r.value) <= MULTI_PORTS
  {
    var c := IndexOf(s, ':');
    if c == |s| then
      var p := ParsePort(s, services);
      if p.Err? then Err(p.error) else Ok(One(p.value))
    else if used == MULTI_PORTS - 1 then Err(TooMany)
    else
      var low, high := ParsePort(s[..c], services), ParsePort(s[c + 1..], services);
      if low.Err? then Err(low.error)
      else if high.Err? then Err(high.error)
      else if low.value >= high.value then Err(BadRange)
      else Ok(Span(low.value, high.value))
  }

  /** The items of the text not yet read, when `used` slots are taken. */
  function ParseFrom(s: string, used: nat, services: map<string, Port>): Result<seq<Item>>
    decreases |s|
  {
    if used >= MULTI_PORTS then Err(TooMany)
    else
      var k := IndexOf(s, ',');
      var item := ParseItem(s[..k], used, services);
      if item.Err? then Err(item.error)
      else if k == |s| then Ok([item.value])
      else
        var rest := ParseFrom(s[k + 1..], used + Width(item.value), services);
        if rest.Err? then rest else Ok([item.value] + rest.value)
  }

  class MultiInfo {
    const ports: array<Port>
    const pflags: array<bool>
    var count: nat

    constructor ()
      ensures Valid() && fresh(ports) && fresh(pflags)
    {
      ports, pflags := new Port[MULTI_PORTS](_ => 0), new bool[MULTI_PORTS](_ => false);
      count := 0;
    }

    ghost predicate Valid()
      reads this
    {
      ports.Length == pflags.Length == MULTI_PORTS && count <= MULTI_PORTS
    }

    /** The first `i` slots hold these items, and no flag is set after them. */
    ghost predicate Holds(items: seq<Item>, i: nat)
      reads ports, pflags
    {
      && ports.Length == pflags.Length == MULTI_PORTS && i <= MULTI_PORTS
      && ports[..i] == PortsOf(items) && pflags[..i] == FlagsOf(items)
      && forall k :: i <= k < MULTI_PORTS ==> !pflags[k]
    }

    /** Clears all the flags. */
    method Clear()
      requires Valid()
      modifies pflags
      ensures Holds([], 0)
    {
      var k := 0;
      while k < MULTI_PORTS
        invariant k <= MULTI_PORTS && forall j :: 0 <= j < k ==> !pflags[j]
      {
        pflags[k] := false;
        k := k + 1;
      }
    }

    /** parse_multi_ports_v1 */
    method Parse(portstring: string, services: map<string, Port>) returns (r: Result<()>)
      requires Valid()
      modifies this, ports, pflags
      ensures Valid()
      ensures var parsed := ParseFrom(portstring, 0, services);
        if parsed.Err? then r == Err(parsed.error) else r == Ok(()) && Holds(parsed.value, count)
    {
      Clear();
      var i: nat, cp, more := 0, portstring, true;
      ghost var items: seq<Item>, parsed := [], ParseFrom(portstring, 0, services);
      StartContinues(parsed);
      hide Holds, ParseItem, IndexOf, ParsePort, PortsOf, FlagsOf, ParseFrom, Continues;
      while more && i < MULTI_PORTS
        invariant Holds(items, i) && i <= MULTI_PORTS && count <= MULTI_PORTS
        invariant more ==> Continues(items, ParseFrom(cp, i, services), parsed)
        invariant !more ==> parsed == Ok(items)
        decreases more, |cp|
      {
        var error;
        error, i, cp, more, items := ParseOne(i, cp, services, items, parsed);
        if error.Some? {
          return Err(error.value);
        }
      }
      count := i;
      if more {
        ParseFull(cp, i, services, items, parsed);
      }
      r := if more then Err(TooMany) else Ok(());
    }

    /** The text up to the next comma. */
    method ParseOne(i: nat, cp: string, services: map<string, Port>, ghost items: seq<Item>, ghost parsed: Result<seq<Item>>)
      returns (error: Option<Error>, next: nat, rest: string, more: bool, ghost read: seq<Item>)
      requires Holds(items, i) && i < MULTI_PORTS && Continues(items, ParseFrom(cp, i, services), parsed)
      modifies ports, pflags
      ensures error.Some? ==> parsed == Err(error.value)
      ensures error.None? ==> next <= MULTI_PORTS && Holds(read, next) && |rest| <= |cp|
      ensures error.None? && more ==> |rest| < |cp| && Continues(read, ParseFrom(rest, next, services), parsed)
      ensures error.None? && !more ==> parsed == Ok(read)
    {
      hide Holds, ParseItem, ParsePort, PortsOf, FlagsOf, ParseFrom, Continues;
      error, next, rest, more, read := None, i, cp, false, items;
      var comma := IndexOf(cp, ',');
      var item := ParseItem(cp[..comma], i, services);
      ParseStep(cp, i, services, items, parsed);
      hide IndexOf;
      if item.Err? {
        error := Some(item.error);
        return;
      }
      next := StoreItem(i, item.value, items);
      read := items + [item.value];
      if comma < |cp| {
        rest, more := cp[comma + 1..], true;
      }
    }

    /** A port takes one slot; a range takes two, the first one flagged. */
    method StoreItem(i: nat, item: Item, ghost items: seq<Item>) returns (next: nat)
      requires Holds(items, i) && i + Width(item) <= MULTI_PORTS
      modifies ports, pflags
      ensures next == i + Width(item) && Holds(items + [item], next)
    {
      PackAppend(items, [item]);
      PackOne(item);
      hide PortsOf, FlagsOf;
      match item
      case One(p) =>
        ports[i] := p;
        next := i + 1;
        assert ports[..next] == ports[..i] + [p] && pflags[..next] == pflags[..i] + [false];
      case Span(low, high) =>
        ports[i] := low;
        pflags[i] := true;
        ports[i + 1] := high;
        next := i + 2;
        assert ports[..next] == ports[..i] + [low, high] && pflags[..next] == pflags[..i] + [true, false];
    }

    /** The list part of __multiport_save_v1. */
    method Save(ghost items: seq<Item>) returns (out: string)
      requires Valid() && Holds(items, count)
      ensures out == ListText(items)
    {
      out := "";
      var i: nat := 0;
      ghost var left := items;
      assert ports[i..count] == ports[..count] && pflags[i..count] == pflags[..count];
      hide PortsOf, FlagsOf, ListText, TailText;
      assert out + TailText(left, true) == ListText(items) by {
        StartText(items);
      }
      while i < count
        invariant Left(i, left) && out + TailText(left, i == 0) == ListText(items)
        decreases count - i
      {
        out, i, left := SaveOne(out, i, left, items);
      }
      AllRead(left);
      NoTail(i == 0);
      assert out + "" == out;
    }

    /** From slot `i` on, these items are left. */
    ghost predicate Left(i: nat, left: seq<Item>)
      reads this, ports, pflags
    {
      Valid() && i <= count && ports[i..count] == PortsOf(left) && pflags[i..count] == FlagsOf(left)
    }

    /** The next item, after a comma unless it is the first. */
    method SaveOne(out: string, i: nat, ghost left: seq<Item>, ghost items: seq<Item>)
      returns (out': string, next: nat, ghost left': seq<Item>)
      requires Left(i, left) && i < count && out + TailText(left, i == 0) == ListText(items)
      ensures i < next && Left(next, left') && out' + TailText(left', false) == ListText(items)
    {
      hide PortsOf, FlagsOf, ListText, TailText, ItemText, Slots, Marks;
      NextItem(left);
      NextText(left, i == 0);
      left' := left[1..];
      ghost var p, f := ports[i..count], pflags[i..count];
      var text;
      text, next := SaveItem(i, left[0]);
      var sep := if i != 0 then "," else "";
      assert ports[next..count] == p[next - i..] && pflags[next..count] == f[next - i..];
      ghost var tail := TailText(left', false);
      assert out + ((sep + text) + tail) == (out + (sep + text)) + tail;
      out' := out + (sep + text);
    }

    /** One port or range. */
    method SaveItem(i: nat, ghost item: Item) returns (text: string, next: nat)
      requires Valid() && i < count && i + Width(item) <= count
      requires ports[i..count][..Width(item)] == Slots(item) && pflags[i..count][..Width(item)] == Marks(item)
      ensures text == ItemText(item) && next == i + Width(item)
    {
      hide Print, ValueOf;
      ghost var w := Width(item);
      assert ports[i] == ports[i..count][..w][0] && pflags[i] == pflags[i..count][..w][0];
      assert item.Span? ==> ports[i + 1] == ports[i..count][..w][1];
      text, next := Print(ports[i], 10), i;
      if pflags[i] {
        next := next + 1;
        text := text + (":" + Print(ports[next], 10));
      }
      next := next + 1;
    }
  }

  /** `rest` is what remains of the result `all` after these items. */
  ghost predicate Continues(items: seq<Item>, rest: Result<seq<Item>>, all: Result<seq<Item>>) {
    if rest.Err? then all == rest else all == Ok(items + rest.value)
  }

  lemma StartContinues(all: Result<seq<Item>>)
    ensures Continues([], all, all)
  {
    if all.Ok? {
      assert [] + all.value == all.value;
    }
  }

  /** One item read. */
  lemma ParseStep(s: string, used: nat, services: map<string, Port>, items: seq<Item>, all: Result<seq<Item>>)
    requires used < MULTI_PORTS && Continues(items, ParseFrom(s, used, services), all)
    ensures var k := IndexOf(s, ',');
      var item := ParseItem(s[..k], used, services);
      if item.Err? then all == Err(item.error)
      else if k == |s| then all == Ok(items + [item.value])
      else Continues(items + [item.value], ParseFrom(s[k + 1..], used + Width(item.value), services), all)
  {
    hide ParseItem, IndexOf, ParsePort;
    var k := IndexOf(s, ',');
    var item := ParseItem(s[..k], used, services);
    if item.Ok? && k < |s| {
      var after := ParseFrom(s[k + 1..], used + Width(item.value), services);
      if after.Ok? {
        assert items + ([item.value] + after.value) == (items + [item.value]) + after.value;
      }
    }
  }

  lemma ParseFull(s: string, used: nat, services: map<string, Port>, items: seq<Item>, all: Result<seq<Item>>)
    requires used >= MULTI_PORTS && Continues(items, ParseFrom(s, used, services), all)
    ensures all == Err(TooMany)
  {
  }

  // ---------------------------------------------------------------------------
  // The saved text.

  function ItemText(item: Item): string {
    match item
    case One(p) => Print(p, 10)
    case Span(low, high) => Print(low, 10) + (":" + Print(high, 10))
  }

  function ListText(items: seq<Item>): string {
    if items == [] then ""
    else if |items| == 1 then ItemText(items[0])
    else ItemText(items[0]) + ("," + ListText(items[1..]))
  }

  /** The list with a comma before each item but a first one. */
  function TailText(items: seq<Item>, first: bool): string {
    if items == [] then "" else if first then ListText(items) else "," + ListText(items)
  }

  lemma NoTail(first: bool)
    ensures TailText([], first) == ""
  {
  }

  lemma StartText(items: seq<Item>)
    ensures "" + TailText(items, true) == ListText(items)
  {
    hide ItemText;
    assert "" + ListText(items) == ListText(items);
    if items == [] {
      assert ListText(items) == "";
    }
  }

  /** The slots of the next item. */
  lemma NextItem(left: seq<Item>)
    requires PortsOf(left) != []
    ensures left != [] && |PortsOf(left)| >= Width(left[0])
    ensures PortsOf(left)[..Width(left[0])] == Slots(left[0]) && FlagsOf(left)[..Width(left[0])] == Marks(left[0])
    ensures PortsOf(left)[Width(left[0])..] == PortsOf(left[1..])
    ensures FlagsOf(left)[Width(left[0])..] == FlagsOf(left[1..])
  {
  }

  lemma NextText(left: seq<Item>, first: bool)
    requires left != []
    ensures TailText(left, first) == ((if first then "" else ",") + ItemText(left[0])) + TailText(left[1..], false)
  {
    hide ItemText;
    var t := ItemText(left[0]);
    if |left| == 1 {
      assert t + "" == t;
      assert "" + t == t;
    } else {
      var more := "," + ListText(left[1..]);
      assert "" + t == t;
      assert ("," + t) + more == "," + (t + more);
    }
  }

  lemma AllRead(left: seq<Item>)
    requires PortsOf(left) == []
    ensures left == []
  {
  }

  // ---------------------------------------------------------------------------
  // What is accepted, and the round trip.

  /** Every accepted list is made of single ports and increasing ranges and fits the arrays. */
  lemma {:induction false} AcceptedValid(s: string, used: nat, services: map<string, Port>)
    requires ParseFrom(s, used, services).Ok?
    ensures var items := ParseFrom(s, used, services).value;
      items != [] && ValidItems(items) && used + |PortsOf(items)| <= MULTI_PORTS
    decreases |s|
  {
    hide ParseItem, PortsOf, ValidItems, ValidItem, Width;
    var k := IndexOf(s, ',');
    var item := ParseItem(s[..k], used, services).value;
    hide IndexOf;
    if k == |s| {
      ConsValid(item, []);
      NoPorts();
      assert [item] + [] == [item];
    } else {
      AcceptedValid(s[k + 1..], used + Width(item), services);
      ConsValid(item, ParseFrom(s[k + 1..], used + Width(item), services).value);
    }
  }

  lemma NoPorts()
    ensures PortsOf([]) == [] && ValidItems([])
  {
  }

  lemma ConsValid(item: Item, rest: seq<Item>)
    ensures ValidItems([item] + rest) <==> ValidItem(item) && ValidItems(rest)
    ensures |PortsOf([item] + rest)| == Width(item) + |PortsOf(rest)|
  {
    hide ValidItem, Width, Slots;
    var all := [item] + rest;
    assert all[0] == item && all[1..] == rest;
    if ValidItems(all) {
      assert forall k :: 0 <= k < |rest| ==> rest[k] == all[k + 1];
    }
  }

  lemma DigitsNumeral(p: Port)
    ensures Numeral("", "", "", Print(p, 10)).Valid() && Numeral("", "", "", Print(p, 10)).Value() == p
  {
    var digits := Print(p, 10);
    if p == 0 {
      assert digits == "0" && "0"[..0] == "";
      assert ValueOf("", 8) == 0;
    }
    hide Print, ValueOf;
  }

  lemma {:induction false} PortReadBack(p: Port, services: map<string, Port>)
    ensures ParsePort(Print(p, 10), services) == Ok(p)
  {
    hide ValueOf, Print, Strtoul;
    var digits := Print(p, 10);
    var n := Numeral("", "", "", digits);
    DigitsNumeral(p);
    assert DigitValue(digits[0]) < 10;
    assert digits + "" == digits;
    assert n.Then("") == digits;
    assert SkipSpace(digits) == digits;
    StrtoulNumeral(n, "");
  }

  lemma DigitsPlain(p: Port)
    ensures forall k :: 0 <= k < |Print(p, 10)| ==> Print(p, 10)[k] != ':' && Print(p, 10)[k] != ','
  {
    hide Print, ValueOf;
    var s := Print(p, 10);
    assert forall k :: 0 <= k < |s| ==> DigitValue(s[k]) < 10;
  }

  lemma {:induction false} IndexIs(s: string, c: char, k: nat)
    requires k <= |s| && (k < |s| ==> s[k] == c) && forall j :: 0 <= j < k ==> s[j] != c
    ensures IndexOf(s, c) == k
  {
    if k > 0 {
      IndexIs(s[1..], c, k - 1);
    }
  }

  lemma ItemReadBack(item: Item, used: nat, services: map<string, Port>)
    requires ValidItem(item) && used + Width(item) <= MULTI_PORTS
    ensures ParseItem(ItemText(item), used, services) == Ok(item)
    ensures forall k :: 0 <= k < |ItemText(item)| ==> ItemText(item)[k] != ','
  {
    hide Print, ParsePort, IndexOf, ValueOf;
    var s := ItemText(item);
    match item
    case One(p) =>
      DigitsPlain(p);
      PortReadBack(p, services);
      IndexIs(s, ':', |s|);
    case Span(low, high) =>
      DigitsPlain(low);
      DigitsPlain(high);
      PortReadBack(low, services);
      PortReadBack(high, services);
      var a, b := Print(low, 10), Print(high, 10);
      IndexIs(s, ':', |a|);
      assert s[..|a|] == a && s[|a| + 1..] == b;
  }

  lemma FirstAndRest(items: seq<Item>, used: nat)
    requires items != [] && ValidItems(items) && used + |PortsOf(items)| <= MULTI_PORTS
    ensures ValidItem(items[0]) && ValidItems(items[1..])
    ensures used + Width(items[0]) + |PortsOf(items[1..])| <= MULTI_PORTS
    ensures |items| > 1 ==> used + Width(items[0]) < MULTI_PORTS && |PortsOf(items[1..])| > 0
  {
  }

  lemma LastText(items: seq<Item>)
    requires items != []
    ensures ListText(items) == if |items| == 1 then ItemText(items[0]) else ItemText(items[0]) + ("," + ListText(items[1..]))
  {
    hide ItemText;
  }

  /** How an item and a comma are read. */
  lemma ReadFirst(item: Item, tail: string, used: nat, services: map<string, Port>)
    requires ValidItem(item) && used + Width(item) <= MULTI_PORTS
    ensures ParseFrom(ItemText(item), used, services) == Ok([item])
    ensures var rest := ParseFrom(tail, used + Width(item), services);
      rest.Ok? ==> ParseFrom(ItemText(item) + ("," + tail), used, services) == Ok([item] + rest.value)
  {
    hide ParseItem, ItemText, IndexOf, Print, ValueOf, ParsePort;
    var text := ItemText(item);
    var s := text + ("," + tail);
    ItemReadBack(item, used, services);
    IndexIs(text, ',', |text|);
    IndexIs(s, ',', |text|);
    assert text[..|text|] == text;
    assert s[..|text|] == text && s[|text| + 1..] == tail;
  }

  /** Parsing the saved text reproduces the list, and with it count, ports and flags. */
  lemma {:induction false} SaveReadBack(items: seq<Item>, used: nat, services: map<string, Port>)
    requires items != [] && ValidItems(items) && used + |PortsOf(items)| <= MULTI_PORTS
    ensures ParseFrom(ListText(items), used, services) == Ok(items)
  {
    hide ParseFrom, ItemText, PortsOf, ValidItems;
    var item := items[0];
    FirstAndRest(items, used);
    hide ValidItem, Width;
    ReadFirst(item, if |items| == 1 then "" else ListText(items[1..]), used, services);
    LastText(items);
    hide ListText;
    if |items| == 1 {
      assert items == [item];
    } else {
      SaveReadBack(items[1..], used + Width(item), services);
      assert items == [item] + items[1..];
    }
  }

  /** An accepted list, packed, is read back from its arrays and from its saved text. */
  lemma AcceptedReadBack(portstring: string, services: map<string, Port>)
    requires ParseFrom(portstring, 0, services).Ok?
    ensures var items := ParseFrom(portstring, 0, services).value;
      && Unpack(PortsOf(items), FlagsOf(items)) == Ok(items)
      && ParseFrom(ListText(items), 0, services) == Ok(items)
  {
    hide ParseFrom;
    var items := ParseFrom(portstring, 0, services).value;
    AcceptedValid(portstring, 0, services);
    UnpackPacked(items);
    SaveReadBack(items, 0, services);
  }

  /** A word that cannot be a number is looked up among the services. */
  lemma ServiceNameRead(name: string, services: map<string, Port>)
    requires name != "" && !IsSpace(name[0]) && DigitValue(name[0]) >= 10 && name[0] != '+' && name[0] != '-'
    ensures ParsePort(name, services) == if name in services then Ok(services[name]) else Err(BadPort)
  {
    hide ValueOf;
    assert SkipSpace(name) == name;
    assert !HasHexPrefix(name) && DigitRun(name, Base(name)) == "";
  }

  /** A list of words with commas between. */
  function Joined(words: seq<string>): string {
    if words == [] then "" else if |words| == 1 then words[0] else words[0] + ("," + Joined(words[1..]))
  }

  function Ones(words: seq<string>, services: map<string, Port>): seq<Item>
    requires forall k :: 0 <= k < |words| ==> ParsePort(words[k], services).Ok?
  {
    if words == [] then [] else [One(ParsePort(words[0], services).value)] + Ones(words[1..], services)
  }

  /** One word, alone or before a comma. */
  lemma WordFirst(word: string, tail: string, used: nat, services: map<string, Port>)
    requires ',' !in word && ':' !in word && ParsePort(word, services).Ok? && used < MULTI_PORTS
    ensures var item := One(ParsePort(word, services).value);
      && ParseFrom(word, used, services) == Ok([item])
      && (var rest := ParseFrom(tail, used + 1, services);
          ParseFrom(word + ("," + tail), used, services) == if rest.Err? then rest else Ok([item] + rest.value))
  {
    hide ParsePort, IndexOf;
    var s := word + ("," + tail);
    assert forall j :: 0 <= j < |word| ==> word[j] != ',' && word[j] != ':';
    IndexIs(word, ':', |word|);
    IndexIs(word, ',', |word|);
    IndexIs(s, ',', |word|);
    assert word[..|word|] == word && s[..|word|] == word && s[|word| + 1..] == tail;
    var item := ParseItem(word, used, services);
    assert item == Ok(One(ParsePort(word, services).value));
    hide ParseItem;
  }

  lemma TooManyUsed(s: string, services: map<string, Port>)
    ensures ParseFrom(s, MULTI_PORTS, services) == Err(TooMany)
  {
  }

  /** Such a list of port numbers and service names is read word by word, up to the number of slots. */
  lemma {:induction false} WordsRead(words: seq<string>, used: nat, services: map<string, Port>)
    requires words != [] && used <= MULTI_PORTS
    requires forall k :: 0 <= k < |words| ==> ',' !in words[k] && ':' !in words[k] && ParsePort(words[k], services).Ok?
    ensures ParseFrom(Joined(words), used, services)
      == if used + |words| <= MULTI_PORTS then Ok(Ones(words, services)) else Err(TooMany)
    decreases |words|
  {
    hide ParsePort, ParseFrom;
    if used == MULTI_PORTS {
      TooManyUsed(Joined(words), services);
    } else if |words| == 1 {
      WordFirst(words[0], "", used, services);
      var one := One(ParsePort(words[0], services).value);
      assert words[1..] == [] && [one] + [] == [one];
      assert Ones(words, services) == [one] + Ones(words[1..], services);
    } else {
      WordsRead(words[1..], used + 1, services);
      WordFirst(words[0], Joined(words[1..]), used, services);
    }
  }
}
