/** grep's streaming context engine: one pass over a file with a circular buffer of
    "before" lines, an "after" countdown and a memory of the last line printed.
    The pass is proved equal to a declarative list of wanted lines. */
module GrepContext {

  import opened Common

  /** One line of output, without the optional file name and line number prefixes. */
  datatype Item = Item(num: int, decoration: char, text: string)

  datatype Out = Separator | Line(item: Item) | Tally(count: int)

  // ---------------------------------------------------------------------------
  // What should be printed. `sel[i]` says whether line `i` is selected.

  ghost predicate AfterSelected(sel: seq<bool>, after: int, i: int)
    requires 0 <= i < |sel|
  {
    exists j :: 0 <= j < i && sel[j] && (after < 0 || i - j <= after)
  }

  ghost predicate BeforeSelected(sel: seq<bool>, before: nat, i: int)
    requires 0 <= i < |sel|
  {
    exists j :: i < j < |sel| && sel[j] && j - i <= before
  }

  /** A line is wanted when it is selected or in the context of a selected line. A negative
      after-count never runs out. */
  ghost predicate Wanted(sel: seq<bool>, after: int, before: nat, i: int)
    requires 0 <= i < |sel|
  {
    sel[i] || AfterSelected(sel, after, i) || BeforeSelected(sel, before, i)
  }

  function ItemFor(lines: seq<string>, sel: seq<bool>, i: int): Item
    requires |lines| >= |sel| && 0 <= i < |sel|
  {
    Item(i + 1, if sel[i] then ':' else '-', lines[i])
  }

  /** The wanted lines among the first `upto`, in order. */
  ghost function Listing(lines: seq<string>, sel: seq<bool>, after: int, before: nat, upto: nat): seq<Item>
    requires |lines| >= |sel| >= upto
  {
    if upto == 0 then [] else
      Listing(lines, sel, after, before, upto - 1)
      + if Wanted(sel, after, before, upto - 1) then [ItemFor(lines, sel, upto - 1)] else []
  }

  /** Lines `lo..hi` as context. */
  function Unselected(lines: seq<string>, lo: nat, hi: nat): seq<Item>
    requires lo <= hi <= |lines|
  {
    if lo == hi then [] else Unselected(lines, lo, hi - 1) + [Item(hi, '-', lines[hi - 1])]
  }

  /** The number of the line printed just before the items follow, if there is one. */
  function Previous(items: seq<Item>, start: Option<int>): Option<int> {
    if items == [] then start else Some(items[|items| - 1].num)
  }

  /** Put "--" between items whose numbers are not adjacent, when context was asked for. */
  function WithSeparators(items: seq<Item>, context: bool, start: Option<int>): seq<Out> {
    if items == [] then [] else
      var front, item := items[..|items| - 1], items[|items| - 1];
      var prev := Previous(front, start);
      WithSeparators(front, context, start)
      + (if context && prev.Some? && prev.value != item.num - 1 then [Separator] else [])
      + [Line(item)]
  }

  ghost function Expected(lines: seq<string>, sel: seq<bool>, after: int, before: nat, start: Option<int>): seq<Out>
    requires |lines| >= |sel|
  {
    WithSeparators(Listing(lines, sel, after, before, |sel|), after != 0 || before != 0, start)
  }

  function Count(sel: seq<bool>): nat {
    if sel == [] then 0 else Count(sel[..|sel| - 1]) + if sel[|sel| - 1] then 1 else 0
  }

  /** How much of the file is left when it is cut just before selected line number `limit + 1`. */
  function CutAt(sel: seq<bool>, limit: Option<int>): (t: nat)
    ensures t <= |sel|
  {
    if sel == [] then 0 else
      var front := sel[..|sel| - 1];
      var t := CutAt(front, limit);
      if t < |front| || (limit.Some? && sel[|sel| - 1] && Count(front) >= limit.value) then t else |sel|
  }

  // ---------------------------------------------------------------------------
  // Where the pass stands after `|sel|` lines.

  /** The last selected line, or -1. */
  function LastSelected(sel: seq<bool>): (j: int)
    ensures -1 <= j < |sel|
    ensures j >= 0 ==> sel[j]
    ensures forall i :: j < i < |sel| ==> !sel[i]
  {
    if sel == [] then -1
    else if sel[|sel| - 1] then |sel| - 1
    else LastSelected(sel[..|sel| - 1])
  }

  /** Lines of after-context still owed. */
  function AfterLeft(sel: seq<bool>, after: int): int {
    var j := LastSelected(sel);
    if j == -1 then 0
    else if after < 0 then after - (|sel| - 1 - j)
    else if after <= |sel| - 1 - j then 0
    else after - (|sel| - 1 - j)
  }

  /** The first line after the last one printed. */
  function FirstUnprinted(sel: seq<bool>, after: int): (f: nat)
    ensures f <= |sel|
  {
    var j := LastSelected(sel);
    if j == -1 then 0
    else if after < 0 || after >= |sel| - 1 - j then |sel|
    else j + 1 + after
  }

  /** The first line kept in the buffer. */
  function RunStart(sel: seq<bool>, after: int, before: nat): (r: nat)
    ensures r <= |sel|
  {
    if FirstUnprinted(sel, after) < |sel| - before then |sel| - before else FirstUnprinted(sel, after)
  }

  /** The slot of the line read `d` lines ago. */
  function Slot(curpos: nat, d: nat, size: nat): int {
    if d <= curpos then curpos - d else curpos - d + size
  }

  /** Step around the buffer. */
  function Advance(i: nat, size: nat): (next: nat)
    requires i < size
    ensures next == if i + 1 == size then 0 else i + 1
  {
    (i + 1) % size
  }

  /** The buffer invariant: the filled slots are one circular run that ends just before
      `curpos` and holds the immediately preceding unprinted lines. */
  ghost predicate HoldsRun(buf: seq<Option<string>>, curpos: nat, lines: seq<string>, sel: seq<bool>, after: int)
    requires |lines| >= |sel|
  {
    && (|buf| == 0 || curpos < |buf|)
    && forall d :: 1 <= d <= |buf| ==>
        0 <= Slot(curpos, d, |buf|) < |buf|
        && buf[Slot(curpos, d, |buf|)] ==
           if |sel| - d >= RunStart(sel, after, |buf|) then Some(lines[|sel| - d]) else None
  }

  // ---------------------------------------------------------------------------
  // What the expected output means.

  ghost predicate Faithful(lines: seq<string>, sel: seq<bool>, after: int, before: nat, upto: nat, item: Item)
    requires |lines| >= |sel| >= upto
  {
    1 <= item.num <= upto && Wanted(sel, after, before, item.num - 1) && item == ItemFor(lines, sel, item.num - 1)
  }

  ghost predicate FaithfulList(lines: seq<string>, sel: seq<bool>, after: int, before: nat, upto: nat, items: seq<Item>)
    requires |lines| >= |sel| >= upto
  {
    && (forall p :: 0 <= p < |items| ==> Faithful(lines, sel, after, before, upto, items[p]))
    && (forall p, q :: 0 <= p < q < |items| ==> items[p].num < items[q].num)
  }

  lemma FaithfulSnoc(lines: seq<string>, sel: seq<bool>, after: int, before: nat, upto: nat, front: seq<Item>)
    requires |lines| >= |sel| > upto && FaithfulList(lines, sel, after, before, upto, front)
    ensures FaithfulList(lines, sel, after, before, upto + 1, front)
    ensures Wanted(sel, after, before, upto) ==>
      FaithfulList(lines, sel, after, before, upto + 1, front + [ItemFor(lines, sel, upto)])
  {
    forall p | 0 <= p < |front|
      ensures Faithful(lines, sel, after, before, upto + 1, front[p]) && front[p].num <= upto
    {
      assert Faithful(lines, sel, after, before, upto, front[p]);
    }
  }

  lemma {:induction false} ListingSound(lines: seq<string>, sel: seq<bool>, after: int, before: nat, upto: nat)
    requires |lines| >= |sel| >= upto
    ensures FaithfulList(lines, sel, after, before, upto, Listing(lines, sel, after, before, upto))
  {
    if upto > 0 {
      hide FaithfulList, Wanted;
      ListingSound(lines, sel, after, before, upto - 1);
      var front := Listing(lines, sel, after, before, upto - 1);
      FaithfulSnoc(lines, sel, after, before, upto - 1, front);
      assert front + [] == front;
    } else {
      assert FaithfulList(lines, sel, after, before, 0, []);
    }
  }

  lemma {:induction false} ListingComplete(lines: seq<string>, sel: seq<bool>, after: int, before: nat, upto: nat)
    requires |lines| >= |sel| >= upto
    ensures forall i :: 0 <= i < upto && Wanted(sel, after, before, i) ==>
      ItemFor(lines, sel, i) in Listing(lines, sel, after, before, upto)
  {
    if upto > 0 {
      ListingComplete(lines, sel, after, before, upto - 1);
      hide Wanted;
    }
  }

  /** The listing holds each wanted line exactly once, in file order, and nothing else. */
  lemma ListingExact(lines: seq<string>, sel: seq<bool>, after: int, before: nat)
    requires |lines| >= |sel|
    ensures var items := Listing(lines, sel, after, before, |sel|);
      && (forall p, q :: 0 <= p < q < |items| ==> items[p].num < items[q].num)
      && (forall item :: item in items <==> Faithful(lines, sel, after, before, |sel|, item))
  {
    ListingSound(lines, sel, after, before, |sel|);
    ListingComplete(lines, sel, after, before, |sel|);
    forall item | Faithful(lines, sel, after, before, |sel|, item)
      ensures item in Listing(lines, sel, after, before, |sel|)
    {
      assert Wanted(sel, after, before, item.num - 1);
    }
  }

  function LinesOf(out: seq<Out>): seq<Item> {
    if out == [] then [] else
      LinesOf(out[..|out| - 1]) + if out[|out| - 1].Line? then [out[|out| - 1].item] else []
  }

  ghost predicate FitsAt(out: seq<Out>, p: nat)
    requires p < |out|
  {
    match out[p]
    case Separator =>
      && 0 < p < |out| - 1 && out[p - 1].Line? && out[p + 1].Line?
      && out[p + 1].item.num != out[p - 1].item.num + 1
    case Line(item) =>
      p == 0 || out[p - 1] == Separator || (out[p - 1].Line? && item.num == out[p - 1].item.num + 1)
    case Tally(_) => false
  }

  ghost predicate BetweenGaps(out: seq<Out>) {
    forall p: nat :: p < |out| ==> FitsAt(out, p)
  }

  lemma GapStep(out: seq<Out>, item: Item)
    requires BetweenGaps(out) && (out != [] ==> out[|out| - 1].Line?)
    ensures out == [] || item.num == out[|out| - 1].item.num + 1 ==> BetweenGaps(out + [Line(item)])
    ensures out != [] && item.num != out[|out| - 1].item.num + 1 ==> BetweenGaps(out + [Separator] + [Line(item)])
  {
    var joined := out + if out == [] || item.num == out[|out| - 1].item.num + 1 then [] else [Separator];
    forall p: nat | p < |joined| + 1
      ensures FitsAt(joined + [Line(item)], p)
    {
      if p < |out| {
        assert FitsAt(out, p);
      }
    }
    assert out + [] == out;
  }

  lemma LinesStep(out: seq<Out>, item: Item)
    ensures LinesOf(out + [Line(item)]) == LinesOf(out) + [item]
    ensures LinesOf(out + [Separator] + [Line(item)]) == LinesOf(out) + [item]
  {
    assert (out + [Line(item)])[..|out|] == out;
    assert (out + [Separator])[..|out|] == out;
    var o := out + [Separator];
    assert (o + [Line(item)])[..|o|] == o;
  }

  /** `out` shows exactly `items`, with separators exactly between lines that are not adjacent. */
  ghost predicate Separated(out: seq<Out>, items: seq<Item>, context: bool) {
    && LinesOf(out) == items
    && (out == [] <==> items == [])
    && (out != [] ==> out[|out| - 1] == Line(items[|items| - 1]))
    && (context ==> BetweenGaps(out))
    && (!context ==> Separator !in out)
  }

  lemma SeparatedStep(out: seq<Out>, items: seq<Item>, context: bool, item: Item)
    requires Separated(out, items, context)
    ensures var gap := context && items != [] && items[|items| - 1].num != item.num - 1;
      Separated(out + (if gap then [Separator] else []) + [Line(item)], items + [item], context)
  {
    LinesStep(out, item);
    if context {
      GapStep(out, item);
    }
    assert out + [] == out;
    hide BetweenGaps, LinesOf;
  }

  /** Separators stand exactly between consecutive printed lines that are not adjacent in the
      file; without context there are none. */
  lemma {:induction false} SeparatorsExact(items: seq<Item>, context: bool)
    ensures Separated(WithSeparators(items, context, None), items, context)
  {
    if items != [] {
      hide Separated;
      var front, item := items[..|items| - 1], items[|items| - 1];
      SeparatorsExact(front, context);
      SeparatedStep(WithSeparators(front, context, None), front, context, item);
      assert items == front + [item];
    }
  }

  // ---------------------------------------------------------------------------
  // How the listing grows with the file.

  lemma {:induction false} ListingAgrees(lines: seq<string>, s: seq<bool>, t: seq<bool>, after: int, before: nat, upto: nat)
    requires |lines| >= |s| >= upto && |lines| >= |t| >= upto
    requires forall i :: 0 <= i < upto ==> s[i] == t[i]
    requires forall i :: 0 <= i < upto ==> Wanted(s, after, before, i) == Wanted(t, after, before, i)
    ensures Listing(lines, s, after, before, upto) == Listing(lines, t, after, before, upto)
  {
    if upto > 0 {
      ListingAgrees(lines, s, t, after, before, upto - 1);
    }
  }

  lemma {:induction false} ListingSkips(lines: seq<string>, s: seq<bool>, after: int, before: nat, lo: nat, hi: nat)
    requires |lines| >= |s| >= hi >= lo
    requires forall i :: lo <= i < hi ==> !Wanted(s, after, before, i)
    ensures Listing(lines, s, after, before, hi) == Listing(lines, s, after, before, lo)
  {
    if lo < hi {
      ListingSkips(lines, s, after, before, lo, hi - 1);
    }
  }

  /** Lines before the first unprinted one are settled: reading more never changes them;
      lines from there on are not wanted yet. */
  lemma {:induction false} WantedSettled(s: seq<bool>, t: seq<bool>, after: int, before: nat, i: nat)
    requires s <= t && i < |s|
    ensures i < FirstUnprinted(s, after) ==> Wanted(s, after, before, i) == Wanted(t, after, before, i)
    ensures i >= FirstUnprinted(s, after) ==> !Wanted(s, after, before, i)
  {
    var j := LastSelected(s);
    if j >= 0 && i <= j {
      assert s[j] && t[j];
      if BeforeSelected(t, before, i) && !s[i] {
        var m :| i < m < |t| && t[m] && m - i <= before;
        assert BeforeSelected(s, before, i) by {
          assert i < (if m < |s| then m else j) < |s|;
        }
      }
      if AfterSelected(t, after, i) {
        var m :| 0 <= m < i && t[m] && (after < 0 || i - m <= after);
        assert s[m];
      }
      if BeforeSelected(s, before, i) {
        var m :| i < m < |s| && s[m] && m - i <= before;
        assert t[m];
      }
      if AfterSelected(s, after, i) {
        var m :| 0 <= m < i && s[m] && (after < 0 || i - m <= after);
        assert t[m];
      }
    } else if j >= 0 && i < FirstUnprinted(s, after) {
      assert s[j] && t[j];
      assert AfterSelected(s, after, i);
      assert AfterSelected(t, after, i);
    }
  }

  /** Reading on without printing anything leaves the listing as it was. */
  lemma ListingStable(lines: seq<string>, s: seq<bool>, t: seq<bool>, after: int, before: nat)
    requires s <= t && |lines| >= |t|
    ensures Listing(lines, s, after, before, |s|) == Listing(lines, t, after, before, FirstUnprinted(s, after))
  {
    var f := FirstUnprinted(s, after);
    forall i | 0 <= i < |s|
      ensures i < f ==> Wanted(s, after, before, i) == Wanted(t, after, before, i)
      ensures i >= f ==> !Wanted(s, after, before, i)
    {
      WantedSettled(s, t, after, before, i);
    }
    ListingSkips(lines, s, after, before, f, |s|);
    ListingAgrees(lines, s, t, after, before, f);
  }

  /** Nothing is wanted between the last line printed and a later cut with no selected line. */
  lemma {:induction false} ListingAtCut(lines: seq<string>, s: seq<bool>, t: seq<bool>, after: int, before: nat)
    requires s <= t && |lines| >= |t|
    requires AfterLeft(s, after) == 0
    requires forall i :: |s| <= i < |t| ==> !t[i]
    ensures Listing(lines, s, after, before, |s|) == Listing(lines, t, after, before, |t|)
  {
    ListingStable(lines, s, t, after, before);
    var f := FirstUnprinted(s, after);
    var j := LastSelected(s);
    forall i | f <= i < |t|
      ensures !Wanted(t, after, before, i)
    {
      assert forall m :: j < m < |t| ==> !t[m];
    }
    ListingSkips(lines, t, after, before, f, |t|);
  }

  /** Reading a line that is neither selected nor owed leaves the place where printing stopped. */
  lemma UnwantedLine(s: seq<bool>, after: int)
    requires AfterLeft(s, after) == 0
    ensures LastSelected(s + [false]) == LastSelected(s)
    ensures FirstUnprinted(s + [false], after) == FirstUnprinted(s, after)
    ensures AfterLeft(s + [false], after) == 0
  {
    assert (s + [false])[..|s|] == s;
  }

  /** Reading a line of after-context prints it and pays one line of the debt. */
  lemma OwedLine(lines: seq<string>, s: seq<bool>, after: int, before: nat)
    requires AfterLeft(s, after) != 0 && |lines| > |s|
    ensures AfterLeft(s + [false], after) == AfterLeft(s, after) - 1
    ensures FirstUnprinted(s, after) == |s| && FirstUnprinted(s + [false], after) == |s| + 1
    ensures Listing(lines, s + [false], after, before, |s| + 1)
         == Listing(lines, s, after, before, |s|) + [Item(|s| + 1, '-', lines[|s|])]
  {
    var t := s + [false];
    assert t[..|s|] == s;
    var j := LastSelected(s);
    assert t[j] && 0 <= j < |s|;
    assert AfterSelected(t, after, |s|);
    ListingStable(lines, s, t, after, before);
  }

  /** Reading a selected line: the listing grows by the buffered run and the line itself. */
  lemma SelectedLine(lines: seq<string>, s: seq<bool>, after: int, before: nat)
    requires |lines| > |s|
    ensures var t := s + [true];
      && LastSelected(t) == |s| && AfterLeft(t, after) == after && FirstUnprinted(t, after) == |t|
      && Listing(lines, t, after, before, |t|)
         == Listing(lines, s, after, before, |s|) + Unselected(lines, RunStart(s, after, before), |s|)
            + [Item(|t|, ':', lines[|s|])]
  {
    var t := s + [true];
    var r, f := RunStart(s, after, before), FirstUnprinted(s, after);
    forall i | 0 <= i < |s|
      ensures f <= i < r ==> !Wanted(t, after, before, i)
      ensures r <= i ==> Wanted(t, after, before, i) && !t[i]
    {
      WantedSettled(s, t, after, before, i);
      if r <= i {
        assert t[|s|] && i < |s| && |s| - i <= before;
        assert BeforeSelected(t, before, i);
      } else {
        assert f <= i && AfterSelected(t, after, i) ==> AfterSelected(s, after, i);
      }
    }
    ListingStable(lines, s, t, after, before);
    ListingSkips(lines, t, after, before, f, r);
    ListingRun(lines, t, after, before, r, |s|);
    assert Wanted(t, after, before, |s|);
  }

  lemma {:induction false} ListingRun(lines: seq<string>, t: seq<bool>, after: int, before: nat, lo: nat, hi: nat)
    requires |lines| >= |t| >= hi >= lo
    requires forall i :: lo <= i < hi ==> Wanted(t, after, before, i) && !t[i]
    ensures Listing(lines, t, after, before, hi) == Listing(lines, t, after, before, lo) + Unselected(lines, lo, hi)
  {
    if lo < hi {
      ListingRun(lines, t, after, before, lo, hi - 1);
    }
  }

  lemma {:induction false} CutAtMeaning(sel: seq<bool>, limit: Option<int>)
    ensures limit.None? ==> CutAt(sel, limit) == |sel|
    ensures limit.Some? ==>
      var t, m := CutAt(sel, limit), if limit.value < 0 then 0 else limit.value;
      Count(sel[..t]) <= m && (t < |sel| ==> sel[t] && Count(sel[..t]) == m)
  {
    if sel != [] {
      var front := sel[..|sel| - 1];
      CutAtMeaning(front, limit);
      var t := CutAt(front, limit);
      assert front[..t] == sel[..t];
      assert front[..|front|] == front && sel[..|sel|] == sel;
    } else {
      assert sel[..0] == [];
    }
  }

  /** A cut found in a prefix stays; a prefix that is not cut lies before the cut. */
  lemma {:induction false} CutAtPrefix(sel: seq<bool>, k: nat, limit: Option<int>)
    requires k <= |sel|
    ensures CutAt(sel[..k], limit) < k ==> CutAt(sel, limit) == CutAt(sel[..k], limit)
    ensures CutAt(sel[..k], limit) == k ==> CutAt(sel, limit) >= k
    ensures CutAt(sel[..k], limit) == k && limit.Some? && Count(sel[..k]) >= limit.value ==>
      forall i :: k <= i < CutAt(sel, limit) ==> !sel[i]
  {
    if k < |sel| {
      var front := sel[..|sel| - 1];
      CutAtPrefix(front, k, limit);
      assert front[..k] == sel[..k];
      CountPrefix(front, k);
    } else {
      assert sel[..k] == sel;
    }
  }

  lemma {:induction false} CountPrefix(sel: seq<bool>, k: nat)
    requires k <= |sel|
    ensures Count(sel[..k]) <= Count(sel)
  {
    if k < |sel| {
      CountPrefix(sel[..|sel| - 1], k);
      assert sel[..|sel| - 1][..k] == sel[..k];
    } else {
      assert sel[..k] == sel;
    }
  }

  /** What one more line does to the count of selected lines and to the cut. */
  lemma ReadOne(sel: seq<bool>, k: nat, limit: Option<int>)
    requires k < |sel|
    ensures Count(sel[..k + 1]) == Count(sel[..k]) + if sel[k] then 1 else 0
    ensures Count(sel[..k + 1]) <= Count(sel)
    ensures CutAt(sel[..k], limit) == k ==>
      CutAt(sel[..k + 1], limit) == if limit.Some? && sel[k] && Count(sel[..k]) >= limit.value then k else k + 1
  {
    assert sel[..k + 1][..k] == sel[..k];
    CountPrefix(sel, k + 1);
  }

  /** Without after-context nothing is ever owed. */
  lemma OwedNothing(sel: seq<bool>, next: bool, after: int)
    ensures after == 0 ==> AfterLeft(sel + [next], after) == 0
  {
  }

  /** What is not owed is not owed later, as long as no line is selected. */
  lemma {:induction false} StillNothing(s: seq<bool>, t: seq<bool>, after: int)
    requires s <= t && AfterLeft(s, after) == 0 && forall i :: |s| <= i < |t| ==> !t[i]
    ensures AfterLeft(t, after) == 0
    decreases |t|
  {
    if s != t {
      assert s <= t[..|t| - 1];
      StillNothing(s, t[..|t| - 1], after);
    }
  }

  lemma NothingExpected(lines: seq<string>, after: int, start: Option<int>)
    ensures Expected(lines, [], after, 0, start) == []
  {
  }

  lemma ReadNone(sel: seq<bool>, limit: Option<int>)
    ensures Count(sel[..0]) == 0 && CutAt(sel[..0], limit) == 0 && forall after :: AfterLeft(sel[..0], after) == 0
  {
  }

  lemma NextSlot(curpos: nat, d: nat, size: nat)
    requires curpos < size && 1 <= d <= size
    ensures 0 <= Slot(curpos, d, size) < size
    ensures Advance(Slot(curpos, d, size), size) == if d == 1 then curpos else Slot(curpos, d - 1, size)
  {
    hide Advance;
  }

  /** The slots up to `d` lines back still hold their lines from `r` on; the others are empty. */
  ghost predicate HoldsLast(buf: seq<Option<string>>, curpos: nat, d: nat, r: nat, lines: seq<string>, k: nat)
    requires k <= |lines|
  {
    && curpos < |buf| && d <= |buf|
    && forall e :: 1 <= e <= |buf| ==>
        0 <= Slot(curpos, e, |buf|) < |buf|
        && buf[Slot(curpos, e, |buf|)] == if e <= d && k - e >= r then Some(lines[k - e]) else None
  }

  lemma ClearedSlot(buf: seq<Option<string>>, curpos: nat, d: nat, r: nat, lines: seq<string>, k: nat)
    requires k <= |lines| && HoldsLast(buf, curpos, d, r, lines, k) && d >= 1
    ensures HoldsLast(buf[Slot(curpos, d, |buf|) := None], curpos, d - 1, r, lines, k)
  {
  }

  lemma EmptiedBuffer(buf: seq<Option<string>>, curpos: nat, r: nat, lines: seq<string>, k: nat)
    requires k <= |lines| && HoldsLast(buf, curpos, 0, r, lines, k)
    ensures forall i :: 0 <= i < |buf| ==> buf[i] == None
  {
    forall i | 0 <= i < |buf|
      ensures buf[i] == None
    {
      var e := if i < curpos then curpos - i else curpos - i + |buf|;
      assert i == Slot(curpos, e, |buf|);
    }
  }

  /** The scan stops exactly when the run is used up. */
  lemma ScanStops(buf: seq<Option<string>>, curpos: nat, d: nat, r: nat, lines: seq<string>, k: nat)
    requires k <= |lines| && HoldsLast(buf, curpos, d, r, lines, k) && k - d >= r
    ensures var idx := if d == 0 then curpos else Slot(curpos, d, |buf|); 0 <= idx < |buf| && (buf[idx] == None <==> d == 0)
  {
    assert curpos == Slot(curpos, |buf|, |buf|);
  }

  /** The slot before `curpos` is filled exactly when there is a run. */
  lemma RunLength(buf: seq<Option<string>>, curpos: nat, lines: seq<string>, sel: seq<bool>, after: int)
    requires |lines| >= |sel| && HoldsRun(buf, curpos, lines, sel, after)
    ensures buf != [] ==>
      var prevpos := if curpos == 0 then |buf| - 1 else curpos - 1;
      && prevpos == Slot(curpos, 1, |buf|) && (buf[prevpos] == None <==> RunStart(sel, after, |buf|) == |sel|)
      && HoldsLast(buf, curpos, |buf|, RunStart(sel, after, |buf|), lines, |sel|)
    ensures buf == [] ==> RunStart(sel, after, |buf|) == |sel|
    ensures RunStart(sel, after, |buf|) == |sel| ==> forall i :: 0 <= i < |buf| ==> buf[i] == None
  {
    if RunStart(sel, after, |buf|) == |sel| && buf != [] {
      assert HoldsLast(buf, curpos, 0, |sel|, lines, |sel|);
      EmptiedBuffer(buf, curpos, |sel|, lines, |sel|);
    }
  }

  lemma EmptyRun(buf: seq<Option<string>>, curpos: nat, lines: seq<string>, sel: seq<bool>, after: int)
    requires |lines| >= |sel| && (buf == [] || curpos < |buf|)
    requires FirstUnprinted(sel, after) == |sel|
    requires forall i :: 0 <= i < |buf| ==> buf[i] == None
    ensures HoldsRun(buf, curpos, lines, sel, after)
  {
  }

  /** Overwriting the oldest slot keeps the run, one line longer or moved on by one line. */
  lemma BufferedLine(buf: seq<Option<string>>, curpos: nat, lines: seq<string>, sel: seq<bool>, after: int)
    requires |lines| > |sel| && HoldsRun(buf, curpos, lines, sel, after) && buf != []
    requires AfterLeft(sel, after) == 0
    ensures HoldsRun(buf[curpos := Some(lines[|sel|])], Advance(curpos, |buf|), lines, sel + [false], after)
  {
    hide Advance;
    var next, t := Advance(curpos, |buf|), sel + [false];
    var grown := buf[curpos := Some(lines[|sel|])];
    UnwantedLine(sel, after);
    assert FirstUnprinted(sel, after) <= |sel|;
    forall d | 1 <= d <= |grown|
      ensures 0 <= Slot(next, d, |grown|) < |grown|
      ensures grown[Slot(next, d, |grown|)] == if |t| - d >= RunStart(t, after, |grown|) then Some(lines[|t| - d]) else None
    {
      if d == 1 {
        assert Slot(next, d, |grown|) == curpos;
      } else {
        assert Slot(next, d, |grown|) == Slot(curpos, d - 1, |buf|) != curpos;
      }
    }
  }

  // ---------------------------------------------------------------------------
  // The program.

  function AtLeastZero(n: int): nat {
    if n < 0 then 0 else n
  }

  class Grep {
    const linesBefore: int
    const linesAfter: int
    const beforeBuf: array<Option<string>>
    var didPrintLine: bool
    var lastLinePrinted: int
    var out: seq<Out>

    ghost function LastPrinted(): Option<int>
      reads this`didPrintLine, this`lastLinePrinted
    {
      if didPrintLine then Some(lastLinePrinted) else None
    }

    /** The buffer has room for a positive number of lines, and none for a negative one. */
    constructor (before: int, after: int)
      ensures linesBefore == before && linesAfter == after
      ensures beforeBuf.Length == AtLeastZero(before) && fresh(beforeBuf)
      ensures forall i :: 0 <= i < beforeBuf.Length ==> beforeBuf[i] == None
      ensures LastPrinted() == None && out == []
    {
      linesBefore, linesAfter := before, after;
      beforeBuf := new Option<string>[AtLeastZero(before)](_ => None);
      didPrintLine, lastLinePrinted, out := false, 0, [];
    }

    /** Print one line after the separator it needs; a line number below 1 is not printed. */
    method PrintLine(text: string, num: int, decoration: char)
      modifies this`out, this`didPrintLine, this`lastLinePrinted
      ensures num < 1 ==> out == old(out) && LastPrinted() == old(LastPrinted())
      ensures num >= 1 ==>
        && LastPrinted() == Some(num)
        && out == old(out)
             + (if (linesAfter != 0 || linesBefore != 0) && old(LastPrinted()).Some? && old(LastPrinted()).value != num - 1
                then [Separator] else [])
             + [Line(Item(num, decoration, text))]
    {
      if num < 1 {
        return;
      }
      if (linesBefore != 0 || linesAfter != 0) && didPrintLine && lastLinePrinted != num - 1 {
        out := out + [Separator];
      }
      didPrintLine := true;
      lastLinePrinted := num;
      out := out + [Line(Item(num, decoration, text))];
    }

    /** What this object has printed since `base`: the given items, separated. */
    ghost predicate Shows(base: seq<Out>, start: Option<int>, items: seq<Item>)
      reads this`out, this`didPrintLine, this`lastLinePrinted
    {
      && out == base + WithSeparators(items, linesAfter != 0 || linesBefore != 0, start)
      && LastPrinted() == Previous(items, start)
    }

    /** Print the next item of a listing. */
    method PrintItem(item: Item, ghost base: seq<Out>, ghost start: Option<int>, ghost items: seq<Item>)
      requires item.num >= 1
      requires Shows(base, start, items)
      modifies this`out, this`didPrintLine, this`lastLinePrinted
      ensures Shows(base, start, items + [item])
    {
      PrintLine(item.text, item.num, item.decoration);
      assert (items + [item])[..|items|] == items;
    }

    /** Advance to the first filled slot, the line `d` lines back. */
    method FirstEntry(curpos: nat, linenum: int, ghost r: nat, lines: seq<string>, ghost k: nat)
      returns (idx: nat, first: int, ghost d: nat)
      requires linesBefore == beforeBuf.Length > 0 && k <= |lines|
      requires HoldsLast(beforeBuf[..], curpos, linesBefore, r, lines, k) && k - linesBefore <= r
      requires beforeBuf[Slot(curpos, 1, linesBefore)] != None
      ensures 1 <= d <= linesBefore && idx == Slot(curpos, d, linesBefore) && first == linenum - d && k - d == r
      ensures HoldsLast(beforeBuf[..], curpos, d, r, lines, k)
    {
      idx, first, d := curpos, linenum - linesBefore, linesBefore;
      while beforeBuf[idx] == None
        invariant 1 <= d <= linesBefore && idx == Slot(curpos, d, linesBefore) && first == linenum - d
        invariant k - d <= r
        decreases d
      {
        NextSlot(curpos, d, linesBefore);
        idx := Advance(idx, linesBefore);
        first := first + 1;
        d := d - 1;
      }
    }

    /** Print and clear the buffered line `d` lines back, then step to the next slot. */
    method PrintEntry(idx: nat, curpos: nat, num: int, lines: seq<string>, ghost k: nat, ghost d: nat, ghost r: nat,
                      ghost base: seq<Out>, ghost start: Option<int>, ghost items: seq<Item>)
      returns (next: nat)
      requires linesBefore == beforeBuf.Length >= d >= 1 && k <= |lines| && r <= k - d && num == k - d + 1
      requires HoldsLast(beforeBuf[..], curpos, d, r, lines, k) && idx == Slot(curpos, d, linesBefore)
      requires Shows(base, start, items)
      modifies this`out, this`didPrintLine, this`lastLinePrinted, beforeBuf
      ensures next == if d == 1 then curpos else Slot(curpos, d - 1, linesBefore)
      ensures HoldsLast(beforeBuf[..], curpos, d - 1, r, lines, k)
      ensures Shows(base, start, items + [Item(num, '-', lines[num - 1])])
    {
      PrintItem(Item(num, '-', beforeBuf[idx].value), base, start, items);
      ClearedSlot(beforeBuf[..], curpos, d, r, lines, k);
      ghost var cleared := beforeBuf[..][idx := None];
      beforeBuf[idx] := None;
      assert beforeBuf[..] == cleared;
      NextSlot(curpos, d, linesBefore);
      next := Advance(idx, linesBefore);
    }

    /** Print the buffered lines `r..k` before selected line `linenum`, clearing the buffer. */
    method PrintRun(curpos: nat, linenum: nat, lines: seq<string>, ghost k: nat, ghost r: nat,
                    ghost base: seq<Out>, ghost start: Option<int>, ghost items: seq<Item>)
      requires linesBefore == beforeBuf.Length > 0
      requires k <= |lines| && linenum == k + 1 && k - linesBefore <= r
      requires HoldsLast(beforeBuf[..], curpos, linesBefore, r, lines, k)
      requires beforeBuf[Slot(curpos, 1, linesBefore)] != None
      requires Shows(base, start, items)
      modifies this`out, this`didPrintLine, this`lastLinePrinted, beforeBuf
      ensures forall i :: 0 <= i < linesBefore ==> beforeBuf[i] == None
      ensures r <= k && Shows(base, start, items + Unselected(lines, r, k))
    {
      hide HoldsLast, Shows, Slot;
      var idx, first;
      ghost var d;
      idx, first, d := FirstEntry(curpos, linenum, r, lines, k);
      ScanStops(beforeBuf[..], curpos, d, r, lines, k);
      assert items + Unselected(lines, r, r) == items;
      while beforeBuf[idx] != None
        invariant 0 <= d <= linesBefore && first == linenum - d && r <= k - d
        invariant idx == if d == 0 then curpos else Slot(curpos, d, linesBefore)
        invariant HoldsLast(beforeBuf[..], curpos, d, r, lines, k)
        invariant idx < linesBefore && (beforeBuf[idx] == None <==> d == 0)
        invariant Shows(base, start, items + Unselected(lines, r, k - d))
        decreases d
      {
        ghost var shown := items + Unselected(lines, r, k - d);
        idx := PrintEntry(idx, curpos, first, lines, k, d, r, base, start, shown);
        assert items + Unselected(lines, r, k - d + 1) == shown + [Item(first, '-', lines[first - 1])];
        first := first + 1;
        d := d - 1;
        ScanStops(beforeBuf[..], curpos, d, r, lines, k);
      }
      EmptiedBuffer(beforeBuf[..], curpos, r, lines, k);
    }
  
    /** The state of the pass after the lines decided by `sel`. */
    ghost predicate Pass(lines: seq<string>, sel: seq<bool>, curpos: nat, owed: int, base: seq<Out>, start: Option<int>)
      requires |lines| >= |sel|
      reads this`out, this`didPrintLine, this`lastLinePrinted, beforeBuf
    {
      && linesBefore == beforeBuf.Length
      && HoldsRun(beforeBuf[..], curpos, lines, sel, linesAfter)
      && owed == AfterLeft(sel, linesAfter)
      && Shows(base, start, Listing(lines, sel, linesAfter, linesBefore, |sel|))
    }

    /** A selected line: its buffered context, then the line. */
    method PrintSelected(curpos: nat, linenum: nat, lines: seq<string>, ghost sel: seq<bool>, ghost owed: int,
                         ghost base: seq<Out>, ghost start: Option<int>)
      returns (nowOwed: int)
      requires |lines| > |sel| && linenum == |sel| + 1
      requires Pass(lines, sel, curpos, owed, base, start)
      modifies this`out, this`didPrintLine, this`lastLinePrinted, beforeBuf
      ensures Pass(lines, sel + [true], curpos, nowOwed, base, start) && nowOwed == AfterLeft(sel + [true], linesAfter)
    {
      hide HoldsLast, WithSeparators, Listing;
      ghost var t, r := sel + [true], RunStart(sel, linesAfter, linesBefore);
      ghost var items := Listing(lines, sel, linesAfter, linesBefore, |sel|);
      ghost var run := items + Unselected(lines, r, |sel|);
      var prevpos := if curpos == 0 then linesBefore - 1 else curpos - 1;
      RunLength(beforeBuf[..], curpos, lines, sel, linesAfter);
      if linesBefore != 0 && beforeBuf[prevpos] != None {
        PrintRun(curpos, linenum, lines, |sel|, r, base, start, items);
      } else {
        assert run == items;
      }
      assert Shows(base, start, run);
      nowOwed := linesAfter;
      PrintItem(Item(linenum, ':', lines[linenum - 1]), base, start, run);
      assert Listing(lines, t, linesAfter, linesBefore, |t|) == run + [Item(linenum, ':', lines[linenum - 1])]
        && FirstUnprinted(t, linesAfter) == |t| && nowOwed == AfterLeft(t, linesAfter) by {
        SelectedLine(lines, sel, linesAfter, linesBefore);
      }
      EmptyRun(beforeBuf[..], curpos, lines, t, linesAfter);
      assert Shows(base, start, Listing(lines, t, linesAfter, linesBefore, |t|));
    }

    /** A line that is not selected: owed context is printed, any other line is buffered. */
    method PassUnselected(curpos: nat, linenum: nat, lines: seq<string>, ghost sel: seq<bool>, owed: int,
                          ghost base: seq<Out>, ghost start: Option<int>)
      returns (nextpos: nat, nowOwed: int)
      requires |lines| > |sel| && linenum == |sel| + 1
      requires Pass(lines, sel, curpos, owed, base, start)
      modifies this`out, this`didPrintLine, this`lastLinePrinted, beforeBuf
      ensures Pass(lines, sel + [false], nextpos, nowOwed, base, start) && nowOwed == AfterLeft(sel + [false], linesAfter)
      ensures owed == 0 ==> nowOwed == 0
    {
      nextpos, nowOwed := curpos, owed;
      if owed != 0 {
        OwedLine(lines, sel, linesAfter, linesBefore);
        PrintItem(Item(linenum, '-', lines[linenum - 1]), base, start, Listing(lines, sel, linesAfter, linesBefore, |sel|));
        nowOwed := owed - 1;
        RunLength(beforeBuf[..], curpos, lines, sel, linesAfter);
        EmptyRun(beforeBuf[..], curpos, lines, sel + [false], linesAfter);
      } else {
        UnwantedLine(sel, linesAfter);
        ListingAtCut(lines, sel, sel + [false], linesAfter, linesBefore);
        if linesBefore != 0 {
          BufferedLine(beforeBuf[..], curpos, lines, sel, linesAfter);
          ghost var filled := beforeBuf[..][curpos := Some(lines[|sel|])];
          beforeBuf[curpos] := Some(lines[linenum - 1]);
          assert beforeBuf[..] == filled;
          nextpos := Advance(curpos, linesBefore);
        }
      }
    }

    lemma StartOfPass(lines: seq<string>)
      requires linesBefore == beforeBuf.Length
      requires forall i :: 0 <= i < beforeBuf.Length ==> beforeBuf[i] == None
      ensures Pass(lines, [], 0, 0, out, LastPrinted())
    {
      EmptyRun(beforeBuf[..], 0, lines, [], linesAfter);
    }

    lemma EndOfPass(lines: seq<string>, s: seq<bool>, t: seq<bool>, curpos: nat, owed: int, base: seq<Out>, start: Option<int>)
      requires |lines| >= |t| && s <= t && Pass(lines, s, curpos, owed, base, start)
      requires s == t || (owed == 0 && forall i :: |s| <= i < |t| ==> !t[i])
      ensures out == base + Expected(lines, t, linesAfter, linesBefore, start)
    {
      if s != t {
        ListingAtCut(lines, s, t, linesAfter, linesBefore);
      }
    }

    /** One file, from an empty buffer. `sel` is what the patterns decide for each line, `limit` is
        -m, `tally` is -c (which switches context off). With a negative -B the first line is a fault,
        because there is no buffer, unless it is selected beyond the limit. */
    method GrepFile(lines: seq<string>, sel: seq<bool>, limit: Option<int>, tally: bool)
      returns (nmatches: nat, fault: bool)
      requires |lines| == |sel| && beforeBuf.Length == AtLeastZero(linesBefore)
      requires forall i :: 0 <= i < beforeBuf.Length ==> beforeBuf[i] == None
      requires tally ==> linesBefore == linesAfter == 0
      modifies this`out, this`didPrintLine, this`lastLinePrinted, beforeBuf
      ensures fault <==> linesBefore < 0 && |sel| > 0 && !(sel[0] && limit.Some? && limit.value < 1)
      ensures fault ==> out == old(out)
      ensures !fault && !tally ==>
        out == old(out)
          + Expected(lines, sel[..CutAt(sel, limit)], linesAfter, AtLeastZero(linesBefore), old(LastPrinted()))
      ensures tally ==> out == old(out) + [Tally(nmatches)]
      ensures !fault && limit.None? ==> nmatches == Count(sel)
      ensures !fault && limit.Some? && limit.value >= 1 ==>
        nmatches == if Count(sel) <= limit.value then Count(sel)
                    else if AfterLeft(sel[..CutAt(sel, limit)], linesAfter) == 0 then limit.value else limit.value + 1
      ensures !fault && limit == Some(0) ==> nmatches == if |sel| > 0 && sel[0] then 1 else 0
      ensures !fault && limit.Some? && limit.value < 0 ==> nmatches == if Count(sel) > 0 then 1 else 0
    {
      hide Pass, Expected, Count, CutAt, AfterLeft;
      var linenum, owed, curpos := 0, 0, 0;
      nmatches, fault := 0, false;
      ghost var base, start := out, LastPrinted();
      ghost var s := sel[..linenum];
      if linesBefore >= 0 {
        StartOfPass(lines);
      }
      ReadNone(sel, limit);
      while linenum < |lines|
        invariant linenum <= |lines| && s == sel[..linenum]
        invariant nmatches == Count(s) && CutAt(s, limit) == linenum
        invariant limit.Some? && limit.value < 0 ==> nmatches == 0
        invariant limit == Some(0) ==> linenum == 0
        invariant owed == AfterLeft(s, linesAfter) && (nmatches == 0 || tally ==> owed == 0)
        invariant limit.Some? && limit.value > 0 ==> nmatches <= limit.value && (nmatches == limit.value ==> owed != 0)
        invariant tally ==> out == base
        invariant !tally && linesBefore >= 0 ==> Pass(lines, s, curpos, owed, base, start)
        invariant linesBefore < 0 ==> linenum == 0 && out == base && LastPrinted() == start
      {
        var selected := sel[linenum];
        linenum := linenum + 1;
        assert sel[..linenum] == s + [selected];
        ReadOne(sel, linenum - 1, limit);
        CutAtPrefix(sel, linenum, limit);
        if selected {
          nmatches := nmatches + 1;
          if limit.Some? && nmatches > limit.value {
            break;
          }
          OwedNothing(s, selected, linesAfter);
          if linesBefore < 0 {
            return nmatches, true;
          }
          if !tally {
            owed := PrintSelected(curpos, linenum, lines, s, owed, base, start);
          }
        } else {
          OwedNothing(s, selected, linesAfter);
          if linesBefore < 0 {
            return nmatches, true;
          }
          if !tally {
            curpos, owed := PassUnselected(curpos, linenum, lines, s, owed, base, start);
          }
        }
        s := s + [selected];
        if limit.Some? && owed == 0 && nmatches == limit.value {
          StillNothing(s, sel[..CutAt(sel, limit)], linesAfter);
          break;
        }
      }
      assert sel[..|sel|] == sel;
      if tally {
        out := out + [Tally(nmatches)];
      } else if linesBefore < 0 {
        NothingExpected(lines, linesAfter, start);
        assert sel[..CutAt(sel, limit)] == [];
        assert out + [] == out;
      } else {
        EndOfPass(lines, s, sel[..CutAt(sel, limit)], curpos, owed, base, start);
      }
    }
  }
}
