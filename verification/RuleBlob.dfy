/** A rule as one block of bytes, the mask made to find it again, and the comparison that uses both
    when a rule is deleted or checked. */
module RuleBlob {

  import opened Common

  /** sizeof(struct ipt_entry), and XT_ALIGN(sizeof(struct ipt_entry_match)), which is also the target's. */
  const HEAD: nat := 112
  const EXT: nat := 32
  const NAMELEN: nat := 29

  /** Where target_offset and next_offset stand in the head. */
  const TARGET_OFFSET: nat := 88
  const NEXT_OFFSET: nat := 90

  /** A match or a target: `user` is its userspacesize. */
  datatype Extension = Extension(name: seq<byte>, revision: byte, data: seq<byte>, user: nat)

  datatype Rule = Rule(fw: seq<byte>, matches: seq<Extension>, target: Extension)

  predicate ValidExtension(x: Extension) {
    && |x.name| < NAMELEN && (forall k :: 0 <= k < |x.name| ==> x.name[k] != 0)
    && x.user <= |x.data|
  }

  predicate AllValid(matches: seq<Extension>) {
    forall k :: 0 <= k < |matches| ==> ValidExtension(matches[k])
  }

  /** The sizes fit their 16-bit fields. */
  predicate ValidRule(r: Rule) {
    && |r.fw| == HEAD && AllValid(r.matches) && ValidExtension(r.target)
    && HEAD + |Bodies(r.matches)| + |Body(r.target)| < 0x1_0000
  }

  // ---------------------------------------------------------------------------
  // C's & and ^.

  function And(a: nat, b: nat): nat {
    if a == 0 || b == 0 then 0 else 2 * And(a / 2, b / 2) + if a % 2 == 1 && b % 2 == 1 then 1 else 0
  }

  function Xor(a: nat, b: nat): nat {
    if a == 0 && b == 0 then 0 else 2 * Xor(a / 2, b / 2) + if a % 2 != b % 2 then 1 else 0
  }

  /** A difference in a bit that the mask has. */
  predicate Differ(a: byte, b: byte, mask: byte) {
    And(Xor(a, b), mask) != 0
  }

  predicate Ones(n: nat) {
    n == 0 || (n % 2 == 1 && Ones(n / 2))
  }

  lemma {:induction false} XorMeans(a: nat, b: nat, ones: nat)
    requires Ones(ones) && a <= ones && b <= ones
    ensures Xor(a, b) <= ones && (Xor(a, b) == 0 <==> a == b)
  {
    if ones != 0 {
      XorMeans(a / 2, b / 2, ones / 2);
    }
  }

  lemma {:induction false} AndOnes(a: nat, ones: nat)
    requires Ones(ones) && a <= ones
    ensures And(a, ones) == a
  {
    if ones != 0 {
      AndOnes(a / 2, ones / 2);
    }
  }

  lemma DifferMeans(a: byte, b: byte)
    ensures Differ(a, b, 0xFF) <==> a != b
    ensures !Differ(a, b, 0)
  {
    assert Ones(0x7F) by {
      assert Ones(0x0F);
    }
    assert Ones(0xFF);
    XorMeans(a, b, 0xFF);
    AndOnes(Xor(a, b), 0xFF);
  }

  // ---------------------------------------------------------------------------
  // The block.

  function Fill(n: nat, b: byte): (s: seq<byte>)
    ensures |s| == n && forall k :: 0 <= k < n ==> s[k] == b
  {
    seq(n, _ => b)
  }

  /** A 16-bit field, least significant byte first. */
  function U16(n: nat): (s: seq<byte>)
    ensures |s| == 2
  {
    [n % 0x100, n / 0x100 % 0x100]
  }

  function U16At(s: seq<byte>, i: nat): nat
    requires i + 2 <= |s|
  {
    var low: nat, high: nat := s[i], s[i + 1];
    low + 0x100 * high
  }

  /** The string that starts a run of bytes. */
  function CString(s: seq<byte>): seq<byte> {
    if s == [] || s[0] == 0 then [] else [s[0]] + CString(s[1..])
  }

  /** What command_match and command_jump allocate: size, name, revision, and the extension's own data. */
  function Body(x: Extension): (s: seq<byte>)
    requires |x.name| <= NAMELEN
    ensures |s| == EXT + |x.data| && s[EXT..] == x.data
  {
    var s := U16(EXT + |x.data|) + (x.name + (Fill(NAMELEN - |x.name|, 0) + ([x.revision] + x.data)));
    s
  }

  function Bodies(matches: seq<Extension>): seq<byte>
    requires AllValid(matches)
  {
    if matches == [] then [] else Body(matches[0]) + Bodies(matches[1..])
  }

  /** The head with its two offsets set. */
  function Head(fw: seq<byte>, target_offset: nat, next_offset: nat): (s: seq<byte>)
    requires |fw| == HEAD
    ensures |s| == HEAD
  {
    fw[..TARGET_OFFSET] + (U16(target_offset) + (U16(next_offset) + fw[NEXT_OFFSET + 2..]))
  }

  function Entry(r: Rule): seq<byte>
    requires ValidRule(r)
  {
    var offset := HEAD + |Bodies(r.matches)|;
    Head(r.fw, offset, offset + |Body(r.target)|) + (Bodies(r.matches) + Body(r.target))
  }

  // ---------------------------------------------------------------------------
  // The mask.

  function ExtensionMask(x: Extension): (s: seq<byte>)
    requires ValidExtension(x)
    ensures |s| == EXT + |x.data|
    ensures forall k :: 0 <= k < |s| ==> s[k] == (if k < EXT + x.user then 0xFF else 0)
  {
    Fill(EXT + x.user, 0xFF) + Fill(|x.data| - x.user, 0)
  }

  function MatchMasks(matches: seq<Extension>): (s: seq<byte>)
    requires AllValid(matches)
    ensures |s| == |Bodies(matches)|
  {
    if matches == [] then [] else ExtensionMask(matches[0]) + MatchMasks(matches[1..])
  }

  function Mask(matches: seq<Extension>, target: Extension): seq<byte>
    requires AllValid(matches) && ValidExtension(target)
  {
    Fill(HEAD, 0xFF) + (MatchMasks(matches) + ExtensionMask(target))
  }

  // ---------------------------------------------------------------------------
  // What the comparison is for.

  /** The fields of the head that is_same compares: addresses and their masks; protocol and flags; the interface
      masks, and the interface names where those masks have a bit. */
  ghost predicate SameHead(a: seq<byte>, b: seq<byte>)
    requires |a| >= HEAD && |b| >= HEAD
  {
    && (forall k :: 0 <= k < 16 || 48 <= k < 84 ==> a[k] == b[k])
    && forall k :: 16 <= k < 48 ==> And(a[k], a[k + 32]) == And(b[k], b[k + 32])
  }

  /** The same extension with the same data, up to what only the kernel uses. */
  predicate SameExtension(x: Extension, y: Extension)
    requires x.user <= |x.data|
  {
    x.name == y.name && |x.data| == |y.data| && x.data[..x.user] == y.data[..x.user]
  }

  predicate SameMatches(a: seq<Extension>, b: seq<Extension>)
    requires AllValid(a)
  {
    |a| == |b| && forall k :: 0 <= k < |a| ==> SameExtension(a[k], b[k])
  }

  /** What a rule's target is: nothing, another chain, a standard verdict, or an extension. */
  datatype Kind = FallThrough | Jump(chain: seq<byte>) | Standard | Module

  /** A rule in a chain, its target's name resolved. */
  datatype Stored = Stored(rule: Rule, kind: Kind)

  /** A standard target holds a verdict of four bytes, padded to eight. */
  const STANDARD_DATA: nat := 8

  predicate ValidStored(x: Stored) {
    ValidRule(x.rule) && (x.kind.Standard? ==> |x.rule.target.data| == STANDARD_DATA)
  }

  /** Targets of the same kind: to the same chain, with the same verdict, or the same extension. */
  predicate SameTarget(x: Stored, y: Stored)
    requires ValidStored(x) && ValidStored(y)
  {
    x.kind == y.kind
    && (x.kind.Standard? ==> x.rule.target.data[..4] == y.rule.target.data[..4])
    && (x.kind.Module? ==> SameExtension(x.rule.target, y.rule.target))
  }

  ghost predicate SameStored(x: Stored, y: Stored)
    requires ValidStored(x) && ValidStored(y)
  {
    && SameHead(x.rule.fw, y.rule.fw) && SameMatches(x.rule.matches, y.rule.matches)
    && |x.rule.target.data| == |y.rule.target.data| && SameTarget(x, y)
  }

  // ---------------------------------------------------------------------------
  // Resolving a target's name.

  const ACCEPT: seq<byte> := [65, 67, 67, 69, 80, 84]
  const DROP: seq<byte> := [68, 82, 79, 80]
  const QUEUE: seq<byte> := [81, 85, 69, 85, 69]
  const RETURN: seq<byte> := [82, 69, 84, 85, 82, 78]

  predicate IsLabel(name: seq<byte>) {
    name == ACCEPT || name == DROP || name == QUEUE || name == RETURN
  }

  /** The verdicts -2, -1, -4 and -5, as four bytes. */
  function Verdict(name: seq<byte>): (v: seq<byte>)
    ensures |v| == 4
  {
    [if name == ACCEPT then 0xFE else if name == DROP then 0xFF else if name == QUEUE then 0xFC else 0xFB, 0xFF, 0xFF, 0xFF]
  }

  datatype Resolved = Resolved(kind: Kind) | Refused

  /** iptcc_map_target: a built-in chain is no target, and a standard target has its own size. */
  function Resolve(t: Extension, builtins: set<seq<byte>>, chains: set<seq<byte>>): Resolved {
    if t.name == [] then Resolved(FallThrough)
    else if IsLabel(t.name) then if |t.data| == STANDARD_DATA then Resolved(Standard) else Refused
    else if t.name in builtins then Refused
    else if t.name in chains then Resolved(Jump(t.name))
    else Resolved(Module)
  }

  /** A standard target's name and revision are cleared, and its verdict is set. */
  function Standardized(t: Extension): Extension
    requires |t.data| == STANDARD_DATA
  {
    Extension([], 0, Verdict(t.name) + t.data[4..], t.user)
  }

  function StoredFor(r: Rule, kind: Kind): Stored
    requires kind.Standard? ==> |r.target.data| == STANDARD_DATA
  {
    Stored(if kind.Standard? then r.(target := Standardized(r.target)) else r, kind)
  }

  /** When resolved names are the same: the same label, the same chain, or extensions that are the same. */
  lemma SameResolved(r: Rule, s: Rule, k: Kind, m: Kind, builtins: set<seq<byte>>, chains: set<seq<byte>>)
    requires ValidRule(r) && ValidRule(s)
    requires Resolve(r.target, builtins, chains) == Resolved(k) && Resolve(s.target, builtins, chains) == Resolved(m)
    ensures ValidStored(StoredFor(r, k)) && ValidStored(StoredFor(s, m))
    ensures SameStored(StoredFor(r, k), StoredFor(s, m)) <==>
      && SameHead(r.fw, s.fw) && SameMatches(r.matches, s.matches)
      && r.target.name == s.target.name && |r.target.data| == |s.target.data|
      && (k.Module? ==> SameExtension(r.target, s.target))
  {
    hide SameHead, SameMatches, Bodies, AllValid;
    if k.Standard? {
      StandardizedSize(r);
    }
    if m.Standard? {
      StandardizedSize(s);
    }
    assert Verdict(r.target.name)[0] == Verdict(s.target.name)[0] && IsLabel(r.target.name) && IsLabel(s.target.name) ==>
      r.target.name == s.target.name;
    if k.Standard? && m.Standard? {
      assert StoredFor(r, k).rule.target.data[..4] == Verdict(r.target.name);
      assert StoredFor(s, m).rule.target.data[..4] == Verdict(s.target.name);
    }
  }

  lemma StandardizedSize(r: Rule)
    requires ValidRule(r) && |r.target.data| == STANDARD_DATA
    ensures ValidRule(r.(target := Standardized(r.target)))
    ensures |Body(Standardized(r.target))| == |Body(r.target)|
  {
    hide Body, Bodies;
  }

  // ---------------------------------------------------------------------------
  // Reading a block.

  lemma U16Read(n: nat, rest: seq<byte>)
    requires n < 0x1_0000
    ensures U16At(U16(n) + rest, 0) == n
  {
    var s := U16(n) + rest;
    assert s[0] == U16(n)[0] && s[1] == U16(n)[1];
    assert n / 0x100 % 0x100 == n / 0x100;
  }

  lemma {:induction false} CStringIs(name: seq<byte>, rest: seq<byte>)
    requires (forall k :: 0 <= k < |name| ==> name[k] != 0) && rest != [] && rest[0] == 0
    ensures CString(name + rest) == name
  {
    if name == [] {
      assert name + rest == rest;
    } else {
      assert (name + rest)[1..] == name[1..] + rest;
      CStringIs(name[1..], rest);
    }
  }

  /** The fields of an extension at the front of a block. */
  lemma BodyFields(x: Extension, rest: seq<byte>)
    requires ValidExtension(x) && EXT + |x.data| < 0x1_0000
    ensures var s := Body(x) + rest;
      && U16At(s, 0) == EXT + |x.data| && CString(s[2..]) == x.name && s[EXT - 1] == x.revision
      && forall k :: 0 <= k < |x.data| ==> s[EXT + k] == x.data[k]
  {
    hide U16At, U16, CString;
    var s := Body(x) + rest;
    var size := U16(EXT + |x.data|);
    var after := Fill(NAMELEN - |x.name|, 0) + ([x.revision] + x.data);
    assert s == size + ((x.name + after) + rest);
    U16Read(EXT + |x.data|, (x.name + after) + rest);
    assert s[2..] == x.name + (after + rest);
    CStringIs(x.name, after + rest);
    assert forall k :: 0 <= k < |x.data| ==> s[EXT + k] == Body(x)[EXT..][k];
  }

  // ---------------------------------------------------------------------------
  // generate_entry and make_delete_mask.

  method Copy(dst: array<byte>, at: nat, src: seq<byte>)
    requires at + |src| <= dst.Length
    modifies dst
    ensures dst[..] == old(dst[..at]) + (src + old(dst[at + |src|..]))
  {
    for k := 0 to |src|
      invariant dst[..at] == old(dst[..at]) && dst[at..at + k] == src[..k] && dst[at + k..] == old(dst[at + k..])
    {
      dst[at + k] := src[k];
    }
    assert dst[..] == dst[..at] + (dst[at..at + |src|] + dst[at + |src|..]);
  }

  /** `block` is complete up to `at`, and `tail` is still to come. */
  ghost predicate Partly(block: seq<byte>, at: nat, tail: seq<byte>, whole: seq<byte>) {
    at <= |block| == |whole| && block[..at] + tail == whole
  }

  lemma PartlyStep(before: seq<byte>, at: nat, piece: seq<byte>, tail: seq<byte>, whole: seq<byte>, after: seq<byte>)
    requires Partly(before, at, piece + tail, whole) && |after| == |before|
    requires at + |piece| <= |before| && after[..at + |piece|] == before[..at] + piece
    ensures Partly(after, at + |piece|, tail, whole)
  {
    assert (before[..at] + piece) + tail == before[..at] + (piece + tail);
  }

  /** Copies the next piece to its place. */
  method Place(e: array<byte>, at: nat, piece: seq<byte>, ghost tail: seq<byte>, ghost whole: seq<byte>)
    requires Partly(e[..], at, piece + tail, whole)
    modifies e
    ensures Partly(e[..], at + |piece|, tail, whole)
  {
    ghost var before := e[..];
    assert |before[..at] + (piece + tail)| == |before|;
    Copy(e, at, piece);
    assert e[..at + |piece|] == before[..at] + piece;
    PartlyStep(before, at, piece, tail, whole, e[..]);
  }

  lemma SizeField(x: Extension)
    requires ValidExtension(x) && EXT + |x.data| < 0x1_0000
    ensures U16At(Body(x), 0) == |Body(x)|
  {
    BodyFields(x, []);
    assert Body(x) + [] == Body(x);
    hide Body, U16At;
  }

  lemma NextBody(left: seq<Extension>, body: seq<byte>, mask: seq<byte>)
    requires AllValid(left) && left != []
    ensures AllValid(left[1..])
    ensures Bodies(left) + body == Body(left[0]) + (Bodies(left[1..]) + body)
    ensures |Bodies(left)| == |Body(left[0])| + |Bodies(left[1..])|
    ensures MatchMasks(left) + mask == ExtensionMask(left[0]) + (MatchMasks(left[1..]) + mask)
  {
    hide Body, ExtensionMask;
    var b, more := Body(left[0]), Bodies(left[1..]);
    assert (b + more) + body == b + (more + body);
    var m, masks := ExtensionMask(left[0]), MatchMasks(left[1..]);
    assert (m + masks) + mask == m + (masks + mask);
  }

  lemma NoBodies(body: seq<byte>)
    ensures Bodies([]) + body == body && MatchMasks([]) + body == body
  {
    assert [] + body == body;
  }

  lemma EntryParts(r: Rule)
    requires ValidRule(r)
    ensures |Entry(r)| == HEAD + |Bodies(r.matches)| + |Body(r.target)|
    ensures var offset := HEAD + |Bodies(r.matches)|;
      Entry(r) == Head(r.fw, offset, offset + |Body(r.target)|) + (Bodies(r.matches) + Body(r.target))
  {
    hide Head, Body, Bodies;
  }

  /** The first pass: where the target goes. */
  method TargetOffset(matches: seq<Extension>) returns (size: nat)
    requires AllValid(matches) && HEAD + |Bodies(matches)| < 0x1_0000
    ensures size == HEAD + |Bodies(matches)|
  {
    hide Body, U16At, Bodies;
    var left := matches;
    size := HEAD;
    while left != []
      invariant AllValid(left) && size >= HEAD && size + |Bodies(left)| == HEAD + |Bodies(matches)|
      decreases |left|
    {
      NextBody(left, [], []);
      SizeField(left[0]);
      size := size + U16At(Body(left[0]), 0);
      left := left[1..];
    }
    NoBodies([]);
  }

  /** The second pass: each match copied after the one before. */
  method PlaceMatches(e: array<byte>, matches: seq<Extension>, ghost body: seq<byte>, ghost whole: seq<byte>)
      returns (at: nat)
    requires AllValid(matches) && HEAD + |Bodies(matches)| < 0x1_0000
    requires Partly(e[..], HEAD, Bodies(matches) + body, whole)
    modifies e
    ensures at == HEAD + |Bodies(matches)| && Partly(e[..], at, body, whole)
  {
    hide Body, U16At, Bodies, Partly;
    var left := matches;
    at := HEAD;
    while left != []
      invariant AllValid(left) && at >= HEAD && at + |Bodies(left)| == HEAD + |Bodies(matches)|
      invariant Partly(e[..], at, Bodies(left) + body, whole)
      decreases |left|
    {
      NextBody(left, body, []);
      SizeField(left[0]);
      var m := Body(left[0]);
      Place(e, at, m, Bodies(left[1..]) + body, whole);
      at := at + U16At(m, 0);
      left := left[1..];
    }
    NoBodies(body);
  }

  method GenerateEntry(fw: seq<byte>, matches: seq<Extension>, target: Extension) returns (e: array<byte>)
    requires ValidRule(Rule(fw, matches, target))
    ensures fresh(e) && e[..] == Entry(Rule(fw, matches, target))
  {
    hide Body, U16At, Head, Entry, Bodies;
    ghost var whole := Entry(Rule(fw, matches, target));
    EntryParts(Rule(fw, matches, target));
    var body := Body(target);
    SizeField(target);
    var size := TargetOffset(matches);
    e := new byte[size + U16At(body, 0)];
    var head := Head(fw, size, size + U16At(body, 0));
    assert e[..0] + (head + (Bodies(matches) + body)) == whole;
    Place(e, 0, head, Bodies(matches) + body, whole);
    var at := PlaceMatches(e, matches, body, whole);
    assert body + [] == body;
    Place(e, at, body, [], whole);
    assert e[..at + |body|] + [] == e[..];
  }

  /** Sets `n` bytes of the mask. */
  method SetMask(mask: array<byte>, at: nat, n: nat)
    requires at + n <= mask.Length
    modifies mask
    ensures mask[..] == old(mask[..at]) + (Fill(n, 0xFF) + old(mask[at + n..]))
  {
    for k := 0 to n
      invariant mask[..at] == old(mask[..at]) && mask[at..at + k] == Fill(n, 0xFF)[..k]
      invariant mask[at + k..] == old(mask[at + k..])
    {
      mask[at + k] := 0xFF;
    }
    assert mask[..] == mask[..at] + (mask[at..at + n] + mask[at + n..]);
  }

  /** The mask is zero from `at` on. */
  ghost predicate Blank(mask: seq<byte>, at: nat) {
    at <= |mask| && mask[at..] == Fill(|mask| - at, 0)
  }

  /** The part of the mask for one extension: the rest of it is left as calloc made it. */
  method SetExtension(mask: array<byte>, at: nat, x: Extension, ghost tail: seq<byte>, ghost whole: seq<byte>)
    requires ValidExtension(x)
    requires Partly(mask[..], at, ExtensionMask(x) + tail, whole) && Blank(mask[..], at)
    modifies mask
    ensures Partly(mask[..], at + EXT + |x.data|, tail, whole) && Blank(mask[..], at + EXT + |x.data|)
  {
    ghost var before := mask[..];
    ghost var piece := ExtensionMask(x);
    assert |before[..at] + (piece + tail)| == |before|;
    SetMask(mask, at, EXT + x.user);
    AfterSet(before, at, x, mask[..]);
    PartlyStep(before, at, piece, tail, whole, mask[..]);
  }

  lemma AfterSet(before: seq<byte>, at: nat, x: Extension, after: seq<byte>)
    requires ValidExtension(x) && at + EXT + |x.data| <= |before| && Blank(before, at)
    requires after == before[..at] + (Fill(EXT + x.user, 0xFF) + before[at + EXT + x.user..])
    ensures after[..at + EXT + |x.data|] == before[..at] + ExtensionMask(x)
    ensures Blank(after, at + EXT + |x.data|)
  {
    var edge := at + EXT + x.user;
    assert forall k :: at <= k < |before| ==> before[k] == before[at..][k - at] == 0;
    assert forall k :: edge <= k < |before| ==> after[k] == before[k];
    assert forall k :: at <= k < edge ==> after[k] == Fill(EXT + x.user, 0xFF)[k - at];
  }

  /** The size of the entry without its target, from the sizes the extensions declare. */
  method MaskedSize(matches: seq<Extension>) returns (size: nat)
    requires AllValid(matches)
    ensures size == HEAD + |Bodies(matches)|
  {
    hide Body, Bodies;
    var left := matches;
    size := HEAD;
    while left != []
      invariant AllValid(left) && size + |Bodies(left)| == HEAD + |Bodies(matches)|
      decreases |left|
    {
      NextBody(left, [], []);
      size := size + EXT + |left[0].data|;
      left := left[1..];
    }
    NoBodies([]);
  }

  method MaskMatches(mask: array<byte>, matches: seq<Extension>, ghost own: seq<byte>, ghost whole: seq<byte>)
      returns (mptr: nat)
    requires AllValid(matches) && Blank(mask[..], HEAD)
    requires Partly(mask[..], HEAD, MatchMasks(matches) + own, whole)
    modifies mask
    ensures mptr == HEAD + |Bodies(matches)| && Partly(mask[..], mptr, own, whole) && Blank(mask[..], mptr)
  {
    hide Body, Bodies, ExtensionMask, MatchMasks, ValidExtension, Blank, Partly;
    var left := matches;
    mptr := HEAD;
    while left != []
      invariant AllValid(left) && mptr + |Bodies(left)| == HEAD + |Bodies(matches)|
      invariant Partly(mask[..], mptr, MatchMasks(left) + own, whole) && Blank(mask[..], mptr)
      decreases |left|
    {
      NextBody(left, [], own);
      SetExtension(mask, mptr, left[0], MatchMasks(left[1..]) + own, whole);
      mptr := mptr + EXT + |left[0].data|;
      left := left[1..];
    }
    NoBodies(own);
  }

  method MakeDeleteMask(matches: seq<Extension>, target: Extension) returns (mask: array<byte>)
    requires AllValid(matches) && ValidExtension(target)
    ensures fresh(mask) && mask[..] == Mask(matches, target)
    ensures mask.Length == HEAD + |Bodies(matches)| + |Body(target)|
  {
    hide Body, Bodies, ExtensionMask, MatchMasks, ValidExtension, Blank;
    ghost var own := ExtensionMask(target);
    ghost var whole := Mask(matches, target);
    var size := MaskedSize(matches);
    mask := new byte[size + EXT + |target.data|](_ => 0);
    SetMask(mask, 0, HEAD);
    BlankAfterHead(mask[..]);
    assert mask[..HEAD] == Fill(HEAD, 0xFF);
    var mptr := MaskMatches(mask, matches, own, whole);
    assert own + [] == own;
    SetExtension(mask, mptr, target, [], whole);
    assert mask[..mask.Length] + [] == mask[..];
  }

  lemma BlankAfterHead(mask: seq<byte>)
    requires |mask| >= HEAD && mask == Fill(HEAD, 0xFF) + Fill(|mask| - HEAD, 0)
    ensures Blank(mask, HEAD)
  {
  }

  // ---------------------------------------------------------------------------
  // The walk.

  /** What can be read of an extension. */
  datatype Seen = Seen(name: seq<byte>, revision: byte, data: seq<byte>)

  function AllSeen(matches: seq<Extension>): seq<Seen> {
    if matches == [] then []
    else [Seen(matches[0].name, matches[0].revision, matches[0].data)] + AllSeen(matches[1..])
  }

  /** IPT_MATCH_ITERATE: from the end of the head, by match_size, up to target_offset. */
  method Walk(e: seq<byte>, ghost r: Rule) returns (seen: seq<Seen>)
    requires ValidRule(r) && e == Entry(r)
    ensures seen == AllSeen(r.matches)
  {
    hide Body, Bodies, Entry, U16At, Along, AlongMask, Starts, Mask, CString, ValidExtension, AllSeen;
    HeadBytes(r);
    EntryParts(r);
    AlongStart(r);
    seen := [];
    var i := HEAD;
    ghost var left := r.matches;
    while i < U16At(e, TARGET_OFFSET)
      invariant AllValid(left) && i >= HEAD && i + |Bodies(left)| == U16At(e, TARGET_OFFSET)
      invariant Along(e, i, left, r.target)
      invariant seen + AllSeen(left) == AllSeen(r.matches)
      decreases |left|
    {
      SomeLeft(left);
      NextBody(left, [], []);
      AlongNext(e, i, left, r.target);
      ghost var x := left[0];
      StartWhole(e, i, x);
      var size := U16At(e, i);
      var m := Seen(CString(e[i + 2..]), e[i + EXT - 1], e[i + EXT..i + size]);
      SeenNext(seen, m, left);
      seen := seen + [m];
      i := i + size;
      left := left[1..];
    }
    NoneLeft(left);
    SeenAll(seen);
  }

  lemma SeenNext(seen: seq<Seen>, m: Seen, left: seq<Extension>)
    requires left != [] && m == Seen(left[0].name, left[0].revision, left[0].data)
    ensures (seen + [m]) + AllSeen(left[1..]) == seen + AllSeen(left)
  {
    hide AllSeen;
    assert AllSeen(left) == [m] + AllSeen(left[1..]) by {
      SeenFirst(left);
    }
  }

  lemma SeenFirst(left: seq<Extension>)
    requires left != []
    ensures AllSeen(left) == [Seen(left[0].name, left[0].revision, left[0].data)] + AllSeen(left[1..])
  {
  }

  lemma SeenAll(seen: seq<Seen>)
    ensures seen + AllSeen([]) == seen
  {
  }

  lemma StartWhole(s: seq<byte>, i: nat, x: Extension)
    requires ValidExtension(x) && EXT + |x.data| < 0x1_0000 && Starts(s, i, Body(x))
    ensures U16At(s, i) == |Body(x)| && i + |Body(x)| <= |s|
    ensures Seen(CString(s[i + 2..]), s[i + EXT - 1], s[i + EXT..i + |Body(x)|]) == Seen(x.name, x.revision, x.data)
  {
    hide Body, U16At, CString;
    StartFields(s, i, x);
    hide Starts;
  }

  // ---------------------------------------------------------------------------
  // The comparison.

  /** match_different, on two extensions at the same offset `i` of two blocks; the mask runs along. */
  method ExtensionDiffers(a: seq<byte>, b: seq<byte>, mask: seq<byte>, i: nat,
                          ghost x: Extension, ghost y: Extension)
      returns (different: bool)
    requires ValidExtension(x) && EXT + |x.data| < 0x1_0000 && ValidExtension(y) && EXT + |y.data| < 0x1_0000
    requires Starts(a, i, Body(x)) && Starts(b, i, Body(y)) && Starts(mask, i, ExtensionMask(x))
    ensures different <==> !SameExtension(x, y)
  {
    hide Body, U16At, CString, Differ, ExtensionMask;
    StartFields(a, i, x);
    StartFields(b, i, y);
    StartMask(mask, i, x);
    if U16At(a, i) != U16At(b, i) || CString(a[i + 2..]) != CString(b[i + 2..]) {
      return true;
    }
    var data := i + EXT;
    for j := 0 to U16At(a, i) - EXT
      invariant forall k :: 0 <= k < j && k < x.user ==> x.data[k] == y.data[k]
    {
      DifferMeans(a[data + j], b[data + j]);
      assert a[data + j] == x.data[j] && b[data + j] == y.data[j];
      if Differ(a[data + j], b[data + j], mask[data + j]) {
        return true;
      }
    }
    return false;
  }

  /** `piece` stands at offset `i`. */
  predicate Starts(s: seq<byte>, i: nat, piece: seq<byte>) {
    i + |piece| <= |s| && s[i..] == piece + s[i + |piece|..]
  }

  lemma StartFields(s: seq<byte>, i: nat, x: Extension)
    requires ValidExtension(x) && EXT + |x.data| < 0x1_0000 && Starts(s, i, Body(x))
    ensures U16At(s, i) == EXT + |x.data| && CString(s[i + 2..]) == x.name && s[i + EXT - 1] == x.revision
    ensures forall k :: i + EXT <= k < i + EXT + |x.data| ==> s[k] == x.data[k - i - EXT]
  {
    hide Body, CString;
    BodyFields(x, s[i + |Body(x)|..]);
    assert s[i..][2..] == s[i + 2..];
    assert s[i] == s[i..][0] && s[i + 1] == s[i..][1] && s[i + EXT - 1] == s[i..][EXT - 1];
    forall k | i + EXT <= k < i + EXT + |x.data| ensures s[k] == x.data[k - i - EXT] {
      assert s[k] == s[i..][k - i] == s[i..][EXT + (k - i - EXT)];
    }
  }

  lemma StartMask(mask: seq<byte>, i: nat, x: Extension)
    requires ValidExtension(x) && Starts(mask, i, ExtensionMask(x))
    ensures forall k :: i + EXT <= k < i + EXT + |x.data| ==> mask[k] == (if k < i + EXT + x.user then 0xFF else 0)
  {
    var own := ExtensionMask(x);
    forall k | i + EXT <= k < i + EXT + |x.data| ensures mask[k] == own[k - i] {
      assert mask[k] == mask[i..][k - i];
    }
  }

  /** The comparison of the heads. */
  method SameHeads(a: seq<byte>, b: seq<byte>) returns (same: bool)
    requires |a| >= HEAD && |b| >= HEAD
    ensures same <==> SameHead(a, b)
  {
    hide And;
    if a[..16] != b[..16] || a[80..84] != b[80..84] {
      return false;
    }
    assert forall k :: 0 <= k < 16 ==> a[..16][k] == a[k] && b[..16][k] == b[k];
    assert forall k :: 80 <= k < 84 ==> a[80..84][k - 80] == a[k] && b[80..84][k - 80] == b[k];
    for i := 0 to 16
      invariant forall k :: 48 <= k < 48 + i || 64 <= k < 64 + i ==> a[k] == b[k]
      invariant forall k :: 16 <= k < 16 + i || 32 <= k < 32 + i ==> And(a[k], a[k + 32]) == And(b[k], b[k + 32])
    {
      if a[48 + i] != b[48 + i] || And(a[16 + i], a[48 + i]) != And(b[16 + i], b[48 + i]) {
        return false;
      }
      if a[64 + i] != b[64 + i] || And(a[32 + i], a[64 + i]) != And(b[32 + i], b[64 + i]) {
        return false;
      }
    }
    return true;
  }

  /** The head of an entry: what is_same compares, and the two offsets. */
  lemma EntryHead(r: Rule, s: Rule)
    requires ValidRule(r) && ValidRule(s)
    ensures |Entry(r)| >= HEAD && |Entry(s)| >= HEAD && (SameHead(Entry(r), Entry(s)) <==> SameHead(r.fw, s.fw))
  {
    EntryParts(r);
    EntryParts(s);
    HeadBytes(r);
    HeadBytes(s);
    hide Entry, And;
    var a, b := Entry(r), Entry(s);
    assert forall k :: 0 <= k < 84 ==> a[k] == a[..84][k] == r.fw[k] && b[k] == b[..84][k] == s.fw[k];
  }

  lemma {:induction false} HeadBytes(r: Rule)
    requires ValidRule(r)
    ensures |Entry(r)| >= HEAD && Entry(r)[..84] == r.fw[..84]
    ensures U16At(Entry(r), TARGET_OFFSET) == HEAD + |Bodies(r.matches)|
    ensures U16At(Entry(r), NEXT_OFFSET) == |Entry(r)|
  {
    hide Body, Bodies, U16At;
    var e := Entry(r);
    EntryParts(r);
    var t, n := HEAD + |Bodies(r.matches)|, |e|;
    var tail := r.fw[NEXT_OFFSET + 2..] + (Bodies(r.matches) + Body(r.target));
    assert e[TARGET_OFFSET..] == U16(t) + (U16(n) + tail);
    assert e[NEXT_OFFSET..] == U16(n) + tail;
    U16Read(t, U16(n) + tail);
    U16Read(n, tail);
    U16Shift(e, TARGET_OFFSET);
    U16Shift(e, NEXT_OFFSET);
    hide U16;
  }

  lemma U16Shift(s: seq<byte>, i: nat)
    requires i + 2 <= |s|
    ensures U16At(s[i..], 0) == U16At(s, i)
  {
  }

  /** From `i` on, the block holds these matches and the target. */
  ghost predicate Along(e: seq<byte>, i: nat, left: seq<Extension>, target: Extension)
    requires AllValid(left) && ValidExtension(target)
  {
    i <= |e| && e[i..] == Bodies(left) + Body(target)
  }

  ghost predicate AlongMask(mask: seq<byte>, i: nat, left: seq<Extension>, target: Extension)
    requires AllValid(left) && ValidExtension(target)
  {
    i <= |mask| && mask[i..] == MatchMasks(left) + ExtensionMask(target)
  }

  lemma StartsSplit(s: seq<byte>, i: nat, piece: seq<byte>, tail: seq<byte>)
    requires i <= |s| && s[i..] == piece + tail
    ensures i + |piece| <= |s| && s[i + |piece|..] == tail && Starts(s, i, piece)
  {
    assert |s[i..]| == |piece| + |tail|;
    assert s[i + |piece|..] == s[i..][|piece|..];
  }

  lemma AlongNext(e: seq<byte>, i: nat, left: seq<Extension>, target: Extension)
    requires AllValid(left) && ValidExtension(target) && left != [] && Along(e, i, left, target)
    ensures Starts(e, i, Body(left[0])) && AllValid(left[1..])
    ensures Along(e, i + |Body(left[0])|, left[1..], target)
  {
    hide Body, Bodies, Starts;
    NextBody(left, Body(target), []);
    StartsSplit(e, i, Body(left[0]), Bodies(left[1..]) + Body(target));
  }

  lemma MaskNext(mask: seq<byte>, i: nat, left: seq<Extension>, target: Extension)
    requires AllValid(left) && ValidExtension(target) && left != [] && AlongMask(mask, i, left, target)
    ensures Starts(mask, i, ExtensionMask(left[0])) && AllValid(left[1..])
    ensures AlongMask(mask, i + |Body(left[0])|, left[1..], target)
  {
    hide Bodies, MatchMasks, ExtensionMask, Starts;
    NextBody(left, [], ExtensionMask(target));
    StartsSplit(mask, i, ExtensionMask(left[0]), MatchMasks(left[1..]) + ExtensionMask(target));
  }

  /** Nothing is left but the target. */
  lemma AlongEnd(e: seq<byte>, mask: seq<byte>, i: nat, target: Extension)
    requires ValidExtension(target)
    ensures Along(e, i, [], target) ==> Starts(e, i, Body(target))
    ensures AlongMask(mask, i, [], target) ==> Starts(mask, i, ExtensionMask(target))
  {
    hide Body, ExtensionMask, Starts;
    NoBodies(Body(target));
    NoBodies(ExtensionMask(target));
    if Along(e, i, [], target) {
      assert Body(target) + [] == Body(target);
      StartsSplit(e, i, Body(target), []);
    }
    if AlongMask(mask, i, [], target) {
      assert ExtensionMask(target) + [] == ExtensionMask(target);
      StartsSplit(mask, i, ExtensionMask(target), []);
    }
  }

  lemma AlongStart(r: Rule)
    requires ValidRule(r)
    ensures Along(Entry(r), HEAD, r.matches, r.target)
    ensures AlongMask(Mask(r.matches, r.target), HEAD, r.matches, r.target)
  {
    hide Body, Bodies, Head, Entry, MatchMasks, ExtensionMask;
    EntryParts(r);
  }

  /** Equal matches have equal sizes. */
  lemma {:induction false} SameSizes(a: seq<Extension>, b: seq<Extension>)
    requires AllValid(a) && AllValid(b) && SameMatches(a, b)
    ensures |Bodies(a)| == |Bodies(b)|
  {
    hide Body;
    if a != [] {
      assert forall k :: 0 <= k < |a| - 1 ==> SameExtension(a[1..][k], b[1..][k]) by {
        assert forall k :: 0 <= k < |a| - 1 ==> a[1..][k] == a[k + 1] && b[1..][k] == b[k + 1];
      }
      SameSizes(a[1..], b[1..]);
    }
  }

  lemma SameFirst(a: seq<Extension>, b: seq<Extension>)
    requires AllValid(a) && a != [] && b != []
    ensures SameMatches(a, b) <==> SameExtension(a[0], b[0]) && SameMatches(a[1..], b[1..])
  {
    hide SameExtension;
    assert forall k :: 0 <= k < |a| - 1 ==> a[1..][k] == a[k + 1];
    assert forall k :: 0 <= k < |b| - 1 ==> b[1..][k] == b[k + 1];
    if SameExtension(a[0], b[0]) && SameMatches(a[1..], b[1..]) {
      forall k | 0 <= k < |a| ensures SameExtension(a[k], b[k]) {
        if k > 0 {
          assert SameExtension(a[1..][k - 1], b[1..][k - 1]);
        }
      }
    }
  }

  /** is_same: whether the heads and the matches agree, and where the target's mask starts. */
  method IsSame(a: seq<byte>, b: seq<byte>, mask: seq<byte>, ghost r: Rule, ghost s: Rule)
      returns (same: bool, mptr: nat)
    requires ValidRule(r) && ValidRule(s) && a == Entry(r) && b == Entry(s) && mask == Mask(r.matches, r.target)
    ensures same <==>
      SameHead(r.fw, s.fw) && SameMatches(r.matches, s.matches) && |r.target.data| == |s.target.data|
    ensures same ==> |Bodies(r.matches)| == |Bodies(s.matches)|
    ensures same ==> mptr == HEAD + |Bodies(r.matches)|
    ensures same ==> Along(a, mptr, [], r.target) && Along(b, mptr, [], s.target) && AlongMask(mask, mptr, [], r.target)
  {
    hide Body, Bodies, Entry, U16At, SameHead, SameExtension, Along, AlongMask, Starts, Mask, SameMatches;
    EntryHead(r, s);
    HeadBytes(r);
    HeadBytes(s);
    EntryParts(r);
    EntryParts(s);
    AlongStart(r);
    AlongStart(s);
    if SameMatches(r.matches, s.matches) {
      SameSizes(r.matches, s.matches);
    }
    mptr := HEAD;
    var heads := SameHeads(a, b);
    if !heads {
      return false, mptr;
    }
    if U16At(a, TARGET_OFFSET) != U16At(b, TARGET_OFFSET) || U16At(a, NEXT_OFFSET) != U16At(b, NEXT_OFFSET) {
      return false, mptr;
    }
    ghost var left, others := r.matches, s.matches;
    while mptr < U16At(a, TARGET_OFFSET)
      invariant AllValid(left) && AllValid(others) && mptr >= HEAD
      invariant mptr + |Bodies(left)| == U16At(a, TARGET_OFFSET) == mptr + |Bodies(others)|
      invariant Along(a, mptr, left, r.target) && Along(b, mptr, others, s.target) && AlongMask(mask, mptr, left, r.target)
      invariant SameMatches(r.matches, s.matches) <==> SameMatches(left, others)
      decreases |left|
    {
      SomeLeft(left);
      SomeLeft(others);
      NextBody(left, [], []);
      NextBody(others, [], []);
      AlongNext(a, mptr, left, r.target);
      AlongNext(b, mptr, others, s.target);
      MaskNext(mask, mptr, left, r.target);
      SameFirst(left, others);
      var differs := ExtensionDiffers(a, b, mask, mptr, left[0], others[0]);
      if differs {
        return false, mptr;
      }
      SizeIn(a, mptr, left[0]);
      SameBody(left[0], others[0]);
      mptr := mptr + U16At(a, mptr);
      left, others := left[1..], others[1..];
    }
    NoneLeft(left);
    NoneLeft(others);
    NoMatches();
    return true, mptr;
  }

  lemma NoMatches()
    ensures SameMatches([], [])
  {
  }

  lemma SomeLeft(left: seq<Extension>)
    requires AllValid(left) && |Bodies(left)| > 0
    ensures left != []
  {
  }

  lemma NoneLeft(left: seq<Extension>)
    requires AllValid(left) && |Bodies(left)| == 0
    ensures left == []
  {
  }

  lemma SizeIn(s: seq<byte>, i: nat, x: Extension)
    requires ValidExtension(x) && EXT + |x.data| < 0x1_0000 && Starts(s, i, Body(x))
    ensures U16At(s, i) == |Body(x)|
  {
    StartFields(s, i, x);
    hide Body, U16At, Starts;
  }

  lemma SameBody(x: Extension, y: Extension)
    requires ValidExtension(x) && ValidExtension(y) && SameExtension(x, y)
    ensures |Body(x)| == |Body(y)|
  {
    hide Body;
  }

  /** A rule as it is kept: its entry and its target's kind. */
  datatype Kept = Kept(entry: seq<byte>, kind: Kind)

  ghost predicate Keeps(h: Kept, x: Stored) {
    ValidStored(x) && h.entry == Entry(x.rule) && h.kind == x.kind
  }

  /** The first bytes of a body are its size. */
  lemma BodyStart(t: Extension)
    requires ValidExtension(t)
    ensures Body(t)[..2] == U16(EXT + |t.data|)
  {
    hide U16, Fill;
  }

  /** The last bytes of a body are its data. */
  lemma BodyEnd(t: Extension, k: nat)
    requires ValidExtension(t) && k <= |t.data|
    ensures Body(t)[EXT + k..] == t.data[k..]
  {
    var s := Body(t);
    assert s[EXT..] == t.data;
    hide Body;
    assert s[EXT + k..] == s[EXT..][k..];
  }

  /** Without name and revision there are only zeros between the size and the data. */
  lemma NamelessBody(t: Extension)
    requires ValidExtension(t) && t.name == [] && t.revision == 0
    ensures Body(t) == U16(EXT + |t.data|) + (Fill(NAMELEN + 1, 0) + t.data)
  {
    hide U16;
    assert Fill(NAMELEN + 1, 0) == Fill(NAMELEN, 0) + [0];
    hide Fill;
    var data := t.data;
    assert [] + (Fill(NAMELEN, 0) + ([0] + data)) == (Fill(NAMELEN, 0) + [0]) + data;
  }

  /** A standard target: its size, no name, no revision, its verdict. */
  lemma StandardBody(t: Extension)
    requires ValidExtension(t) && |t.data| == STANDARD_DATA
    ensures Body(Standardized(t)) == Body(t)[..2] + (Fill(NAMELEN + 1, 0) + (Verdict(t.name) + Body(t)[EXT + 4..]))
  {
    hide Body, U16, Fill, Verdict;
    BodyStart(t);
    BodyEnd(t, 4);
    NamelessBody(Standardized(t));
  }

  lemma EntryTarget(r: Rule)
    requires ValidRule(r)
    ensures var off := HEAD + |Bodies(r.matches)|;
      && |Entry(r)| == off + |Body(r.target)| && Entry(r)[off..] == Body(r.target)
      && Starts(Entry(r), off, Body(r.target)) && U16At(Entry(r), TARGET_OFFSET) == off
  {
    hide Body, Bodies, Head, U16At, Entry;
    EntryParts(r);
    HeadBytes(r);
    var e, off := Entry(r), HEAD + |Bodies(r.matches)|;
    assert e[off..] == Body(r.target);
    assert Body(r.target) + [] == Body(r.target);
    StartsSplit(e, off, Body(r.target), []);
  }

  /** Only the target changes. */
  lemma EntryStandardized(r: Rule)
    requires ValidRule(r) && |r.target.data| == STANDARD_DATA
    ensures var off, t := HEAD + |Bodies(r.matches)|, r.(target := Standardized(r.target));
      ValidRule(t) && |Entry(r)| >= off && Entry(t) == Entry(r)[..off] + Body(t.target)
  {
    hide Body, Bodies, Head, Entry;
    StandardizedSize(r);
    EntryParts(r);
    EntryParts(r.(target := Standardized(r.target)));
  }

  /** Four bytes as a signed number, least significant byte first. */
  function Int32(s: seq<byte>): int
    requires |s| == 4
  {
    var a: int, b: int, c: int, d: int := s[0], s[1], s[2], s[3];
    var n := a + 0x100 * b + 0x1_0000 * c + 0x100_0000 * d;
    if n >= 0x8000_0000 then n - 0x1_0000_0000 else n
  }

  /** Where a rule's target has its data. */
  function DataOffset(r: Rule): nat
    requires ValidRule(r)
  {
    HEAD + |Bodies(r.matches)| + EXT
  }

  /** A text as bytes. */
  function BytesOf(s: string): (b: seq<byte>)
    requires forall k :: 0 <= k < |s| ==> s[k] as int <= 0xFF
    ensures |b| == |s| && forall k :: 0 <= k < |s| ==> b[k] == s[k] as int
  {
    seq(|s|, k requires 0 <= k < |s| => s[k] as int)
  }

  /** The verdicts of the four labels, in an entry. */
  ghost predicate HasVerdict(e: seq<byte>, r: Rule)
    requires ValidRule(r)
  {
    && DataOffset(r) + 4 <= |e|
    && (var verdict := Int32(e[DataOffset(r)..DataOffset(r) + 4]);
        && (r.target.name == BytesOf("ACCEPT") ==> verdict == -2)
        && (r.target.name == BytesOf("DROP") ==> verdict == -1)
        && (r.target.name == BytesOf("QUEUE") ==> verdict == -4)
        && (r.target.name == BytesOf("RETURN") ==> verdict == -5))
  }

  lemma VerdictMeans(name: seq<byte>)
    ensures name == BytesOf("ACCEPT") ==> IsLabel(name) && Int32(Verdict(name)) == -2
    ensures name == BytesOf("DROP") ==> IsLabel(name) && Int32(Verdict(name)) == -1
    ensures name == BytesOf("QUEUE") ==> IsLabel(name) && Int32(Verdict(name)) == -4
    ensures name == BytesOf("RETURN") ==> IsLabel(name) && Int32(Verdict(name)) == -5
  {
    assert BytesOf("ACCEPT") == ACCEPT && BytesOf("DROP") == DROP && BytesOf("QUEUE") == QUEUE && BytesOf("RETURN") == RETURN;
  }

  /** The entry of a resolved label holds its verdict. */
  lemma StandardVerdict(r: Rule, builtins: set<seq<byte>>, chains: set<seq<byte>>, k: Kind)
    requires ValidRule(r) && Resolve(r.target, builtins, chains) == Resolved(k)
    ensures var x := StoredFor(r, k);
      ValidStored(x) && (k.Standard? <==> r.target.name in [BytesOf("ACCEPT"), BytesOf("DROP"), BytesOf("QUEUE"), BytesOf("RETURN")])
        && (k.Standard? ==> HasVerdict(Entry(x.rule), r))
  {
    hide Entry, Body, Bodies, Verdict, BytesOf, Int32, AllValid;
    var name := r.target.name;
    LabelNames(name);
    if k.Standard? {
      StandardizedSize(r);
      VerdictMeans(name);
      var s := r.(target := Standardized(r.target));
      EntryTarget(s);
      VerdictAt(Entry(s), HEAD + |Bodies(s.matches)|, s.target);
      assert s.target.data[..4] == Verdict(name);
    }
  }

  lemma LabelNames(name: seq<byte>)
    ensures IsLabel(name) <==> name in [BytesOf("ACCEPT"), BytesOf("DROP"), BytesOf("QUEUE"), BytesOf("RETURN")]
    ensures IsLabel(name) ==> name != []
  {
    assert BytesOf("ACCEPT") == ACCEPT && BytesOf("DROP") == DROP && BytesOf("QUEUE") == QUEUE && BytesOf("RETURN") == RETURN;
  }

  /** iptcc_standard_map: clears the name and what follows it up to the data, and stores the verdict. */
  method MakeStandard(e: array<byte>, t: nat, verdict: seq<byte>, ghost r: Rule)
    requires ValidRule(r) && e[..] == Entry(r) && t == HEAD + |Bodies(r.matches)|
    requires |r.target.data| == STANDARD_DATA && verdict == Verdict(r.target.name)
    modifies e
    ensures ValidRule(r.(target := Standardized(r.target))) && e[..] == Entry(r.(target := Standardized(r.target)))
  {
    hide Body, Bodies, Entry, Starts, Verdict, Standardized, U16At, ValidRule;
    ValidTarget(r);
    ghost var before, body := e[..], Body(r.target);
    EntryTarget(r);
    EntryStandardized(r);
    StandardBody(r.target);
    StandardBytes(before, t, body, Fill(NAMELEN + 1, 0), verdict);
    Copy(e, t + 2, Fill(NAMELEN + 1, 0));
    Copy(e, t + EXT, verdict);
  }

  /** Two copies next to each other, inside the body that ends a block. */
  lemma StandardBytes(before: seq<byte>, t: nat, body: seq<byte>, zeros: seq<byte>, verdict: seq<byte>)
    requires t <= |before| && before[t..] == body && |body| >= EXT + 4 && |zeros| == EXT - 2 && |verdict| == 4
    ensures var once := before[..t + 2] + (zeros + before[t + EXT..]);
      |once| == |before|
      && once[..t + EXT] + (verdict + once[t + EXT + 4..]) == before[..t] + (body[..2] + (zeros + (verdict + body[EXT + 4..])))
  {
    var once := before[..t + 2] + (zeros + before[t + EXT..]);
    assert before[..t + 2] == before[..t] + body[..2];
    assert once[..t + EXT] == before[..t] + (body[..2] + zeros);
    assert once[t + EXT + 4..] == before[t + EXT + 4..] == body[EXT + 4..];
  }

  /** iptcc_map_target on a copy of an entry. */
  method MapTarget(e: array<byte>, builtins: set<seq<byte>>, chains: set<seq<byte>>, ghost r: Rule) returns (found: Resolved)
    requires ValidRule(r) && e[..] == Entry(r)
    modifies e
    ensures found == Resolve(r.target, builtins, chains)
    ensures found.Resolved? ==>
      var x := StoredFor(r, found.kind); ValidStored(x) && e[..] == Entry(x.rule)
    ensures found == Resolved(Standard) ==> HasVerdict(e[..], r)
  {
    hide Body, Bodies, Entry, U16At, CString, Starts, Verdict, Standardized;
    EntryTarget(r);
    var t := U16At(e[..], TARGET_OFFSET);
    StartFields(e[..], t, r.target);
    var name := CString(e[t + 2..]);
    assert e[t + 2..] == e[..][t + 2..];
    if name == [] {
      return Resolved(FallThrough);
    }
    if IsLabel(name) {
      if U16At(e[..], t) != EXT + STANDARD_DATA {
        return Refused;
      }
      MakeStandard(e, t, Verdict(name), r);
      StandardizedSize(r);
      StandardVerdict(r, builtins, chains, Standard);
      return Resolved(Standard);
    }
    if name in builtins {
      return Refused;
    }
    found := Resolved(if name in chains then Jump(name) else Module);
  }

  /** target_same, where the targets start at `t`. */
  method TargetSame(a: Kept, b: Kept, mask: seq<byte>, t: nat, ghost x: Stored, ghost y: Stored) returns (same: bool)
    requires ValidStored(x) && ValidStored(y) && a.kind == x.kind && b.kind == y.kind
    requires EXT + |x.rule.target.data| < 0x1_0000 && EXT + |y.rule.target.data| < 0x1_0000
    requires Starts(a.entry, t, Body(x.rule.target)) && Starts(b.entry, t, Body(y.rule.target))
    requires Starts(mask, t, ExtensionMask(x.rule.target))
    ensures same <==> SameTarget(x, y)
  {
    hide Body, U16At, CString, ExtensionMask, Starts, SameExtension, ValidRule;
    assert ValidExtension(x.rule.target) && ValidExtension(y.rule.target) by {
      ValidTarget(x.rule);
      ValidTarget(y.rule);
    }
    if a.kind != b.kind {
      return false;
    }
    match a.kind
    case FallThrough => same := true;
    case Jump(_) => same := true;
    case Standard =>
      VerdictAt(a.entry, t, x.rule.target);
      VerdictAt(b.entry, t, y.rule.target);
      same := a.entry[t + EXT..t + EXT + 4] == b.entry[t + EXT..t + EXT + 4];
    case Module =>
      var differs := ExtensionDiffers(a.entry, b.entry, mask, t, x.rule.target, y.rule.target);
      same := !differs;
  }

  lemma ValidTarget(r: Rule)
    requires ValidRule(r)
    ensures ValidExtension(r.target)
  {
  }

  lemma VerdictAt(s: seq<byte>, i: nat, x: Extension)
    requires ValidExtension(x) && |x.data| == STANDARD_DATA && Starts(s, i, Body(x))
    ensures i + EXT + 4 <= |s| && s[i + EXT..i + EXT + 4] == x.data[..4]
  {
    hide Body, U16At, CString;
    StartFields(s, i, x);
  }

  /** is_same and then target_same. */
  method Same(a: Kept, b: Kept, mask: seq<byte>, ghost x: Stored, ghost y: Stored) returns (same: bool)
    requires Keeps(a, x) && Keeps(b, y) && mask == Mask(x.rule.matches, x.rule.target)
    ensures same <==> SameStored(x, y)
  {
    hide Body, Bodies, Entry, SameHead, SameExtension, Along, AlongMask, Starts, Mask, SameMatches, SameTarget;
    var mptr;
    same, mptr := IsSame(a.entry, b.entry, mask, x.rule, y.rule);
    if same {
      AlongEnd(a.entry, mask, mptr, x.rule.target);
      AlongEnd(b.entry, mask, mptr, y.rule.target);
      same := TargetSame(a, b, mask, mptr, x, y);
    }
  }

  predicate AllStored(list: seq<Stored>) {
    forall k :: 0 <= k < |list| ==> ValidStored(list[k])
  }

  /** The list without the first rule that is the same as `x`. */
  ghost function Without(x: Stored, list: seq<Stored>): (left: seq<Stored>)
    requires ValidStored(x) && AllStored(list)
  {
    if list == [] then []
    else if SameStored(x, list[0]) then list[1..]
    else [list[0]] + Without(x, list[1..])
  }

  lemma {:induction false} WithoutAt(x: Stored, list: seq<Stored>, k: nat)
    requires ValidStored(x) && AllStored(list) && k <= |list|
    requires forall j :: 0 <= j < k ==> !SameStored(x, list[j])
    ensures k == |list| ==> Without(x, list) == list
    ensures k < |list| && SameStored(x, list[k]) ==> Without(x, list) == list[..k] + list[k + 1..]
  {
    hide SameStored, ValidStored;
    if k > 0 {
      WithoutAt(x, list[1..], k - 1);
      assert k < |list| ==> list[..k] + list[k + 1..] == [list[0]] + (list[1..][..k - 1] + list[1..][k..]);
    }
  }

  /** Deleting a rule that was just appended gives the chain back, unless an earlier rule is the same: then
      that one goes and the new one stays. */
  lemma {:induction false} DeleteAfterAppend(x: Stored, list: seq<Stored>, k: nat)
    requires ValidStored(x) && AllStored(list) && k <= |list|
    requires forall j :: 0 <= j < k ==> !SameStored(x, list[j])
    ensures k == |list| ==> Without(x, list + [x]) == list
    ensures k < |list| && SameStored(x, list[k]) ==> Without(x, list + [x]) == list[..k] + (list[k + 1..] + [x])
  {
    var longer := list + [x];
    SameItself(x);
    hide SameStored, ValidStored, Without;
    assert forall j :: 0 <= j < k ==> longer[j] == list[j];
    WithoutAt(x, longer, k);
    assert longer[..k] == list[..k] && longer[k + 1..] == if k < |list| then list[k + 1..] + [x] else [];
    assert list[..|list|] + [] == list;
  }

  lemma SameItself(x: Stored)
    requires ValidStored(x)
    ensures SameStored(x, x)
  {
  }

  /** A chain of libiptc. The chains a name can mean are those that exist when a rule is added or
      looked for. */
  class Chain {
    var entries: seq<Kept>
    ghost var rules: seq<Stored>

    constructor (entries: seq<Kept>, ghost rules: seq<Stored>)
      requires |entries| == |rules| && forall k :: 0 <= k < |rules| ==> Keeps(entries[k], rules[k])
      ensures Valid() && this.rules == rules
    {
      this.entries, this.rules := entries, rules;
    }

    ghost predicate Valid()
      reads this
    {
      |entries| == |rules| && forall k :: 0 <= k < |rules| ==> Keeps(entries[k], rules[k])
    }

    /** The rule made from an entry: its own copy, with the target's name resolved. */
    method Make(e: seq<byte>, builtins: set<seq<byte>>, chains: set<seq<byte>>, ghost r: Rule)
      returns (found: Resolved, kept: Kept)
      requires ValidRule(r) && e == Entry(r)
      ensures found == Resolve(r.target, builtins, chains)
      ensures found.Resolved? ==> kept.kind == found.kind && Keeps(kept, StoredFor(r, found.kind))
      ensures found == Resolved(Standard) ==> HasVerdict(kept.entry, r)
    {
      hide Entry, ValidRule, HasVerdict;
      var copy := new byte[|e|](i requires 0 <= i < |e| => e[i]);
      assert copy[..] == e;
      found := MapTarget(copy, builtins, chains, r);
      kept := Kept(copy[..], if found.Resolved? then found.kind else FallThrough);
    }

    /** Appends a rule, unless its target is refused. */
    method Append(e: seq<byte>, builtins: set<seq<byte>>, chains: set<seq<byte>>, ghost r: Rule) returns (ok: bool)
      requires Valid() && ValidRule(r) && e == Entry(r)
      modifies this
      ensures Valid()
      ensures var found := Resolve(r.target, builtins, chains);
        && (ok <==> found.Resolved?)
        && rules == (if found.Resolved? then old(rules) + [StoredFor(r, found.kind)] else old(rules))
        && (found == Resolved(Standard) ==> HasVerdict(entries[|entries| - 1].entry, r))
    {
      hide Entry, ValidRule, Keeps, HasVerdict;
      var found, kept := Make(e, builtins, chains, r);
      ok := found.Resolved?;
      if ok {
        entries, rules := entries + [kept], rules + [StoredFor(r, found.kind)];
      }
    }

    /** delete_entry of libiptc: the first rule that is the same is removed, or only looked for. */
    method DeleteEntry(e: seq<byte>, mask: seq<byte>, dryRun: bool, builtins: set<seq<byte>>, chains: set<seq<byte>>,
                       ghost r: Rule)
      returns (found: bool)
      requires Valid() && ValidRule(r) && e == Entry(r) && mask == Mask(r.matches, r.target)
      modifies this
      ensures Valid() && AllStored(old(rules))
      ensures var kind := Resolve(r.target, builtins, chains);
        if kind.Refused? then !found && rules == old(rules)
        else
          var x := StoredFor(r, kind.kind);
          && ValidStored(x)
          && (found <==> exists k :: 0 <= k < |old(rules)| && SameStored(x, old(rules)[k]))
          && rules == if dryRun then old(rules) else Without(x, old(rules))
    {
      hide SameStored, Entry, Mask, ValidRule;
      var kind, kept := Make(e, builtins, chains, r);
      if kind.Refused? {
        return false;
      }
      ghost var x := StoredFor(r, kind.kind);
      MaskKept(r, kind.kind);
      for k := 0 to |entries|
        invariant Valid() && rules == old(rules) && entries == old(entries)
        invariant forall j :: 0 <= j < k ==> !SameStored(x, rules[j])
      {
        var same := Same(kept, entries[k], mask, x, rules[k]);
        if same {
          WithoutAt(x, rules, k);
          if !dryRun {
            entries, rules := entries[..k] + entries[k + 1..], rules[..k] + rules[k + 1..];
          }
          return true;
        }
      }
      WithoutAt(x, rules, |rules|);
      return false;
    }
  }

  /** Resolving the target does not change the mask. */
  lemma MaskKept(r: Rule, kind: Kind)
    requires ValidRule(r) && (kind.Standard? ==> |r.target.data| == STANDARD_DATA)
    ensures var x := StoredFor(r, kind).rule;
      ValidExtension(x.target) && Mask(x.matches, x.target) == Mask(r.matches, r.target)
  {
    hide MatchMasks;
  }

  // ---------------------------------------------------------------------------
  // Agreement of two whole entries under the mask, which the comparison falls short of.

  ghost predicate Agree(a: seq<byte>, b: seq<byte>, mask: seq<byte>) {
    |a| == |b| == |mask| && forall k :: 0 <= k < |a| ==> !Differ(a[k], b[k], mask[k])
  }

  /** The same extension, and of the same revision. */
  predicate SameToTheRevision(x: Extension, y: Extension)
    requires x.user <= |x.data|
  {
    SameExtension(x, y) && x.revision == y.revision
  }

  predicate AllSameToTheRevision(a: seq<Extension>, b: seq<Extension>)
    requires AllValid(a)
  {
    |a| == |b| && forall k :: 0 <= k < |a| ==> SameToTheRevision(a[k], b[k])
  }

  /** All of the head but the two offsets. */
  predicate EqualHeads(a: seq<byte>, b: seq<byte>)
    requires |a| == HEAD && |b| == HEAD
  {
    a[..TARGET_OFFSET] == b[..TARGET_OFFSET] && a[NEXT_OFFSET + 2..] == b[NEXT_OFFSET + 2..]
  }

  lemma AgreeConcat(a: seq<byte>, b: seq<byte>, m: seq<byte>, x: seq<byte>, y: seq<byte>, n: seq<byte>)
    requires |a| == |b| == |m|
    ensures Agree(a + x, b + y, m + n) <==> Agree(a, b, m) && Agree(x, y, n)
  {
    hide Differ;
    if Agree(a + x, b + y, m + n) {
      forall k | 0 <= k < |a|
        ensures !Differ(a[k], b[k], m[k])
      {
        assert (a + x)[k] == a[k] && (b + y)[k] == b[k] && (m + n)[k] == m[k];
      }
      forall k | 0 <= k < |x|
        ensures !Differ(x[k], y[k], n[k])
      {
        assert (a + x)[|a| + k] == x[k] && (b + y)[|a| + k] == y[k] && (m + n)[|a| + k] == n[k];
      }
    }
  }

  lemma AgreeFull(a: seq<byte>, b: seq<byte>)
    ensures Agree(a, b, Fill(|a|, 0xFF)) <==> a == b
  {
    hide Differ;
    forall x: byte, y: byte
      ensures Differ(x, y, 0xFF) <==> x != y
    {
      DifferMeans(x, y);
    }
  }

  lemma AgreeBlank(a: seq<byte>, b: seq<byte>)
    ensures Agree(a, b, Fill(|a|, 0)) <==> |a| == |b|
  {
    hide Differ;
    forall x: byte, y: byte
      ensures !Differ(x, y, 0)
    {
      DifferMeans(x, y);
    }
  }

  /** The header: size, name with its padding, revision. */
  function Header(x: Extension): (s: seq<byte>)
    requires |x.name| <= NAMELEN
    ensures |s| == EXT
  {
    U16(EXT + |x.data|) + (x.name + (Fill(NAMELEN - |x.name|, 0) + [x.revision]))
  }

  lemma BodyHeader(x: Extension)
    requires ValidExtension(x)
    ensures Body(x) == Header(x) + x.data
  {
    hide U16, Fill;
    var zeros := Fill(NAMELEN - |x.name|, 0);
    assert (zeros + [x.revision]) + x.data == zeros + ([x.revision] + x.data);
    assert (x.name + (zeros + [x.revision])) + x.data == x.name + ((zeros + [x.revision]) + x.data);
  }

  /** The header determines its fields. */
  lemma HeaderFields(x: Extension, y: Extension)
    requires ValidExtension(x) && ValidExtension(y) && EXT + |x.data| < 0x1_0000 && EXT + |y.data| < 0x1_0000
    ensures Header(x) == Header(y) <==> x.name == y.name && |x.data| == |y.data| && x.revision == y.revision
  {
    if Header(x) == Header(y) {
      HeaderReads(x);
      HeaderReads(y);
    }
  }

  lemma HeaderReads(x: Extension)
    requires ValidExtension(x) && EXT + |x.data| < 0x1_0000
    ensures var s := Header(x); U16At(s, 0) == EXT + |x.data| && CString(s[2..]) == x.name && s[EXT - 1] == x.revision
  {
    hide U16, U16At, CString;
    var s, rest := Header(x), Fill(NAMELEN - |x.name|, 0) + [x.revision];
    U16Read(EXT + |x.data|, x.name + rest);
    assert s[2..] == x.name + rest;
    CStringIs(x.name, rest);
  }

  /** Bodies of the same length agree under the mask of one when header and userspace data are equal. */
  lemma AgreeBody(x: Extension, y: Extension)
    requires ValidExtension(x) && ValidExtension(y) && EXT + |x.data| < 0x1_0000 && |x.data| == |y.data|
    ensures Agree(Body(x), Body(y), ExtensionMask(x)) <==> SameToTheRevision(x, y)
  {
    hide Body, Header, Agree;
    BodyHeader(x);
    BodyHeader(y);
    HeaderFields(x, y);
    var u := x.user;
    var full, blank := Fill(u, 0xFF), Fill(|x.data| - u, 0);
    assert ExtensionMask(x) == Fill(EXT, 0xFF) + (full + blank);
    assert x.data == x.data[..u] + x.data[u..] && y.data == y.data[..u] + y.data[u..];
    AgreeConcat(Header(x), Header(y), Fill(EXT, 0xFF), x.data, y.data, full + blank);
    AgreeConcat(x.data[..u], y.data[..u], full, x.data[u..], y.data[u..], blank);
    AgreeFull(Header(x), Header(y));
    AgreeFull(x.data[..u], y.data[..u]);
    AgreeBlank(x.data[u..], y.data[u..]);
  }

  /** Blocks that agree start with bodies of the same size. */
  lemma AgreeSize(x: Extension, y: Extension, p: seq<byte>, q: seq<byte>, n: seq<byte>)
    requires ValidExtension(x) && ValidExtension(y) && EXT + |x.data| < 0x1_0000 && EXT + |y.data| < 0x1_0000
    requires Agree(Body(x) + p, Body(y) + q, ExtensionMask(x) + n)
    ensures |x.data| == |y.data|
  {
    hide Body, Agree;
    SizeField(x);
    SizeField(y);
    var a, b, m := Body(x), Body(y), ExtensionMask(x);
    assert m[..2] == Fill(2, 0xFF);
    assert a + p == a[..2] + (a[2..] + p) && b + q == b[..2] + (b[2..] + q) && m + n == Fill(2, 0xFF) + (m[2..] + n);
    AgreeConcat(a[..2], b[..2], Fill(2, 0xFF), a[2..] + p, b[2..] + q, m[2..] + n);
    AgreeFull(a[..2], b[..2]);
    assert a[0] == a[..2][0] && a[1] == a[..2][1] && b[0] == b[..2][0] && b[1] == b[..2][1];
  }

  lemma {:induction false} AgreeBodies(a: seq<Extension>, b: seq<Extension>)
    requires AllValid(a) && AllValid(b) && |Bodies(a)| == |Bodies(b)| < 0x1_0000
    ensures Agree(Bodies(a), Bodies(b), MatchMasks(a)) <==> AllSameToTheRevision(a, b)
    decreases |a|
  {
    hide Body, Agree, ExtensionMask, Bodies, MatchMasks, AllSameToTheRevision;
    if a == [] {
      NoneAgree(b);
    } else {
      NextBody(a, [], []);
      SomeLeft(b);
      NextBody(b, [], []);
      FirstToTheRevision(a, b);
      FirstBody(a);
      FirstBody(b);
      if |a[0].data| == |b[0].data| {
        AgreeConcat(Body(a[0]), Body(b[0]), ExtensionMask(a[0]), Bodies(a[1..]), Bodies(b[1..]), MatchMasks(a[1..]));
        AgreeBody(a[0], b[0]);
        AgreeBodies(a[1..], b[1..]);
      } else if Agree(Bodies(a), Bodies(b), MatchMasks(a)) {
        AgreeSize(a[0], b[0], Bodies(a[1..]), Bodies(b[1..]), MatchMasks(a[1..]));
      }
    }
  }

  lemma NoneAgree(b: seq<Extension>)
    requires AllValid(b) && |Bodies(b)| == |Bodies([])|
    ensures Agree(Bodies([]), Bodies(b), MatchMasks([])) && AllSameToTheRevision([], b)
  {
  }

  lemma FirstBody(left: seq<Extension>)
    requires AllValid(left) && left != []
    ensures AllValid(left[1..]) && Bodies(left) == Body(left[0]) + Bodies(left[1..])
    ensures MatchMasks(left) == ExtensionMask(left[0]) + MatchMasks(left[1..])
  {
    hide Body, ExtensionMask;
  }

  lemma FirstToTheRevision(a: seq<Extension>, b: seq<Extension>)
    requires AllValid(a) && a != [] && b != []
    ensures AllSameToTheRevision(a, b) <==> SameToTheRevision(a[0], b[0]) && AllSameToTheRevision(a[1..], b[1..])
  {
    hide SameToTheRevision;
    assert forall k :: 0 <= k < |a| - 1 ==> a[1..][k] == a[k + 1];
    assert forall k :: 0 <= k < |b| - 1 ==> b[1..][k] == b[k + 1];
    if SameToTheRevision(a[0], b[0]) && AllSameToTheRevision(a[1..], b[1..]) {
      forall k | 0 <= k < |a|
        ensures SameToTheRevision(a[k], b[k])
      {
        if k > 0 {
          assert SameToTheRevision(a[1..][k - 1], b[1..][k - 1]);
        }
      }
    }
  }

  /** Two generated entries agree under the delete mask of the first exactly when their heads are equal
      and their matches and targets are the same to the revision. */
  lemma AgreeMeans(r: Rule, s: Rule)
    requires ValidRule(r) && ValidRule(s)
    ensures Agree(Entry(r), Entry(s), Mask(r.matches, r.target)) <==>
      EqualHeads(r.fw, s.fw) && AllSameToTheRevision(r.matches, s.matches) && SameToTheRevision(r.target, s.target)
  {
    hide Body, Bodies, Entry, Head, Agree, ExtensionMask, MatchMasks, EqualHeads, SameToTheRevision, AllSameToTheRevision;
    EntryParts(r);
    EntryParts(s);
    var t, n := HEAD + |Bodies(r.matches)|, |Entry(r)|;
    var t', n' := HEAD + |Bodies(s.matches)|, |Entry(s)|;
    var head, head' := Head(r.fw, t, n), Head(s.fw, t', n');
    var rest, rest' := Bodies(r.matches) + Body(r.target), Bodies(s.matches) + Body(s.target);
    var mask := MatchMasks(r.matches) + ExtensionMask(r.target);
    AgreeConcat(head, head', Fill(HEAD, 0xFF), rest, rest', mask);
    AgreeFull(head, head');
    HeadsMean(r.fw, s.fw, t, n, t', n');
    if t == t' && n == n' {
      AgreeConcat(Bodies(r.matches), Bodies(s.matches), MatchMasks(r.matches), Body(r.target), Body(s.target), ExtensionMask(r.target));
      AgreeBodies(r.matches, s.matches);
      AgreeBody(r.target, s.target);
    } else if AllSameToTheRevision(r.matches, s.matches) && SameToTheRevision(r.target, s.target) {
      SameAsStored(r, s);
      SameSizes(r.matches, s.matches);
    }
  }

  lemma HeadsMean(a: seq<byte>, b: seq<byte>, t: nat, n: nat, t': nat, n': nat)
    requires |a| == HEAD && |b| == HEAD && t < 0x1_0000 && n < 0x1_0000 && t' < 0x1_0000 && n' < 0x1_0000
    ensures Head(a, t, n) == Head(b, t', n') <==> EqualHeads(a, b) && t == t' && n == n'
  {
    hide U16, U16At;
    var x, y := Head(a, t, n), Head(b, t', n');
    var tail, tail' := a[NEXT_OFFSET + 2..], b[NEXT_OFFSET + 2..];
    if x == y {
      U16Read(t, U16(n) + tail);
      U16Read(n, tail);
      U16Read(t', U16(n') + tail');
      U16Read(n', tail');
      assert x[TARGET_OFFSET..] == U16(t) + (U16(n) + tail) && y[TARGET_OFFSET..] == U16(t') + (U16(n') + tail');
      assert x[NEXT_OFFSET..] == U16(n) + tail && y[NEXT_OFFSET..] == U16(n') + tail';
      assert x[..TARGET_OFFSET] == a[..TARGET_OFFSET] && y[..TARGET_OFFSET] == b[..TARGET_OFFSET];
      assert x[NEXT_OFFSET + 2..] == tail && y[NEXT_OFFSET + 2..] == tail';
    }
  }

  lemma SameAsStored(r: Rule, s: Rule)
    requires ValidRule(r) && ValidRule(s)
    requires AllSameToTheRevision(r.matches, s.matches) && SameToTheRevision(r.target, s.target)
    ensures SameMatches(r.matches, s.matches) && SameExtension(r.target, s.target)
    ensures |Body(r.target)| == |Body(s.target)|
  {
    hide Body;
  }

  /** The comparison of rules with extension targets is that agreement, but for revisions and for what it
      leaves out of the head. */
  lemma AgreeIsSame(r: Rule, s: Rule)
    requires ValidRule(r) && ValidRule(s)
    ensures Agree(Entry(r), Entry(s), Mask(r.matches, r.target)) <==>
      && SameStored(Stored(r, Module), Stored(s, Module)) && EqualHeads(r.fw, s.fw)
      && (forall k :: 0 <= k < |r.matches| && k < |s.matches| ==> r.matches[k].revision == s.matches[k].revision)
      && r.target.revision == s.target.revision
  {
    hide Body, Bodies, Entry, Agree, Mask, SameExtension, SameHead, EqualHeads;
    AgreeMeans(r, s);
    if EqualHeads(r.fw, s.fw) {
      EqualIsSame(r.fw, s.fw);
    }
    if SameExtension(r.target, s.target) {
      SameBody(r.target, s.target);
    }
  }

  lemma EqualIsSame(a: seq<byte>, b: seq<byte>)
    requires |a| == HEAD && |b| == HEAD && EqualHeads(a, b)
    ensures SameHead(a, b)
  {
    hide And;
    assert forall k :: 0 <= k < TARGET_OFFSET ==> a[k] == a[..TARGET_OFFSET][k] && b[k] == b[..TARGET_OFFSET][k];
  }

  /** A rule with another revision of its target compares the same, although the entries do not agree
      under the mask: deleting one can delete the other. */
  lemma RevisionIgnored(r: Rule, revision: byte)
    requires ValidRule(r) && revision != r.target.revision
    ensures var s := r.(target := r.target.(revision := revision));
      && ValidRule(s) && SameStored(Stored(r, Module), Stored(s, Module))
      && !Agree(Entry(r), Entry(s), Mask(r.matches, r.target))
  {
    var s := r.(target := r.target.(revision := revision));
    assert |Body(s.target)| == |Body(r.target)|;
    hide Entry, Agree, Mask, Body, Bodies;
    SameItself(Stored(r, Module));
    AgreeIsSame(r, s);
  }

  // ---------------------------------------------------------------------------
  // What the comparison of heads means for their fields.

  /** struct ipt_ip, field by field. */
  datatype Ip = Ip(src: seq<byte>, dst: seq<byte>, smsk: seq<byte>, dmsk: seq<byte>, iniface: seq<byte>, outiface: seq<byte>,
                   inifaceMask: seq<byte>, outifaceMask: seq<byte>, proto: seq<byte>, flags: byte, invflags: byte)

  predicate ValidIp(ip: Ip) {
    && |ip.src| == |ip.dst| == |ip.smsk| == |ip.dmsk| == 4 && |ip.proto| == 2
    && |ip.iniface| == |ip.outiface| == |ip.inifaceMask| == |ip.outifaceMask| == 16
  }

  /** The fields in the order of the structure. */
  function IpBytes(ip: Ip): (s: seq<byte>)
    requires ValidIp(ip)
    ensures |s| == 84
  {
    ip.src + ip.dst + ip.smsk + ip.dmsk + ip.iniface + ip.outiface + ip.inifaceMask + ip.outifaceMask + ip.proto
    + [ip.flags, ip.invflags]
  }

  lemma IpFields(ip: Ip, rest: seq<byte>)
    requires ValidIp(ip)
    ensures var s := IpBytes(ip) + rest;
      && s[0..4] == ip.src && s[4..8] == ip.dst && s[8..12] == ip.smsk && s[12..16] == ip.dmsk
      && s[16..32] == ip.iniface && s[32..48] == ip.outiface && s[48..64] == ip.inifaceMask && s[64..80] == ip.outifaceMask
      && s[80..82] == ip.proto && s[82] == ip.flags && s[83] == ip.invflags
  {
  }

  /** Interface names are compared where their masks have a bit. */
  ghost predicate SameName(a: seq<byte>, aMask: seq<byte>, b: seq<byte>, bMask: seq<byte>)
    requires |a| == |aMask| == |b| == |bMask|
  {
    aMask == bMask && forall k :: 0 <= k < |a| ==> And(a[k], aMask[k]) == And(b[k], bMask[k])
  }

  /** Heads compare the same exactly when addresses, address masks, protocol, flags and inverse flags are equal
      and the interface names are the same under equal masks; nothing else in them matters. */
  lemma SameHeadMeans(a: Ip, b: Ip, x: seq<byte>, y: seq<byte>)
    requires ValidIp(a) && ValidIp(b) && |x| == |y| == HEAD - 84
    ensures SameHead(IpBytes(a) + x, IpBytes(b) + y) <==>
      && a.src == b.src && a.dst == b.dst && a.smsk == b.smsk && a.dmsk == b.dmsk
      && a.proto == b.proto && a.flags == b.flags && a.invflags == b.invflags
      && SameName(a.iniface, a.inifaceMask, b.iniface, b.inifaceMask)
      && SameName(a.outiface, a.outifaceMask, b.outiface, b.outifaceMask)
  {
    hide And, IpBytes;
    IpFields(a, x);
    IpFields(b, y);
    var s, t := IpBytes(a) + x, IpBytes(b) + y;
    Slices(s, t);
    hide ValidIp;
  }

  /** Equal slices are equal bytes. */
  lemma SliceMeans(s: seq<byte>, t: seq<byte>, i: nat, j: nat)
    requires i <= j <= |s| == |t|
    ensures s[i..j] == t[i..j] <==> forall k :: i <= k < j ==> s[k] == t[k]
  {
    if s[i..j] == t[i..j] {
      assert forall k :: i <= k < j ==> s[k] == s[i..j][k - i] && t[k] == t[i..j][k - i];
    }
  }

  lemma NameMeans(s: seq<byte>, t: seq<byte>, i: nat)
    requires i + 48 <= |s| == |t|
    ensures SameName(s[i..i + 16], s[i + 32..i + 48], t[i..i + 16], t[i + 32..i + 48]) <==>
      && (forall k :: i + 32 <= k < i + 48 ==> s[k] == t[k])
      && forall k :: i <= k < i + 16 ==> And(s[k], s[k + 32]) == And(t[k], t[k + 32])
  {
    hide And;
    SliceMeans(s, t, i + 32, i + 48);
    var a, m, b, n := s[i..i + 16], s[i + 32..i + 48], t[i..i + 16], t[i + 32..i + 48];
    assert forall k :: 0 <= k < 16 ==> a[k] == s[i + k] && m[k] == s[i + k + 32] && b[k] == t[i + k] && n[k] == t[i + k + 32];
    if SameName(a, m, b, n) {
      forall k | i <= k < i + 16
        ensures And(s[k], s[k + 32]) == And(t[k], t[k + 32])
      {
        assert And(a[k - i], m[k - i]) == And(b[k - i], n[k - i]);
      }
    }
  }

  lemma Slices(s: seq<byte>, t: seq<byte>)
    requires |s| == |t| == HEAD
    ensures SameHead(s, t) <==>
      && s[0..4] == t[0..4] && s[4..8] == t[4..8] && s[8..12] == t[8..12] && s[12..16] == t[12..16]
      && s[80..82] == t[80..82] && s[82] == t[82] && s[83] == t[83]
      && SameName(s[16..32], s[48..64], t[16..32], t[48..64]) && SameName(s[32..48], s[64..80], t[32..48], t[64..80])
  {
    hide And, SameName;
    SliceMeans(s, t, 0, 4);
    SliceMeans(s, t, 4, 8);
    SliceMeans(s, t, 8, 12);
    SliceMeans(s, t, 12, 16);
    SliceMeans(s, t, 80, 82);
    NameMeans(s, t, 16);
    NameMeans(s, t, 32);
  }
}
