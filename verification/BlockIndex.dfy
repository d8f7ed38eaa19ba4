/**
 The two indexes of translation blocks (peep/jumptable2.c, peep/tb.c) and the lookup-or-translate
 step of bt_main.c: two red-black trees over one sentinel, ordered by guest range and by code range.
 */
module BlockIndex {
  import opened Common
  import opened RbShape
  import opened RbTree
  import opened Translation

  // ---------- comparisons ----------

  /** tb_less */
  predicate TbLess(a: Block, b: Block) {
    a.endEip < b.eipVirt
  }

  /** The length of the block's code, its last code boundary. */
  function CodeSize(b: Block): int {
    if b.numInsns < |b.tcB| then b.tcB[b.numInsns] else 0
  }

  /** tc_less */
  predicate TcLess(a: Block, b: Block) {
    a.tcPtr + CodeSize(a) <= b.tcPtr
  }

  /** The key that jumptable2_find looks up. */
  function EipProbe(eip: int): Block {
    Block(eip, eip, 0, 0, 0, [], [])
  }

  /** The key that tb_find looks up. */
  function TcProbe(tc: int): Block {
    Block(0, 0, tc, 0, 0, [], [1])
  }

  /** `eip` is from the first byte of the block's first instruction to the first byte of its last. */
  predicate Covers(b: Block, eip: int) {
    b.eipVirt <= eip <= b.endEip
  }

  predicate HoldsCode(b: Block, tc: int) {
    b.tcPtr <= tc < b.tcPtr + CodeSize(b)
  }

  // ---------- guest order ----------

  /** The block has guest bytes, and every block starts after the one before it. */
  ghost predicate ByStart(s: seq<Block>) {
    && (forall i :: 0 <= i < |s| ==> s[i].eipVirt <= s[i].endEip)
    && (forall i, j :: 0 <= i < j < |s| ==> s[i].eipVirt < s[j].eipVirt)
  }

  ghost predicate EndsRise(s: seq<Block>) {
    forall i, j :: 0 <= i < j < |s| ==> s[i].endEip <= s[j].endEip
  }

  /** The blocks less than `e` come first, the blocks that `e` is less than come last. */
  ghost predicate Divides(s: seq<Block>, less: (Block, Block) -> bool, e: Block) {
    forall i, j :: 0 <= i < j < |s| ==>
                     (less(s[j], e) ==> less(s[i], e)) && (less(e, s[i]) ==> less(e, s[j]))
  }

  // ---------- lookups in a tree of blocks ----------

  /** Where a block stands to the key `e`. */
  ghost function SideOf(e: Block): Block -> Side {
    (b: Block) => if TbLess(b, e) then Below else if TbLess(e, b) then Above else Same
  }

  /** The place of the block that a lookup of `eip` returns: the way down of rbtree_find and the way back
      of find_first_equal_entry. */
  ghost function Lookup(s: Shape<Block>, eip: int): (i: Option<nat>)
    ensures i.Some? ==> i.value < |Inorder(s)|
  {
    var side := SideOf(EipProbe(eip));
    var i := Way(s, side);
    if i.None? then None else Some(WayBack(Inorder(s), i.value, side))
  }

  /** No block covers `eip`, or the one at `r` is the first that does. */
  ghost predicate IsLowestCover(s: seq<Block>, eip: int, r: Option<nat>)
  {
    match r
    case None => forall i :: 0 <= i < |s| ==> !Covers(s[i], eip)
    case Some(k) => k < |s| && Covers(s[k], eip) && forall i :: 0 <= i < k ==> !Covers(s[i], eip)
  }

  /** The block at `i` ends after all before it: it is the first that covers its own end. */
  ghost predicate Leads(s: seq<Block>, i: nat)
    requires i < |s|
  {
    forall k :: 0 <= k < i ==> s[k].endEip < s[i].endEip
  }

  /** No block after `i` up to `m` ends before the block at `i`. */
  ghost predicate Clear(s: seq<Block>, i: nat, m: nat)
    requires i < |s|
  {
    forall k :: i < k <= m && k < |s| ==> s[i].endEip <= s[k].endEip
  }

  /** On the way down to the block at `i`, no node that comes after it and starts before its end is after,
      or is itself, a block that ends before it.  The subtree `t` holds the part of `s` from `lo` on. */
  ghost predicate WayClear(t: Shape<Block>, s: seq<Block>, lo: nat, i: nat)
    requires i < |s|
  {
    t.Node? ==>
      var m := lo + |Inorder(t.left)|;
      && (i < m ==> (t.elem.eipVirt <= s[i].endEip ==> Clear(s, i, m)) && WayClear(t.left, s, lo, i))
      && (m < i ==> WayClear(t.right, s, m + 1, i))
  }

  /** The way to every block that is the first to cover its end is clear. */
  ghost predicate Searchable(t: Shape<Block>) {
    forall i :: 0 <= i < |Inorder(t)| && Leads(Inorder(t), i) ==> WayClear(t, Inorder(t), 0, i)
  }

  /** The part of `s` from `lo` on begins with `p`. */
  ghost predicate IsPart(p: seq<Block>, s: seq<Block>, lo: nat) {
    lo + |p| <= |s| && s[lo..lo + |p|] == p
  }

  lemma ThreeParts(w: seq<Block>, l: seq<Block>, b: Block, r: seq<Block>, s: seq<Block>, lo: nat)
    requires w == l + [b] + r && IsPart(w, s, lo)
    ensures |w| == |l| + 1 + |r| && lo + |l| < |s| && s[lo + |l|] == b
    ensures IsPart(l, s, lo) && IsPart(r, s, lo + |l| + 1)
  {
    assert l == w[..|l|] && w[|l|] == b && r == w[|l| + 1..];
  }

  lemma InorderOfNode(t: Shape<Block>)
    requires t.Node?
    ensures Inorder(t) == Inorder(t.left) + [t.elem] + Inorder(t.right)
  {
  }

  lemma PartsOfNode(t: Shape<Block>, s: seq<Block>, lo: nat)
    requires t.Node? && IsPart(Inorder(t), s, lo)
    ensures var m := lo + |Inorder(t.left)|;
            && |Inorder(t)| == |Inorder(t.left)| + 1 + |Inorder(t.right)| && m < |s| && s[m] == t.elem
            && IsPart(Inorder(t.left), s, lo) && IsPart(Inorder(t.right), s, m + 1)
  {
    hide *;
    InorderOfNode(t);
    ThreeParts(Inorder(t), Inorder(t.left), t.elem, Inorder(t.right), s, lo);
  }

  /** The way down stops at the first block that covers `eip`, or at a later one with nothing between that
      the way back would stop at. */
  ghost predicate StopsWell(s: seq<Block>, lo: nat, w: Option<nat>, i: nat, eip: int) {
    w.Some? && i <= lo + w.value < |s| && forall k :: i <= k <= lo + w.value ==> eip <= s[k].endEip
  }

  lemma ShiftStops(s: seq<Block>, lo: nat, n: nat, w: Option<nat>, i: nat, eip: int)
    ensures StopsWell(s, lo, Shifted(n, w), i, eip) <==> StopsWell(s, lo + n, w, i, eip)
  {
  }

  /** A clear way down may stop at a node after the block. */
  lemma ClearStops(s: seq<Block>, lo: nat, i: nat, m: nat, eip: int)
    requires i <= m < |s| && lo <= m && Clear(s, i, m) && eip <= s[i].endEip
    ensures StopsWell(s, lo, Some(m - lo), i, eip)
  {
  }

  /** A way down that gets as far as behind a block that ends before `eip` does not stop well. */
  lemma BlockedStops(s: seq<Block>, lo: nat, i: nat, m: nat, w: Option<nat>)
    requires i < m < |s| && !Clear(s, i, m) && (w.Some? ==> m <= lo + w.value)
    ensures !StopsWell(s, lo, w, i, s[i].endEip)
  {
  }

  /** What a clear way is like at a node, to the first block that covers `eip`. */
  lemma ClearStep(t: Shape<Block>, s: seq<Block>, lo: nat, i: nat, eip: int)
    requires ByStart(s) && IsPart(Inorder(t), s, lo) && lo <= i < lo + |Inorder(t)|
    requires IsLowestCover(s, eip, Some(i)) && WayClear(t, s, lo, i)
    ensures t.Node?
    ensures var m := lo + |Inorder(t.left)|;
            && (m < i ==> t.elem.endEip < eip && WayClear(t.right, s, m + 1, i))
            && (i < m && eip < t.elem.eipVirt ==> eip <= t.elem.endEip && WayClear(t.left, s, lo, i))
            && (i <= m && t.elem.eipVirt <= eip ==> eip <= t.elem.endEip && Clear(s, i, m) && eip <= s[i].endEip)
            && (i == m ==> t.elem.eipVirt <= eip)
  {
    PartsOfNode(t, s, lo);
  }

  /** Along a clear way the first block that covers `eip` is not missed. */
  lemma {:induction false} ClearFinds(t: Shape<Block>, s: seq<Block>, lo: nat, i: nat, eip: int)
    requires ByStart(s) && IsPart(Inorder(t), s, lo) && lo <= i < lo + |Inorder(t)|
    requires IsLowestCover(s, eip, Some(i)) && WayClear(t, s, lo, i)
    ensures StopsWell(s, lo, Way(t, SideOf(EipProbe(eip))), i, eip)
  {
    hide Inorder, Way, IsPart, WayClear, StopsWell, Clear, ByStart, IsLowestCover;
    ClearStep(t, s, lo, i, eip);
    PartsOfNode(t, s, lo);
    WayOfNode(t, SideOf(EipProbe(eip)));
    var m := lo + |Inorder(t.left)|;
    if m < i {
      ClearFinds(t.right, s, m + 1, i, eip);
      ShiftStops(s, lo, m + 1 - lo, Way(t.right, SideOf(EipProbe(eip))), i, eip);
    } else if eip < t.elem.eipVirt {
      ClearFinds(t.left, s, lo, i, eip);
    } else {
      ClearStops(s, lo, i, m, eip);
    }
  }

  lemma {:induction false} ClearBelow(t: Shape<Block>, s: seq<Block>, lo: nat, i: nat, m: nat)
    requires i < |s| && Clear(s, i, m) && lo + |Inorder(t)| <= m && IsPart(Inorder(t), s, lo)
    ensures WayClear(t, s, lo, i)
  {
    if t.Node? {
      PartsOfNode(t, s, lo);
      hide Inorder, IsPart;
      ClearBelow(t.left, s, lo, i, m);
      ClearBelow(t.right, s, lo + |Inorder(t.left)| + 1, i, m);
    }
  }

  /** A way that is not clear is blocked at the node, or goes on and is blocked below it. */
  lemma BlockedStep(t: Shape<Block>, s: seq<Block>, lo: nat, i: nat)
    requires i < |s|
    requires ByStart(s) && IsPart(Inorder(t), s, lo) && lo <= i < lo + |Inorder(t)|
    requires Leads(s, i) && !WayClear(t, s, lo, i)
    ensures t.Node? && t.elem.eipVirt <= t.elem.endEip && i != lo + |Inorder(t.left)|
    ensures var m := lo + |Inorder(t.left)|;
            && (m < i ==> t.elem.endEip < s[i].endEip && !WayClear(t.right, s, m + 1, i))
            && (i < m && t.elem.eipVirt > s[i].endEip ==> !WayClear(t.left, s, lo, i))
            && (i < m && t.elem.eipVirt <= s[i].endEip ==> !Clear(s, i, m))
  {
    PartsOfNode(t, s, lo);
    var m := lo + |Inorder(t.left)|;
    if i < m && Clear(s, i, m) {
      ClearBelow(t.left, s, lo, i, m);
    }
  }

  /** Along a way that is not clear the first block that covers its own end is missed. */
  lemma {:induction false} BlockedMisses(t: Shape<Block>, s: seq<Block>, lo: nat, i: nat, eip: int)
    requires i < |s| && eip == s[i].endEip
    requires ByStart(s) && IsPart(Inorder(t), s, lo) && lo <= i < lo + |Inorder(t)|
    requires Leads(s, i) && !WayClear(t, s, lo, i)
    ensures !StopsWell(s, lo, Way(t, SideOf(EipProbe(eip))), i, eip)
  {
    hide Inorder, Way, IsPart, WayClear, StopsWell, Clear, ByStart, Leads;
    var side := SideOf(EipProbe(eip));
    BlockedStep(t, s, lo, i);
    PartsOfNode(t, s, lo);
    WayOfNode(t, side);
    var m := lo + |Inorder(t.left)|;
    if m < i {
      BlockedMisses(t.right, s, m + 1, i, eip);
      ShiftStops(s, lo, m + 1 - lo, Way(t.right, side), i, eip);
    } else if t.elem.eipVirt > eip {
      BlockedMisses(t.left, s, lo, i, eip);
    } else {
      BlockedStops(s, lo, i, m, Way(t, side));
    }
  }

  /** The way back ends at the first block that covers `eip` exactly when the way down stopped well. */
  lemma BackIff(s: seq<Block>, w: Option<nat>, i: nat, eip: int)
    requires ByStart(s) && IsLowestCover(s, eip, Some(i)) && (w.Some? ==> w.value < |s| && Covers(s[w.value], eip))
    ensures StopsWell(s, 0, w, i, eip) <==> w.Some? && WayBack(s, w.value, SideOf(EipProbe(eip))) == i
  {
    if w.Some? {
      var k := WayBack(s, w.value, SideOf(EipProbe(eip)));
      assert i > 0 ==> !Covers(s[i - 1], eip);
    }
  }

  /** A lookup finds the first block that covers `eip` exactly when the way down stops well, and none if no
      block does. */
  lemma LookupIff(t: Shape<Block>, eip: int)
    requires ByStart(Inorder(t))
    ensures IsLowestCover(Inorder(t), eip, None) ==> Lookup(t, eip) == None
    ensures forall i :: 0 <= i < |Inorder(t)| && IsLowestCover(Inorder(t), eip, Some(i)) ==>
                          (Lookup(t, eip) == Some(i) <==>
                           StopsWell(Inorder(t), 0, Way(t, SideOf(EipProbe(eip))), i, eip))
  {
    hide Inorder;
    var s, w := Inorder(t), Way(t, SideOf(EipProbe(eip)));
    assert w.Some? ==> Covers(s[w.value], eip);
    forall i | 0 <= i < |s| && IsLowestCover(s, eip, Some(i))
      ensures Lookup(t, eip) == Some(i) <==> StopsWell(s, 0, w, i, eip)
    {
      BackIff(s, w, i, eip);
    }
  }

  lemma {:induction false} SomeLowest(s: seq<Block>, eip: int, n: nat) returns (r: Option<nat>)
    requires n <= |s| && forall i :: 0 <= i < n ==> !Covers(s[i], eip)
    ensures IsLowestCover(s, eip, r)
    decreases |s| - n
  {
    if n == |s| {
      r := None;
    } else if Covers(s[n], eip) {
      r := Some(n);
    } else {
      r := SomeLowest(s, eip, n + 1);
    }
  }

  /** In a searchable tree every lookup is right. */
  lemma LookupFinds(t: Shape<Block>, eip: int)
    requires ByStart(Inorder(t)) && Searchable(t)
    ensures IsLowestCover(Inorder(t), eip, Lookup(t, eip))
  {
    hide Inorder, Way, Lookup, WayClear;
    var r := SomeLowest(Inorder(t), eip, 0);
    LookupIff(t, eip);
    if r.Some? {
      assert Leads(Inorder(t), r.value);
      ClearFinds(t, Inorder(t), 0, r.value, eip);
    }
  }

  /** In a tree of blocks in order of their starts, every lookup finds the covering block with the lowest
      start, or none if nothing covers the address: this holds exactly when the tree is searchable. */
  lemma SearchableIff(t: Shape<Block>)
    requires ByStart(Inorder(t))
    ensures (forall eip :: IsLowestCover(Inorder(t), eip, Lookup(t, eip))) <==> Searchable(t)
  {
    hide Inorder, Way, Lookup, WayClear;
    if Searchable(t) {
      forall eip
        ensures IsLowestCover(Inorder(t), eip, Lookup(t, eip))
      {
        LookupFinds(t, eip);
      }
    } else {
      var s := Inorder(t);
      var i :| 0 <= i < |s| && Leads(s, i) && !WayClear(t, s, 0, i);
      var eip := s[i].endEip;
      assert IsLowestCover(s, eip, Some(i));
      BlockedMisses(t, s, 0, i, eip);
      LookupIff(t, eip);
      assert !IsLowestCover(s, eip, Lookup(t, eip));
    }
  }

  /** Ends that do not fall make every tree searchable. */
  lemma RisingIsSearchable(t: Shape<Block>)
    requires EndsRise(Inorder(t))
    ensures Searchable(t)
  {
    hide Inorder;
    var s := Inorder(t);
    forall i | 0 <= i < |s| && Leads(s, i)
      ensures WayClear(t, s, 0, i)
    {
      ClearBelow(t, s, 0, i, |s|);
    }
  }

  lemma LowestOf(s: seq<Block>, eip: int, r: Option<nat>)
    requires ByStart(s) && IsLowestCover(s, eip, r)
    ensures r.None? ==> forall b :: b in s ==> !Covers(b, eip)
    ensures r.Some? ==> Covers(s[r.value], eip) && forall b :: b in s && Covers(b, eip) ==>
                                                                 s[r.value].eipVirt <= b.eipVirt
  {
  }

  ghost predicate InsertedBlock(before: seq<Block>, after: seq<Block>, b: Block, k: nat) {
    k <= |before| && after == before[..k] + [b] + before[k..]
  }

  /** A block whose start no block covers goes after all blocks that end before it and before all that start after
      it. */
  lemma MissDivides(s: seq<Block>, b: Block)
    requires ByStart(s) && forall i :: 0 <= i < |s| ==> !Covers(s[i], b.eipVirt)
    ensures forall i, j :: 0 <= i < j < |s| && TbLess(s[j], b) ==> TbLess(s[i], b)
  {
  }

  /** The index stays ordered by start, however the new block's tail overlaps the others. */
  lemma AddKeepsOrder(before: seq<Block>, after: seq<Block>, b: Block, k: nat)
    requires ByStart(before) && InsertedBlock(before, after, b, k) && b.eipVirt <= b.endEip
    requires forall i :: 0 <= i < |before| ==> !Covers(before[i], b.eipVirt)
    requires forall i :: 0 <= i < k ==> TbLess(before[i], b)
    requires forall i :: k <= i < |before| ==> !TbLess(before[i], b)
    ensures ByStart(after)
  {
    forall i, j | 0 <= i < j < |after|
      ensures after[i].eipVirt < after[j].eipVirt
    {
      if i == k {
        assert after[j] == before[j - 1] && !Covers(before[j - 1], b.eipVirt);
      } else if j == k {
        assert after[i] == before[i];
      }
    }
  }

  // ---------- guest programs ----------

  /** The block is the translation of its start address. */
  ghost predicate Translates(d: Decoder, b: Block) {
    exists c :: TranslatesChain(d, b, c)
  }

  ghost predicate TranslatesChain(d: Decoder, b: Block, c: seq<int>) {
    d.IsChain(c) && Exact(b, d, c) && b.eipVirt == c[0] && b.endEip == c[|c| - 1] && CodeSize(b) > 0
  }

  /** No two of the addresses that control reaches disagree on where instructions begin: if one lies
      between the ends of the chain of the other, it is on that chain. */
  ghost predicate Aligned(d: Decoder, starts: int -> bool) {
    forall c, a :: d.IsChain(c) && starts(c[0]) && starts(a) && c[0] <= a <= c[|c| - 1] ==> a in c
  }

  lemma TranslationWellFormed(d: Decoder, b: Block, c: seq<int>)
    requires d.Sized() && TranslatesChain(d, b, c)
    ensures b.WellFormed() && b.eipVirt <= b.endEip < b.InsnEip(b.numInsns)
    ensures forall eip :: b.OnChain(eip) <==> eip in c
  {
    ExactIsWellFormed(b, d, c);
    EipIsIn(b, b.endEip, |c| - 1);
    forall eip
      ensures b.OnChain(eip) <==> eip in c
    {
      if b.OnChain(eip) {
        var i :| 0 <= i < b.numInsns && eip == b.InsnEip(i);
        assert c[i] == eip;
      }
      if eip in c {
        var i :| 0 <= i < |c| && c[i] == eip;
        assert b.InsnEip(i) == eip;
      }
    }
  }

  /** From any of its instructions on, a chain is the chain of that instruction. */
  lemma ChainTail(d: Decoder, c: seq<int>, i: nat)
    requires d.IsChain(c) && i < |c|
    ensures d.IsChain(c[i..])
  {
    var t := c[i..];
    forall j | 0 < j < |t|
      ensures d.Follows(t, j)
    {
      assert d.Follows(c, i + j);
    }
  }

  lemma ChainsEndAlike(d: Decoder, c: seq<int>, e: seq<int>)
    requires d.IsChain(c) && d.IsChain(e) && e[0] in c
    ensures c[|c| - 1] == e[|e| - 1]
  {
    var i :| 0 <= i < |c| && c[i] == e[0];
    ChainTail(d, c, i);
    ChainIsUnique(d, c[i..], e, |c| - i - 1);
    ChainIsUnique(d, e, c[i..], |e| - 1);
  }

  /** Overlapping translations of an aligned program end at the same instruction. */
  lemma AlignedEndsRise(d: Decoder, starts: int -> bool, s: seq<Block>)
    requires Aligned(d, starts) && ByStart(s)
    requires forall i :: 0 <= i < |s| ==> Translates(d, s[i]) && starts(s[i].eipVirt)
    ensures EndsRise(s)
  {
    forall i, j | 0 <= i < j < |s|
      ensures s[i].endEip <= s[j].endEip
    {
      if s[j].eipVirt <= s[i].endEip {
        var c :| TranslatesChain(d, s[i], c);
        var e :| TranslatesChain(d, s[j], e);
        assert e[0] in c;
        ChainsEndAlike(d, c, e);
      }
    }
  }

  /** A guest program with an instruction of nine bytes at 1, inside of which another one begins at 2. */
  function Overlapping(): Decoder {
    Decoder(a => if a == 1 then 9 else 1, a => a == 3 || a == 10, (_, _, _) => seq(5, _ => 0x90), _ => 5,
            (_, _, _) => [], _ => 0)
  }

  lemma ThreeOffsets(size: int -> nat, c: seq<int>)
    requires |c| == 3
    ensures Offset(size, c, 1) == size(c[0]) && Offset(size, c, 2) == size(c[0]) + size(c[1])
    ensures Offset(size, c, 3) == size(c[0]) + size(c[1]) + size(c[2])
  {
    OffsetNext(size, c, 0);
    OffsetNext(size, c, 1);
    OffsetNext(size, c, 2);
  }

  lemma FirstOverlapping(a: Block)
    requires a == Block(0, 10, 100, 0, 3, [1, 10, 11], [0, 5, 10, 15])
    ensures Overlapping().Sized() && TranslatesChain(Overlapping(), a, [0, 1, 10])
  {
    var d, c := Overlapping(), [0, 1, 10];
    assert d.Follows(c, 1) && d.Follows(c, 2);
    ThreeOffsets(d.length, c);
    ThreeOffsets(d.codeLen, c);
  }

  lemma SecondOverlapping(b: Block)
    requires b == Block(2, 3, 200, 0, 2, [1, 2], [0, 5, 10])
    ensures TranslatesChain(Overlapping(), b, [2, 3])
  {
    var d, c := Overlapping(), [2, 3];
    assert d.Follows(c, 1);
    TwoOffsets(d.length, c);
    TwoOffsets(d.codeLen, c);
  }

  /** Why alignment matters: the block at 2 was translated first and the block at 0 later.  Both are what
      the passes make of their chains and the tree is in order of the starts, but a lookup of 10, where
      the block at 0 has an instruction, finds nothing. */
  lemma MisalignedLookupFails()
    ensures var a, b := Block(0, 10, 100, 0, 3, [1, 10, 11], [0, 5, 10, 15]),
                        Block(2, 3, 200, 0, 2, [1, 2], [0, 5, 10]);
            var tree := Node(Node(Nil, a, Red, Nil), b, Black, Nil);
            && Overlapping().Sized()
            && TranslatesChain(Overlapping(), a, [0, 1, 10]) && TranslatesChain(Overlapping(), b, [2, 3])
            && RedBlack(tree) && ByStart(Inorder(tree)) && !Covers(b, a.eipVirt)
            && Inorder(tree) == [a, b] && Covers(a, 10) && Lookup(tree, 10) == None
  {
    var a, b := Block(0, 10, 100, 0, 3, [1, 10, 11], [0, 5, 10, 15]), Block(2, 3, 200, 0, 2, [1, 2], [0, 5, 10]);
    FirstOverlapping(a);
    SecondOverlapping(b);
    var left := Node(Nil, a, Red, Nil);
    assert Inorder(left) == [a] && Inorder(Node(left, b, Black, Nil)) == [a, b];
  }

  // ---------- a searchable tree with falling ends ----------

  /** Instructions at 0, 1 and 2, each followed by a terminating one. */
  function Staggered(): Decoder {
    Decoder(a => if a == 0 then 10 else if a == 1 then 11 else if a == 2 then 3 else 1,
            a => a == 5 || a == 10 || a == 12,
            (_, _, _) => seq(5, _ => 0x90), _ => 5, (_, _, _) => [], _ => 0)
  }

  lemma StaggeredBlock(b: Block, c: seq<int>)
    requires c == [b.eipVirt, b.endEip] && 0 <= b.eipVirt <= 2
    requires b.endEip == b.eipVirt + Staggered().length(b.eipVirt)
    requires b.numInsns == 2 && b.eipB == [b.endEip - b.eipVirt, b.endEip - b.eipVirt + 1] && b.tcB == [0, 5, 10]
    ensures Staggered().Sized() && TranslatesChain(Staggered(), b, c)
  {
    var d := Staggered();
    assert d.Follows(c, 1);
    TwoOffsets(d.length, c);
    TwoOffsets(d.codeLen, c);
  }

  /** Ends may fall where no way down passes: the block at 2 ends before the two others, but it is on the way
      to neither. */
  lemma FallingIsSearchable()
    ensures var a, b := Block(0, 10, 100, 0, 2, [10, 11], [0, 5, 10]), Block(1, 12, 200, 0, 2, [11, 12], [0, 5, 10]);
            var c := Block(2, 5, 300, 0, 2, [3, 4], [0, 5, 10]);
            var tree := Node(Node(Nil, a, Red, Nil), b, Black, Node(Nil, c, Red, Nil));
            && Staggered().Sized() && TranslatesChain(Staggered(), a, [0, 10])
            && TranslatesChain(Staggered(), b, [1, 12]) && TranslatesChain(Staggered(), c, [2, 5])
            && RedBlack(tree) && ByStart(Inorder(tree)) && !EndsRise(Inorder(tree)) && Searchable(tree)
  {
    var a, b := Block(0, 10, 100, 0, 2, [10, 11], [0, 5, 10]), Block(1, 12, 200, 0, 2, [11, 12], [0, 5, 10]);
    var c := Block(2, 5, 300, 0, 2, [3, 4], [0, 5, 10]);
    StaggeredBlock(a, [0, 10]);
    StaggeredBlock(b, [1, 12]);
    StaggeredBlock(c, [2, 5]);
    OverThree(a, b, c);
  }

  lemma OverThree(a: Block, b: Block, c: Block)
    requires a.eipVirt < b.eipVirt < c.eipVirt && a.endEip < b.endEip && c.endEip < a.endEip
    requires a.eipVirt <= a.endEip && b.eipVirt <= b.endEip && c.eipVirt <= c.endEip
    ensures var tree := Node(Node(Nil, a, Red, Nil), b, Black, Node(Nil, c, Red, Nil));
            RedBlack(tree) && ByStart(Inorder(tree)) && !EndsRise(Inorder(tree)) && Searchable(tree)
  {
    var l, r := Node(Nil, a, Red, Nil), Node(Nil, c, Red, Nil);
    var tree := Node(l, b, Black, r);
    InorderOfNode(l);
    InorderOfNode(r);
    InorderOfNode(tree);
    var s := Inorder(tree);
    assert s == [a, b, c];
    assert s[2].endEip < s[0].endEip;
    assert !Leads(s, 2);
    assert WayClear(l, s, 0, 0);
  }

  lemma TranslationInOrder(d: Decoder, b: Block)
    requires d.Sized() && Translates(d, b)
    ensures b.eipVirt <= b.endEip && CodeSize(b) > 0
  {
    var c :| TranslatesChain(d, b, c);
    TranslationWellFormed(d, b, c);
  }

  /** In an aligned program a block that covers a reachable address has an instruction there. */
  lemma CoveredIsOnChain(d: Decoder, starts: int -> bool, b: Block, eip: int)
    requires d.Sized() && Aligned(d, starts) && Translates(d, b) && starts(b.eipVirt) && starts(eip) && Covers(b, eip)
    ensures b.WellFormed() && b.OnChain(eip) && b.eipVirt <= eip < b.InsnEip(b.numInsns)
  {
    var c :| TranslatesChain(d, b, c);
    TranslationWellFormed(d, b, c);
  }

  /** A code byte leads to an instruction that emitted code. */
  lemma LeadsToEmitter(d: Decoder, b: Block, tc: int)
    requires d.Sized() && Translates(d, b) && HoldsCode(b, tc)
    ensures b.WellFormed() && d.codeLen(b.EipOfTc(tc)) > 0
  {
    var c :| TranslatesChain(d, b, c);
    TranslationWellFormed(d, b, c);
    ExactIsWellFormed(b, d, c);
    var i := b.InsnOfTc(tc);
    OffsetNext(d.codeLen, c, i);
    assert ExactCode(b, d, c, i) && ExactCode(b, d, c, i + 1);
  }

  // ---------- code order ----------

  ghost predicate ByCode(s: seq<Block>) {
    && (forall i :: 0 <= i < |s| ==> CodeSize(s[i]) > 0)
    && (forall i, j :: 0 <= i < j < |s| ==> TcLess(s[i], s[j]))
  }

  lemma CodeDivides(s: seq<Block>, tc: int)
    requires ByCode(s)
    ensures Divides(s, TcLess, TcProbe(tc))
  {
  }

  ghost predicate Separate(a: Block, b: Block) {
    TcLess(a, b) || TcLess(b, a)
  }

  lemma AddKeepsCodeOrder(before: seq<Block>, after: seq<Block>, b: Block, k: nat)
    requires ByCode(before) && InsertedBlock(before, after, b, k) && CodeSize(b) > 0
    requires forall i :: 0 <= i < |before| ==> Separate(before[i], b)
    requires forall i :: 0 <= i < k ==> TcLess(before[i], b)
    requires forall i :: k <= i < |before| ==> !TcLess(before[i], b)
    ensures ByCode(after)
  {
    forall i, j | 0 <= i < j < |after|
      ensures TcLess(after[i], after[j])
    {
      if i == k {
        assert after[j] == before[j - 1] && Separate(before[j - 1], b);
      } else if j == k {
        assert after[i] == before[i];
      }
    }
  }

  // ---------- making a block ----------

  /** What the two passes leave is the translation of its start exactly when 16 bits were enough. */
  lemma PassesTranslateIff(tb: Tb, d: Decoder, c: seq<int>)
    requires d.IsChain(c) && c[0] == tb.eipVirt && tb.Measured(d, c) && tb.Bounded(d, c, |c|)
    requires tb.tcBoundaries.Length == |c| + 1 && tb.eipBoundaries.Length == |c|
             && tb.tcBoundaries[|c|] == U16(tb.codeLen)
    ensures TranslatesChain(d, BlockOf(tb), c) <==> 0 < tb.codeLen < 0x1_0000 && d.Span(c, |c|) < 0x1_0000
  {
    ExactBelow64K(tb, d, c);
  }

  /** Sixteen bits hold the code and the guest length of the chain, and there is code. */
  ghost predicate Fits(d: Decoder, c: seq<int>) {
    0 < d.CodeOff(c, |c|) < 0x1_0000 && d.Span(c, |c|) < 0x1_0000
  }

  method Snapshot(tb: Tb) returns (b: Block)
    ensures b == BlockOf(tb)
  {
    b := Block(tb.eipVirt, tb.endEip, tb.tcPtr, tb.edgePtr, tb.numInsns, tb.eipBoundaries[..], tb.tcBoundaries[..]);
  }

  // ---------- the index ----------

  ghost function Entries(s: seq<RbNode<Block>>): (r: seq<Block>)
    ensures |r| == |s| && forall i :: 0 <= i < |s| ==> r[i] == s[i].entry
  {
    seq(|s|, i requires 0 <= i < |s| => s[i].entry)
  }

  /** The tree with blocks in place of the nodes that hold them. */
  ghost function EntryTree(s: Shape<RbNode<Block>>): (t: Shape<Block>)
    ensures Inorder(t) == Entries(Inorder(s))
  {
    match s
    case Nil => Nil
    case Node(l, n, c, r) =>
      assert Entries(Inorder(l) + [n] + Inorder(r)) == Entries(Inorder(l)) + [n.entry] + Entries(Inorder(r));
      Node(EntryTree(l), n.entry, c, EntryTree(r))
  }

  lemma EntryTreeOfNode(s: Shape<RbNode<Block>>)
    requires s.Node?
    ensures EntryTree(s) == Node(EntryTree(s.left), s.elem.entry, s.color, EntryTree(s.right))
    ensures |Inorder(EntryTree(s.left))| == |Inorder(s.left)|
  {
  }

  lemma NoWay(f: RbNode<Block> -> Side, g: Block -> Side)
    ensures Way(Nil, f) == None == Way(EntryTree(Nil), g)
  {
  }

  /** The search in the heap is that in the tree of blocks. */
  lemma {:induction false} SameWay(s: Shape<RbNode<Block>>, f: RbNode<Block> -> Side, g: Block -> Side)
    requires forall n :: f(n) == g(n.entry)
    ensures Way(s, f) == Way(EntryTree(s), g)
  {
    hide Way, EntryTree, Inorder;
    if s.Node? {
      EntryTreeOfNode(s);
      WayOfNode(s, f);
      WayOfNode(EntryTree(s), g);
      SameWay(s.left, f, g);
      SameWay(s.right, f, g);
    } else {
      NoWay(f, g);
    }
  }

  lemma {:induction false} SameBack(s: seq<RbNode<Block>>, i: nat, f: RbNode<Block> -> Side, g: Block -> Side)
    requires i < |s| && forall n :: f(n) == g(n.entry)
    ensures WayBack(s, i, f) == WayBack(Entries(s), i, g)
  {
    if i > 0 && !f(s[i - 1]).Below? {
      SameBack(s, i - 1, f, g);
    }
  }

  /** A lookup in the heap is one in the tree of blocks. */
  lemma SameLookup(t: RbTree<Block>, eip: int)
    requires t.less == TbLess
    ensures var side := t.SideOf(EipProbe(eip));
            Lookup(EntryTree(t.shape), eip)
            == match Way(t.shape, side) case None => None case Some(i) => Some(WayBack(t.Elems(), i, side))
  {
    var f, g := t.SideOf(EipProbe(eip)), SideOf(EipProbe(eip));
    SameWay(t.shape, f, g);
    if Way(t.shape, f).Some? {
      SameBack(t.Elems(), Way(t.shape, f).value, f, g);
    }
  }

  lemma DividesPartitions(t: RbTree<Block>, s: seq<RbNode<Block>>, e: Block)
    requires Divides(Entries(s), t.less, e)
    ensures t.Partitioned(s, e)
  {
    var bs := Entries(s);
    assert forall i :: 0 <= i < |s| ==> bs[i] == s[i].entry;
  }

  lemma NoneFound(t: RbTree<Block>, s: seq<RbNode<Block>>, e: Block)
    requires forall n :: n in s ==> !t.Equivalent(n.entry, e)
    ensures forall b :: b in Entries(s) ==> !t.Equivalent(b, e)
  {
    forall b | b in Entries(s)
      ensures !t.Equivalent(b, e)
    {
      var i :| 0 <= i < |s| && Entries(s)[i] == b;
      assert s[i] in s;
    }
  }

  lemma OnlyHolder(t: RbTree<Block>, s: seq<RbNode<Block>>, i: nat, n: RbNode<Block>, tc: int)
    requires t.less == TcLess && ByCode(Entries(s)) && t.IsAt(s, i, n) && t.Equivalent(n.entry, TcProbe(tc))
    ensures n.entry in Entries(s) && HoldsCode(n.entry, tc)
    ensures forall b :: b in Entries(s) && HoldsCode(b, tc) ==> b == n.entry
  {
    assert Entries(s)[i] == n.entry;
  }

  lemma InsertedEntries(t: RbTree<Block>, before: seq<RbNode<Block>>, after: seq<RbNode<Block>>, n: RbNode<Block>,
                        k: nat)
    requires t.InsertedAt(before, after, n, k)
    ensures InsertedBlock(Entries(before), Entries(after), n.entry, k)
    ensures forall b :: b in Entries(after) <==> b in Entries(before) || b == n.entry
  {
    var bs := Entries(before);
    assert Entries(after) == bs[..k] + [n.entry] + bs[k..];
    assert bs == bs[..k] + bs[k..];
  }

  /** Where rbtree_insert puts a block in the guest order. */
  lemma InsertedByStart(t: RbTree<Block>, before: seq<RbNode<Block>>, after: seq<RbNode<Block>>, n: RbNode<Block>,
                        k: nat)
    requires t.less == TbLess && t.InsertedAt(before, after, n, k) && ByStart(Entries(before))
             && n.entry.eipVirt <= n.entry.endEip
    requires forall b :: b in Entries(before) ==> !Covers(b, n.entry.eipVirt)
    ensures ByStart(Entries(after))
  {
    var bs := Entries(before);
    assert forall i :: 0 <= i < |bs| ==> bs[i] in bs;
    MissDivides(bs, n.entry);
    assert t.Splits(before, n.entry);
    assert forall i :: 0 <= i < k ==> before[..k][i] == before[i];
    assert forall i :: k <= i < |before| ==> before[k..][i - k] == before[i];
    InsertedEntries(t, before, after, n, k);
    AddKeepsOrder(bs, Entries(after), n.entry, k);
  }

  lemma InsertedByCode(t: RbTree<Block>, before: seq<RbNode<Block>>, after: seq<RbNode<Block>>, n: RbNode<Block>,
                       k: nat)
    requires t.less == TcLess && t.InsertedAt(before, after, n, k) && ByCode(Entries(before)) && CodeSize(n.entry) > 0
    requires forall b :: b in Entries(before) ==> Separate(b, n.entry)
    ensures ByCode(Entries(after))
  {
    var bs := Entries(before);
    assert forall i :: 0 <= i < |bs| ==> bs[i] in bs;
    assert t.Splits(before, n.entry);
    assert forall i :: 0 <= i < k ==> before[..k][i] == before[i];
    assert forall i :: k <= i < |before| ==> before[k..][i - k] == before[i];
    InsertedEntries(t, before, after, n, k);
    AddKeepsCodeOrder(bs, Entries(after), n.entry, k);
  }

  lemma SentinelOutside(t: RbTree<Block>)
    requires t.Valid()
    ensures t.nil !in t.nodes
  {
  }

  /** What the two trees hold: the same blocks, all translations of reachable starts, in the two orders. */
  ghost predicate Sound(d: Decoder, starts: int -> bool, bs: seq<Block>, ts: seq<Block>) {
    && ByStart(bs) && ByCode(ts)
    && (forall b :: b in bs <==> b in ts)
    && (forall b :: b in bs ==> Translates(d, b) && starts(b.eipVirt))
  }

  ghost predicate Joined(before: seq<Block>, after: seq<Block>, b: Block) {
    forall x :: x in after <==> x in before || x == b
  }

  ghost predicate Uncovered(s: seq<Block>, eip: int) {
    forall x :: x in s ==> !Covers(x, eip)
  }

  lemma SoundGrows(d: Decoder, starts: int -> bool, bs: seq<Block>, ts: seq<Block>, bs': seq<Block>, ts': seq<Block>,
                   b: Block)
    requires Sound(d, starts, bs, ts) && ByStart(bs') && ByCode(ts') && Joined(bs, bs', b) && Joined(ts, ts', b)
    requires Translates(d, b) && starts(b.eipVirt)
    ensures Sound(d, starts, bs', ts')
  {
  }

  class Index {
    const nil: RbNode<Block>
    const jumptable2: RbTree<Block>
    const tcTree: RbTree<Block>

    constructor (nil: RbNode<Block>, d: Decoder, starts: int -> bool)
      modifies nil
      ensures Valid(d, starts) && Blocks() == []
    {
      this.nil := nil;
      jumptable2 := new RbTree<Block>(nil, TbLess);
      tcTree := new RbTree<Block>(nil, TcLess);
    }

    ghost function Blocks(): seq<Block>
      reads jumptable2`shape
    {
      Entries(jumptable2.Elems())
    }

    ghost function CodeBlocks(): seq<Block>
      reads tcTree`shape
    {
      Entries(tcTree.Elems())
    }

    /** Two well-formed trees over one sentinel, with no node in common. */
    ghost predicate Trees()
      reads jumptable2, jumptable2.nodes, tcTree, tcTree.nodes, nil`left, nil`right, nil`color
    {
      && jumptable2.nil == nil == tcTree.nil && jumptable2 != tcTree
      && jumptable2.less == TbLess && tcTree.less == TcLess
      && jumptable2.Valid() && tcTree.Valid()
      && (forall n :: n in jumptable2.nodes ==> n !in tcTree.nodes)
    }

    ghost predicate Valid(d: Decoder, starts: int -> bool)
      reads jumptable2, jumptable2.nodes, tcTree, tcTree.nodes, nil`left, nil`right, nil`color
    {
      Trees() && Sound(d, starts, Blocks(), CodeBlocks())
    }

    ghost function Tree(): Shape<Block>
      reads jumptable2`shape
    {
      EntryTree(jumptable2.shape)
    }

    /** jumptable2_find: what a lookup in the tree of blocks gives.  In a searchable tree it is the block with
        the lowest start among those that cover `eip`. */
    method Jumptable2Find(eip: int) returns (r: Option<Block>)
      requires Trees()
      ensures match Lookup(Tree(), eip)
              case None => r.None?
              case Some(k) => r == Some(Blocks()[k])
      ensures r.None? && ByStart(Blocks()) && Searchable(Tree()) ==> Uncovered(Blocks(), eip)
      ensures r.Some? ==> r.value in Blocks()
      ensures r.Some? && ByStart(Blocks()) && Searchable(Tree()) ==>
                Covers(r.value, eip) && forall b :: b in Blocks() && Covers(b, eip) ==> r.value.eipVirt <= b.eipVirt
    {
      hide RbTree.Valid, Way, WayBack, RbTree.SideOf, Lookup, Searchable;
      var node, i := jumptable2.Find(EipProbe(eip));
      SameLookup(jumptable2, eip);
      r := if node == null then None else Some(node.entry);
      if ByStart(Blocks()) && Searchable(Tree()) {
        LookupFinds(Tree(), eip);
        LowestOf(Blocks(), eip, Lookup(Tree(), eip));
      }
    }

    /** tb_find: the block that holds the code byte `tc`; there is at most one. */
    method TbFind(tc: int) returns (r: Option<Block>)
      requires Trees() && ByCode(CodeBlocks())
      ensures r.None? ==> forall b :: b in CodeBlocks() ==> !HoldsCode(b, tc)
      ensures r.Some? ==> r.value in CodeBlocks() && HoldsCode(r.value, tc)
      ensures r.Some? ==> forall b :: b in CodeBlocks() && HoldsCode(b, tc) ==> b == r.value
    {
      hide RbTree.Valid;
      CodeDivides(CodeBlocks(), tc);
      DividesPartitions(tcTree, tcTree.Elems(), TcProbe(tc));
      var node, i := tcTree.Find(TcProbe(tc));
      if node == null {
        NoneFound(tcTree, tcTree.Elems(), TcProbe(tc));
        return None;
      }
      OnlyHolder(tcTree, tcTree.Elems(), i, node, tc);
      r := Some(node.entry);
    }

    /** The two tree elements embedded in a block that is in neither tree yet. */
    ghost predicate Loose(b: Block, n: RbNode<Block>, m: RbNode<Block>)
      reads jumptable2`nodes, tcTree`nodes
    {
      && n.entry == b == m.entry && n != m && n != nil && m != nil
      && n !in jumptable2.nodes && n !in tcTree.nodes && m !in jumptable2.nodes && m !in tcTree.nodes
    }

    /** jumptable2_add */
    method Jumptable2Add(n: RbNode<Block>)
      requires Trees() && ByStart(Blocks()) && n.entry.eipVirt <= n.entry.endEip
      requires n != nil && n !in jumptable2.nodes && n !in tcTree.nodes
      requires Uncovered(Blocks(), n.entry.eipVirt)
      modifies jumptable2`root, jumptable2`shape, jumptable2`nodes, jumptable2.nodes, n
      ensures Trees() && ByStart(Blocks()) && jumptable2.nodes == old(jumptable2.nodes) + {n}
      ensures Joined(old(Blocks()), Blocks(), n.entry)
    {
      hide RbTree.Valid, RbTree.InsertedAt, ByStart;
      SentinelOutside(jumptable2);
      ghost var before := jumptable2.Elems();
      ghost var k := jumptable2.Insert(n);
      InsertedByStart(jumptable2, before, jumptable2.Elems(), n, k);
      InsertedEntries(jumptable2, before, jumptable2.Elems(), n, k);
    }

    /** tb_add */
    method TbAdd(n: RbNode<Block>)
      requires Trees() && ByCode(CodeBlocks()) && CodeSize(n.entry) > 0
      requires n != nil && n !in jumptable2.nodes && n !in tcTree.nodes
      requires forall x :: x in CodeBlocks() ==> Separate(x, n.entry)
      modifies tcTree`root, tcTree`shape, tcTree`nodes, tcTree.nodes, n
      ensures Trees() && ByCode(CodeBlocks()) && tcTree.nodes == old(tcTree.nodes) + {n}
      ensures Joined(old(CodeBlocks()), CodeBlocks(), n.entry)
    {
      hide RbTree.Valid, RbTree.InsertedAt, ByCode, Separate;
      SentinelOutside(tcTree);
      ghost var before := tcTree.Elems();
      ghost var k := tcTree.Insert(n);
      InsertedByCode(tcTree, before, tcTree.Elems(), n, k);
      InsertedEntries(tcTree, before, tcTree.Elems(), n, k);
    }

    /** Puts a new block into both trees. */
    method AddBlock(made: Block, n: RbNode<Block>, m: RbNode<Block>, ghost d: Decoder, ghost starts: int -> bool)
      requires Valid(d, starts) && d.Sized() && Loose(made, n, m)
      requires starts(made.eipVirt) && Translates(d, made)
      requires Uncovered(Blocks(), made.eipVirt) && forall x :: x in Blocks() ==> Separate(x, made)
      modifies jumptable2`root, jumptable2`shape, jumptable2`nodes, jumptable2.nodes, n
      modifies tcTree`root, tcTree`shape, tcTree`nodes, tcTree.nodes, m
      ensures Valid(d, starts)
      ensures jumptable2.nodes == old(jumptable2.nodes) + {n} && tcTree.nodes == old(tcTree.nodes) + {m}
      ensures Joined(old(Blocks()), Blocks(), made)
    {
      hide RbTree.Valid;
      ghost var bs, ts := Blocks(), CodeBlocks();
      TranslationInOrder(d, made);
      Jumptable2Add(n);
      ghost var bs' := Blocks();
      assert CodeBlocks() == ts;
      TbAdd(m);
      assert Blocks() == bs';
      assert Trees();
      SoundGrows(d, starts, bs, ts, bs', CodeBlocks(), made);
    }

    /** tb_tc_ptr_to_eip_virt: the guest address of the instruction whose code holds `tc`, or 0. */
    method TbTcPtrToEipVirt(tc: int, ghost d: Decoder, ghost starts: int -> bool) returns (eip: int)
      requires Valid(d, starts) && d.Sized()
      ensures (forall b :: b in Blocks() ==> !HoldsCode(b, tc)) ==> eip == 0
      ensures forall b :: b in Blocks() && HoldsCode(b, tc) ==> b.WellFormed() && eip == b.EipOfTc(tc)
    {
      hide RbTree.Valid;
      var tb := TbFind(tc);
      if tb.None? {
        return 0;
      }
      ghost var c :| TranslatesChain(d, tb.value, c);
      TranslationWellFormed(d, tb.value, c);
      eip := tb.value.TcPtrToEipVirt(tc);
    }
  }
}
