/**
 Translation blocks (peep/peep.c translate, peep/tb.c): the sizing and the emission pass over
 a chain of guest instructions, the boundary arrays they fill, and the two address maps.
 */
module Translation {

  const MAX_TU_SIZE: nat := 2000
  /** PAGE_SIZE * 16, the scratch pages of the sizing pass. */
  const TPAGE_SIZE: nat := 65536

  /** What the disassembler and the rule table make of guest memory.  The bytes emitted for an
      instruction may depend on where they are put; `Sized` says that their number does not. */
  datatype Decoder = Decoder(length: int -> nat, terminating: int -> bool,
                             codeAt: (int, int, int) -> seq<bv8>, codeLen: int -> nat,
                             edgeAt: (int, int, int) -> seq<bv8>, edgeLen: int -> nat)
  {
    ghost predicate Sized() {
      && (forall a :: Length(a) > 0)
      && (forall a, o, e :: |Code(a, o, e)| == codeLen(a))
      && (forall a, o, e :: |Edge(a, o, e)| == edgeLen(a))
    }

    function Length(a: int): nat { length(a) }

    predicate Last(a: int) { terminating(a) }

    /** The bytes emitted for the instruction at `a` when the two output pointers are `o` and `e`. */
    function Code(a: int, o: int, e: int): seq<bv8> { codeAt(a, o, e) }

    function Edge(a: int, o: int, e: int): seq<bv8> { edgeAt(a, o, e) }

    /** The number of guest, code and edge bytes of the first `i` instructions of a chain. */
    function Span(c: seq<int>, i: nat): nat
      requires i <= |c|
    {
      Offset(length, c, i)
    }

    function CodeOff(c: seq<int>, i: nat): nat
      requires i <= |c|
    {
      Offset(codeLen, c, i)
    }

    function EdgeOff(c: seq<int>, i: nat): nat
      requires i <= |c|
    {
      Offset(edgeLen, c, i)
    }

    /** The addresses of consecutive instructions up to and including the first terminating one. */
    ghost predicate IsChain(c: seq<int>) {
      && |c| > 0 && Last(c[|c| - 1])
      && (forall i :: 0 <= i < |c| - 1 ==> !Last(c[i]))
      && (forall i :: 0 < i < |c| ==> Follows(c, i))
    }

    ghost predicate Follows(c: seq<int>, i: nat)
      requires 0 < i < |c|
    {
      c[i] == c[i - 1] + Length(c[i - 1])
    }
  }

  /** The sum of the sizes of the first `i` instructions of a chain. */
  function Offset(size: int -> nat, c: seq<int>, i: nat): nat
    requires i <= |c|
  {
    if i == 0 then 0 else Offset(size, c, i - 1) + size(c[i - 1])
  }

  lemma OffsetNext(size: int -> nat, c: seq<int>, i: nat)
    requires i < |c|
    ensures Offset(size, c, i + 1) == Offset(size, c, i) + size(c[i])
  {
  }

  /** The output of instruction `i` ends before that of a later one begins. */
  lemma {:induction false} OffsetGrows(size: int -> nat, c: seq<int>, i: nat, j: nat)
    requires i < j <= |c|
    ensures Offset(size, c, i) + size(c[i]) <= Offset(size, c, j)
  {
    if i < j - 1 {
      OffsetGrows(size, c, i, j - 1);
    }
  }

  // ---------- chains ----------

  lemma {:induction false} ChainSpan(d: Decoder, c: seq<int>, i: nat)
    requires d.IsChain(c) && i < |c|
    ensures c[i] == c[0] + d.Span(c, i)
  {
    if i > 0 {
      ChainSpan(d, c, i - 1);
      assert d.Follows(c, i);
    }
  }

  /** One step along a chain. */
  lemma ChainStep(d: Decoder, c: seq<int>, n: nat)
    requires d.IsChain(c) && n < |c|
    ensures c[n] == c[0] + d.Span(c, n) && d.Span(c, n + 1) == d.Span(c, n) + d.Length(c[n])
    ensures d.Last(c[n]) <==> n + 1 == |c|
  {
    ChainSpan(d, c, n);
    OffsetNext(d.length, c, n);
  }

  /** A chain is determined by its first address. */
  lemma {:induction false} ChainIsUnique(d: Decoder, c: seq<int>, e: seq<int>, i: nat)
    requires d.IsChain(c) && d.IsChain(e) && c[0] == e[0] && i < |c|
    ensures i < |e| && c[i] == e[i]
  {
    if i > 0 {
      ChainIsUnique(d, c, e, i - 1);
      assert d.Follows(c, i);
      assert i < |e| ==> d.Follows(e, i);
    }
  }

  // ---------- the two passes ----------

  function U16(x: int): int { x % 0x1_0000 }

  /** A translation block, tb_t.  The boundary arrays hold 16-bit numbers. */
  class Tb {
    var eipVirt: int
    var endEip: int
    var codeLen: nat
    var edgeLen: nat
    var numInsns: nat
    var tcPtr: nat
    var edgePtr: nat
    var tcBoundaries: array<int>
    var eipBoundaries: array<int>

    constructor (eip: int)
      ensures eipVirt == eip && fresh(tcBoundaries) && fresh(eipBoundaries)
    {
      eipVirt, endEip, codeLen, edgeLen, numInsns, tcPtr, edgePtr := eip, eip, 0, 0, 0, 0, 0;
      tcBoundaries, eipBoundaries := new int[0], new int[0];
    }

    /** What the sizing pass leaves in the block. */
    ghost predicate Measured(d: Decoder, c: seq<int>)
      reads this
    {
      numInsns == |c| > 0 && codeLen == d.CodeOff(c, |c|) && edgeLen == d.EdgeOff(c, |c|) && endEip == c[|c| - 1]
    }

    /** tb_malloc gave the block two separate ranges of the code cache and two boundary arrays. */
    ghost predicate Placed(size: nat)
      reads this
    {
      && tcPtr + codeLen <= size && edgePtr + edgeLen <= size
      && (tcPtr + codeLen <= edgePtr || edgePtr + edgeLen <= tcPtr)
      && tcBoundaries != eipBoundaries
      && tcBoundaries.Length == numInsns + 1 && eipBoundaries.Length == numInsns
    }

    /** The first `n` entries of the boundary arrays. */
    ghost predicate Bounded(d: Decoder, c: seq<int>, n: nat)
      requires n <= |c|
      reads this, tcBoundaries, eipBoundaries
    {
      && n <= tcBoundaries.Length && n <= eipBoundaries.Length
      && (forall i :: 0 <= i < n ==> tcBoundaries[i] == U16(d.CodeOff(c, i)))
      && (forall i :: 0 <= i < n ==> eipBoundaries[i] == U16(d.Span(c, i + 1)))
    }

    lemma BoundedNothing(d: Decoder, c: seq<int>)
      ensures Bounded(d, c, 0)
    {
    }

    method MarkCode(n: nat, off: nat, ghost d: Decoder, ghost c: seq<int>)
      requires n <= |c| && Bounded(d, c, n) && n < tcBoundaries.Length && off == d.CodeOff(c, n)
      requires tcBoundaries != eipBoundaries
      modifies tcBoundaries
      ensures Bounded(d, c, n) && tcBoundaries[n] == U16(d.CodeOff(c, n))
    {
      tcBoundaries[n] := U16(off);
    }

    method MarkInsn(n: nat, off: nat, ghost d: Decoder, ghost c: seq<int>)
      requires n < |c| && Bounded(d, c, n) && n < eipBoundaries.Length && off == d.Span(c, n + 1)
      requires n < tcBoundaries.Length && tcBoundaries[n] == U16(d.CodeOff(c, n))
      requires tcBoundaries != eipBoundaries
      modifies eipBoundaries
      ensures Bounded(d, c, n + 1)
    {
      eipBoundaries[n] := U16(off);
    }
  }

  ghost predicate HasBytes(mem: seq<bv8>, at: nat, bytes: seq<bv8>) {
    at + |bytes| <= |mem| && mem[at..at + |bytes|] == bytes
  }

  /** The emitted bytes of instruction `i` of a chain are in memory. */
  ghost predicate EmittedAt(d: Decoder, c: seq<int>, i: nat, mem: seq<bv8>, tcPtr: nat, edgePtr: nat)
    requires i < |c|
  {
    var o, e := tcPtr + d.CodeOff(c, i), edgePtr + d.EdgeOff(c, i);
    HasBytes(mem, o, d.Code(c[i], o, e)) && HasBytes(mem, e, d.Edge(c[i], o, e))
  }

  ghost predicate Emitted(d: Decoder, c: seq<int>, n: nat, mem: seq<bv8>, tcPtr: nat, edgePtr: nat)
    requires n <= |c|
  {
    forall i :: 0 <= i < n ==> EmittedAt(d, c, i, mem, tcPtr, edgePtr)
  }

  /** `mem'` is `mem` with `bytes` written at `at`. */
  ghost predicate Wrote(mem: seq<bv8>, mem': seq<bv8>, at: nat, bytes: seq<bv8>) {
    && |mem'| == |mem| && at + |bytes| <= |mem|
    && forall k :: 0 <= k < |mem| ==> mem'[k] == if at <= k < at + |bytes| then bytes[k - at] else mem[k]
  }

  /** `mem'` is `mem` but for the ranges of code and edge bytes. */
  ghost predicate Outside(mem: seq<bv8>, mem': seq<bv8>, o: nat, n: nat, e: nat, m: nat) {
    && |mem'| == |mem|
    && forall k :: 0 <= k < |mem| && !(o <= k < o + n) && !(e <= k < e + m) ==> mem'[k] == mem[k]
  }

  /** Machine memory, where the scratch pages and the code cache are. */
  class MachineMemory {
    var bytes: seq<bv8>

    method Write(at: nat, code: seq<bv8>)
      requires at + |code| <= |bytes|
      modifies this
      ensures Wrote(old(bytes), bytes, at, code)
    {
      for i := 0 to |code|
        invariant Wrote(old(bytes), bytes, at, code[..i])
      {
        bytes := bytes[at + i := code[i]];
        assert code[..i + 1][..i] == code[..i];
      }
      assert code[..|code|] == code;
    }
  }

  /** A write leaves the bytes beside it as they were. */
  lemma Beside(mem: seq<bv8>, mem': seq<bv8>, at: nat, bytes: seq<bv8>, lo: nat, other: seq<bv8>)
    requires Wrote(mem, mem', at, bytes) && HasBytes(mem, lo, other) && (lo + |other| <= at || at + |bytes| <= lo)
    ensures HasBytes(mem', lo, other)
  {
    assert mem'[lo..lo + |other|] == mem[lo..lo + |other|];
  }

  lemma WrittenRange(mem: seq<bv8>, mem': seq<bv8>, at: nat, bytes: seq<bv8>)
    requires Wrote(mem, mem', at, bytes)
    ensures HasBytes(mem', at, bytes)
  {
  }

  lemma EmittedBefore(d: Decoder, c: seq<int>, i: nat, n: nat, mem: seq<bv8>, mem': seq<bv8>, mem'': seq<bv8>,
                      tcPtr: nat, edgePtr: nat)
    requires d.Sized() && i < n < |c| && EmittedAt(d, c, i, mem, tcPtr, edgePtr)
    requires tcPtr + d.CodeOff(c, |c|) <= edgePtr || edgePtr + d.EdgeOff(c, |c|) <= tcPtr
    requires var o, e := tcPtr + d.CodeOff(c, n), edgePtr + d.EdgeOff(c, n);
             Wrote(mem, mem', o, d.Code(c[n], o, e)) && Wrote(mem', mem'', e, d.Edge(c[n], o, e))
    ensures EmittedAt(d, c, i, mem'', tcPtr, edgePtr)
  {
    OffsetGrows(d.codeLen, c, i, n);
    OffsetGrows(d.edgeLen, c, i, n);
    OffsetGrows(d.codeLen, c, n, |c|);
    OffsetGrows(d.edgeLen, c, n, |c|);
    var on, en := tcPtr + d.CodeOff(c, n), edgePtr + d.EdgeOff(c, n);
    var o, e := tcPtr + d.CodeOff(c, i), edgePtr + d.EdgeOff(c, i);
    var code, edge := d.Code(c[i], o, e), d.Edge(c[i], o, e);
    Beside(mem, mem', on, d.Code(c[n], on, en), o, code);
    Beside(mem', mem'', en, d.Edge(c[n], on, en), o, code);
    Beside(mem, mem', on, d.Code(c[n], on, en), e, edge);
    Beside(mem', mem'', en, d.Edge(c[n], on, en), e, edge);
  }

  lemma EmittedNow(d: Decoder, c: seq<int>, n: nat, mem: seq<bv8>, mem': seq<bv8>, mem'': seq<bv8>, tcPtr: nat,
                   edgePtr: nat)
    requires d.Sized() && n < |c|
    requires tcPtr + d.CodeOff(c, |c|) <= edgePtr || edgePtr + d.EdgeOff(c, |c|) <= tcPtr
    requires var o, e := tcPtr + d.CodeOff(c, n), edgePtr + d.EdgeOff(c, n);
             Wrote(mem, mem', o, d.Code(c[n], o, e)) && Wrote(mem', mem'', e, d.Edge(c[n], o, e))
    ensures EmittedAt(d, c, n, mem'', tcPtr, edgePtr)
  {
    OffsetGrows(d.codeLen, c, n, |c|);
    OffsetGrows(d.edgeLen, c, n, |c|);
    var o, e := tcPtr + d.CodeOff(c, n), edgePtr + d.EdgeOff(c, n);
    WrittenRange(mem, mem', o, d.Code(c[n], o, e));
    WrittenRange(mem', mem'', e, d.Edge(c[n], o, e));
    Beside(mem', mem'', e, d.Edge(c[n], o, e), o, d.Code(c[n], o, e));
  }

  /** Writing the bytes of the next instruction keeps those of the instructions before it. */
  lemma EmittedNext(d: Decoder, c: seq<int>, n: nat, mem: seq<bv8>, mem': seq<bv8>, mem'': seq<bv8>, tcPtr: nat,
                    edgePtr: nat)
    requires d.Sized() && n < |c| && Emitted(d, c, n, mem, tcPtr, edgePtr)
    requires tcPtr + d.CodeOff(c, |c|) <= edgePtr || edgePtr + d.EdgeOff(c, |c|) <= tcPtr
    requires var o, e := tcPtr + d.CodeOff(c, n), edgePtr + d.EdgeOff(c, n);
             Wrote(mem, mem', o, d.Code(c[n], o, e)) && Wrote(mem', mem'', e, d.Edge(c[n], o, e))
    ensures Emitted(d, c, n + 1, mem'', tcPtr, edgePtr)
  {
    forall i | 0 <= i < n
      ensures EmittedAt(d, c, i, mem'', tcPtr, edgePtr)
    {
      EmittedBefore(d, c, i, n, mem, mem', mem'', tcPtr, edgePtr);
    }
    EmittedNow(d, c, n, mem, mem', mem'', tcPtr, edgePtr);
  }

  lemma OutsideGrows(d: Decoder, c: seq<int>, n: nat, mem0: seq<bv8>, mem: seq<bv8>, mem': seq<bv8>, mem'': seq<bv8>,
                     o0: nat, m: nat, e0: nat, l: nat)
    requires d.Sized() && n < |c| && Outside(mem0, mem, o0, m, e0, l)
    requires d.CodeOff(c, n) + d.codeLen(c[n]) <= m && d.EdgeOff(c, n) + d.edgeLen(c[n]) <= l
    requires var o, e := o0 + d.CodeOff(c, n), e0 + d.EdgeOff(c, n);
             Wrote(mem, mem', o, d.Code(c[n], o, e)) && Wrote(mem', mem'', e, d.Edge(c[n], o, e))
    ensures Outside(mem0, mem'', o0, m, e0, l)
  {
  }

  lemma NothingEmitted(d: Decoder, c: seq<int>, mem: seq<bv8>, o: nat, n: nat, e: nat, m: nat)
    requires d.IsChain(c)
    ensures |c| > 0 && d.Span(c, 0) == 0 && d.CodeOff(c, 0) == 0 && d.EdgeOff(c, 0) == 0
    ensures Emitted(d, c, 0, mem, o, e) && Outside(mem, mem, o, n, e, m)
  {
  }

  /** One instruction: peep_translate or mode_translate. */
  method EmitInsn(d: Decoder, a: int, mem: MachineMemory, optr: nat, eptr: nat, ghost oend: nat, ghost eend: nat)
    returns (optr': nat, eptr': nat, ghost middle: seq<bv8>)
    requires d.Sized() && optr + d.codeLen(a) <= oend <= |mem.bytes| && eptr + d.edgeLen(a) <= eend <= |mem.bytes|
    modifies mem
    ensures optr' == optr + d.codeLen(a) <= oend && eptr' == eptr + d.edgeLen(a) <= eend
    ensures Wrote(old(mem.bytes), middle, optr, d.Code(a, optr, eptr))
    ensures Wrote(middle, mem.bytes, eptr, d.Edge(a, optr, eptr))
  {
    var code, edge := d.Code(a, optr, eptr), d.Edge(a, optr, eptr);
    mem.Write(optr, code);
    middle := mem.bytes;
    mem.Write(eptr, edge);
    optr', eptr' := optr + |code|, eptr + |edge|;
  }

  /** One instruction of a chain, between the C assertions that the output fits. */
  method EmitNext(d: Decoder, a: int, mem: MachineMemory, optr: nat, eptr: nat, ghost oend: nat, ghost eend: nat,
                  ghost tmode: bool, ghost before: seq<bv8>, ghost c: seq<int>, ghost n: nat, ghost o0: nat,
                  ghost e0: nat)
    returns (optr': nat, eptr': nat, ghost image: seq<bv8>)
    requires d.Sized() && n < |c| && c[n] == a && optr == o0 + d.CodeOff(c, n) && eptr == e0 + d.EdgeOff(c, n)
    requires o0 + d.CodeOff(c, |c|) <= oend <= |mem.bytes| && e0 + d.EdgeOff(c, |c|) <= eend <= |mem.bytes|
    requires Outside(before, mem.bytes, o0, oend - o0, e0, eend - e0)
    requires tmode ==> (oend <= e0 || eend <= o0) && Emitted(d, c, n, mem.bytes, o0, e0)
    modifies mem
    ensures optr' == o0 + d.CodeOff(c, n + 1) <= oend && eptr' == e0 + d.EdgeOff(c, n + 1) <= eend
    ensures image == mem.bytes && |image| == |before| && Outside(before, image, o0, oend - o0, e0, eend - e0)
    ensures tmode ==> Emitted(d, c, n + 1, image, o0, e0)
  {
    OffsetGrows(d.codeLen, c, n, |c|);
    OffsetGrows(d.edgeLen, c, n, |c|);
    OffsetNext(d.codeLen, c, n);
    OffsetNext(d.edgeLen, c, n);
    ghost var first := mem.bytes;
    ghost var middle;
    optr', eptr', middle := EmitInsn(d, a, mem, optr, eptr, oend, eend);
    image := mem.bytes;
    OutsideGrows(d, c, n, before, first, middle, image, o0, oend - o0, e0, eend - e0);
    if tmode {
      EmittedNext(d, c, n, first, middle, image, o0, e0);
    }
  }

  /** translate: with `tmode` false it measures the block on the scratch pages at `tpage`, with
      `tmode` true it emits the block at its place.  The C assertions on the two output pointers
      are the asserts of the loop. */
  method Translate(d: Decoder, tb: Tb, tmode: bool, mem: MachineMemory, tpage: nat, ghost c: seq<int>)
    requires d.Sized() && d.IsChain(c) && c[0] == tb.eipVirt && |c| <= MAX_TU_SIZE
    requires !tmode ==> tpage + TPAGE_SIZE <= |mem.bytes|
                        && d.CodeOff(c, |c|) <= TPAGE_SIZE && d.EdgeOff(c, |c|) <= TPAGE_SIZE
    requires tmode ==> tb.Measured(d, c) && tb.Placed(|mem.bytes|)
    modifies mem, tb`endEip, tb`numInsns, tb`codeLen, tb`edgeLen
    modifies if tmode then {tb.tcBoundaries, tb.eipBoundaries} else {}
    ensures tb.Measured(d, c)
    ensures !tmode ==> Outside(old(mem.bytes), mem.bytes, tpage, TPAGE_SIZE, tpage, TPAGE_SIZE)
    ensures tmode ==> Outside(old(mem.bytes), mem.bytes, tb.tcPtr, tb.codeLen, tb.edgePtr, tb.edgeLen)
    ensures tmode ==> Emitted(d, c, |c|, mem.bytes, tb.tcPtr, tb.edgePtr)
    ensures tmode ==> tb.Bounded(d, c, |c|) && tb.tcBoundaries.Length == |c| + 1
                      && tb.tcBoundaries[|c|] == U16(tb.codeLen)
  {
    hide Decoder.Sized, Decoder.IsChain, Offset, Emitted, Outside, Tb.Bounded;
    var eip := tb.eipVirt;
    var o0 := if tmode then tb.tcPtr else tpage;
    var e0 := if tmode then tb.edgePtr else tpage;
    var oend := o0 + if tmode then tb.codeLen else TPAGE_SIZE;
    var eend := e0 + if tmode then tb.edgeLen else TPAGE_SIZE;
    var n, ptr, optr, eptr := 0, eip, o0, e0;
    var curAddr, isTerminating := eip, false;
    ghost var before := mem.bytes;
    ghost var image := before;
    NothingEmitted(d, c, image, o0, oend - o0, e0, eend - e0);
    tb.BoundedNothing(d, c);
    while !isTerminating
      invariant n <= |c| && (isTerminating <==> n == |c|)
      invariant n > 0 ==> curAddr == c[n - 1]
      invariant ptr == eip + d.Span(c, n) && optr == o0 + d.CodeOff(c, n) && eptr == e0 + d.EdgeOff(c, n)
      invariant image == mem.bytes && |image| == |before| && Outside(before, image, o0, oend - o0, e0, eend - e0)
      invariant tmode ==> tb.Bounded(d, c, n) && Emitted(d, c, n, image, o0, e0)
      modifies mem, if tmode then {tb.tcBoundaries, tb.eipBoundaries} else {}
      decreases |c| - n
    {
      assert n < MAX_TU_SIZE;
      if tmode {
        tb.MarkCode(n, optr - o0, d, c);
      }
      curAddr := ptr;
      ChainStep(d, c, n);
      isTerminating := d.Last(curAddr);
      optr, eptr, image := EmitNext(d, curAddr, mem, optr, eptr, oend, eend, tmode, before, c, n, o0, e0);
      assert optr <= oend && eptr <= eend;
      ptr := ptr + d.Length(curAddr);
      if tmode {
        tb.MarkInsn(n, ptr - eip, d, c);
      }
      n := n + 1;
    }
    tb.endEip := curAddr;
    if !tmode {
      tb.numInsns := n;
      tb.codeLen := optr - o0;
      tb.edgeLen := eptr - e0;
    } else {
      tb.MarkCode(n, optr - o0, d, c);
    }
  }

  // ---------- blocks and their address maps ----------

  /** A finished block: the fields of a tb_t that the indexes and the address maps read. */
  datatype Block = Block(eipVirt: int, endEip: int, tcPtr: int, edgePtr: int, numInsns: nat, eipB: seq<int>,
                         tcB: seq<int>)
  {
    predicate WellFormed() {
      && 0 < numInsns == |eipB| && |tcB| == numInsns + 1 && tcB[0] == 0 < eipB[0]
      && (forall i, j :: 0 <= i < j < |eipB| ==> eipB[i] < eipB[j])
      && (forall i, j :: 0 <= i < j < |tcB| ==> tcB[i] <= tcB[j])
      && endEip == InsnEip(numInsns - 1)
    }

    /** The guest address of instruction `i`; for `numInsns`, the address after the block. */
    function InsnEip(i: nat): int
      requires i <= |eipB|
    {
      if i == 0 then eipVirt else eipVirt + eipB[i - 1]
    }

    /** The instruction of the block at which the byte `eip` of its guest range is. */
    function InsnOfEip(eip: int): (i: nat)
      requires WellFormed() && eipVirt <= eip < InsnEip(numInsns)
      ensures i < numInsns && InsnEip(i) <= eip < InsnEip(i + 1)
    {
      FirstAbove(eipB, eip - eipVirt)
    }

    function InsnOfTc(tc: int): (i: nat)
      requires WellFormed() && tcPtr <= tc < tcPtr + tcB[numInsns]
      ensures i < numInsns && tcPtr + tcB[i] <= tc < tcPtr + tcB[i + 1]
    {
      FirstAbove(tcB[1..], tc - tcPtr)
    }

    /** Where __tb_gen_translate_code sends `eip`. */
    function TcOfEip(eip: int): int
      requires WellFormed() && eipVirt <= eip < InsnEip(numInsns)
    {
      var i := InsnOfEip(eip);
      tcPtr + tcB[i] + (eip - InsnEip(i))
    }

    function EipOfTc(tc: int): int
      requires WellFormed() && tcPtr <= tc < tcPtr + tcB[numInsns]
    {
      InsnEip(InsnOfTc(tc))
    }

    ghost predicate OnChain(eip: int)
      requires WellFormed()
    {
      exists i :: 0 <= i < numInsns && eip == InsnEip(i)
    }

    /** eip_virt_to_tc_ptr */
    method EipVirtToTcPtr(eip: int) returns (tc: int)
      requires WellFormed() && eipVirt < eip < eipVirt + eipB[numInsns - 1]
      ensures tc == TcOfEip(eip)
    {
      for i := 0 to numInsns
        invariant forall k :: 0 <= k < i ==> eipVirt + eipB[k] <= eip
      {
        if eip < eipVirt + eipB[i] {
          var prevEip := if i == 0 then eipVirt else eipVirt + eipB[i - 1];
          EipIsIn(this, eip, i);
          return tcPtr + tcB[i] + (eip - prevEip);
        }
      }
      assert false;
    }

    /** The search of tb_tc_ptr_to_eip_virt inside the block that tb_find returned. */
    method TcPtrToEipVirt(tc: int) returns (eip: int)
      requires WellFormed() && tcPtr <= tc < tcPtr + tcB[numInsns]
      ensures eip == EipOfTc(tc)
    {
      for i := 0 to numInsns
        invariant tcPtr + tcB[i] <= tc
      {
        if tc >= tcPtr + tcB[i] && tc < tcPtr + tcB[i + 1] {
          TcIsIn(this, tc, i);
          return if i == 0 then eipVirt else eipVirt + eipB[i - 1];
        }
      }
      assert false;
    }
  }

  function FirstAbove(s: seq<int>, x: int): (k: nat)
    requires |s| > 0 && x < s[|s| - 1]
    ensures k < |s| && x < s[k] && (k > 0 ==> s[k - 1] <= x)
  {
    if x < s[0] then 0 else 1 + FirstAbove(s[1..], x)
  }

  lemma EipIsIn(b: Block, eip: int, i: nat)
    requires b.WellFormed() && i < b.numInsns && b.InsnEip(i) <= eip < b.InsnEip(i + 1)
    ensures b.eipVirt <= eip < b.InsnEip(b.numInsns) && b.InsnOfEip(eip) == i
  {
    var k := b.InsnOfEip(eip);
    assert i <= k;
    assert k <= i;
  }

  lemma TcIsIn(b: Block, tc: int, i: nat)
    requires b.WellFormed() && i < b.numInsns && b.tcPtr + b.tcB[i] <= tc < b.tcPtr + b.tcB[i + 1]
    ensures b.tcPtr <= tc < b.tcPtr + b.tcB[b.numInsns] && b.InsnOfTc(tc) == i
  {
    assert 0 < i + 1 <= b.numInsns;
    var k := b.InsnOfTc(tc);
    assert i <= k;
    assert k <= i;
  }

  /** Any address inside the emitted bytes of instruction `i` maps back to that instruction. */
  lemma InsideMapsBack(b: Block, i: nat, tc: int)
    requires b.WellFormed() && i < b.numInsns && b.tcPtr + b.tcB[i] <= tc < b.tcPtr + b.tcB[i + 1]
    ensures b.tcPtr <= tc < b.tcPtr + b.tcB[b.numInsns] && b.EipOfTc(tc) == b.InsnEip(i)
  {
    TcIsIn(b, tc, i);
  }

  /** The code of instruction `i` begins inside the block's code and leads back to the instruction
      exactly when the instruction emitted code. */
  lemma RoundTrip(b: Block, i: nat)
    requires b.WellFormed() && i < b.numInsns
    ensures b.eipVirt <= b.InsnEip(i) < b.InsnEip(b.numInsns)
    ensures var tc := b.TcOfEip(b.InsnEip(i));
            && tc == b.tcPtr + b.tcB[i]
            && (b.tcPtr <= tc < b.tcPtr + b.tcB[b.numInsns] && b.EipOfTc(tc) == b.InsnEip(i)
                <==> b.tcB[i] < b.tcB[i + 1])
  {
    EipIsIn(b, b.InsnEip(i), i);
    var tc := b.TcOfEip(b.InsnEip(i));
    if b.tcB[i] < b.tcB[i + 1] {
      TcIsIn(b, tc, i);
    } else if tc < b.tcPtr + b.tcB[b.numInsns] {
      var k := b.InsnOfTc(tc);
      assert k > i;
      assert b.InsnEip(i) < b.InsnEip(k);
    }
  }

  /** Code cache to guest and back to the code cache gives the start of the instruction, provided the
      address is in some emitted code. */
  lemma RoundTripBack(b: Block, tc: int)
    requires b.WellFormed() && b.tcPtr <= tc < b.tcPtr + b.tcB[b.numInsns]
    ensures var eip := b.EipOfTc(tc);
            b.OnChain(eip) && b.eipVirt <= eip < b.InsnEip(b.numInsns)
            && b.TcOfEip(eip) <= tc && (b.TcOfEip(eip) == tc <==> tc - b.tcPtr in b.tcB)
  {
    var i := b.InsnOfTc(tc);
    EipIsIn(b, b.InsnEip(i), i);
    if tc - b.tcPtr in b.tcB {
      var k :| 0 <= k < |b.tcB| && b.tcB[k] == tc - b.tcPtr;
      assert k <= i;
      assert k < i ==> b.tcB[k] <= b.tcB[i];
    }
  }

  /** The block that the two passes make of a chain. */
  ghost function BlockOf(tb: Tb): Block
    reads tb, tb.tcBoundaries, tb.eipBoundaries
  {
    Block(tb.eipVirt, tb.endEip, tb.tcPtr, tb.edgePtr, tb.numInsns, tb.eipBoundaries[..], tb.tcBoundaries[..])
  }

  /** The boundary arrays say what the passes counted. */
  ghost predicate Exact(b: Block, d: Decoder, c: seq<int>) {
    && b.numInsns == |c| == |b.eipB| && |b.tcB| == |c| + 1
    && (forall i :: 0 <= i <= |c| ==> ExactCode(b, d, c, i))
    && (forall i :: 0 <= i < |c| ==> ExactSpan(b, d, c, i))
  }

  ghost predicate ExactCode(b: Block, d: Decoder, c: seq<int>, i: nat)
    requires i <= |c| && |b.tcB| == |c| + 1
  {
    b.tcB[i] == d.CodeOff(c, i)
  }

  ghost predicate ExactSpan(b: Block, d: Decoder, c: seq<int>, i: nat)
    requires i < |c| == |b.eipB|
  {
    b.eipB[i] == d.Span(c, i + 1)
  }

  lemma {:induction false} OffsetWithin(size: int -> nat, c: seq<int>, i: nat)
    requires i <= |c|
    ensures Offset(size, c, i) <= Offset(size, c, |c|)
  {
    if i < |c| {
      OffsetGrows(size, c, i, |c|);
    }
  }

  /** Sixteen bits are enough for the boundaries of a block exactly when its code and its guest
      bytes are under 65536 each; the C assertions of the sizing pass let 65536 through. */
  lemma ExactBelow64K(tb: Tb, d: Decoder, c: seq<int>)
    requires d.IsChain(c) && tb.Measured(d, c) && tb.Bounded(d, c, |c|)
    requires tb.tcBoundaries.Length == |c| + 1 && tb.eipBoundaries.Length == |c|
    requires tb.tcBoundaries[|c|] == U16(tb.codeLen)
    ensures Exact(BlockOf(tb), d, c) <==> tb.codeLen < 0x1_0000 && d.Span(c, |c|) < 0x1_0000
  {
    var b := BlockOf(tb);
    if tb.codeLen < 0x1_0000 && d.Span(c, |c|) < 0x1_0000 {
      forall i | 0 <= i <= |c|
        ensures ExactCode(b, d, c, i)
      {
        OffsetWithin(d.codeLen, c, i);
      }
      forall i | 0 <= i < |c|
        ensures ExactSpan(b, d, c, i)
      {
        OffsetWithin(d.length, c, i + 1);
      }
    } else {
      assert !ExactCode(b, d, c, |c|) || !ExactSpan(b, d, c, |c| - 1);
    }
  }

  /** One instruction whose code fills the scratch pages. */
  function FullPage(): Decoder {
    Decoder(_ => 1, _ => true, (_, _, _) => seq(TPAGE_SIZE, _ => 0x90), _ => TPAGE_SIZE, (_, _, _) => [], _ => 0)
  }

  /** 65536 code bytes pass the assertions of the sizing pass, and leave a block whose code seems empty. */
  lemma FullPageFails(tb: Tb)
    requires tb.Measured(FullPage(), [0]) && tb.Bounded(FullPage(), [0], 1)
    requires tb.tcBoundaries.Length == 2 && tb.eipBoundaries.Length == 1 && tb.tcBoundaries[1] == U16(tb.codeLen)
    ensures FullPage().Sized() && FullPage().IsChain([0])
    ensures FullPage().CodeOff([0], 1) <= TPAGE_SIZE && FullPage().EdgeOff([0], 1) <= TPAGE_SIZE
    ensures BlockOf(tb).tcB == [0, 0] && !Exact(BlockOf(tb), FullPage(), [0])
  {
    var d, c := FullPage(), [0];
    OffsetNext(d.codeLen, c, 0);
    OffsetNext(d.edgeLen, c, 0);
    assert tb.codeLen == TPAGE_SIZE;
    assert !ExactCode(BlockOf(tb), d, c, 1);
  }

  /** The first of two instructions emits nothing. */
  function EmptyFirst(): Decoder {
    Decoder(_ => 1, a => a == 1, (a, _, _) => if a == 0 then [] else [0x90], a => if a == 0 then 0 else 1,
            (_, _, _) => [], _ => 0)
  }

  lemma TwoOffsets(size: int -> nat, c: seq<int>)
    requires |c| == 2
    ensures Offset(size, c, 1) == size(c[0]) && Offset(size, c, 2) == size(c[0]) + size(c[1])
  {
    OffsetNext(size, c, 0);
    OffsetNext(size, c, 1);
  }

  lemma EmptyFirstChain(b: Block)
    requires b == Block(0, 1, 100, 0, 2, [1, 2], [0, 0, 1])
    ensures EmptyFirst().Sized() && EmptyFirst().IsChain([0, 1]) && Exact(b, EmptyFirst(), [0, 1])
  {
    var d, c := EmptyFirst(), [0, 1];
    assert d.Follows(c, 1);
    TwoOffsets(d.length, c);
    TwoOffsets(d.codeLen, c);
  }

  /** The code of an instruction that emits nothing is that of the next one, and leads back to that one. */
  lemma RoundTripFails()
    ensures var d, c, b := EmptyFirst(), [0, 1], Block(0, 1, 100, 0, 2, [1, 2], [0, 0, 1]);
            && d.Sized() && d.IsChain(c) && Exact(b, d, c) && b.eipVirt == c[0] && b.endEip == c[1]
            && b.WellFormed() && b.eipVirt <= 0 < b.InsnEip(2)
            && b.TcOfEip(0) == b.tcPtr && b.EipOfTc(b.tcPtr) == 1
  {
    hide Decoder.Sized, Decoder.IsChain, Exact;
    var b := Block(0, 1, 100, 0, 2, [1, 2], [0, 0, 1]);
    EmptyFirstChain(b);
    EipIsIn(b, 0, 0);
    TcIsIn(b, b.tcPtr, 1);
  }

  lemma {:induction false} ExactChain(b: Block, d: Decoder, c: seq<int>, i: nat)
    requires d.IsChain(c) && Exact(b, d, c) && b.eipVirt == c[0] && i < |c|
    ensures b.InsnEip(i) == c[i]
  {
    ChainSpan(d, c, i);
    assert i > 0 ==> ExactSpan(b, d, c, i - 1);
  }

  lemma SpanRises(d: Decoder, c: seq<int>, i: nat, j: nat)
    requires d.Sized() && i < j <= |c|
    ensures d.Span(c, i) < d.Span(c, j)
  {
    OffsetGrows(d.length, c, i, j);
    assert d.Length(c[i]) > 0;
  }

  lemma CodeRises(d: Decoder, c: seq<int>, i: nat, j: nat)
    requires i < j <= |c|
    ensures d.CodeOff(c, i) <= d.CodeOff(c, j)
  {
    OffsetGrows(d.codeLen, c, i, j);
  }

  lemma ExactOrder(b: Block, d: Decoder, c: seq<int>, i: nat, j: nat)
    requires d.Sized() && Exact(b, d, c) && i < j
    ensures j < |b.eipB| ==> b.eipB[i] < b.eipB[j]
    ensures j < |b.tcB| ==> b.tcB[i] <= b.tcB[j]
  {
    if j < |b.eipB| {
      SpanRises(d, c, i + 1, j + 1);
      assert ExactSpan(b, d, c, i) && ExactSpan(b, d, c, j);
    }
    if j < |b.tcB| {
      CodeRises(d, c, i, j);
      assert ExactCode(b, d, c, i) && ExactCode(b, d, c, j);
    }
  }

  /** An exact block is well formed, and its instructions are the chain. */
  lemma ExactIsWellFormed(b: Block, d: Decoder, c: seq<int>)
    requires d.Sized() && d.IsChain(c) && Exact(b, d, c) && b.eipVirt == c[0] && b.endEip == c[|c| - 1]
    ensures b.WellFormed()
    ensures forall i {:trigger b.InsnEip(i)} :: 0 <= i < |c| ==> b.InsnEip(i) == c[i]
  {
    forall i | 0 <= i < |c|
      ensures b.InsnEip(i) == c[i]
    {
      ExactChain(b, d, c, i);
    }
    forall i, j | 0 <= i < j
      ensures j < |b.eipB| ==> b.eipB[i] < b.eipB[j]
      ensures j < |b.tcB| ==> b.tcB[i] <= b.tcB[j]
    {
      ExactOrder(b, d, c, i, j);
    }
    assert ExactCode(b, d, c, 0);
    assert 0 < b.eipB[0] by {
      assert ExactSpan(b, d, c, 0);
      SpanRises(d, c, 0, 1);
    }
  }

  /** The guest boundaries of an exact block strictly increase; its code boundaries do so exactly at
      the instructions that emitted code. */
  lemma BoundariesIncrease(b: Block, d: Decoder, c: seq<int>)
    requires d.Sized() && Exact(b, d, c)
    ensures forall i, j :: 0 <= i < j < |b.eipB| ==> b.eipB[i] < b.eipB[j]
    ensures forall i :: 0 <= i < |c| ==> (b.tcB[i] < b.tcB[i + 1] <==> d.codeLen(c[i]) > 0)
  {
    forall i, j | 0 <= i < j < |b.eipB|
      ensures b.eipB[i] < b.eipB[j]
    {
      ExactOrder(b, d, c, i, j);
    }
    forall i | 0 <= i < |c|
      ensures b.tcB[i] < b.tcB[i + 1] <==> d.codeLen(c[i]) > 0
    {
      OffsetNext(d.codeLen, c, i);
      assert ExactCode(b, d, c, i) && ExactCode(b, d, c, i + 1);
    }
  }
}
