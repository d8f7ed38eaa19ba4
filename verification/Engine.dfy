/**
 The translation engine (bt_main.c): a miss looks the guest address up, or measures a block, gets its
 place from the pools, emits it and puts it into both indexes.
 */
module Engine {
  import opened Common
  import opened RbTree
  import opened Translation
  import opened BlockIndex
  import opened Dispatch
  import Pools

  /** sizeof(tb_t) */
  const TB_SIZE: nat := 80

  // ---------- ranges of the pools ----------

  ghost predicate IsPrefix<A>(s: seq<A>, t: seq<A>) {
    |s| <= |t| && t[..|s|] == s
  }

  /** One of the ranges handed out from the `n0`th on is that of `size` bytes at `addr`. */
  ghost predicate HandedOut(rs: seq<Pools.Range>, n0: nat, pool: Pools.Pool, addr: int, size: nat) {
    exists k :: n0 <= k < |rs| && rs[k].pool == pool && rs[k].addr == addr && rs[k].size == size
  }

  /** tb_kmalloc gives the null pointer for no bytes. */
  ghost predicate HasPlace(rs: seq<Pools.Range>, n0: nat, pool: Pools.Pool, addr: int, size: nat) {
    if size == 0 then addr == 0 else HandedOut(rs, n0, pool, addr, size)
  }

  /** Bytes are wanted, and no chunk of the pool has room for them. */
  ghost predicate PoolFull(cs: seq<Pools.Chunk>, pool: Pools.Pool, size: nat) {
    && size > 0 && |cs| == Pools.MAX_CHUNK && forall i :: Pools.PoolStart(pool) <= i < Pools.PoolEnd(pool) ==>
                                                            !Pools.HasRoom(cs[i], size)
  }

  /** The scratch pages and the chunks of the pools are different parts of memory, and the chunks end
      well below the top of the address space. */
  ghost predicate PagesApart(cs: seq<Pools.Chunk>, tpage: nat, size: nat) {
    && tpage + TPAGE_SIZE <= size
    && (forall i :: 0 <= i < |cs| ==> ChunkApart(cs[i], tpage, size))
  }

  ghost predicate ChunkApart(c: Pools.Chunk, tpage: nat, size: nat) {
    c.end <= size && c.end + 2 * TPAGE_SIZE < WORD && (c.end <= tpage || tpage + TPAGE_SIZE <= c.start)
  }

  /** `addr` is one of the `n` bytes from `at` on. */
  predicate Within(addr: int, at: int, n: int) {
    at <= addr < at + n
  }

  /** `mem'` is `mem` but for the scratch pages and two ranges. */
  ghost predicate WroteOnly(mem: seq<bv8>, mem': seq<bv8>, tpage: nat, o: int, n: int, e: int, m: int) {
    && |mem'| == |mem|
    && forall k :: 0 <= k < |mem| && !Within(k, tpage, TPAGE_SIZE) && !Within(k, o, n) && !Within(k, e, m) ==>
                     mem'[k] == mem[k]
  }

  // ---------- blocks in memory ----------

  /** The block is the translation of the chain, in code and edge bytes that the pools handed out for it,
      and what was emitted for the chain is in memory. */
  ghost predicate StoredChain(d: Decoder, mem: seq<bv8>, rs: seq<Pools.Range>, b: Block, c: seq<int>) {
    && TranslatesChain(d, b, c) && b.tcPtr >= 0 && b.edgePtr >= 0
    && Emitted(d, c, |c|, mem, b.tcPtr, b.edgePtr)
    && HandedOut(rs, 0, Pools.Tc, b.tcPtr, d.CodeOff(c, |c|))
    && HasPlace(rs, 0, Pools.Edge, b.edgePtr, d.EdgeOff(c, |c|))
  }

  ghost predicate Stored(d: Decoder, mem: seq<bv8>, rs: seq<Pools.Range>, b: Block) {
    exists c :: StoredChain(d, mem, rs, b, c)
  }

  ghost predicate AllStored(d: Decoder, mem: seq<bv8>, rs: seq<Pools.Range>, bs: seq<Block>) {
    forall b :: b in bs ==> Stored(d, mem, rs, b)
  }

  /** The bytes of the two ranges are the same in both memories. */
  ghost predicate SameBytes(mem: seq<bv8>, mem': seq<bv8>, at: nat, n: nat) {
    |mem'| == |mem| && forall k :: 0 <= k < |mem| && Within(k, at, n) ==> mem'[k] == mem[k]
  }

  lemma SameIsThere(mem: seq<bv8>, mem': seq<bv8>, at: nat, n: nat, lo: nat, bytes: seq<bv8>)
    requires SameBytes(mem, mem', at, n) && HasBytes(mem, lo, bytes) && at <= lo && lo + |bytes| <= at + n
    ensures HasBytes(mem', lo, bytes)
  {
    assert mem'[lo..lo + |bytes|] == mem[lo..lo + |bytes|];
  }

  lemma EmittedStays(d: Decoder, c: seq<int>, mem: seq<bv8>, mem': seq<bv8>, tcPtr: nat, edgePtr: nat)
    requires d.Sized() && Emitted(d, c, |c|, mem, tcPtr, edgePtr)
    requires SameBytes(mem, mem', tcPtr, d.CodeOff(c, |c|)) && SameBytes(mem, mem', edgePtr, d.EdgeOff(c, |c|))
    ensures Emitted(d, c, |c|, mem', tcPtr, edgePtr)
  {
    forall i | 0 <= i < |c|
      ensures EmittedAt(d, c, i, mem', tcPtr, edgePtr)
    {
      assert EmittedAt(d, c, i, mem, tcPtr, edgePtr);
      OffsetGrows(d.codeLen, c, i, |c|);
      OffsetGrows(d.edgeLen, c, i, |c|);
      var o, e := tcPtr + d.CodeOff(c, i), edgePtr + d.EdgeOff(c, i);
      SameIsThere(mem, mem', tcPtr, d.CodeOff(c, |c|), o, d.Code(c[i], o, e));
      SameIsThere(mem, mem', edgePtr, d.EdgeOff(c, |c|), e, d.Edge(c[i], o, e));
    }
  }

  /** What the pools say of the ranges handed out. */
  ghost predicate RangesOk(cs: seq<Pools.Chunk>, rs: seq<Pools.Range>) {
    && |cs| == Pools.MAX_CHUNK && (forall i :: 0 <= i < |cs| ==> Pools.ChunkOk(cs[i]))
    && (forall k :: 0 <= k < |rs| ==> Pools.InChunk(cs, rs[k])) && Pools.NoOverlap(rs)
  }

  /** A byte of a range handed out earlier is no byte of a later range and no scratch byte. */
  lemma OldByte(cs: seq<Pools.Chunk>, tpage: nat, size: nat, rs: seq<Pools.Range>, n0: nat, pool: Pools.Pool, at: int,
                n: nat, pool': Pools.Pool, at': int, n': nat, k: int)
    requires RangesOk(cs, rs) && PagesApart(cs, tpage, size) && n0 <= |rs|
    requires HasPlace(rs[..n0], 0, pool, at, n) && HasPlace(rs, n0, pool', at', n') && Within(k, at, n)
    ensures !Within(k, at', n') && !Within(k, tpage, TPAGE_SIZE)
  {
    var i :| 0 <= i < n0 && rs[..n0][i].pool == pool && rs[..n0][i].addr == at && rs[..n0][i].size == n;
    assert Pools.InChunk(cs, rs[i]) && ChunkApart(cs[rs[i].chunk], tpage, size);
    assert Pools.Covers(rs[i], k);
    forall j | n0 <= j < |rs|
      ensures !Pools.Covers(rs[j], k)
    {
      assert !Pools.Overlap(rs[i], rs[j]);
    }
  }

  lemma OldPlaceStays(cs: seq<Pools.Chunk>, tpage: nat, rs: seq<Pools.Range>, n0: nat, mem: seq<bv8>, mem': seq<bv8>,
                      pool: Pools.Pool, at: int, n: nat, o: int, m: nat, e: int, l: nat)
    requires RangesOk(cs, rs) && PagesApart(cs, tpage, |mem|) && n0 <= |rs| && 0 <= at
    requires HasPlace(rs[..n0], 0, pool, at, n) && WroteOnly(mem, mem', tpage, o, m, e, l)
    requires HasPlace(rs, n0, Pools.Tc, o, m) && HasPlace(rs, n0, Pools.Edge, e, l)
    ensures SameBytes(mem, mem', at, n)
    ensures HasPlace(rs, 0, pool, at, n)
  {
    forall k | 0 <= k < |mem| && Within(k, at, n)
      ensures mem'[k] == mem[k]
    {
      OldByte(cs, tpage, |mem|, rs, n0, pool, at, n, Pools.Tc, o, m, k);
      OldByte(cs, tpage, |mem|, rs, n0, pool, at, n, Pools.Edge, e, l, k);
    }
    if n > 0 {
      var i :| 0 <= i < n0 && rs[..n0][i].pool == pool && rs[..n0][i].addr == at && rs[..n0][i].size == n;
      assert rs[i] == rs[..n0][i];
    }
  }

  lemma PlaceInside(cs: seq<Pools.Chunk>, tpage: nat, size: nat, rs: seq<Pools.Range>, n0: nat, pool: Pools.Pool,
                    at: int, n: nat)
    requires RangesOk(cs, rs) && PagesApart(cs, tpage, size) && HasPlace(rs, n0, pool, at, n)
    ensures 0 <= at && at + n <= size
  {
    if n > 0 {
      var i :| n0 <= i < |rs| && rs[i].pool == pool && rs[i].addr == at && rs[i].size == n;
      assert Pools.InChunk(cs, rs[i]) && Pools.ChunkOk(cs[rs[i].chunk]) && ChunkApart(cs[rs[i].chunk], tpage, size);
    }
  }

  /** The code and the edges of a block do not meet. */
  lemma TwoPlaces(rs: seq<Pools.Range>, n0: nat, o: int, m: nat, e: int, l: nat)
    requires Pools.NoOverlap(rs) && HasPlace(rs, n0, Pools.Tc, o, m) && HasPlace(rs, n0, Pools.Edge, e, l)
    ensures m > 0 && l > 0 ==> o + m <= e || e + l <= o
  {
    if m > 0 && l > 0 {
      var i :| n0 <= i < |rs| && rs[i].pool == Pools.Tc && rs[i].addr == o && rs[i].size == m;
      var j :| n0 <= j < |rs| && rs[j].pool == Pools.Edge && rs[j].addr == e && rs[j].size == l;
      var k := if o <= e then e else o;
      assert if i < j then !Pools.Overlap(rs[i], rs[j]) else !Pools.Overlap(rs[j], rs[i]);
      assert !(Pools.Covers(rs[i], k) && Pools.Covers(rs[j], k));
    }
  }

  lemma PlacedApart(cs: seq<Pools.Chunk>, tpage: nat, size: nat, rs: seq<Pools.Range>, n0: nat, o: int, m: nat, e: int,
                    l: nat)
    requires RangesOk(cs, rs) && PagesApart(cs, tpage, size)
    requires HasPlace(rs, n0, Pools.Tc, o, m) && HasPlace(rs, n0, Pools.Edge, e, l)
    ensures 0 <= o && o + m <= size && 0 <= e && e + l <= size && (o + m <= e || e + l <= o)
  {
    PlaceInside(cs, tpage, size, rs, n0, Pools.Tc, o, m);
    PlaceInside(cs, tpage, size, rs, n0, Pools.Edge, e, l);
    TwoPlaces(rs, n0, o, m, e, l);
  }

  /** Emitting a new block leaves every stored block as it is. */
  lemma StoredStays(d: Decoder, cs: seq<Pools.Chunk>, tpage: nat, rs: seq<Pools.Range>, n0: nat, mem: seq<bv8>,
                    mem': seq<bv8>, o: int, m: nat, e: int, l: nat, b: Block)
    requires d.Sized() && RangesOk(cs, rs) && PagesApart(cs, tpage, |mem|) && n0 <= |rs|
    requires Stored(d, mem, rs[..n0], b) && WroteOnly(mem, mem', tpage, o, m, e, l)
    requires HasPlace(rs, n0, Pools.Tc, o, m) && HasPlace(rs, n0, Pools.Edge, e, l)
    ensures Stored(d, mem', rs, b)
  {
    var c :| StoredChain(d, mem, rs[..n0], b, c);
    assert ExactCode(b, d, c, |c|);
    OldPlaceStays(cs, tpage, rs, n0, mem, mem', Pools.Tc, b.tcPtr, d.CodeOff(c, |c|), o, m, e, l);
    OldPlaceStays(cs, tpage, rs, n0, mem, mem', Pools.Edge, b.edgePtr, d.EdgeOff(c, |c|), o, m, e, l);
    EmittedStays(d, c, mem, mem', b.tcPtr, b.edgePtr);
    assert StoredChain(d, mem', rs, b, c);
  }

  /** Code bytes from the pools are in 32-bit memory. */
  lemma StoredInMemory(d: Decoder, cs: seq<Pools.Chunk>, tpage: nat, size: nat, mem: seq<bv8>, rs: seq<Pools.Range>,
                       b: Block)
    requires RangesOk(cs, rs) && PagesApart(cs, tpage, size) && Stored(d, mem, rs, b)
    ensures InMemory(b)
  {
    var c :| StoredChain(d, mem, rs, b, c);
    var k :| 0 <= k < |rs| && rs[k].pool == Pools.Tc && rs[k].addr == b.tcPtr && rs[k].size == d.CodeOff(c, |c|);
    assert Pools.InChunk(cs, rs[k]) && Pools.ChunkOk(cs[rs[k].chunk]) && ChunkApart(cs[rs[k].chunk], tpage, size);
    assert ExactCode(b, d, c, |c|);
  }

  /** A block in a new range shares no code byte with a stored one. */
  lemma NewIsSeparate(d: Decoder, cs: seq<Pools.Chunk>, mem: seq<bv8>, rs: seq<Pools.Range>, n0: nat, b: Block,
                      made: Block, c: seq<int>)
    requires RangesOk(cs, rs) && n0 <= |rs| && Stored(d, mem, rs[..n0], b)
    requires TranslatesChain(d, made, c) && HandedOut(rs, n0, Pools.Tc, made.tcPtr, d.CodeOff(c, |c|))
    ensures Separate(b, made)
  {
    var e :| StoredChain(d, mem, rs[..n0], b, e);
    var s := rs[..n0];
    var i :| 0 <= i < |s| && s[i].pool == Pools.Tc && s[i].addr == b.tcPtr && s[i].size == d.CodeOff(e, |e|);
    var j :| n0 <= j < |rs| && rs[j].pool == Pools.Tc && rs[j].addr == made.tcPtr && rs[j].size == d.CodeOff(c, |c|);
    assert ExactCode(b, d, e, |e|) && ExactCode(made, d, c, |c|);
    var k := if b.tcPtr <= made.tcPtr then made.tcPtr else b.tcPtr;
    assert !Pools.Overlap(rs[i], rs[j]);
    assert !(Pools.Covers(rs[i], k) && Pools.Covers(rs[j], k));
  }

  // ---------- what the guest program must be like ----------

  /** The chain of `eip` passes the assertions of the two passes, and 16 bits hold its lengths. */
  ghost predicate Translatable(d: Decoder, c: seq<int>, eip: int) {
    && d.IsChain(c) && c[0] == eip && |c| <= MAX_TU_SIZE
    && d.CodeOff(c, |c|) <= TPAGE_SIZE && d.EdgeOff(c, |c|) <= TPAGE_SIZE
  }

  ghost predicate AllTranslatable(g: Program) {
    forall eip :: g.starts(eip) ==> exists c :: Translatable(g.d, c, eip) && Fits(g.d, c)
  }

  // ---------- requests to the pools ----------

  ghost function PlaceRequests(code: nat, edge: nat): seq<(Pools.Pool, nat)> {
    [(Pools.Tc, code), (Pools.Edge, edge)]
  }

  ghost function BoundaryRequests(n: nat): seq<(Pools.Pool, nat)> {
    [(Pools.Kmalloc, 2 * (n + 1)), (Pools.Kmalloc, 2 * n)]
  }

  /** What a block of `n` instructions asks of the pools, in order. */
  ghost function Requests(code: nat, edge: nat, n: nat): seq<(Pools.Pool, nat)> {
    [(Pools.Kmalloc, TB_SIZE + 3), (Pools.Tc, code), (Pools.Edge, edge), (Pools.Kmalloc, 2 * (n + 1)),
     (Pools.Kmalloc, 2 * n)]
  }

  lemma RequestsInOrder(code: nat, edge: nat, n: nat)
    ensures Requests(code, edge, n)
         == [(Pools.Kmalloc, TB_SIZE + 3)] + (PlaceRequests(code, edge) + BoundaryRequests(n))
  {
  }

  /** The requests for some bytes; the others get the null pointer. */
  ghost function Wanted(reqs: seq<(Pools.Pool, nat)>): seq<(Pools.Pool, nat)> {
    if reqs == [] then [] else (if reqs[0].1 > 0 then [reqs[0]] else []) + Wanted(reqs[1..])
  }

  ghost function Asked(rs: seq<Pools.Range>): seq<(Pools.Pool, nat)> {
    seq(|rs|, k requires 0 <= k < |rs| => (rs[k].pool, rs[k].size))
  }

  /** From `rs` to `rs'` exactly the requested ranges were handed out, in order. */
  ghost predicate Granted(rs: seq<Pools.Range>, rs': seq<Pools.Range>, reqs: seq<(Pools.Pool, nat)>) {
    IsPrefix(rs, rs') && Asked(rs'[|rs|..]) == Wanted(reqs)
  }

  /** One of the requests finds its pool full after those before it were met. */
  ghost predicate Stopped(cs: seq<Pools.Chunk>, rs: seq<Pools.Range>, rs': seq<Pools.Range>,
                          reqs: seq<(Pools.Pool, nat)>) {
    exists k :: 0 <= k < |reqs| && Granted(rs, rs', reqs[..k]) && PoolFull(cs, reqs[k].0, reqs[k].1)
  }

  ghost predicate Served(ok: bool, cs: seq<Pools.Chunk>, rs: seq<Pools.Range>, rs': seq<Pools.Range>,
                         reqs: seq<(Pools.Pool, nat)>) {
    if ok then Granted(rs, rs', reqs) else Stopped(cs, rs, rs', reqs)
  }

  lemma {:induction false} WantedConcat(p: seq<(Pools.Pool, nat)>, q: seq<(Pools.Pool, nat)>)
    ensures Wanted(p + q) == Wanted(p) + Wanted(q)
  {
    if p == [] {
      assert p + q == q;
    } else {
      assert (p + q)[1..] == p[1..] + q;
      WantedConcat(p[1..], q);
    }
  }

  lemma GrantedThen(rs: seq<Pools.Range>, rs': seq<Pools.Range>, rs'': seq<Pools.Range>, p: seq<(Pools.Pool, nat)>,
                    q: seq<(Pools.Pool, nat)>)
    requires Granted(rs, rs', p) && Granted(rs', rs'', q)
    ensures Granted(rs, rs'', p + q)
  {
    hide Wanted;
    WantedConcat(p, q);
    assert rs''[..|rs'|][..|rs|] == rs''[..|rs|];
    assert Asked(rs''[|rs|..]) == Asked(rs'[|rs|..]) + Asked(rs''[|rs'|..]);
  }

  /** More requests after some that were met. */
  lemma ServedThen(ok: bool, cs: seq<Pools.Chunk>, rs: seq<Pools.Range>, rs': seq<Pools.Range>,
                   rs'': seq<Pools.Range>, p: seq<(Pools.Pool, nat)>, q: seq<(Pools.Pool, nat)>)
    requires Granted(rs, rs', p) && Served(ok, cs, rs', rs'', q)
    ensures Served(ok, cs, rs, rs'', p + q)
  {
    hide Granted, PoolFull;
    if ok {
      GrantedThen(rs, rs', rs'', p, q);
    } else {
      var k :| 0 <= k < |q| && Granted(rs', rs'', q[..k]) && PoolFull(cs, q[k].0, q[k].1);
      GrantedThen(rs, rs', rs'', p, q[..k]);
      assert (p + q)[..|p| + k] == p + q[..k] && (p + q)[|p| + k] == q[k];
    }
  }

  /** Requests that would have come after the one that stopped. */
  lemma StoppedBefore(cs: seq<Pools.Chunk>, rs: seq<Pools.Range>, rs': seq<Pools.Range>, p: seq<(Pools.Pool, nat)>,
                      q: seq<(Pools.Pool, nat)>)
    requires Stopped(cs, rs, rs', p)
    ensures Stopped(cs, rs, rs', p + q)
  {
    hide Granted, PoolFull;
    var k :| 0 <= k < |p| && Granted(rs, rs', p[..k]) && PoolFull(cs, p[k].0, p[k].1);
    assert (p + q)[..k] == p[..k] && (p + q)[k] == p[k];
  }

  lemma NothingAsked(rs: seq<Pools.Range>)
    ensures Granted(rs, rs, [])
  {
  }

  /** A miss that nothing covers: the requests of a translation of `eip`, and nothing written but the scratch pages
      and the new block `b`. */
  ghost predicate BlockServed(ok: bool, d: Decoder, eip: int, cs: seq<Pools.Chunk>, rs: seq<Pools.Range>,
                              rs': seq<Pools.Range>, tpage: nat, mem: seq<bv8>, mem': seq<bv8>, b: Block) {
    && (!ok ==> WroteOnly(mem, mem', tpage, 0, 0, 0, 0))
    && exists c :: && Translatable(d, c, eip)
                   && Served(ok, cs, rs, rs', Requests(d.CodeOff(c, |c|), d.EdgeOff(c, |c|), |c|))
                   && (ok ==> WroteOnly(mem, mem', tpage, b.tcPtr, d.CodeOff(c, |c|), b.edgePtr, d.EdgeOff(c, |c|)))
  }

  /** What one more way into `b` asks for: a longer array, unless `eip` is the start or the offset is there. */
  ghost function JumpRequests(js: map<Block, seq<int>>, b: Block, eip: int, tc: int): seq<(Pools.Pool, nat)> {
    var have := if b in js then js[b] else [];
    if b.eipVirt == eip || U16(tc - b.tcPtr) in have then [] else [(Pools.Kmalloc, 2 * (|have| + 1))]
  }

  /** What a miss asks of the pools and writes: a new translation, or one more way into the block `b`. */
  ghost predicate MissServed(ok: bool, d: Decoder, bs: seq<Block>, js: map<Block, seq<int>>, eip: int,
                             cs: seq<Pools.Chunk>, rs: seq<Pools.Range>, rs': seq<Pools.Range>, tpage: nat,
                             mem: seq<bv8>, mem': seq<bv8>, b: Block, tc: int) {
    if Uncovered(bs, eip) then BlockServed(ok, d, eip, cs, rs, rs', tpage, mem, mem', b)
    else && b in bs && Covers(b, eip) && EnteredAt(b, eip, tc)
         && Served(ok, cs, rs, rs', JumpRequests(js, b, eip, tc)) && mem' == mem
  }

  lemma OneServed(ok: bool, cs: seq<Pools.Chunk>, rs: seq<Pools.Range>, rs': seq<Pools.Range>, pool: Pools.Pool,
                  size: nat)
    requires if !ok then rs' == rs && PoolFull(cs, pool, size)
             else if size == 0 then rs' == rs
             else |rs'| == |rs| + 1 && rs'[..|rs|] == rs && rs'[|rs|].pool == pool && rs'[|rs|].size == size
    ensures Served(ok, cs, rs, rs', [(pool, size)])
  {
    var reqs := [(pool, size)];
    if !ok {
      NothingAsked(rs);
      assert reqs[..0] == [];
    } else {
      assert Wanted(reqs[1..]) == [];
    }
  }

  /** Everything is as it was in the pools but for a longer list of ranges. */
  ghost predicate Grew(cs: seq<Pools.Chunk>, rs: seq<Pools.Range>, cs': seq<Pools.Chunk>, rs': seq<Pools.Range>) {
    Pools.SameBounds(cs, cs') && IsPrefix(rs, rs')
  }

  lemma GrewTwice(a: seq<Pools.Chunk>, rs: seq<Pools.Range>, b: seq<Pools.Chunk>, rs': seq<Pools.Range>,
                  c: seq<Pools.Chunk>, rs'': seq<Pools.Range>)
    requires Grew(a, rs, b, rs') && Grew(b, rs', c, rs'')
    ensures Grew(a, rs, c, rs'')
  {
    assert rs''[..|rs'|][..|rs|] == rs''[..|rs|];
  }

  lemma LaterPlace(cs: seq<Pools.Chunk>, rs: seq<Pools.Range>, cs': seq<Pools.Chunk>, rs': seq<Pools.Range>, n0: nat,
                   n1: nat, pool: Pools.Pool, addr: int, size: nat)
    requires Grew(cs, rs, cs', rs') && n0 <= n1 && HasPlace(rs, n1, pool, addr, size)
    ensures HasPlace(rs', n0, pool, addr, size)
  {
    if size > 0 {
      var k :| n1 <= k < |rs| && rs[k].pool == pool && rs[k].addr == addr && rs[k].size == size;
      assert rs'[..|rs|][k] == rs'[k];
    }
  }

  ghost function SetOf(bs: seq<Block>): set<Block> {
    set b | b in bs
  }

  /** Different 16-bit offsets. */
  ghost predicate Offsets(js: seq<int>) {
    NoDup(js) && forall k :: 0 <= k < |js| ==> 0 <= js[k] < 0x1_0000
  }

  lemma {:induction false} FewOffsets(js: seq<int>, n: nat)
    requires NoDup(js) && forall k :: 0 <= k < |js| ==> 0 <= js[k] < n
    ensures |js| <= n
  {
    if js != [] {
      assert js[0] < n && forall k :: 0 <= k < |js| ==> js[k] in js;
      if n - 1 in js {
        var k :| 0 <= k < |js| && js[k] == n - 1;
        FewOffsets(js[..k] + js[k + 1..], n - 1);
      } else {
        FewOffsets(js, n - 1);
      }
    }
  }

  /** One more different offset is still an array of different ones, which fits a request. */
  lemma OffsetJoins(js: seq<int>, off: int)
    requires Offsets(js) && off !in js && 0 <= off < 0x1_0000
    ensures Offsets(js + [off]) && |js| < 0x1_0000
  {
    FewOffsets(js + [off], 0x1_0000);
  }

  class Bt {
    const index: Index
    const info: Pools.MallocInfo
    const mem: MachineMemory
    const tpage: nat
    /** The displacement words of the emitted jumps. */
    var displacements: map<int, int>
    /** jump_boundaries: the offsets in a block's code at which other blocks enter it. */
    var jumps: map<Block, seq<int>>

    /** The pools are in order and apart from the scratch pages. */
    ghost predicate Laid()
      reads info, info.cinfo, mem
    {
      info.Valid() && PagesApart(info.cinfo[..], tpage, |mem.bytes|)
    }

    /** Both indexes hold the same translations of reachable addresses, in their orders, and every block is
        in memory as it was emitted, in ranges of its own. */
    ghost predicate Valid(g: Program)
      reads this`jumps, info, info.cinfo, mem, index, index.jumptable2, index.jumptable2.nodes, index.tcTree,
            index.tcTree.nodes
      reads index.nil`left, index.nil`right, index.nil`color
    {
      && Laid() && index.Valid(g.d, g.starts) && AllStored(g.d, mem.bytes, info.ranges, index.Blocks())
      && forall b :: b in jumps ==> Offsets(jumps[b])
    }

    function JumpsOf(b: Block): seq<int>
      reads this`jumps
    {
      if b in jumps then jumps[b] else []
    }

    ghost function BlockSet(): set<Block>
      reads index.jumptable2`shape
    {
      SetOf(index.Blocks())
    }

    /** An empty index over fresh pools. */
    constructor (index: Index, info: Pools.MallocInfo, mem: MachineMemory, tpage: nat, ghost g: Program)
      requires index.Valid(g.d, g.starts) && index.Blocks() == []
      requires info.Valid() && PagesApart(info.cinfo[..], tpage, |mem.bytes|)
      ensures Valid(g) && BlockSet() == {} && displacements == map[] && jumps == map[]
      ensures this.index == index && this.info == info && this.mem == mem && this.tpage == tpage
    {
      this.index, this.info, this.mem, this.tpage := index, info, mem, tpage;
      displacements, jumps := map[], map[];
    }

    /** tb_kmalloc; a full pool is reported where the source stops the kernel. */
    method TbKmalloc(pool: Pools.Pool, size: nat) returns (ok: bool, ptr: int)
      requires Laid() && size <= 2 * TPAGE_SIZE
      modifies info`ranges, info.cinfo
      ensures Laid() && Grew(old(info.cinfo[..]), old(info.ranges), info.cinfo[..], info.ranges)
      ensures ok ==> ptr >= 0 && HasPlace(info.ranges, |old(info.ranges)|, pool, ptr, size)
      ensures Served(ok, info.cinfo[..], old(info.ranges), info.ranges, [(pool, size)])
    {
      hide Granted, Stopped;
      ghost var cs, rs := info.cinfo[..], info.ranges;
      if size == 0 {
        OneServed(true, cs, rs, rs, pool, size);
        return true, 0;
      }
      var r;
      ghost var chunk;
      r, chunk := info.MallocFromPool(pool, size);
      BoundsStay(cs, info.cinfo[..], tpage, |mem.bytes|);
      OneServed(r.Some?, info.cinfo[..], rs, info.ranges, pool, size);
      if r.None? {
        return false, 0;
      }
      assert ChunkApart(cs[chunk], tpage, |mem.bytes|) && Pools.ChunkOk(cs[chunk]);
      assert info.ranges[|rs|] == Pools.Range(pool, chunk, r.value, size);
      return true, r.value;
    }

    /** The first half of tb_malloc: places for the code and the edges of a measured block. */
    method TbPlace(tb: Tb) returns (ok: bool)
      requires Laid() && tb.codeLen <= TPAGE_SIZE && tb.edgeLen <= TPAGE_SIZE
      modifies info`ranges, info.cinfo, tb`tcPtr, tb`edgePtr
      ensures Laid() && Grew(old(info.cinfo[..]), old(info.ranges), info.cinfo[..], info.ranges)
      ensures ok ==> HasPlace(info.ranges, |old(info.ranges)|, Pools.Tc, tb.tcPtr, tb.codeLen)
      ensures ok ==> HasPlace(info.ranges, |old(info.ranges)|, Pools.Edge, tb.edgePtr, tb.edgeLen)
      ensures Served(ok, info.cinfo[..], old(info.ranges), info.ranges, PlaceRequests(tb.codeLen, tb.edgeLen))
    {
      hide HasPlace, PoolFull, Bt.Laid, Granted, Stopped;
      ghost var code, edges := [(Pools.Tc, tb.codeLen)], [(Pools.Edge, tb.edgeLen)];
      assert code + edges == PlaceRequests(tb.codeLen, tb.edgeLen);
      ghost var cs0, rs0 := info.cinfo[..], info.ranges;
      var ptr;
      ok, ptr := TbKmalloc(Pools.Tc, tb.codeLen);
      if !ok {
        StoppedBefore(info.cinfo[..], rs0, info.ranges, code, edges);
        return;
      }
      tb.tcPtr := ptr;
      ghost var cs1, rs1 := info.cinfo[..], info.ranges;
      ok, ptr := TbKmalloc(Pools.Edge, tb.edgeLen);
      GrewTwice(cs0, rs0, cs1, rs1, info.cinfo[..], info.ranges);
      ServedThen(ok, info.cinfo[..], rs0, rs1, info.ranges, code, edges);
      if !ok {
        return;
      }
      tb.edgePtr := ptr;
      LaterPlace(cs1, rs1, info.cinfo[..], info.ranges, |rs0|, |rs0|, Pools.Tc, tb.tcPtr, tb.codeLen);
      LaterPlace(info.cinfo[..], info.ranges, info.cinfo[..], info.ranges, |rs0|, |rs1|, Pools.Edge, tb.edgePtr,
                 tb.edgeLen);
    }

    /** The second half of tb_malloc: the boundary arrays. */
    method TbBoundaries(tb: Tb) returns (ok: bool)
      requires Laid() && tb.numInsns <= MAX_TU_SIZE
      modifies info`ranges, info.cinfo, tb`tcBoundaries, tb`eipBoundaries
      ensures Laid() && Grew(old(info.cinfo[..]), old(info.ranges), info.cinfo[..], info.ranges)
      ensures ok ==> fresh(tb.tcBoundaries) && tb.tcBoundaries.Length == tb.numInsns + 1
      ensures ok ==> fresh(tb.eipBoundaries) && tb.eipBoundaries.Length == tb.numInsns
      ensures ok ==> tb.tcBoundaries != tb.eipBoundaries
      ensures Served(ok, info.cinfo[..], old(info.ranges), info.ranges, BoundaryRequests(tb.numInsns))
    {
      hide HasPlace, PoolFull, Bt.Laid, Granted, Stopped;
      ghost var first, second := [(Pools.Kmalloc, 2 * (tb.numInsns + 1))], [(Pools.Kmalloc, 2 * tb.numInsns)];
      assert first + second == BoundaryRequests(tb.numInsns);
      ghost var cs0, rs0 := info.cinfo[..], info.ranges;
      var ptr;
      ok, ptr := TbKmalloc(Pools.Kmalloc, 2 * (tb.numInsns + 1));
      if !ok {
        StoppedBefore(info.cinfo[..], rs0, info.ranges, first, second);
        return;
      }
      tb.tcBoundaries := new int[tb.numInsns + 1];
      ghost var cs1, rs1 := info.cinfo[..], info.ranges;
      ok, ptr := TbKmalloc(Pools.Kmalloc, 2 * tb.numInsns);
      GrewTwice(cs0, rs0, cs1, rs1, info.cinfo[..], info.ranges);
      ServedThen(ok, info.cinfo[..], rs0, rs1, info.ranges, first, second);
      if ok {
        tb.eipBoundaries := new int[tb.numInsns];
      }
    }

    /** The emission pass on a block that has its place. */
    method EmitBlock(d: Decoder, tb: Tb, ghost c: seq<int>, ghost n0: nat) returns (b: Block)
      requires Laid() && d.Sized() && Translatable(d, c, tb.eipVirt) && tb.Measured(d, c)
      requires HasPlace(info.ranges, n0, Pools.Tc, tb.tcPtr, tb.codeLen)
      requires HasPlace(info.ranges, n0, Pools.Edge, tb.edgePtr, tb.edgeLen)
      requires tb.tcBoundaries != tb.eipBoundaries
      requires tb.tcBoundaries.Length == tb.numInsns + 1 && tb.eipBoundaries.Length == tb.numInsns
      modifies mem, tb`endEip, tb`numInsns, tb`codeLen, tb`edgeLen, tb.tcBoundaries, tb.eipBoundaries
      ensures b.eipVirt == tb.eipVirt && b.tcPtr == tb.tcPtr && b.edgePtr == tb.edgePtr
      ensures CodeSize(b) == U16(d.CodeOff(c, |c|)) && (TranslatesChain(d, b, c) <==> Fits(d, c))
      ensures Emitted(d, c, |c|, mem.bytes, b.tcPtr, b.edgePtr)
      ensures Outside(old(mem.bytes), mem.bytes, b.tcPtr, d.CodeOff(c, |c|), b.edgePtr, d.EdgeOff(c, |c|))
    {
      hide HasPlace, Emitted, Decoder.IsChain, Decoder.Sized;
      PlacedApart(info.cinfo[..], tpage, |mem.bytes|, info.ranges, n0, tb.tcPtr, tb.codeLen, tb.edgePtr, tb.edgeLen);
      Translate(d, tb, true, mem, tpage, c);
      PassesTranslateIff(tb, d, c);
      b := Snapshot(tb);
    }

    /** alloc_a_tb, the sizing pass, tb_malloc and the emission pass.  The block is the translation of its
        chain exactly when 16 bits hold its lengths. */
    method MakeBlock(d: Decoder, eip: int, ghost c: seq<int>) returns (ok: bool, b: Block)
      requires Laid() && d.Sized() && Translatable(d, c, eip)
      modifies info`ranges, info.cinfo, mem
      ensures Laid() && Grew(old(info.cinfo[..]), old(info.ranges), info.cinfo[..], info.ranges)
      ensures ok ==> b.eipVirt == eip && b.tcPtr >= 0 && b.edgePtr >= 0
      ensures ok ==> CodeSize(b) == U16(d.CodeOff(c, |c|)) && (TranslatesChain(d, b, c) <==> Fits(d, c))
      ensures ok ==> Emitted(d, c, |c|, mem.bytes, b.tcPtr, b.edgePtr)
      ensures ok ==> HasPlace(info.ranges, |old(info.ranges)|, Pools.Tc, b.tcPtr, d.CodeOff(c, |c|))
      ensures ok ==> HasPlace(info.ranges, |old(info.ranges)|, Pools.Edge, b.edgePtr, d.EdgeOff(c, |c|))
      ensures ok ==>
                WroteOnly(old(mem.bytes), mem.bytes, tpage, b.tcPtr, d.CodeOff(c, |c|), b.edgePtr, d.EdgeOff(c, |c|))
      ensures !ok ==> WroteOnly(old(mem.bytes), mem.bytes, tpage, 0, 0, 0, 0)
      ensures Served(ok, info.cinfo[..], old(info.ranges), info.ranges,
                     Requests(d.CodeOff(c, |c|), d.EdgeOff(c, |c|), |c|))
    {
      hide HasPlace, PoolFull, Emitted, Decoder.IsChain, Decoder.Sized, Fits, TranslatesChain, Granted, Stopped;
      ghost var cs0, rs0 := info.cinfo[..], info.ranges;
      ghost var first := [(Pools.Kmalloc, TB_SIZE + 3)];
      ghost var second, third := PlaceRequests(d.CodeOff(c, |c|), d.EdgeOff(c, |c|)), BoundaryRequests(|c|);
      RequestsInOrder(d.CodeOff(c, |c|), d.EdgeOff(c, |c|), |c|);
      b := EipProbe(eip);
      var ptr;
      ok, ptr := TbKmalloc(Pools.Kmalloc, TB_SIZE + 3);
      if !ok {
        StoppedBefore(info.cinfo[..], rs0, info.ranges, first, second + third);
        return;
      }
      ghost var cs1, rs1 := info.cinfo[..], info.ranges;
      var tb := new Tb(eip);
      Translate(d, tb, false, mem, tpage, c);
      ok := TbPlace(tb);
      GrewTwice(cs0, rs0, cs1, rs1, info.cinfo[..], info.ranges);
      if !ok {
        StoppedBefore(info.cinfo[..], rs1, info.ranges, second, third);
        ServedThen(false, info.cinfo[..], rs0, rs1, info.ranges, first, second + third);
        return;
      }
      ghost var cs2, rs2 := info.cinfo[..], info.ranges;
      ok := TbBoundaries(tb);
      GrewTwice(cs0, rs0, cs2, rs2, info.cinfo[..], info.ranges);
      ServedThen(ok, info.cinfo[..], rs1, rs2, info.ranges, second, third);
      ServedThen(ok, info.cinfo[..], rs0, rs1, info.ranges, first, second + third);
      if !ok {
        return;
      }
      LaterPlace(cs2, rs2, info.cinfo[..], info.ranges, |rs0|, |rs1|, Pools.Tc, tb.tcPtr, tb.codeLen);
      LaterPlace(cs2, rs2, info.cinfo[..], info.ranges, |rs0|, |rs1|, Pools.Edge, tb.edgePtr, tb.edgeLen);
      b := EmitBlock(d, tb, c, |rs0|);
    }

    /** A new block beside the stored ones: they stay stored, and it shares no code with them. */
    method MakeStored(g: Program, eip: int) returns (ok: bool, b: Block)
      requires Laid() && AllStored(g.d, mem.bytes, info.ranges, index.Blocks())
      requires g.Ok() && AllTranslatable(g) && g.starts(eip)
      modifies info`ranges, info.cinfo, mem
      ensures Laid() && AllStored(g.d, mem.bytes, info.ranges, index.Blocks())
      ensures ok ==> Stored(g.d, mem.bytes, info.ranges, b) && b.eipVirt == eip && InMemory(b)
      ensures ok ==> forall x :: x in index.Blocks() ==> Separate(x, b)
      ensures BlockServed(ok, g.d, eip, info.cinfo[..], old(info.ranges), info.ranges, tpage, old(mem.bytes), mem.bytes,
                          b)
    {
      hide Emitted, HasPlace, AllStored, PagesApart, RangesOk, Granted, Stopped;
      ghost var c :| Translatable(g.d, c, eip) && Fits(g.d, c);
      ghost var rs, bytes := info.ranges, mem.bytes;
      ok, b := MakeBlock(g.d, eip, c);
      ghost var cs' := info.cinfo[..];
      if ok {
        AllStay(g.d, cs', tpage, rs, info.ranges, bytes, mem.bytes, b, c, index.Blocks());
        StoredInMemory(g.d, cs', tpage, |bytes|, mem.bytes, info.ranges, b);
      } else {
        NoneTouched(g.d, cs', tpage, rs, info.ranges, bytes, mem.bytes, index.Blocks());
      }
    }

    /** The miss branch of __tb_gen_translate_code. */
    method AddTranslation(g: Program, eip: int) returns (ok: bool, b: Block)
      requires Valid(g) && g.Ok() && AllTranslatable(g) && g.starts(eip) && Uncovered(index.Blocks(), eip)
      modifies info`ranges, info.cinfo, mem
      modifies index.jumptable2`root, index.jumptable2`shape, index.jumptable2`nodes, index.jumptable2.nodes
      modifies index.tcTree`root, index.tcTree`shape, index.tcTree`nodes, index.tcTree.nodes
      ensures Valid(g)
      ensures ok ==> NewBlock(g, old(BlockSet()), eip, b) && BlockSet() == old(BlockSet()) + {b}
      ensures !ok ==> BlockSet() == old(BlockSet())
      ensures BlockServed(ok, g.d, eip, info.cinfo[..], old(info.ranges), info.ranges, tpage, old(mem.bytes), mem.bytes,
                          b)
    {
      hide Index.Trees, RbTree.Valid, Bt.Laid, Stored, AllStored, BlockServed, AllTranslatable, NewBlock;
      hide Sound, Separate, Uncovered;
      ghost var bs := index.Blocks();
      ok, b := MakeStored(g, eip);
      if ok {
        StoredTranslates(g.d, mem.bytes, info.ranges, b);
        NewBlockMade(g, bs, eip, b);
        var n := new RbNode(b);
        var m := new RbNode(b);
        index.AddBlock(b, n, m, g.d, g.starts);
        StoredJoins(g.d, mem.bytes, info.ranges, bs, index.Blocks(), b);
      }
    }

    /** search_offset */
    method SearchOffset(tb: Block, off: int) returns (found: bool)
      ensures found <==> off in JumpsOf(tb)
    {
      var js := JumpsOf(tb);
      for i := 0 to |js|
        invariant off !in js[..i]
      {
        if js[i] == off {
          return true;
        }
      }
      return false;
    }

    /** tb_add_jump: a new offset is copied with the old ones into a longer array. */
    method TbAddJump(tb: Block, off: int) returns (ok: bool)
      requires Laid() && Offsets(JumpsOf(tb)) && 0 <= off < 0x1_0000
      modifies info`ranges, info.cinfo, this`jumps
      ensures Laid() && Grew(old(info.cinfo[..]), old(info.ranges), info.cinfo[..], info.ranges)
      ensures Offsets(JumpsOf(tb))
      ensures jumps == if ok then old(WithJump(tb, off)) else old(jumps)
      ensures Served(ok, info.cinfo[..], old(info.ranges), info.ranges,
                     if off in old(JumpsOf(tb)) then [] else [(Pools.Kmalloc, 2 * (|old(JumpsOf(tb))| + 1))])
    {
      hide Bt.Laid, PoolFull, Offsets, Granted, Stopped;
      ok := SearchOffset(tb, off);
      if ok {
        NothingAsked(info.ranges);
        return;
      }
      OffsetJoins(JumpsOf(tb), off);
      var ptr;
      ok, ptr := TbKmalloc(Pools.Kmalloc, 2 * (|JumpsOf(tb)| + 1));
      if ok {
        jumps := jumps[tb := JumpsOf(tb) + [off]];
      }
    }

    /** The arrays when `tb` is entered at `off` too. */
    ghost function WithJump(tb: Block, off: int): map<Block, seq<int>>
      reads this`jumps
    {
      if off in JumpsOf(tb) then jumps else jumps[tb := JumpsOf(tb) + [off]]
    }

    /** The arrays when `tb` is entered for `eip` at the code address `tc`. */
    ghost function Entered(tb: Block, eip: int, tc: int): map<Block, seq<int>>
      reads this`jumps
    {
      if tb.eipVirt == eip then jumps else WithJump(tb, U16(tc - tb.tcPtr))
    }

    /** The second half of __tb_gen_translate_code for a block that was found. */
    method EnterBlock(g: Program, tb: Block, eip: int) returns (ok: bool, tc: int)
      requires Valid(g) && g.Ok() && g.starts(eip) && tb in index.Blocks() && Covers(tb, eip)
      modifies info`ranges, info.cinfo, this`jumps
      ensures Valid(g)
      ensures EnteredAt(tb, eip, tc) && jumps == if ok then old(Entered(tb, eip, tc)) else old(jumps)
      ensures Served(ok, info.cinfo[..], old(info.ranges), info.ranges, JumpRequests(old(jumps), tb, eip, tc))
    {
      hide Index.Valid, AllStored, PagesApart, RangesOk, Offsets, PoolFull, EnteredAt, Covers, Granted, Stopped;
      IndexedTranslates(this, g, tb);
      tc := EntryOf(g, tb, eip);
      if tb.eipVirt == eip {
        NothingAsked(info.ranges);
        return true, tc;
      }
      assert Offsets(JumpsOf(tb)) by {
        NoOffsets();
      }
      ghost var rs := info.ranges;
      ok := TbAddJump(tb, (tc - tb.tcPtr) % 0x1_0000);
      StillStored(g.d, info.cinfo[..], tpage, rs, info.ranges, mem.bytes, index.Blocks());
    }

    /** __tb_gen_translate_code: looks `eip` up, or adds a translation of it.  The result is the code of the
        instruction at `eip`, in the lowest block that covers it or in the new one. */
    method GenTranslateCode(g: Program, eip: int) returns (ok: bool, tc: int, tb: Block)
      requires Valid(g) && g.Ok() && AllTranslatable(g) && g.starts(eip)
      modifies info`ranges, info.cinfo, mem, this`jumps
      modifies index.jumptable2`root, index.jumptable2`shape, index.jumptable2`nodes, index.jumptable2.nodes
      modifies index.tcTree`root, index.tcTree`shape, index.tcTree`nodes, index.tcTree.nodes
      ensures Valid(g)
      ensures ok ==> FoundOrMade(g, old(BlockSet()), BlockSet(), eip, tb, tc) && jumps == old(Entered(tb, eip, tc))
      ensures !ok ==> BlockSet() == old(BlockSet()) && jumps == old(jumps)
      ensures MissServed(ok, g.d, old(index.Blocks()), old(jumps), eip, info.cinfo[..], old(info.ranges),
                         info.ranges, tpage, old(mem.bytes), mem.bytes, tb, tc)
    {
      hide Bt.Valid, BlockServed, Granted, Stopped, JumpRequests, Index.Trees, PoolFull, Searchable, ByStart;
      hide AllTranslatable, EnteredAt;
      IndexSearchable(this, g);
      var found := index.Jumptable2Find(eip);
      if found.None? {
        ok, tb := AddTranslation(g, eip);
        tc := tb.tcPtr;
        EnteredAtStart(tb);
      } else {
        tb := found.value;
        ok, tc := EnterBlock(g, tb, eip);
      }
    }

    /** The two address maps undo each other through both trees: the code address found for `eip` leads back
        to `eip` if the instruction there emits code, and only then; 0 is also what a failed search gives. */
    method ThereAndBack(g: Program, eip: int) returns (ok: bool, back: int, ghost tb: Block, ghost tc: int)
      requires Valid(g) && g.Ok() && AllTranslatable(g) && g.starts(eip)
      modifies info`ranges, info.cinfo, mem, this`jumps
      modifies index.jumptable2`root, index.jumptable2`shape, index.jumptable2`nodes, index.jumptable2.nodes
      modifies index.tcTree`root, index.tcTree`shape, index.tcTree`nodes, index.tcTree.nodes
      ensures Valid(g)
      ensures ok && g.d.codeLen(eip) > 0 ==> back == eip
      ensures ok && g.d.codeLen(eip) == 0 && eip != 0 ==> back != eip
      ensures MissServed(ok, g.d, old(index.Blocks()), old(jumps), eip, info.cinfo[..], old(info.ranges),
                         info.ranges, tpage, old(mem.bytes), mem.bytes, tb, tc)
    {
      hide Bt.Valid, MissServed, Index.Valid, BlocksOk, FoundOrMade, AllTranslatable, HoldsCode;
      back := 0;
      SoundBlocks(this, g);
      ghost var blocks := BlockSet();
      var code, block;
      ok, code, block := GenTranslateCode(g, eip);
      tb, tc := block, code;
      if ok {
        IndexValid(this, g);
        EntryHolds(g, blocks, BlockSet(), eip, tb, tc);
        back := index.TbTcPtrToEipVirt(code, g.d, g.starts);
        BackFrom(g, index.Blocks(), tb, eip, tc, back);
      }
    }

    /** monitor_entry and tb_gen_translated_code, the critical section run as one: the guest address is in
        tx_target, the patch site is what the edge pushed. */
    method MonitorEntry(g: Program, cpu: PerCpu, prevTb: int) returns (ok: bool, tc: int, ghost tb: Block)
      requires Valid(g) && g.Ok() && AllTranslatable(g) && g.starts(cpu.txTarget) && cpu.jumptable1.Length == SLOTS
      modifies info`ranges, info.cinfo, mem, this`displacements, this`jumps, cpu`txTarget, cpu.jumptable1
      modifies index.jumptable2`root, index.jumptable2`shape, index.jumptable2`nodes, index.jumptable2.nodes
      modifies index.tcTree`root, index.tcTree`shape, index.tcTree`nodes, index.tcTree.nodes
      ensures Valid(g)
      ensures ok ==> IsTranslation(g, BlockSet(), old(cpu.txTarget), tc) && cpu.txTarget == tc
      ensures ok ==> AnyMissRuns(g, old(BlockSet()), BlockSet(), old(displacements), displacements,
                                 old(cpu.jumptable1[..]), cpu.jumptable1[..], old(cpu.txTarget), prevTb, tc)
      ensures jumps == if ok then old(Entered(tb, cpu.txTarget, tc)) else old(jumps)
      ensures MissServed(ok, g.d, old(index.Blocks()), old(jumps), old(cpu.txTarget), info.cinfo[..], old(info.ranges),
                         info.ranges, tpage, old(mem.bytes), mem.bytes, tb, tc)
      ensures !ok ==> BlockSet() == old(BlockSet()) && displacements == old(displacements)
                      && cpu.txTarget == old(cpu.txTarget)
                      && cpu.jumptable1[..] == old(cpu.jumptable1[..])
    {
      hide Bt.Valid, BlocksOk, FoundOrMade, IsTranslation, AnyMissRuns, Inserted, Displacement, AllTranslatable;
      hide MissServed;
      var eip := cpu.txTarget;
      ghost var t, blocks := cpu.jumptable1[..], BlockSet();
      SoundBlocks(this, g);
      var block;
      ok, tc, block := GenTranslateCode(g, eip);
      tb := block;
      if ok {
        MissToJump(g, blocks, BlockSet(), displacements, t, eip, prevTb, tb, tc);
        cpu.Add(eip, tc);
        if prevTb != 0 {
          displacements := displacements[prevTb := Displacement(prevTb, tc)];
        }
        cpu.txTarget := tc;
      }
    }
  }

  lemma IndexValid(bt: Bt, g: Program)
    requires bt.Valid(g)
    ensures bt.index.Valid(g.d, g.starts) && forall b :: b in bt.index.Blocks() ==> Translates(g.d, b)
  {
    hide Index.Trees, Bt.Laid, AllStored;
  }

  /** Lookups in the index are right. */
  lemma IndexSearchable(bt: Bt, g: Program)
    requires bt.Valid(g) && g.Ok()
    ensures bt.index.Trees() && ByStart(bt.index.Blocks()) && Searchable(bt.index.Tree())
  {
    hide Index.Trees, Bt.Laid, AllStored, Searchable;
    AlignedEndsRise(g.d, g.starts, bt.index.Blocks());
    RisingIsSearchable(bt.index.Tree());
  }

  lemma EnteredAtStart(b: Block)
    ensures EnteredAt(b, b.eipVirt, b.tcPtr)
  {
  }

  lemma IndexedTranslates(bt: Bt, g: Program, b: Block)
    requires bt.Valid(g) && b in bt.index.Blocks()
    ensures Translates(g.d, b) && g.starts(b.eipVirt)
  {
    hide Index.Trees, Bt.Laid, AllStored;
  }

  lemma NoOffsets()
    ensures Offsets([])
  {
  }

  lemma StillStored(d: Decoder, cs: seq<Pools.Chunk>, tpage: nat, rs: seq<Pools.Range>, rs': seq<Pools.Range>,
                    mem: seq<bv8>, bs: seq<Block>)
    requires d.Sized() && RangesOk(cs, rs') && PagesApart(cs, tpage, |mem|) && IsPrefix(rs, rs')
    requires AllStored(d, mem, rs, bs)
    ensures AllStored(d, mem, rs', bs)
  {
    NoneTouched(d, cs, tpage, rs, rs', mem, mem, bs);
  }

  /** The code of an instruction that emits some is in its block and leads back. */
  lemma EntryHolds(g: Program, blocks: set<Block>, blocks': set<Block>, eip: int, b: Block, tc: int)
    requires g.Ok() && BlocksOk(g, blocks) && g.starts(eip) && FoundOrMade(g, blocks, blocks', eip, b, tc)
    ensures b in blocks'
    ensures g.d.codeLen(eip) > 0 ==> HoldsCode(b, tc) && b.WellFormed() && b.EipOfTc(tc) == eip
  {
    assert BlockOk(g, b);
    TranslationInOrder(g.d, b);
    var c, i := EnteredIsCode(g, b, eip, tc);
    ExactIsWellFormed(b, g.d, c);
    OffsetNext(g.d.codeLen, c, i);
    assert ExactCode(b, g.d, c, i) && ExactCode(b, g.d, c, i + 1);
    if g.d.codeLen(eip) > 0 {
      InsideMapsBack(b, i, tc);
    }
  }

  lemma BackFrom(g: Program, bs: seq<Block>, b: Block, eip: int, tc: int, back: int)
    requires g.Ok() && b in bs && (forall x :: x in bs ==> Translates(g.d, x))
    requires g.d.codeLen(eip) > 0 ==> HoldsCode(b, tc) && b.WellFormed() && b.EipOfTc(tc) == eip
    requires (forall x :: x in bs ==> !HoldsCode(x, tc)) ==> back == 0
    requires forall x :: x in bs && HoldsCode(x, tc) ==> x.WellFormed() && back == x.EipOfTc(tc)
    ensures g.d.codeLen(eip) > 0 ==> back == eip
    ensures g.d.codeLen(eip) == 0 && eip != 0 ==> back != eip
  {
    if x :| x in bs && HoldsCode(x, tc) {
      LeadsToEmitter(g.d, x, tc);
    }
  }

  /** The second half of __tb_gen_translate_code. */
  method EntryOf(g: Program, tb: Block, eip: int) returns (tc: int)
    requires g.Ok() && Translates(g.d, tb) && g.starts(tb.eipVirt) && g.starts(eip) && Covers(tb, eip)
    ensures EnteredAt(tb, eip, tc)
  {
    CoveredIsOnChain(g.d, g.starts, tb, eip);
    if tb.eipVirt == eip {
      tc := tb.tcPtr;
    } else {
      tc := tb.EipVirtToTcPtr(eip);
    }
  }

  lemma CodeIsSeparate(ts: seq<Block>, a: Block, b: Block)
    requires ByCode(ts) && a in ts && b in ts && a != b
    ensures Separate(a, b)
  {
    var i :| 0 <= i < |ts| && ts[i] == a;
    var j :| 0 <= j < |ts| && ts[j] == b;
  }

  lemma SoundStored(g: Program, cs: seq<Pools.Chunk>, tpage: nat, mem: seq<bv8>, rs: seq<Pools.Range>, bs: seq<Block>,
                    ts: seq<Block>)
    requires RangesOk(cs, rs) && PagesApart(cs, tpage, |mem|) && AllStored(g.d, mem, rs, bs)
    requires Sound(g.d, g.starts, bs, ts)
    ensures BlocksOk(g, SetOf(bs))
  {
    forall b | b in bs
      ensures BlockOk(g, b)
    {
      StoredInMemory(g.d, cs, tpage, |mem|, mem, rs, b);
    }
    forall a, b | a in bs && b in bs && a != b
      ensures Separate(a, b)
    {
      CodeIsSeparate(ts, a, b);
    }
  }

  /** The blocks of the engine are such as the runs over several CPUs need. */
  lemma SoundBlocks(bt: Bt, g: Program)
    requires bt.Valid(g)
    ensures BlocksOk(g, bt.BlockSet())
  {
    hide Index.Trees, AllStored, PagesApart, RangesOk, Sound, BlocksOk;
    SoundStored(g, bt.info.cinfo[..], bt.tpage, bt.mem.bytes, bt.info.ranges, bt.index.Blocks(), bt.index.CodeBlocks());
  }

  /** What a CPU does after the critical section, in the steps of the state machine. */
  lemma MissToJump(g: Program, blocks: set<Block>, blocks': set<Block>, e: map<int, int>, t: seq<Slot>, eip: int,
                   site: int, b: Block, tc: int)
    requires g.Ok() && BlocksOk(g, blocks) && g.starts(eip) && |t| == SLOTS
    requires FoundOrMade(g, blocks, blocks', eip, b, tc)
    ensures IsTranslation(g, blocks', eip, tc)
    ensures AnyMissRuns(g, blocks, blocks', e, if site != 0 then e[site := Displacement(site, tc)] else e,
                        t, Inserted(t, Hash(eip), Slot(eip, tc)), eip, site, tc)
  {
    assert CriticalSection(g, blocks, blocks', eip, tc);
    CriticalSectionOk(g, blocks, blocks', eip, tc);
    MissIsThreeSteps(g, blocks, blocks', e, t, eip, site, tc);
  }

  lemma NewBlockMade(g: Program, bs: seq<Block>, eip: int, b: Block)
    requires Uncovered(bs, eip) && b.eipVirt == eip && Translates(g.d, b) && InMemory(b)
    requires forall x :: x in bs ==> Separate(x, b)
    ensures NewBlock(g, SetOf(bs), eip, b)
  {
  }

  lemma StoredJoins(d: Decoder, mem: seq<bv8>, rs: seq<Pools.Range>, bs: seq<Block>, bs': seq<Block>, b: Block)
    requires AllStored(d, mem, rs, bs) && Stored(d, mem, rs, b) && Joined(bs, bs', b)
    ensures AllStored(d, mem, rs, bs')
    ensures SetOf(bs') == SetOf(bs) + {b}
  {
  }

  lemma StoredTranslates(d: Decoder, mem: seq<bv8>, rs: seq<Pools.Range>, b: Block)
    requires Stored(d, mem, rs, b)
    ensures Translates(d, b)
  {
    var c :| StoredChain(d, mem, rs, b, c);
  }

  lemma NoneTouched(d: Decoder, cs: seq<Pools.Chunk>, tpage: nat, rs: seq<Pools.Range>, rs': seq<Pools.Range>,
                    mem: seq<bv8>, mem': seq<bv8>, bs: seq<Block>)
    requires d.Sized() && RangesOk(cs, rs') && PagesApart(cs, tpage, |mem|) && IsPrefix(rs, rs')
    requires WroteOnly(mem, mem', tpage, 0, 0, 0, 0) && AllStored(d, mem, rs, bs)
    ensures AllStored(d, mem', rs', bs)
  {
    forall b | b in bs
      ensures Stored(d, mem', rs', b)
    {
      StoredStays(d, cs, tpage, rs', |rs|, mem, mem', 0, 0, 0, 0, b);
    }
  }

  lemma AllStay(d: Decoder, cs: seq<Pools.Chunk>, tpage: nat, rs: seq<Pools.Range>, rs': seq<Pools.Range>,
                mem: seq<bv8>, mem': seq<bv8>, made: Block, c: seq<int>, bs: seq<Block>)
    requires d.Sized() && RangesOk(cs, rs') && PagesApart(cs, tpage, |mem|) && IsPrefix(rs, rs')
    requires AllStored(d, mem, rs, bs) && TranslatesChain(d, made, c) && made.tcPtr >= 0 && made.edgePtr >= 0
    requires HasPlace(rs', |rs|, Pools.Tc, made.tcPtr, d.CodeOff(c, |c|))
    requires HasPlace(rs', |rs|, Pools.Edge, made.edgePtr, d.EdgeOff(c, |c|))
    requires WroteOnly(mem, mem', tpage, made.tcPtr, d.CodeOff(c, |c|), made.edgePtr, d.EdgeOff(c, |c|))
    requires Emitted(d, c, |c|, mem', made.tcPtr, made.edgePtr)
    ensures AllStored(d, mem', rs', bs) && Stored(d, mem', rs', made)
    ensures forall x :: x in bs ==> Separate(x, made)
  {
    assert ExactCode(made, d, c, |c|);
    forall b | b in bs
      ensures Stored(d, mem', rs', b) && Separate(b, made)
    {
      StoredStays(d, cs, tpage, rs', |rs|, mem, mem', made.tcPtr, d.CodeOff(c, |c|), made.edgePtr, d.EdgeOff(c, |c|),
                  b);
      NewIsSeparate(d, cs, mem, rs', |rs|, b, made, c);
    }
    LaterPlace(cs, rs', cs, rs', 0, |rs|, Pools.Tc, made.tcPtr, d.CodeOff(c, |c|));
    LaterPlace(cs, rs', cs, rs', 0, |rs|, Pools.Edge, made.edgePtr, d.EdgeOff(c, |c|));
    assert StoredChain(d, mem', rs', made, c);
  }

  lemma BoundsStay(cs: seq<Pools.Chunk>, cs': seq<Pools.Chunk>, tpage: nat, size: nat)
    requires PagesApart(cs, tpage, size) && Pools.SameBounds(cs, cs')
    ensures PagesApart(cs', tpage, size)
  {
    forall i | 0 <= i < |cs'|
      ensures ChunkApart(cs'[i], tpage, size)
    {
      assert ChunkApart(cs[i], tpage, size);
    }
  }
}
