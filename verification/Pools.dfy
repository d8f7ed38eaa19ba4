/**
 The bump-pointer allocator (mem/malloc.c): three pools of fixed chunks for code, edges and tables.
 */
module Pools {
  import opened Common

  const MAX_CHUNK: nat := 60
  /** MAX_POOL_PAGES * PAGE_SIZE */
  const CHUNK_SIZE: nat := 64 * 4096

  datatype Pool = Tc | Edge | Kmalloc

  /** init_pool_range: the chunks of a pool. */
  function PoolStart(pool: Pool): nat {
    match pool
    case Tc => 0
    case Edge => 24
    case Kmalloc => 40
  }

  function PoolEnd(pool: Pool): nat {
    match pool
    case Tc => 24
    case Edge => 40
    case Kmalloc => 60
  }

  /** Every chunk belongs to exactly one pool: 24 to the code, 16 to the edges and 20 to the tables. */
  lemma PoolsShareChunks(i: nat)
    requires i < MAX_CHUNK
    ensures exists p :: PoolStart(p) <= i < PoolEnd(p)
    ensures forall p, q :: PoolStart(p) <= i < PoolEnd(p) && PoolStart(q) <= i < PoolEnd(q) ==> p == q
    ensures PoolEnd(Tc) - PoolStart(Tc) == 24 && PoolEnd(Edge) - PoolStart(Edge) == 16
            && PoolEnd(Kmalloc) - PoolStart(Kmalloc) == 20
  {
    var p := if i < 24 then Tc else if i < 40 then Edge else Kmalloc;
    assert PoolStart(p) <= i < PoolEnd(p);
  }

  datatype Chunk = Chunk(start: int, end: int, cur: int)

  /** An allocation that was handed out. */
  datatype Range = Range(pool: Pool, chunk: nat, addr: int, size: nat)

  /** The test of malloc_from_pool, in 32-bit arithmetic. */
  predicate HasRoom(c: Chunk, size: nat) {
    (c.cur + size) % WORD <= c.end
  }

  /** The test is right when the sum does not wrap, and otherwise exactly when it fails; what passes it fits exactly
      when the sum does not wrap. */
  lemma HasRoomIff(c: Chunk, size: nat)
    requires 0 <= c.start <= c.cur <= c.end < WORD && size < WORD
    ensures (HasRoom(c, size) <==> c.cur + size <= c.end) <==> c.cur + size < WORD || c.cur + size - WORD > c.end
    ensures HasRoom(c, size) ==> (c.cur + size <= c.end <==> c.cur + size < WORD)
  {
  }

  /** A size that wraps is given a range outside the chunk. */
  lemma WrapEscapes()
    ensures var c := Chunk(0xF000_0000, 0xF003_FFF0, 0xF000_0100);
            HasRoom(c, 0x0FFF_FF00) && !(c.cur + 0x0FFF_FF00 <= c.end)
  {
  }

  ghost predicate ChunkOk(c: Chunk) {
    0 < c.start <= c.cur <= c.end < WORD
  }

  /** The chunks lie apart. */
  ghost predicate Apart(cs: seq<Chunk>) {
    forall i, j :: 0 <= i < j < |cs| ==> cs[i].end <= cs[j].start || cs[j].end <= cs[i].start
  }

  /** The chunks are where they were. */
  ghost predicate SameBounds(cs: seq<Chunk>, cs': seq<Chunk>) {
    |cs| == |cs'| && forall i :: 0 <= i < |cs| ==> cs'[i].start == cs[i].start && cs'[i].end == cs[i].end
  }

  /** A range lies in the used part of a chunk of its pool. */
  ghost predicate InChunk(cs: seq<Chunk>, r: Range) {
    && PoolStart(r.pool) <= r.chunk < PoolEnd(r.pool) && r.chunk < |cs|
    && cs[r.chunk].start <= r.addr && r.addr + r.size <= cs[r.chunk].cur
  }

  ghost predicate Covers(r: Range, addr: int) {
    r.addr <= addr < r.addr + r.size
  }

  ghost predicate Overlap(r: Range, s: Range) {
    exists addr :: Covers(r, addr) && Covers(s, addr)
  }

  ghost predicate NoOverlap(rs: seq<Range>) {
    forall i, j :: 0 <= i < j < |rs| ==> !Overlap(rs[i], rs[j])
  }

  class MallocInfo {
    const cinfo: array<Chunk>
    /** Everything handed out so far, in order. */
    ghost var ranges: seq<Range>

    ghost predicate Valid()
      reads this, cinfo
    {
      && cinfo.Length == MAX_CHUNK && (forall i :: 0 <= i < MAX_CHUNK ==> ChunkOk(cinfo[i])) && Apart(cinfo[..])
      && (forall k :: 0 <= k < |ranges| ==> InChunk(cinfo[..], ranges[k])) && NoOverlap(ranges)
    }

    constructor ()
      ensures cinfo.Length == MAX_CHUNK && ranges == [] && fresh(cinfo)
    {
      cinfo := new Chunk[MAX_CHUNK](_ => Chunk(0, 0, 0));
      ranges := [];
    }

    /** malloc_init on the chunks that btalloc returns; 16 bytes at the end of each are not used. */
    method Init(ptrs: seq<int>) returns (ok: bool)
      requires cinfo.Length == MAX_CHUNK == |ptrs| && ranges == []
      requires forall i :: 0 <= i < MAX_CHUNK ==> 0 <= ptrs[i] <= WORD - CHUNK_SIZE
      requires forall i, j :: 0 <= i < j < MAX_CHUNK && ptrs[i] != 0 && ptrs[j] != 0 ==>
                                ptrs[i] + CHUNK_SIZE <= ptrs[j] || ptrs[j] + CHUNK_SIZE <= ptrs[i]
      modifies cinfo
      ensures ok <==> 0 !in ptrs
      ensures ok ==> Valid()
      ensures ok ==> forall k :: 0 <= k < MAX_CHUNK ==>
                                   cinfo[k].start == cinfo[k].cur == ptrs[k]
                                   && cinfo[k].end + 16 == ptrs[k] + CHUNK_SIZE
    {
      for i := 0 to MAX_CHUNK
        invariant forall k :: 0 <= k < i ==>
                                ptrs[k] != 0 && cinfo[k] == Chunk(ptrs[k], ptrs[k] + CHUNK_SIZE - 16, ptrs[k])
      {
        if ptrs[i] == 0 {
          return false;
        }
        cinfo[i] := Chunk(ptrs[i], ptrs[i] + CHUNK_SIZE - 16, ptrs[i]);
      }
      return true;
    }

    /** malloc_from_pool: the range follows the ones before it in the first chunk of the pool whose test
        for room passes.  Everything handed out stays apart and inside its chunk exactly when the sum of
        that test did not wrap. */
    method MallocFromPool(pool: Pool, size: nat) returns (r: Option<int>, ghost chunk: nat)
      requires Valid() && size < WORD
      modifies this`ranges, cinfo
      ensures r.None? ==> ranges == old(ranges) && cinfo[..] == old(cinfo[..])
      ensures r.None? ==> forall i :: PoolStart(pool) <= i < PoolEnd(pool) ==> !HasRoom(cinfo[i], size)
      ensures r.Some? ==> PoolStart(pool) <= chunk < PoolEnd(pool) && old(HasRoom(cinfo[chunk], size))
      ensures r.Some? ==> forall i :: PoolStart(pool) <= i < chunk ==> !HasRoom(cinfo[i], size)
      ensures r.Some? ==>
                cinfo[..] == old(cinfo[..])[chunk := old(cinfo[chunk]).(cur := (r.value + size) % WORD)]
      ensures r.Some? ==>
                r.value == old(cinfo[chunk].cur) && ranges == old(ranges) + [Range(pool, chunk, r.value, size)]
      ensures Valid() <==> r.None? || old(cinfo[chunk].cur) + size < WORD
      ensures SameBounds(old(cinfo[..]), cinfo[..])
    {
      hide NoOverlap, Apart, InChunk;
      chunk := 0;
      for i := PoolStart(pool) to PoolEnd(pool)
        invariant forall k :: PoolStart(pool) <= k < i ==> !HasRoom(cinfo[k], size)
        invariant cinfo[..] == old(cinfo[..]) && ranges == old(ranges) && Valid()
      {
        if HasRoom(cinfo[i], size) {
          var ret := cinfo[i].cur;
          ghost var cs := cinfo[..];
          cinfo[i] := cinfo[i].(cur := (cinfo[i].cur + size) % WORD);
          ghost var range := Range(pool, i, ret, size);
          if ret + size < WORD {
            Bumped(cs, cinfo[..], ranges, range);
          } else {
            Wrapped(cinfo[..], range);
          }
          ranges := ranges + [range];
          chunk := i;
          assert ranges[|ranges| - 1] == range;
          return Some(ret), chunk;
        }
      }
      return None, chunk;
    }

    /** addr_to_chunk */
    method AddrToChunk(addr: int) returns (i: Option<nat>)
      requires cinfo.Length == MAX_CHUNK
      ensures i.Some? ==> i.value < MAX_CHUNK && cinfo[i.value].start <= addr < cinfo[i.value].end
      ensures i.None? ==> forall k :: 0 <= k < MAX_CHUNK ==> !(cinfo[k].start <= addr < cinfo[k].end)
    {
      for k := 0 to MAX_CHUNK
        invariant forall j :: 0 <= j < k ==> !(cinfo[j].start <= addr < cinfo[j].end)
      {
        if addr >= cinfo[k].start && addr < cinfo[k].end {
          return Some(k);
        }
      }
      return None;
    }

    /** addr_to_pool: every byte of code and of edges handed out is known as such, and no other byte handed out is. */
    method AddrToPool(addr: int) returns (pool: Option<Pool>)
      requires Valid()
      ensures forall k :: 0 <= k < |ranges| && Covers(ranges[k], addr) ==>
                            pool == if ranges[k].pool == Kmalloc then None else Some(ranges[k].pool)
    {
      var i := AddrToChunk(addr);
      forall k | 0 <= k < |ranges| && Covers(ranges[k], addr)
        ensures i == Some(ranges[k].chunk) && InChunk(cinfo[..], ranges[k])
      {
        OnlyChunk(cinfo[..], ranges[k], addr, i);
      }
      if i.Some? && i.value < 24 {
        pool := Some(Tc);
      } else if i.Some? && 24 <= i.value < 40 {
        pool := Some(Edge);
      } else {
        pool := None;
      }
    }
  }

  lemma OnlyChunk(cs: seq<Chunk>, r: Range, addr: int, i: Option<nat>)
    requires Apart(cs) && InChunk(cs, r) && Covers(r, addr) && (forall k :: 0 <= k < |cs| ==> ChunkOk(cs[k]))
    requires i.Some? ==> i.value < |cs| && cs[i.value].start <= addr < cs[i.value].end
    requires i.None? ==> forall k :: 0 <= k < |cs| ==> !(cs[k].start <= addr < cs[k].end)
    ensures i == Some(r.chunk)
  {
    assert cs[r.chunk].start <= addr < cs[r.chunk].end;
  }

  /** A range whose sum wraps lies outside its chunk. */
  lemma Wrapped(cs: seq<Chunk>, r: Range)
    requires r.addr + r.size >= WORD && r.chunk < |cs| && cs[r.chunk].cur < WORD
    ensures !InChunk(cs, r)
  {
  }

  /** Bumping a chunk keeps what was handed out, and the new range meets none of it. */
  lemma Bumped(cs: seq<Chunk>, cs': seq<Chunk>, rs: seq<Range>, r: Range)
    requires |cs| == |cs'| && (forall i :: 0 <= i < |cs| ==> ChunkOk(cs[i])) && Apart(cs)
    requires (forall k :: 0 <= k < |rs| ==> InChunk(cs, rs[k])) && NoOverlap(rs)
    requires r.chunk < |cs| && PoolStart(r.pool) <= r.chunk < PoolEnd(r.pool)
    requires r.addr == cs[r.chunk].cur && r.addr + r.size <= cs[r.chunk].end
    requires cs' == cs[r.chunk := cs[r.chunk].(cur := cs[r.chunk].cur + r.size)]
    ensures (forall i :: 0 <= i < |cs'| ==> ChunkOk(cs'[i])) && Apart(cs')
    ensures forall k :: 0 <= k < |rs| + 1 ==> InChunk(cs', (rs + [r])[k])
    ensures NoOverlap(rs + [r])
  {
    forall k | 0 <= k < |rs|
      ensures !Overlap(rs[k], r)
    {
      assert InChunk(cs, rs[k]);
      if rs[k].chunk != r.chunk {
        assert cs[rs[k].chunk].end <= cs[r.chunk].start || cs[r.chunk].end <= cs[rs[k].chunk].start;
      }
    }
  }
}
