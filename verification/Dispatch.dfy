/**
 Dispatch (bt_main.c, peep/jumptable1.c, peep/peeptab_defs.h): the per-CPU cache in front of the
 block index, its swap-to-front assembly, edge chaining, and their runs over several CPUs.
 */
module Dispatch {
  import opened Common
  import opened Translation
  import opened BlockIndex
  import HashTable

  const JUMPTABLE1_SIZE: nat := 4096
  /** The per-CPU area is 1024 * 3 + 1028 entries long. */
  const SLOTS: nat := 4100

  /** A 64-bit entry: the guest address in the low word, the code address in the high word. */
  datatype Slot = Slot(key: int, tc: int)

  const EMPTY := Slot(0, 0)

  /** eip & JUMPTABLE1_MASK */
  function Hash(eip: int): (i: nat)
    ensures i == eip % JUMPTABLE1_SIZE
  {
    LowBits(eip);
    HashTable.And(eip % WORD, JUMPTABLE1_SIZE - 1)
  }

  lemma LowBits(eip: int)
    ensures HashTable.And(eip % WORD, JUMPTABLE1_SIZE - 1) == eip % JUMPTABLE1_SIZE
  {
    HashTable.PowerIsPower(12);
    assert HashTable.Power2(12) == JUMPTABLE1_SIZE;
    hide HashTable.And, HashTable.IsPowerOf2;
    HashTable.MaskIsRemainder(eip % WORD, JUMPTABLE1_SIZE);
    SameRow(eip);
  }

  lemma SameRow(eip: int)
    ensures eip % WORD % JUMPTABLE1_SIZE == eip % JUMPTABLE1_SIZE
  {
    var q, w := HashTable.Quotient(eip, WORD), eip % WORD;
    var k := HashTable.Quotient(w, JUMPTABLE1_SIZE);
    HashTable.Remainder(eip, JUMPTABLE1_SIZE, q * 0x10_0000 + k, w % JUMPTABLE1_SIZE);
  }

  // ---------- the cache ----------

  /** The slots after jumptable1_add: `s` at `i`, the entries before the first empty one move up. */
  function Inserted(t: seq<Slot>, i: nat, s: Slot): (r: seq<Slot>)
    requires i + 3 < |t|
    ensures |r| == |t| && r[i] == s
  {
    var t1 := if t[i] != EMPTY && t[i + 1] != EMPTY && t[i + 2] != EMPTY then t[i + 3 := t[i + 2]] else t;
    var t2 := if t[i] != EMPTY && t[i + 1] != EMPTY then t1[i + 2 := t[i + 1]] else t1;
    var t3 := if t[i] != EMPTY then t2[i + 1 := t[i]] else t2;
    t3[i := s]
  }

  /** The first of the four slots from `i` on whose key is `eip`. */
  function FirstHit(t: seq<Slot>, i: nat, eip: int): (j: Option<nat>)
    requires i + 3 < |t|
    ensures j.Some? ==> j.value <= 3 && t[i + j.value].key == eip
    ensures forall k :: i <= k <= i + 3 && (j.Some? ==> k < i + j.value) ==> t[k].key != eip
  {
    if t[i].key == eip then Some(0)
    else if t[i + 1].key == eip then Some(1)
    else if t[i + 2].key == eip then Some(2)
    else if t[i + 3].key == eip then Some(3)
    else None
  }

  /** The slots with the first and the `j`th from `i` on exchanged. */
  function Exchanged(t: seq<Slot>, i: nat, j: nat): (r: seq<Slot>)
    requires i + j < |t|
    ensures |r| == |t| && r[i] == t[i + j] && r[i + j] == t[i]
    ensures forall k :: 0 <= k < |t| && k != i && k != i + j ==> r[k] == t[k]
  {
    t[i := t[i + j]][i + j := t[i]]
  }

  /** Nothing but the new entry comes in, and nothing but the last of four full slots goes out. */
  lemma InsertedKeeps(t: seq<Slot>, i: nat, s: Slot)
    requires i + 3 < |t|
    ensures forall x :: x in Inserted(t, i, s) ==> x == s || x in t
    ensures forall k :: 0 <= k < |t| && t[k] != EMPTY && t[k] !in Inserted(t, i, s) ==>
                          k == i + 3 && t[i] != EMPTY && t[i + 1] != EMPTY && t[i + 2] != EMPTY
  {
    var r := Inserted(t, i, s);
    forall k | 0 <= k < |t| && t[k] != EMPTY && k != i + 3
      ensures t[k] in r
    {
      assert r[k] == t[k] || r[k + 1] == t[k];
    }
    if t[i] == EMPTY || t[i + 1] == EMPTY || t[i + 2] == EMPTY {
      assert r[i + 3] == t[i + 3];
    }
  }

  // ---------- what the cache remembers ----------

  /** An insert, or the search of an indirect jump. */
  datatype Access = AddFor(eip: int, tc: int) | JumpTo(eip: int)

  /** The slots after an access, which concerns four slots from the low twelve bits of its address on. */
  function Accessed(t: seq<Slot>, a: Access): (r: seq<Slot>)
    requires |t| == SLOTS
    ensures |r| == SLOTS
  {
    var i := a.eip % 4096;
    match a
    case AddFor(eip, tc) => Inserted(t, i, Slot(eip, tc))
    case JumpTo(eip) =>
      match FirstHit(t, i, eip)
      case None => t
      case Some(j) => Exchanged(t, i, j)
  }

  function AccessedAll(t: seq<Slot>, accesses: seq<Access>): (r: seq<Slot>)
    requires |t| == SLOTS
    ensures |r| == SLOTS
  {
    if accesses == [] then t
    else Accessed(AccessedAll(t, accesses[..|accesses| - 1]), accesses[|accesses| - 1])
  }

  /** The low twelve bits differ by more than three from those of `eip`: the four slots are others. */
  predicate IsFar(a: Access, eip: int) {
    var d := a.eip % 4096 - eip % 4096;
    d < -3 || d > 3
  }

  /** An insert of another address with the same low twelve bits. */
  predicate Rivals(a: Access, eip: int) {
    a.AddFor? && a.eip % 4096 == eip % 4096 && a.eip != eip && a.tc != 0
  }

  function RivalCount(accesses: seq<Access>, eip: int): nat {
    if accesses == [] then 0
    else RivalCount(accesses[..|accesses| - 1], eip) + if Rivals(accesses[|accesses| - 1], eip) then 1 else 0
  }

  /** After `n` rivals the entry for `eip` is in the `n`th of its four slots, behind other entries, or gone. */
  ghost predicate IsBehind(t: seq<Slot>, eip: int, tc: int, n: nat)
    requires |t| == SLOTS
  {
    var i := eip % 4096;
    && (n <= 3 ==> t[i + n] == Slot(eip, tc))
    && forall k :: i <= k < i + n && k <= i + 3 ==> t[k].key != eip && t[k] != EMPTY
  }

  lemma RivalPushes(t: seq<Slot>, eip: int, tc: int, n: nat, a: Access)
    requires |t| == SLOTS && tc != 0 && IsBehind(t, eip, tc, n) && Rivals(a, eip)
    ensures IsBehind(Accessed(t, a), eip, tc, n + 1)
  {
    var i := eip % 4096;
    assert n >= 1 ==> t[i] != EMPTY;
    assert n >= 2 ==> t[i + 1] != EMPTY;
    assert n >= 3 ==> t[i + 2] != EMPTY;
  }

  lemma FarKeeps(t: seq<Slot>, eip: int, tc: int, n: nat, a: Access)
    requires |t| == SLOTS && IsBehind(t, eip, tc, n) && IsFar(a, eip)
    ensures IsBehind(Accessed(t, a), eip, tc, n)
  {
    var i, r := eip % 4096, Accessed(t, a);
    assert forall k :: i <= k <= i + 3 ==> r[k] == t[k];
  }

  lemma {:induction false} StaysBehind(t: seq<Slot>, eip: int, tc: int, accesses: seq<Access>)
    requires |t| == SLOTS && tc != 0
    requires forall k :: 0 <= k < |accesses| ==> IsFar(accesses[k], eip) || Rivals(accesses[k], eip)
    ensures IsBehind(AccessedAll(Accessed(t, AddFor(eip, tc)), accesses), eip, tc, RivalCount(accesses, eip))
  {
    hide IsBehind, Accessed, IsFar, Rivals;
    if accesses == [] {
      JustAdded(t, eip, tc);
    } else {
      var front, last := accesses[..|accesses| - 1], accesses[|accesses| - 1];
      StaysBehind(t, eip, tc, front);
      var t', n := AccessedAll(Accessed(t, AddFor(eip, tc)), front), RivalCount(front, eip);
      if Rivals(last, eip) {
        RivalPushes(t', eip, tc, n, last);
      } else {
        FarKeeps(t', eip, tc, n, last);
      }
    }
  }

  lemma JustAdded(t: seq<Slot>, eip: int, tc: int)
    requires |t| == SLOTS
    ensures IsBehind(Accessed(t, AddFor(eip, tc)), eip, tc, 0)
  {
  }

  /** How long the cache remembers: after an insert for `eip`, whatever is inserted and searched further than
      three slots away, and inserted in the same slots for other addresses, an indirect jump to `eip` finds its
      code address if and only if there were at most three such rivals. */
  lemma RemembersIff(t: seq<Slot>, eip: int, tc: int, accesses: seq<Access>)
    requires |t| == SLOTS && tc != 0
    requires forall k :: 0 <= k < |accesses| ==> IsFar(accesses[k], eip) || Rivals(accesses[k], eip)
    ensures var r := AccessedAll(Accessed(t, AddFor(eip, tc)), accesses);
            match FirstHit(r, eip % 4096, eip)
            case Some(j) => RivalCount(accesses, eip) == j && r[eip % 4096 + j] == Slot(eip, tc)
            case None => RivalCount(accesses, eip) > 3
  {
    StaysBehind(t, eip, tc, accesses);
  }

  // ---------- the cache of a CPU ----------

  /** The per-CPU data that the translated code reaches through %fs. */
  class PerCpu {
    const jumptable1: array<Slot>
    var txTarget: int

    constructor ()
      ensures jumptable1.Length == SLOTS && fresh(jumptable1) && forall k :: 0 <= k < SLOTS ==> jumptable1[k] == EMPTY
    {
      jumptable1 := new Slot[SLOTS](_ => EMPTY);
      txTarget := 0;
    }

    /** jumptable1_add */
    method Add(eip: int, tc: int)
      requires jumptable1.Length == SLOTS
      modifies jumptable1
      ensures jumptable1[..] == Inserted(old(jumptable1[..]), Hash(eip), Slot(eip, tc))
      ensures jumptable1[..] == Accessed(old(jumptable1[..]), AddFor(eip, tc))
    {
      var indx := Hash(eip);
      var prev1 := jumptable1[indx];
      if prev1 != EMPTY {
        var prev2 := jumptable1[indx + 1];
        if prev2 != EMPTY {
          var prev3 := jumptable1[indx + 2];
          if prev3 != EMPTY {
            jumptable1[indx + 3] := prev3;
          }
          jumptable1[indx + 2] := prev2;
        }
        jumptable1[indx + 1] := prev1;
      }
      jumptable1[indx] := Slot(eip, tc);
    }

    /** The instructions of SEARCH_HASH_TABLE after the comparison with slot `j` was equal: `target` is
        the register, the stack keeps it meanwhile. */
    method SwapSlot(eip: int, i: nat, j: nat)
      requires jumptable1.Length == SLOTS && i < JUMPTABLE1_SIZE && 1 <= j <= 3 && jumptable1[i + j].key == eip
      modifies this`txTarget, jumptable1
      ensures jumptable1[..] == Exchanged(old(jumptable1[..]), i, j) && txTarget == old(jumptable1[i + j]).tc
    {
      ghost var s := jumptable1[..];
      var target, pushed := eip, eip;
      target := jumptable1[i].key;
      jumptable1[i + j] := jumptable1[i + j].(key := target);
      target := jumptable1[i + j].tc;
      txTarget := target;
      target := jumptable1[i].tc;
      jumptable1[i + j] := jumptable1[i + j].(tc := target);
      target := txTarget;
      jumptable1[i] := jumptable1[i].(tc := target);
      target := pushed;
      jumptable1[i] := jumptable1[i].(key := target);
    }

    /** JUMP_INDIRECT_PART1, SEARCH_HASH_TABLE and, on a miss, INDIRECT_PART2.  On a hit tx_target is the
        code address of the first of four slots with the key, and that slot is exchanged with the first. */
    method JumpIndirect(target: int) returns (hit: bool)
      requires jumptable1.Length == SLOTS
      modifies this`txTarget, jumptable1
      ensures match FirstHit(old(jumptable1[..]), Hash(target), target)
              case Some(j) => hit && txTarget == old(jumptable1[..])[Hash(target) + j].tc
                              && jumptable1[..] == Exchanged(old(jumptable1[..]), Hash(target), j)
              case None => !hit && txTarget == target && jumptable1[..] == old(jumptable1[..])
      ensures jumptable1[..] == Accessed(old(jumptable1[..]), JumpTo(target))
    {
      var i := Hash(target);
      if jumptable1[i].key == target {
        txTarget := jumptable1[i].tc;
        return true;
      }
      if jumptable1[i + 1].key == target {
        SwapSlot(target, i, 1);
        return true;
      }
      if jumptable1[i + 2].key == target {
        SwapSlot(target, i, 2);
        return true;
      }
      if jumptable1[i + 3].key == target {
        SwapSlot(target, i, 3);
        return true;
      }
      txTarget := target;
      return false;
    }
  }

  // ---------- the assembly ----------

  /** Whether a memory operand is the low or the high word of slot `k` after the hashed one. */
  datatype Operand = Key(k: nat) | Tc(k: nat) | TxTarget

  /** The instructions of SEARCH_HASH_TABLE on its register `target`. */
  datatype Op = Push | Pop | Load(from: Operand) | Store(to: Operand)

  datatype Machine = Machine(target: int, pushed: int, tx: int, slots: seq<Slot>)

  function Read(m: Machine, i: nat, o: Operand): int
    requires i + 3 < |m.slots| && (o.TxTarget? || o.k <= 3)
  {
    match o
    case Key(k) => m.slots[i + k].key
    case Tc(k) => m.slots[i + k].tc
    case TxTarget => m.tx
  }

  function Written(m: Machine, i: nat, o: Operand, v: int): (m': Machine)
    requires i + 3 < |m.slots| && (o.TxTarget? || o.k <= 3)
    ensures |m'.slots| == |m.slots|
  {
    match o
    case Key(k) => m.(slots := m.slots[i + k := m.slots[i + k].(key := v)])
    case Tc(k) => m.(slots := m.slots[i + k := m.slots[i + k].(tc := v)])
    case TxTarget => m.(tx := v)
  }

  predicate InWindow(op: Op) {
    match op
    case Load(o) => o.TxTarget? || o.k <= 3
    case Store(o) => o.TxTarget? || o.k <= 3
    case _ => true
  }

  function Step(op: Op, i: nat, m: Machine): (m': Machine)
    requires i + 3 < |m.slots| && InWindow(op)
    ensures |m'.slots| == |m.slots|
  {
    match op
    case Push => m.(pushed := m.target)
    case Pop => m.(target := m.pushed)
    case Load(o) => m.(target := Read(m, i, o))
    case Store(o) => Written(m, i, o, m.target)
  }

  /** The machine after the first `n` instructions. */
  function Run(ops: seq<Op>, n: nat, i: nat, m: Machine): (m': Machine)
    requires n <= |ops| && i + 3 < |m.slots| && forall k :: 0 <= k < |ops| ==> InWindow(ops[k])
    ensures |m'.slots| == |m.slots|
  {
    if n == 0 then m else Step(ops[n - 1], i, Run(ops, n - 1, i, m))
  }

  /** What follows the comparison of the key of slot `j` when it is equal. */
  function SwapCode(j: nat): (ops: seq<Op>)
    requires 1 <= j <= 3
    ensures |ops| == 11 && forall k :: 0 <= k < |ops| ==> InWindow(ops[k])
  {
    [Push, Load(Key(0)), Store(Key(j)), Load(Tc(j)), Store(TxTarget), Load(Tc(0)), Store(Tc(j)),
     Load(TxTarget), Store(Tc(0)), Pop, Store(Key(0))]
  }

  /** Swap-to-front: run on a slot `j` whose key is the target, the eleven instructions exchange the
      slots 0 and `j`, touch no other slot, and leave the code address of `j` in tx_target. */
  lemma SwapsToFront(j: nat, i: nat, m: Machine)
    requires 1 <= j <= 3 && i + 3 < |m.slots| && m.target == m.slots[i + j].key
    ensures var m' := Run(SwapCode(j), 11, i, m);
            && m'.slots == Exchanged(m.slots, i, j)
            && m'.tx == m.slots[i + j].tc && m'.target == m.target
  {
    var ops := SwapCode(j);
    var m5 := SwapFirstHalf(j, i, m);
    var m6 := m5.(target := m.slots[i].tc);
    var m7 := m6.(slots := m.slots[i + j := m.slots[i]]);
    var m8 := m7.(target := m.slots[i + j].tc);
    var m9 := m8.(slots := m7.slots[i := Slot(m.slots[i].key, m.slots[i + j].tc)]);
    assert Step(ops[5], i, m5) == m6;
    assert Step(ops[6], i, m6) == m7 by {
      assert Step(ops[6], i, m6).slots == m7.slots;
    }
    assert Step(ops[7], i, m7) == m8 && Step(ops[8], i, m8) == m9;
    RunFour(ops, 5, i, m);
    var m11 := Step(ops[10], i, Step(ops[9], i, m9));
    assert Run(ops, 11, i, m) == m11 by {
      assert Run(ops, 10, i, m) == Step(ops[9], i, Run(ops, 9, i, m));
    }
    assert m11.slots == Exchanged(m.slots, i, j);
  }

  lemma RunFour(ops: seq<Op>, n: nat, i: nat, m: Machine)
    requires n + 4 <= |ops| && i + 3 < |m.slots| && forall k :: 0 <= k < |ops| ==> InWindow(ops[k])
    ensures Run(ops, n + 4, i, m)
         == Step(ops[n + 3], i, Step(ops[n + 2], i, Step(ops[n + 1], i, Step(ops[n], i, Run(ops, n, i, m)))))
  {
    assert Run(ops, n + 1, i, m) == Step(ops[n], i, Run(ops, n, i, m));
    assert Run(ops, n + 2, i, m) == Step(ops[n + 1], i, Run(ops, n + 1, i, m));
    assert Run(ops, n + 3, i, m) == Step(ops[n + 2], i, Run(ops, n + 2, i, m));
  }

  /** The key of the first slot is in slot `j` and its code address in tx_target. */
  lemma SwapFirstHalf(j: nat, i: nat, m: Machine) returns (m5: Machine)
    requires 1 <= j <= 3 && i + 3 < |m.slots|
    ensures m5 == Run(SwapCode(j), 5, i, m)
    ensures m5 == Machine(m.slots[i + j].tc, m.target, m.slots[i + j].tc,
                          m.slots[i + j := m.slots[i + j].(key := m.slots[i].key)])
  {
    var ops := SwapCode(j);
    var m1 := m.(pushed := m.target);
    var m2 := m1.(target := m.slots[i].key);
    var m3 := m2.(slots := m.slots[i + j := m.slots[i + j].(key := m.slots[i].key)]);
    var m4 := m3.(target := m.slots[i + j].tc);
    m5 := m4.(tx := m.slots[i + j].tc);
    assert Step(ops[0], i, m) == m1 && Step(ops[1], i, m1) == m2 && Step(ops[2], i, m2) == m3
           && Step(ops[3], i, m3) == m4;
    assert Run(ops, 0, i, m) == m;
    RunFour(ops, 0, i, m);
    assert Run(ops, 5, i, m) == Step(ops[4], i, Run(ops, 4, i, m));
  }

  // ---------- edges ----------

  /** What tb_gen_translated_code stores at `site`. */
  function Displacement(site: int, tc: int): (w: int)
    ensures 0 <= w < WORD
  {
    (tc - (site + 4)) % WORD
  }

  /** Where a jump whose displacement word is at `site` goes. */
  function JumpGoal(site: int, disp: int): int {
    (site + 4 + disp) % WORD
  }

  lemma PatchedJumpGoal(site: int, tc: int)
    requires 0 <= tc < WORD
    ensures JumpGoal(site, Displacement(site, tc)) == tc
    ensures Displacement(site, site + 4) == 0
  {
  }

  // ---------- the guest program ----------

  /** The guest program: what the translator makes of it, the addresses that control reaches, and the
      static target of each patch site. */
  datatype Program = Program(d: Decoder, starts: int -> bool, goal: int -> int)
  {
    ghost predicate Ok() {
      d.Sized() && Aligned(d, starts)
    }
  }

  /** The code cache is within 32-bit addresses and not at 0. */
  ghost predicate InMemory(b: Block) {
    0 < b.tcPtr && b.tcPtr + CodeSize(b) < WORD
  }

  ghost predicate BlockOk(g: Program, b: Block) {
    Translates(g.d, b) && g.starts(b.eipVirt) && InMemory(b)
  }

  /** Every block translates a reachable address of the guest program, and no two share code bytes. */
  ghost predicate BlocksOk(g: Program, blocks: set<Block>) {
    && (forall b :: b in blocks ==> BlockOk(g, b))
    && (forall a, b :: a in blocks && b in blocks && a != b ==> Separate(a, b))
  }

  /** At `tc` begin the bytes that block `b` emitted for instruction `i` of its chain, the one at `eip`. */
  ghost predicate CodeFor(d: Decoder, b: Block, c: seq<int>, i: nat, eip: int, tc: int) {
    TranslatesChain(d, b, c) && i < |c| && c[i] == eip && tc == b.tcPtr + d.CodeOff(c, i)
  }

  ghost predicate IsTranslation(g: Program, blocks: set<Block>, eip: int, tc: int) {
    exists b, c, i :: b in blocks && CodeFor(g.d, b, c, i, eip, tc)
  }

  lemma TranslationInMemory(g: Program, blocks: set<Block>, eip: int, tc: int)
    requires g.Ok() && BlocksOk(g, blocks) && IsTranslation(g, blocks, eip, tc)
    ensures 0 < tc < WORD
  {
    var b, c, i :| b in blocks && CodeFor(g.d, b, c, i, eip, tc);
    assert BlockOk(g, b);
    CodeRises(g.d, c, i, |c|);
    assert ExactCode(b, g.d, c, |c|);
  }

  lemma TranslationGrows(g: Program, blocks: set<Block>, blocks': set<Block>, eip: int, tc: int)
    requires blocks <= blocks' && IsTranslation(g, blocks, eip, tc)
    ensures IsTranslation(g, blocks', eip, tc)
  {
    var b, c, i :| b in blocks && CodeFor(g.d, b, c, i, eip, tc);
    assert b in blocks';
  }

  /** The code address that __tb_gen_translate_code takes from a block that covers `eip`. */
  ghost predicate EnteredAt(b: Block, eip: int, tc: int) {
    if b.eipVirt == eip then tc == b.tcPtr
    else b.WellFormed() && b.eipVirt <= eip < b.InsnEip(b.numInsns) && tc == b.TcOfEip(eip)
  }

  /** In any program, the address taken from a block that covers `eip` is as far into the code of the
      instruction that holds the byte `eip` as that byte is into the instruction.  So it is where the code for
      `eip` begins exactly when `eip` is on the block's chain. */
  lemma EnteredIff(d: Decoder, b: Block, c: seq<int>, eip: int, tc: int) returns (i: nat)
    requires d.Sized() && TranslatesChain(d, b, c) && Covers(b, eip) && EnteredAt(b, eip, tc)
    ensures i < |c| && c[i] <= eip < c[i] + d.Length(c[i]) && tc == b.tcPtr + d.CodeOff(c, i) + (eip - c[i])
    ensures (exists j :: CodeFor(d, b, c, j, eip, tc)) <==> eip in c
    ensures eip in c ==> CodeFor(d, b, c, i, eip, tc)
  {
    ExactIsWellFormed(b, d, c);
    if b.eipVirt == eip {
      i := 0;
    } else {
      i := b.InsnOfEip(eip);
      OffsetNext(d.length, c, i);
      ChainSpan(d, c, i);
      assert ExactSpan(b, d, c, i) && ExactCode(b, d, c, i);
    }
    if eip in c && b.eipVirt != eip {
      var k :| 0 <= k < |c| && c[k] == eip;
      assert b.InsnEip(k) == eip;
      EipIsIn(b, eip, k);
    }
    assert eip in c ==> CodeFor(d, b, c, i, eip, tc);
  }

  /** Boundaries lead to the code that was emitted: the address taken from a block that covers a reachable
      address is where the code of the instruction there begins. */
  lemma EnteredIsCode(g: Program, b: Block, eip: int, tc: int) returns (c: seq<int>, i: nat)
    requires g.Ok() && Translates(g.d, b) && g.starts(b.eipVirt) && g.starts(eip)
    requires Covers(b, eip) && EnteredAt(b, eip, tc)
    ensures CodeFor(g.d, b, c, i, eip, tc)
  {
    c :| TranslatesChain(g.d, b, c);
    i := EnteredIff(g.d, b, c, eip, tc);
  }

  lemma EnteredInside(a: Block)
    requires a == Block(0, 10, 100, 0, 3, [1, 10, 11], [0, 5, 10, 15])
    ensures EnteredAt(a, 2, 106)
  {
    EipIsIn(a, 2, 1);
  }

  /** A block has no code for an address that is not on the chain it translates. */
  lemma NoCodeOffChain(d: Decoder, b: Block, e: seq<int>, eip: int, tc: int)
    requires TranslatesChain(d, b, e) && eip !in e
    ensures forall c, i :: !CodeFor(d, b, c, i, eip, tc)
  {
    forall c, i
      ensures !CodeFor(d, b, c, i, eip, tc)
    {
      if CodeFor(d, b, c, i, eip, tc) {
        ChainIsUnique(d, c, e, i);
      }
    }
  }

  /** The second failure of programs that are not aligned: the block at 0 covers the start at 2 inside of its
      instruction at 1, and a jump to 2 goes into the middle of the code of that instruction. */
  lemma MisalignedEntryFails(starts: int -> bool, goal: int -> int)
    ensures var g, a := Program(Overlapping(), starts, goal), Block(0, 10, 100, 0, 3, [1, 10, 11], [0, 5, 10, 15]);
            && g.d.Sized() && g.d.IsChain([2, 3]) && TranslatesChain(g.d, a, [0, 1, 10])
            && LowestCover({a}, 2, a) && EnteredAt(a, 2, 106) && !IsTranslation(g, {a}, 2, 106)
  {
    hide TranslatesChain, EnteredAt, CodeFor, Decoder.Sized;
    var a, b := Block(0, 10, 100, 0, 3, [1, 10, 11], [0, 5, 10, 15]), Block(2, 3, 200, 0, 2, [1, 2], [0, 5, 10]);
    FirstOverlapping(a);
    SecondOverlapping(b);
    ChainOf(Overlapping(), b, [2, 3]);
    EnteredInside(a);
    NoCodeOffChain(Overlapping(), a, [0, 1, 10], 2, 106);
  }

  lemma ChainOf(d: Decoder, b: Block, c: seq<int>)
    requires TranslatesChain(d, b, c)
    ensures d.IsChain(c)
  {
  }

  // ---------- runs over several CPUs ----------

  /** Where a CPU is between two transfers of control.  Interrupts are off outside `Guest`.
      `site` is the patch site that an edge pushes, 0 for an indirect jump. */
  datatype Mode =
    | Guest
    | Swapping(eip: int, j: nat, pc: nat)
    | Missed(eip: int, site: int)
    | Translated(eip: int, site: int, tc: int)
    | Cached(eip: int, site: int, tc: int)
    | Jumping(eip: int)

  datatype Cpu = Cpu(m: Machine, mode: Mode)

  datatype State = State(blocks: set<Block>, edges: map<int, int>, cpus: seq<Cpu>)

  /** An indirect jump to `eip`: JUMP_INDIRECT_PART1 and the comparisons of SEARCH_HASH_TABLE. */
  ghost predicate Probe(c: Cpu, c': Cpu, eip: int) {
    var i := Hash(eip);
    && c.mode == Guest && |c.m.slots| == SLOTS
    && match FirstHit(c.m.slots, i, eip)
       case Some(j) =>
         if j == 0 then c' == Cpu(c.m.(target := eip, tx := c.m.slots[i].tc), Jumping(eip))
         else c' == Cpu(c.m.(target := eip), Swapping(eip, j, 0))
       case None => c' == Cpu(c.m.(target := eip, tx := eip), Missed(eip, 0))
  }

  /** A direct jump, call or fall-through whose displacement is at `site`: the patched jump, or the
      edge code, which leaves the static target and the site to the monitor. */
  ghost predicate Edge(edges: map<int, int>, goal: int -> int, c: Cpu, c': Cpu, site: int) {
    && c.mode == Guest && site != 0
    && if site in edges then c' == Cpu(c.m.(tx := JumpGoal(site, edges[site])), Jumping(goal(site)))
       else c' == Cpu(c.m.(tx := goal(site)), Missed(goal(site), site))
  }

  /** One instruction of the swap. */
  ghost predicate Swap(c: Cpu, c': Cpu) {
    && c.mode.Swapping? && 1 <= c.mode.j <= 3 && |c.m.slots| == SLOTS
    && var ops, eip, pc := SwapCode(c.mode.j), c.mode.eip, c.mode.pc;
    && pc < |ops|
    && c'.m == Step(ops[pc], Hash(eip), c.m)
    && c'.mode == if pc + 1 < |ops| then Swapping(eip, c.mode.j, pc + 1) else Jumping(eip)
  }

  /** After a hit beyond the first slot, the instructions of the swap, one step each, end in the state
      that the method `JumpIndirect` leaves: the first `n` of the eleven. */
  lemma {:induction false} SwapRuns(c: Cpu, eip: int, j: nat, n: nat) returns (run: seq<Cpu>)
    requires |c.m.slots| == SLOTS && 1 <= j <= 3 && c.mode == Swapping(eip, j, 0) && n <= 11
    requires c.m.target == eip == c.m.slots[Hash(eip) + j].key
    ensures |run| == n + 1 && run[0] == c && forall k :: 0 <= k < n ==> Swap(run[k], run[k + 1])
    ensures run[n].m == Run(SwapCode(j), n, Hash(eip), c.m)
    ensures run[n].mode == if n < 11 then Swapping(eip, j, n) else Jumping(eip)
    ensures n == 11 ==>
              run[n].m.slots == Exchanged(c.m.slots, Hash(eip), j) && run[n].m.tx == c.m.slots[Hash(eip) + j].tc
  {
    if n == 0 {
      run := [c];
    } else {
      run := SwapRuns(c, eip, j, n - 1);
      var b := run[n - 1];
      var c' := Cpu(Step(SwapCode(j)[n - 1], Hash(eip), b.m), if n < 11 then Swapping(eip, j, n) else Jumping(eip));
      assert Swap(b, c');
      run := run + [c'];
      if n == 11 {
        SwapsToFront(j, Hash(eip), c.m);
      }
    }
  }

  /** Every indirect jump of a CPU is a run that ends in what the method `JumpIndirect` leaves: the probe, and the
      eleven steps of the swap after a hit beyond the first slot. */
  lemma JumpRuns(c: Cpu, eip: int) returns (run: seq<Cpu>)
    requires c.mode == Guest && |c.m.slots| == SLOTS
    ensures |run| >= 2 && run[0] == c && Probe(run[0], run[1], eip)
    ensures forall k :: 1 <= k < |run| - 1 ==> Swap(run[k], run[k + 1])
    ensures var end := run[|run| - 1];
            && end.m.slots == Accessed(c.m.slots, JumpTo(eip))
            && match FirstHit(c.m.slots, eip % 4096, eip)
               case Some(j) => end.mode == Jumping(eip) && end.m.tx == c.m.slots[eip % 4096 + j].tc
               case None => end.mode == Missed(eip, 0) && end.m.tx == eip
  {
    hide Exchanged;
    var m := c.m.(target := eip);
    match FirstHit(c.m.slots, Hash(eip), eip)
    case None => run := [c, Cpu(m.(tx := eip), Missed(eip, 0))];
    case Some(j) =>
      if j == 0 {
        run := [c, Cpu(m.(tx := c.m.slots[Hash(eip)].tc), Jumping(eip))];
        SameSlot(c.m.slots, Hash(eip));
      } else {
        var swap := SwapRuns(Cpu(m, Swapping(eip, j, 0)), eip, j, 11);
        run := [c] + swap;
        forall k | 1 <= k < |run| - 1
          ensures Swap(run[k], run[k + 1])
        {
          assert run[k] == swap[k - 1] && run[k + 1] == swap[k - 1 + 1];
        }
      }
  }

  lemma SameSlot(t: seq<Slot>, i: nat)
    requires i < |t|
    ensures Exchanged(t, i, 0) == t
  {
  }

  /** The block with the lowest start among those that cover `eip`. */
  ghost predicate LowestCover(blocks: set<Block>, eip: int, b: Block) {
    b in blocks && Covers(b, eip) && forall x :: x in blocks && Covers(x, eip) ==> b.eipVirt <= x.eipVirt
  }

  /** `b` is a new translation of `eip` in code bytes of its own. */
  ghost predicate NewBlock(g: Program, blocks: set<Block>, eip: int, b: Block) {
    && (forall x :: x in blocks ==> !Covers(x, eip) && Separate(x, b))
    && b.eipVirt == eip && Translates(g.d, b) && InMemory(b)
  }

  /** What the critical section does to the blocks, and the code address it finds in block `b`. */
  ghost predicate FoundOrMade(g: Program, blocks: set<Block>, blocks': set<Block>, eip: int, b: Block, tc: int) {
    && EnteredAt(b, eip, tc)
    && ((blocks' == blocks && LowestCover(blocks, eip, b)) || (blocks' == blocks + {b} && NewBlock(g, blocks, eip, b)))
  }

  /** The critical section: the index is asked for `eip` and may grow by a translation of it. */
  ghost predicate CriticalSection(g: Program, blocks: set<Block>, blocks': set<Block>, eip: int, tc: int) {
    exists b :: FoundOrMade(g, blocks, blocks', eip, b, tc)
  }

  ghost predicate MissStep(g: Program, s: State, s': State, c: Cpu, c': Cpu) {
    && c.mode.Missed? && c'.m == c.m && c'.mode.Translated?
    && c'.mode.eip == c.mode.eip && c'.mode.site == c.mode.site
    && CriticalSection(g, s.blocks, s'.blocks, c.mode.eip, c'.mode.tc)
  }

  ghost predicate AddToCache(c: Cpu, c': Cpu) {
    && c.mode.Translated? && |c.m.slots| == SLOTS
    && var Translated(eip, site, tc) := c.mode;
    c' == Cpu(c.m.(slots := Inserted(c.m.slots, Hash(eip), Slot(eip, tc))), Cached(eip, site, tc))
  }

  /** The displacement is patched, and the monitor leaves the code address in tx_target. */
  ghost predicate Chain(s: State, s': State, c: Cpu, c': Cpu) {
    && c.mode.Cached?
    && var Cached(eip, site, tc) := c.mode;
    && s'.edges == (if site != 0 then s.edges[site := Displacement(site, tc)] else s.edges)
    && c' == Cpu(c.m.(tx := tc), Jumping(eip))
  }

  /** One step of CPU `p`.  Control goes to reachable addresses only. */
  ghost predicate CpuStep(g: Program, s: State, s': State, p: nat)
    requires p < |s.cpus| == |s'.cpus|
  {
    var c, c' := s.cpus[p], s'.cpus[p];
    || (s'.blocks == s.blocks && s'.edges == s.edges
        && ((exists eip :: g.starts(eip) && Probe(c, c', eip))
            || (exists site :: g.starts(g.goal(site)) && Edge(s.edges, g.goal, c, c', site))
            || Swap(c, c') || AddToCache(c, c') || (c.mode.Jumping? && c' == c.(mode := Guest))))
    || (s'.edges == s.edges && MissStep(g, s, s', c, c'))
    || (s'.blocks == s.blocks && Chain(s, s', c, c'))
  }

  ghost predicate StepsAlone(g: Program, s: State, s': State, p: nat)
    requires p < |s.cpus| == |s'.cpus|
  {
    CpuStep(g, s, s', p) && forall q :: 0 <= q < |s.cpus| && q != p ==> s'.cpus[q] == s.cpus[q]
  }

  ghost predicate Next(g: Program, s: State, s': State) {
    |s'.cpus| == |s.cpus| && exists p: nat :: p < |s.cpus| && StepsAlone(g, s, s', p)
  }

  ghost predicate Init(s: State) {
    && s.blocks == {} && s.edges == map[]
    && forall p :: 0 <= p < |s.cpus| ==> s.cpus[p].mode == Guest && |s.cpus[p].m.slots| == SLOTS
                                         && forall k :: 0 <= k < SLOTS ==> s.cpus[p].m.slots[k] == EMPTY
  }

  // ---------- the invariant ----------

  ghost predicate SlotOk(g: Program, blocks: set<Block>, x: Slot) {
    x == EMPTY || IsTranslation(g, blocks, x.key, x.tc)
  }

  ghost predicate TableOk(g: Program, blocks: set<Block>, t: seq<Slot>) {
    |t| == SLOTS && forall x :: x in t ==> SlotOk(g, blocks, x)
  }

  /** The machine is `pc` instructions into a swap that began on a sound table. */
  ghost predicate MidSwap(g: Program, blocks: set<Block>, c: Cpu, m0: Machine) {
    && c.mode.Swapping? && 1 <= c.mode.j <= 3 && c.mode.pc < 11
    && var i := Hash(c.mode.eip);
    && TableOk(g, blocks, m0.slots) && m0.target == c.mode.eip == m0.slots[i + c.mode.j].key
    && c.m == Run(SwapCode(c.mode.j), c.mode.pc, i, m0)
  }

  ghost predicate GoalOk(g: Program, eip: int, site: int) {
    g.starts(eip) && (site != 0 ==> g.goal(site) == eip)
  }

  ghost predicate CpuOk(g: Program, blocks: set<Block>, c: Cpu) {
    match c.mode
    case Guest => TableOk(g, blocks, c.m.slots)
    case Swapping(_, _, _) => exists m0 :: MidSwap(g, blocks, c, m0)
    case Missed(eip, site) => TableOk(g, blocks, c.m.slots) && GoalOk(g, eip, site)
    case Translated(eip, site, tc) =>
      TableOk(g, blocks, c.m.slots) && GoalOk(g, eip, site) && IsTranslation(g, blocks, eip, tc)
    case Cached(eip, site, tc) =>
      TableOk(g, blocks, c.m.slots) && GoalOk(g, eip, site) && IsTranslation(g, blocks, eip, tc)
    case Jumping(eip) =>
      TableOk(g, blocks, c.m.slots) && (IsTranslation(g, blocks, eip, c.m.tx) || (eip == 0 == c.m.tx))
  }

  /** Every patched jump leads to a translation of its static target. */
  ghost predicate EdgesOk(g: Program, blocks: set<Block>, edges: map<int, int>) {
    forall site :: site in edges ==> EdgeOk(g, blocks, edges, site)
  }

  ghost predicate EdgeOk(g: Program, blocks: set<Block>, edges: map<int, int>, site: int)
    requires site in edges
  {
    IsTranslation(g, blocks, g.goal(site), JumpGoal(site, edges[site]))
  }

  ghost predicate Inv(g: Program, s: State) {
    && BlocksOk(g, s.blocks) && EdgesOk(g, s.blocks, s.edges)
    && forall p :: 0 <= p < |s.cpus| ==> CpuOk(g, s.blocks, s.cpus[p])
  }

  lemma TableGrows(g: Program, blocks: set<Block>, blocks': set<Block>, t: seq<Slot>)
    requires blocks <= blocks' && TableOk(g, blocks, t)
    ensures TableOk(g, blocks', t)
  {
    forall x | x in t
      ensures SlotOk(g, blocks', x)
    {
      assert SlotOk(g, blocks, x);
      if x != EMPTY {
        TranslationGrows(g, blocks, blocks', x.key, x.tc);
      }
    }
  }

  /** A CPU that does nothing is not hurt by translations of others. */
  lemma CpuGrows(g: Program, blocks: set<Block>, blocks': set<Block>, c: Cpu)
    requires blocks <= blocks' && CpuOk(g, blocks, c)
    ensures CpuOk(g, blocks', c)
  {
    if c.mode.Swapping? {
      var m0 :| MidSwap(g, blocks, c, m0);
      TableGrows(g, blocks, blocks', m0.slots);
      assert MidSwap(g, blocks', c, m0);
    } else {
      TableGrows(g, blocks, blocks', c.m.slots);
      if c.mode.Translated? || c.mode.Cached? {
        TranslationGrows(g, blocks, blocks', c.mode.eip, c.mode.tc);
      } else if c.mode.Jumping? && IsTranslation(g, blocks, c.mode.eip, c.m.tx) {
        TranslationGrows(g, blocks, blocks', c.mode.eip, c.m.tx);
      }
    }
  }

  lemma ProbeOk(g: Program, blocks: set<Block>, c: Cpu, c': Cpu, eip: int)
    requires CpuOk(g, blocks, c) && Probe(c, c', eip) && g.starts(eip)
    ensures CpuOk(g, blocks, c')
  {
    var i, s := Hash(eip), c.m.slots;
    if c'.mode.Swapping? {
      assert Run(SwapCode(c'.mode.j), 0, i, c'.m) == c'.m;
      assert MidSwap(g, blocks, c', c'.m);
    } else if c'.mode.Jumping? {
      assert SlotOk(g, blocks, s[i]);
    }
  }

  lemma SwapOk(g: Program, blocks: set<Block>, c: Cpu, c': Cpu)
    requires CpuOk(g, blocks, c) && Swap(c, c')
    ensures CpuOk(g, blocks, c')
  {
    var m0 :| MidSwap(g, blocks, c, m0);
    var eip, j, pc := c.mode.eip, c.mode.j, c.mode.pc;
    var i, ops := Hash(eip), SwapCode(j);
    assert c'.m == Run(ops, pc + 1, i, m0);
    if pc + 1 < 11 {
      assert MidSwap(g, blocks, c', m0);
    } else {
      SwapsToFront(j, i, m0);
      assert SlotOk(g, blocks, m0.slots[i + j]);
      forall x | x in c'.m.slots
        ensures SlotOk(g, blocks, x)
      {
        assert x in m0.slots;
      }
    }
  }

  lemma AddOk(g: Program, blocks: set<Block>, c: Cpu, c': Cpu)
    requires CpuOk(g, blocks, c) && AddToCache(c, c')
    ensures CpuOk(g, blocks, c')
  {
    InsertedKeeps(c.m.slots, Hash(c.mode.eip), Slot(c.mode.eip, c.mode.tc));
  }

  /** What the critical section returns is a translation, and its blocks stay sound. */
  lemma CriticalSectionOk(g: Program, blocks: set<Block>, blocks': set<Block>, eip: int, tc: int)
    requires g.Ok() && BlocksOk(g, blocks) && g.starts(eip) && CriticalSection(g, blocks, blocks', eip, tc)
    ensures blocks <= blocks' && BlocksOk(g, blocks') && IsTranslation(g, blocks', eip, tc)
  {
    var b :| FoundOrMade(g, blocks, blocks', eip, b, tc);
    assert BlockOk(g, b);
    TranslationInOrder(g.d, b);
    var c, i := EnteredIsCode(g, b, eip, tc);
    assert b in blocks';
  }

  lemma ChainOk(g: Program, s: State, s': State, c: Cpu, c': Cpu)
    requires g.Ok() && BlocksOk(g, s.blocks) && CpuOk(g, s.blocks, c) && EdgesOk(g, s.blocks, s.edges)
    requires Chain(s, s', c, c') && s'.blocks == s.blocks
    ensures CpuOk(g, s.blocks, c') && EdgesOk(g, s.blocks, s'.edges)
  {
    var Cached(eip, site, tc) := c.mode;
    TranslationInMemory(g, s.blocks, eip, tc);
    PatchedJumpGoal(site, tc);
    forall e | e in s'.edges
      ensures EdgeOk(g, s.blocks, s'.edges, e)
    {
      assert e in s.edges ==> EdgeOk(g, s.blocks, s.edges, e);
    }
  }

  lemma EdgesGrow(g: Program, blocks: set<Block>, blocks': set<Block>, edges: map<int, int>)
    requires blocks <= blocks' && EdgesOk(g, blocks, edges)
    ensures EdgesOk(g, blocks', edges)
  {
    forall e | e in edges
      ensures EdgeOk(g, blocks', edges, e)
    {
      assert EdgeOk(g, blocks, edges, e);
      TranslationGrows(g, blocks, blocks', g.goal(e), JumpGoal(e, edges[e]));
    }
  }

  lemma EdgeStepOk(g: Program, s: State, c: Cpu, c': Cpu, site: int)
    requires CpuOk(g, s.blocks, c) && EdgesOk(g, s.blocks, s.edges)
    requires g.starts(g.goal(site)) && Edge(s.edges, g.goal, c, c', site)
    ensures CpuOk(g, s.blocks, c')
    ensures c'.mode.Jumping? ==> IsTranslation(g, s.blocks, c'.mode.eip, c'.m.tx)
  {
    assert site in s.edges ==> EdgeOk(g, s.blocks, s.edges, site);
  }

  lemma StepOk(g: Program, s: State, s': State, p: nat)
    requires g.Ok() && Inv(g, s) && p < |s.cpus| == |s'.cpus| && CpuStep(g, s, s', p)
    ensures s.blocks <= s'.blocks && BlocksOk(g, s'.blocks)
    ensures CpuOk(g, s'.blocks, s'.cpus[p]) && EdgesOk(g, s'.blocks, s'.edges)
  {
    hide BlocksOk, EdgesOk, TableOk;
    var c, c' := s.cpus[p], s'.cpus[p];
    if Chain(s, s', c, c') && s'.blocks == s.blocks {
      ChainOk(g, s, s', c, c');
    } else if MissStep(g, s, s', c, c') && s'.edges == s.edges {
      CriticalSectionOk(g, s.blocks, s'.blocks, c.mode.eip, c'.mode.tc);
      EdgesGrow(g, s.blocks, s'.blocks, s.edges);
      TableGrows(g, s.blocks, s'.blocks, c.m.slots);
    } else if eip :| g.starts(eip) && Probe(c, c', eip) {
      ProbeOk(g, s.blocks, c, c', eip);
    } else if Swap(c, c') {
      SwapOk(g, s.blocks, c, c');
    } else if AddToCache(c, c') {
      AddOk(g, s.blocks, c, c');
    } else if site :| g.starts(g.goal(site)) && Edge(s.edges, g.goal, c, c', site) {
      EdgeStepOk(g, s, c, c', site);
    }
  }

  lemma NextOk(g: Program, s: State, s': State)
    requires g.Ok() && Inv(g, s) && Next(g, s, s')
    ensures Inv(g, s') && s.blocks <= s'.blocks
  {
    var p: nat :| p < |s.cpus| && StepsAlone(g, s, s', p);
    StepOk(g, s, s', p);
    forall q | 0 <= q < |s.cpus|
      ensures CpuOk(g, s'.blocks, s'.cpus[q])
    {
      if q != p {
        CpuGrows(g, s.blocks, s'.blocks, s.cpus[q]);
      }
    }
  }

  ghost predicate IsRun(g: Program, run: seq<State>) {
    |run| > 0 && Init(run[0]) && forall k :: 0 <= k < |run| - 1 ==> Next(g, run[k], run[k + 1])
  }

  lemma InitOk(g: Program, s: State)
    requires Init(s)
    ensures Inv(g, s)
  {
    forall p | 0 <= p < |s.cpus|
      ensures CpuOk(g, s.blocks, s.cpus[p])
    {
      assert forall x :: x in s.cpus[p].m.slots ==> SlotOk(g, s.blocks, x);
    }
  }

  /** The invariant over every interleaving. */
  lemma {:induction false} RunOk(g: Program, run: seq<State>, k: nat)
    requires g.Ok() && IsRun(g, run) && k < |run|
    ensures Inv(g, run[k]) && |run[k].cpus| == |run[0].cpus|
  {
    hide Inv, Init, StepsAlone;
    if k == 0 {
      InitOk(g, run[0]);
    } else {
      RunOk(g, run, k - 1);
      assert Next(g, run[k - 1], run[k - 1 + 1]);
      NextOk(g, run[k - 1], run[k]);
    }
  }

  // ---------- jumps ----------

  /** The empty slots of the cache match a jump to guest address 0, when the first of the four slots that
      has the key 0 is one of them. */
  ghost predicate HitsEmpty(t: seq<Slot>, eip: int)
    requires |t| == SLOTS
  {
    var j := FirstHit(t, Hash(eip), eip);
    j.Some? && t[Hash(eip) + j.value] == EMPTY
  }

  /** The CPU is on its way from an indirect jump to `eip`, begun in state `c0`. */
  ghost predicate OnTheWay(g: Program, blocks: set<Block>, c0: Cpu, eip: int, c: Cpu)
    requires |c0.m.slots| == SLOTS
  {
    var j := FirstHit(c0.m.slots, Hash(eip), eip);
    match c.mode
    case Guest => false
    case Swapping(e, k, pc) =>
      e == eip && j == Some(k) && 1 <= k && pc < 11
      && c.m == Run(SwapCode(k), pc, Hash(eip), c0.m.(target := eip))
    case Missed(e, site) => e == eip && j.None?
    case Translated(e, _, tc) => e == eip && j.None? && IsTranslation(g, blocks, eip, tc)
    case Cached(e, _, tc) => e == eip && j.None? && IsTranslation(g, blocks, eip, tc)
    case Jumping(e) =>
      e == eip && if j.Some? then c.m.tx == c0.m.slots[Hash(eip) + j.value].tc
      else IsTranslation(g, blocks, eip, c.m.tx)
  }

  lemma ProbeStarts(g: Program, blocks: set<Block>, c0: Cpu, eip: int, c: Cpu)
    requires Probe(c0, c, eip)
    ensures OnTheWay(g, blocks, c0, eip, c)
  {
    if c.mode.Swapping? {
      assert Run(SwapCode(c.mode.j), 0, Hash(eip), c.m) == c.m;
    }
  }

  lemma WayGrows(g: Program, blocks: set<Block>, blocks': set<Block>, c0: Cpu, eip: int, c: Cpu)
    requires |c0.m.slots| == SLOTS && blocks <= blocks' && OnTheWay(g, blocks, c0, eip, c)
    ensures OnTheWay(g, blocks', c0, eip, c)
  {
    if (c.mode.Translated? || c.mode.Cached?) && IsTranslation(g, blocks, eip, c.mode.tc) {
      TranslationGrows(g, blocks, blocks', eip, c.mode.tc);
    } else if c.mode.Jumping? && IsTranslation(g, blocks, eip, c.m.tx) {
      TranslationGrows(g, blocks, blocks', eip, c.m.tx);
    }
  }

  lemma SwapGoesOn(g: Program, blocks: set<Block>, c0: Cpu, eip: int, c: Cpu, c': Cpu)
    requires |c0.m.slots| == SLOTS && OnTheWay(g, blocks, c0, eip, c) && Swap(c, c')
    ensures OnTheWay(g, blocks, c0, eip, c')
  {
    var j, pc, i, m0 := c.mode.j, c.mode.pc, Hash(eip), c0.m.(target := eip);
    assert c'.m == Run(SwapCode(j), pc + 1, i, m0);
    if pc + 1 == 11 {
      SwapsToFront(j, i, m0);
    }
  }

  lemma WayGoesOn(g: Program, s: State, s': State, p: nat, c0: Cpu, eip: int)
    requires g.Ok() && Inv(g, s) && p < |s.cpus| == |s'.cpus| && CpuStep(g, s, s', p) && s'.cpus[p].mode != Guest
    requires |c0.m.slots| == SLOTS && OnTheWay(g, s.blocks, c0, eip, s.cpus[p])
    ensures OnTheWay(g, s'.blocks, c0, eip, s'.cpus[p])
  {
    var c, c' := s.cpus[p], s'.cpus[p];
    if Swap(c, c') {
      SwapGoesOn(g, s.blocks, c0, eip, c, c');
    } else if MissStep(g, s, s', c, c') && s'.edges == s.edges {
      assert CpuOk(g, s.blocks, c);
      CriticalSectionOk(g, s.blocks, s'.blocks, eip, c'.mode.tc);
    }
  }

  /** CPU `p` has not come back to guest code between the states `k0 + 1` and `k` of a run. */
  ghost predicate Away(run: seq<State>, p: nat, k0: nat, k: nat) {
    forall q :: k0 < q <= k < |run| ==> p < |run[q].cpus| && run[q].cpus[p].mode != Guest
  }

  lemma {:induction false} WayToJump(g: Program, run: seq<State>, p: nat, k0: nat, k: nat, eip: int)
    requires g.Ok() && IsRun(g, run) && k0 < k < |run| && p < |run[0].cpus| && Away(run, p, k0, k)
    requires p < |run[k0].cpus| && p < |run[k0 + 1].cpus| && Probe(run[k0].cpus[p], run[k0 + 1].cpus[p], eip)
    ensures p < |run[k].cpus| && OnTheWay(g, run[k].blocks, run[k0].cpus[p], eip, run[k].cpus[p])
  {
    hide Inv, OnTheWay, CpuStep, Init;
    RunOk(g, run, k);
    if k == k0 + 1 {
      ProbeStarts(g, run[k].blocks, run[k0].cpus[p], eip, run[k].cpus[p]);
    } else {
      WayToJump(g, run, p, k0, k - 1, eip);
      RunOk(g, run, k - 1);
      var s, s' := run[k - 1], run[k];
      assert Next(g, run[k - 1], run[k - 1 + 1]);
      NextOk(g, s, s');
      var q: nat :| q < |s.cpus| && StepsAlone(g, s, s', q);
      if q == p {
        WayGoesOn(g, s, s', p, run[k0].cpus[p], eip);
      } else {
        WayGrows(g, s.blocks, s'.blocks, run[k0].cpus[p], eip, s.cpus[p]);
      }
    }
  }

  /** Where an indirect jump goes was decided by the slots before the probe. */
  lemma HitDecides(g: Program, blocks0: set<Block>, blocks: set<Block>, c0: Cpu, c: Cpu, eip: int)
    requires g.Ok() && BlocksOk(g, blocks) && blocks0 <= blocks && TableOk(g, blocks0, c0.m.slots)
    requires OnTheWay(g, blocks, c0, eip, c) && c.mode.Jumping?
    ensures c.mode.eip == eip && (eip != 0 ==> !HitsEmpty(c0.m.slots, eip))
    ensures IsTranslation(g, blocks, eip, c.m.tx) <==> !HitsEmpty(c0.m.slots, eip)
  {
    hide BlocksOk, IsTranslation, Program.Ok;
    var j := FirstHit(c0.m.slots, Hash(eip), eip);
    if j.Some? {
      var x := c0.m.slots[Hash(eip) + j.value];
      assert SlotOk(g, blocks0, x);
      if x == EMPTY {
        if IsTranslation(g, blocks, eip, c.m.tx) {
          TranslationInMemory(g, blocks, eip, c.m.tx);
        }
      } else {
        TranslationGrows(g, blocks0, blocks, eip, c.m.tx);
      }
    }
  }

  lemma TableOfGuest(g: Program, s: State, p: nat)
    requires Inv(g, s) && p < |s.cpus| && s.cpus[p].mode == Guest
    ensures TableOk(g, s.blocks, s.cpus[p].m.slots)
  {
    assert CpuOk(g, s.blocks, s.cpus[p]);
  }

  lemma BlocksOfInv(g: Program, s: State)
    requires Inv(g, s)
    ensures BlocksOk(g, s.blocks)
  {
  }

  /** An indirect jump to `eip` goes to a translation of `eip` exactly when, before it probed the cache, it
      was not about to hit an empty slot, which only a jump to guest address 0 can.  `k0` is the state
      before the probe, `k` one in which the CPU is about to jump. */
  lemma JumpsAreRight(g: Program, run: seq<State>, p: nat, k0: nat, k: nat, eip: int)
    requires g.Ok() && IsRun(g, run) && k0 < k < |run| && p < |run[0].cpus| && Away(run, p, k0, k)
    requires p < |run[k0].cpus| && p < |run[k0 + 1].cpus| && Probe(run[k0].cpus[p], run[k0 + 1].cpus[p], eip)
    requires p < |run[k].cpus| && run[k].cpus[p].mode.Jumping?
    ensures run[k].cpus[p].mode.eip == eip
    ensures IsTranslation(g, run[k].blocks, eip, run[k].cpus[p].m.tx) <==> !HitsEmpty(run[k0].cpus[p].m.slots, eip)
    ensures eip != 0 ==> !HitsEmpty(run[k0].cpus[p].m.slots, eip)
  {
    hide Inv, Init, Next, IsRun, Away, BlocksOk, TableOk, OnTheWay, HitsEmpty, IsTranslation, Program.Ok;
    WayToJump(g, run, p, k0, k, eip);
    RunOk(g, run, k0);
    RunOk(g, run, k);
    BlocksGrow(g, run, k0, k);
    TableOfGuest(g, run[k0], p);
    BlocksOfInv(g, run[k]);
    HitDecides(g, run[k0].blocks, run[k].blocks, run[k0].cpus[p], run[k].cpus[p], eip);
  }

  lemma {:induction false} BlocksGrow(g: Program, run: seq<State>, k0: nat, k: nat)
    requires g.Ok() && IsRun(g, run) && k0 <= k < |run|
    ensures run[k0].blocks <= run[k].blocks
  {
    hide Inv, Init, StepsAlone;
    if k0 < k {
      BlocksGrow(g, run, k0, k - 1);
      RunOk(g, run, k - 1);
      assert Next(g, run[k - 1], run[k - 1 + 1]);
      NextOk(g, run[k - 1], run[k]);
    }
  }

  /** A direct jump whose displacement was patched goes to a translation of its static target, also when
      that is guest address 0. */
  lemma PatchedJumpsAreRight(g: Program, run: seq<State>, p: nat, k: nat, site: int)
    requires g.Ok() && IsRun(g, run) && k + 1 < |run| && p < |run[k].cpus| && p < |run[k + 1].cpus|
    requires Edge(run[k].edges, g.goal, run[k].cpus[p], run[k + 1].cpus[p], site) && site in run[k].edges
    ensures IsTranslation(g, run[k + 1].blocks, g.goal(site), run[k + 1].cpus[p].m.tx)
  {
    RunOk(g, run, k);
    assert EdgeOk(g, run[k].blocks, run[k].edges, site);
    BlocksGrow(g, run, k, k + 1);
    TranslationGrows(g, run[k].blocks, run[k + 1].blocks, g.goal(site), run[k + 1].cpus[p].m.tx);
  }

  /** The exception is real: the first jump of a CPU to guest address 0 hits an empty slot. */
  lemma ZeroTargetFails(g: Program, s: State)
    requires g.Ok() && Init(s) && |s.cpus| > 0 && g.starts(0)
    ensures var c := s.cpus[0];
            var s' := s.(cpus := s.cpus[0 := Cpu(c.m.(target := 0, tx := 0), Jumping(0))]);
            && IsRun(g, [s, s']) && HitsEmpty(c.m.slots, 0)
            && !IsTranslation(g, s'.blocks, 0, s'.cpus[0].m.tx)
  {
    var c := s.cpus[0];
    var s' := s.(cpus := s.cpus[0 := Cpu(c.m.(target := 0, tx := 0), Jumping(0))]);
    assert Probe(c, s'.cpus[0], 0);
    assert StepsAlone(g, s, s', 0);
  }

  // ---------- a miss ----------

  /** Three steps of CPU `p`, in which no other CPU moves. */
  ghost predicate ThreeSteps(g: Program, s: State, s': State, p: nat) {
    |s.cpus| == |s'.cpus| && p < |s.cpus| && exists s1, s2 :: ThreeStepsBy(g, s, s1, s2, s', p)
  }

  ghost predicate ThreeStepsBy(g: Program, s: State, s1: State, s2: State, s': State, p: nat) {
    && p < |s.cpus| == |s1.cpus| == |s2.cpus| == |s'.cpus|
    && StepsAlone(g, s, s1, p) && StepsAlone(g, s1, s2, p) && StepsAlone(g, s2, s', p)
  }

  /** CPU `p` missed on `eip`, with the patch site `site` and the slots `t`. */
  ghost predicate MissedIn(s: State, p: nat, t: seq<Slot>, eip: int, site: int) {
    p < |s.cpus| && s.cpus[p].mode == Missed(eip, site) && s.cpus[p].m.slots == t
  }

  /** The state in which CPU `p` jumps to `tc`. */
  ghost function JumpingIn(s: State, p: nat, blocks: set<Block>, e: map<int, int>, t: seq<Slot>, eip: int, tc: int)
    : State
    requires p < |s.cpus|
  {
    State(blocks, e, s.cpus[p := Cpu(s.cpus[p].m.(slots := t, tx := tc), Jumping(eip))])
  }

  /** On any number of CPUs, whatever the others are doing, three steps take a CPU that missed on `eip` to the
      jump: the blocks become `blocks'`, the displacements `e'` and the CPU's slots `t'`. */
  ghost predicate AnyMissRuns(g: Program, blocks: set<Block>, blocks': set<Block>, e: map<int, int>, e': map<int, int>,
                              t: seq<Slot>, t': seq<Slot>, eip: int, site: int, tc: int) {
    forall s, p: nat :: MissedIn(s, p, t, eip, site) && s.blocks == blocks && s.edges == e ==>
                          ThreeSteps(g, s, JumpingIn(s, p, blocks', e', t', eip, tc), p)
  }

  lemma OneMissRuns(g: Program, s: State, p: nat, blocks': set<Block>, e': map<int, int>, eip: int, site: int, tc: int)
    requires p < |s.cpus| && s.cpus[p].mode == Missed(eip, site) && |s.cpus[p].m.slots| == SLOTS
    requires CriticalSection(g, s.blocks, blocks', eip, tc)
    requires e' == if site != 0 then s.edges[site := Displacement(site, tc)] else s.edges
    ensures var t := Inserted(s.cpus[p].m.slots, Hash(eip), Slot(eip, tc));
            ThreeSteps(g, s, JumpingIn(s, p, blocks', e', t, eip, tc), p)
  {
    hide Inserted, Displacement, CriticalSection;
    var m := s.cpus[p].m;
    var t' := Inserted(m.slots, Hash(eip), Slot(eip, tc));
    var s1 := State(blocks', s.edges, s.cpus[p := Cpu(m, Translated(eip, site, tc))]);
    var s2 := State(blocks', s.edges, s.cpus[p := Cpu(m.(slots := t'), Cached(eip, site, tc))]);
    assert StepsAlone(g, s, s1, p);
    assert AddToCache(s1.cpus[p], s2.cpus[p]);
    assert StepsAlone(g, s1, s2, p);
    assert ThreeStepsBy(g, s, s1, s2, JumpingIn(s, p, blocks', e', t', eip, tc), p);
  }

  lemma MissIsThreeSteps(g: Program, blocks: set<Block>, blocks': set<Block>, e: map<int, int>, t: seq<Slot>, eip: int,
                         site: int, tc: int)
    requires CriticalSection(g, blocks, blocks', eip, tc) && |t| == SLOTS
    ensures AnyMissRuns(g, blocks, blocks', e, if site != 0 then e[site := Displacement(site, tc)] else e,
                        t, Inserted(t, Hash(eip), Slot(eip, tc)), eip, site, tc)
  {
    hide Inserted, Displacement, CriticalSection, ThreeSteps;
    var e' := if site != 0 then e[site := Displacement(site, tc)] else e;
    var t' := Inserted(t, Hash(eip), Slot(eip, tc));
    forall s, p: nat | MissedIn(s, p, t, eip, site) && s.blocks == blocks && s.edges == e
      ensures ThreeSteps(g, s, JumpingIn(s, p, blocks', e', t', eip, tc), p)
    {
      OneMissRuns(g, s, p, blocks', e', eip, site, tc);
    }
  }
}
