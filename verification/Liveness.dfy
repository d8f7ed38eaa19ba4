/**
 The generator's register analysis (peepgen.c, peep/regset.c, peep/nomatch_pair.c): backward
 liveness, the pairs of registers that must not be assigned alike, and why they are the right ones.
 */
module Liveness {
  import opened Common
  import opened Insns

  const MAX_NOMATCH_PAIRS: nat := 32

  /** A register as the analysis sees it: a machine register, a variable or a temporary. */
  datatype Name = C(n: nat) | V(n: nat) | T(n: nat)

  function NameOf(reg: nat, tag: Tag): Name {
    if tag == TagConst then C(reg) else if reg >= TEMP_REG0 then T(reg - TEMP_REG0) else V(reg)
  }

  predicate InRange(reg: int, tag: Tag) {
    0 <= reg < if tag == TagConst then NUM_REGS else TEMP_REG0 + MAX_TEMPORARIES
  }

  // ---------- register sets ----------

  class RegSet {
    const cregs: array<bool>
    const vregs: array<bool>
    const tregs: array<bool>

    /** regset_clear_all on a new set. */
    constructor ()
      ensures Valid() && Empty() && fresh(cregs) && fresh(vregs) && fresh(tregs)
    {
      cregs, vregs, tregs :=
        new bool[NUM_REGS](_ => false), new bool[NUM_REGS](_ => false), new bool[MAX_TEMPORARIES](_ => false);
    }

    ghost predicate Valid() {
      && cregs.Length == NUM_REGS && vregs.Length == NUM_REGS && tregs.Length == MAX_TEMPORARIES
      && cregs != vregs && vregs != tregs && cregs != tregs
    }

    ghost predicate Has(x: Name)
      requires Valid()
      reads cregs, vregs, tregs
    {
      match x
      case C(n) => n < NUM_REGS && cregs[n]
      case V(n) => n < NUM_REGS && vregs[n]
      case T(n) => n < MAX_TEMPORARIES && tregs[n]
    }

    ghost predicate Empty()
      requires Valid()
      reads cregs, vregs, tregs
    {
      forall x :: !Has(x)
    }

    ghost predicate Is(s: set<Name>)
      requires Valid()
      reads cregs, vregs, tregs
    {
      forall x :: Has(x) <==> x in s
    }

    /** regset_mark */
    method Mark(tag: Tag, reg: nat)
      requires Valid() && InRange(reg, tag)
      modifies cregs, vregs, tregs
      ensures forall x :: Has(x) <==> old(Has(x)) || x == NameOf(reg, tag)
    {
      if tag == TagConst {
        cregs[reg] := true;
      } else if reg >= TEMP_REG0 {
        tregs[reg - TEMP_REG0] := true;
      } else {
        vregs[reg] := true;
      }
    }

    /** regset_diff */
    method Diff(src: RegSet)
      requires Valid() && src.Valid() && Apart(src)
      modifies cregs, vregs, tregs
      ensures forall x :: Has(x) <==> old(Has(x)) && !src.Has(x)
    {
      DiffArray(cregs, src.cregs);
      DiffArray(vregs, src.vregs);
      DiffArray(tregs, src.tregs);
    }

    /** regset_union */
    method Union(src: RegSet)
      requires Valid() && src.Valid() && Apart(src)
      modifies cregs, vregs, tregs
      ensures forall x :: Has(x) <==> old(Has(x)) || src.Has(x)
    {
      UnionArray(cregs, src.cregs);
      UnionArray(vregs, src.vregs);
      UnionArray(tregs, src.tregs);
    }

    /** Two sets in different memory. */
    ghost predicate Apart(s: RegSet) {
      {cregs, vregs, tregs} !! {s.cregs, s.vregs, s.tregs}
    }
  }

  method DiffArray(dst: array<bool>, src: array<bool>)
    requires dst.Length == src.Length && dst != src
    modifies dst
    ensures forall k :: 0 <= k < dst.Length ==> dst[k] == (old(dst[k]) && !src[k])
  {
    for i := 0 to dst.Length
      invariant forall k :: 0 <= k < dst.Length ==> dst[k] == if k < i then old(dst[k]) && !src[k] else old(dst[k])
    {
      if dst[i] && src[i] {
        dst[i] := false;
      }
    }
  }

  method UnionArray(dst: array<bool>, src: array<bool>)
    requires dst.Length == src.Length && dst != src
    modifies dst
    ensures forall k :: 0 <= k < dst.Length ==> dst[k] == (old(dst[k]) || src[k])
  {
    for i := 0 to dst.Length
      invariant forall k :: 0 <= k < dst.Length ==> dst[k] == if k < i then old(dst[k]) || src[k] else old(dst[k])
    {
      dst[i] := dst[i] || src[i];
    }
  }

  // ---------- pairs ----------

  datatype Pair = Pair(reg1: nat, tag1: Tag, reg2: nat, tag2: Tag)
  {
    predicate Joins(a: Name, b: Name) {
      (NameOf(reg1, tag1) == a && NameOf(reg2, tag2) == b) || (NameOf(reg1, tag1) == b && NameOf(reg2, tag2) == a)
    }
  }

  ghost predicate Listed(ps: seq<Pair>, a: Name, b: Name) {
    exists k :: 0 <= k < |ps| && ps[k].Joins(a, b)
  }

  /** No pair is listed twice, in either order. */
  ghost predicate Distinct(ps: seq<Pair>) {
    forall i, j :: 0 <= i < j < |ps| ==> !ps[j].Joins(NameOf(ps[i].reg1, ps[i].tag1), NameOf(ps[i].reg2, ps[i].tag2))
  }

  /** Tags other than tag_const and tag_var do not reach the list. */
  ghost predicate PlainTags(ps: seq<Pair>) {
    forall k :: 0 <= k < |ps| ==> ps[k].tag1 in {TagConst, TagVar} && ps[k].tag2 in {TagConst, TagVar}
  }

  class PairList {
    var pairs: seq<Pair>

    constructor ()
      ensures pairs == []
    {
      pairs := [];
    }

    ghost predicate Valid()
      reads this
    {
      |pairs| <= MAX_NOMATCH_PAIRS && Distinct(pairs) && PlainTags(pairs)
    }

    /** nomatch_pair_add; false where the C assertion that there is room fails. */
    method Add(reg1: nat, tag1: Tag, reg2: nat, tag2: Tag) returns (ok: bool)
      requires Valid() && tag1 in {TagConst, TagVar} && tag2 in {TagConst, TagVar}
      modifies this
      ensures Valid() && old(pairs) <= pairs
      ensures var a, b := NameOf(reg1, tag1), NameOf(reg2, tag2);
              if ok then forall x, y :: Listed(pairs, x, y) <==>
                                        Listed(old(pairs), x, y) || (x, y) == (a, b) || (x, y) == (b, a)
              else pairs == old(pairs) && |pairs| == MAX_NOMATCH_PAIRS && !Listed(pairs, a, b)
    {
      for i := 0 to |pairs|
        invariant forall k :: 0 <= k < i ==> !pairs[k].Joins(NameOf(reg1, tag1), NameOf(reg2, tag2))
      {
        if pairs[i].reg1 == reg1 && pairs[i].tag1 == tag1 && pairs[i].reg2 == reg2 && pairs[i].tag2 == tag2 {
          assert pairs[i].Joins(NameOf(reg1, tag1), NameOf(reg2, tag2));
          return true;
        }
        if pairs[i].reg2 == reg1 && pairs[i].tag2 == tag1 && pairs[i].reg1 == reg2 && pairs[i].tag1 == tag2 {
          assert pairs[i].Joins(NameOf(reg1, tag1), NameOf(reg2, tag2));
          return true;
        }
      }
      if |pairs| == MAX_NOMATCH_PAIRS {
        return false;
      }
      ghost var before := pairs;
      pairs := pairs + [Pair(reg1, tag1, reg2, tag2)];
      assert pairs[|before|].Joins(NameOf(reg1, tag1), NameOf(reg2, tag2));
      assert pairs[|before|].Joins(NameOf(reg2, tag2), NameOf(reg1, tag1));
      forall x, y | Listed(before, x, y)
        ensures Listed(pairs, x, y)
      {
        var k :| 0 <= k < |before| && before[k].Joins(x, y);
        assert pairs[k].Joins(x, y);
      }
      return true;
    }
  }

  /** `n` is a register of the set's part whose first register is number `base` of the given tag. */
  ghost predicate Member(part: seq<bool>, tag: Tag, base: nat, n: Name) {
    n == NameOf(base + n.n, tag) && n.n < |part| && part[n.n]
  }

  /** The pairs that a definition of `d` adds against the registers of one part. */
  ghost predicate Meets(d: Name, part: seq<bool>, tag: Tag, base: nat, x: Name, y: Name) {
    x != y && ((x == d && Member(part, tag, base, y)) || (y == d && Member(part, tag, base, x)))
  }

  /** The list is full without this pair. */
  ghost predicate NoRoom(ps: seq<Pair>, a: Name, b: Name) {
    |ps| == MAX_NOMATCH_PAIRS && !Listed(ps, a, b)
  }

  lemma MeetsPart(d: Name, part: seq<bool>, tag: Tag, base: nat, j: nat)
    requires j <= |part|
    ensures forall x, y :: Meets(d, part[..j], tag, base, x, y) ==> Meets(d, part, tag, base, x, y)
  {
  }

  /** One of the inner loops of regset_output_nomatch_pairs.  A guard against a register that is
      paired with itself stands in the loops where that can happen. */
  method PairPart(ps: PairList, reg: nat, part: array<bool>, tag: Tag, base: nat)
    returns (ok: bool, ghost a: Name, ghost b: Name)
    requires ps.Valid() && part.Length == 8 && tag in {TagConst, TagVar} && reg < 16
    requires if tag == TagConst then base == 0 else base == 0 || base == TEMP_REG0
    modifies ps
    ensures ps.Valid() && old(ps.pairs) <= ps.pairs
    ensures ok ==> forall x, y :: Listed(ps.pairs, x, y) <==>
                                  Listed(old(ps.pairs), x, y) || Meets(NameOf(reg, TagVar), part[..], tag, base, x, y)
    ensures forall x, y :: Listed(ps.pairs, x, y) ==>
                             Listed(old(ps.pairs), x, y) || Meets(NameOf(reg, TagVar), part[..], tag, base, x, y)
    ensures !ok ==> Meets(NameOf(reg, TagVar), part[..], tag, base, a, b) && NoRoom(ps.pairs, a, b)
  {
    ghost var d := NameOf(reg, TagVar);
    a, b := d, d;
    for j := 0 to part.Length
      invariant ps.Valid() && old(ps.pairs) <= ps.pairs
      invariant forall x, y :: Listed(ps.pairs, x, y) <==>
                               Listed(old(ps.pairs), x, y) || Meets(d, part[..j], tag, base, x, y)
    {
      ghost var n := NameOf(base + j, tag);
      ghost var before := ps.pairs;
      assert n.n == j;
      if part[j] && !(tag == TagVar && base + j == reg) {
        ok := ps.Add(reg, TagVar, base + j, tag);
        if !ok {
          MeetsNext(d, part[..], tag, base, j);
          MeetsPart(d, part[..], tag, base, j + 1);
          return false, d, n;
        }
      }
      MeetsNext(d, part[..], tag, base, j);
    }
    assert part[..part.Length] == part[..];
    return true, a, b;
  }

  lemma MeetsNext(d: Name, part: seq<bool>, tag: Tag, base: nat, j: nat)
    requires j < |part| <= 8 && tag in {TagConst, TagVar}
    requires if tag == TagConst then base == 0 else base == 0 || base == TEMP_REG0
    ensures var n := NameOf(base + j, tag);
            forall x, y :: Meets(d, part[..j + 1], tag, base, x, y) <==>
                           Meets(d, part[..j], tag, base, x, y)
                           || (part[j] && d != n && ((x, y) == (d, n) || (x, y) == (n, d)))
  {
  }

  /** The pairs that a definition of `d` adds when the registers of `use` are live. */
  ghost predicate Clashes(d: Name, use: set<Name>, x: Name, y: Name) {
    x != y && ((x == d && y in use) || (y == d && x in use))
  }

  /** The body of the outer loops of regset_output_nomatch_pairs. */
  method PairWith(ps: PairList, reg: nat, use: RegSet, ghost live: set<Name>)
    returns (ok: bool, ghost a: Name, ghost b: Name)
    requires ps.Valid() && use.Valid() && use.Is(live) && reg < 16
    modifies ps
    ensures ps.Valid() && old(ps.pairs) <= ps.pairs
    ensures ok ==> forall x, y :: Listed(ps.pairs, x, y) <==>
                                  Listed(old(ps.pairs), x, y) || Clashes(NameOf(reg, TagVar), live, x, y)
    ensures forall x, y :: Listed(ps.pairs, x, y) ==>
                             Listed(old(ps.pairs), x, y) || Clashes(NameOf(reg, TagVar), live, x, y)
    ensures !ok ==> Clashes(NameOf(reg, TagVar), live, a, b) && NoRoom(ps.pairs, a, b)
  {
    MeetsAll(NameOf(reg, TagVar), use, live);
    ok, a, b := PairPart(ps, reg, use.cregs, TagConst, 0);
    if !ok {
      return;
    }
    ok, a, b := PairPart(ps, reg, use.vregs, TagVar, 0);
    if !ok {
      return;
    }
    ok, a, b := PairPart(ps, reg, use.tregs, TagVar, TEMP_REG0);
  }

  lemma MeetsAll(d: Name, use: RegSet, live: set<Name>)
    requires use.Valid() && use.Is(live)
    ensures forall x, y :: Clashes(d, live, x, y) <==>
                           Meets(d, use.cregs[..], TagConst, 0, x, y) || Meets(d, use.vregs[..], TagVar, 0, x, y)
                           || Meets(d, use.tregs[..], TagVar, TEMP_REG0, x, y)
  {
    forall n: Name
      ensures n in live <==>
              Member(use.cregs[..], TagConst, 0, n) || Member(use.vregs[..], TagVar, 0, n)
              || Member(use.tregs[..], TagVar, TEMP_REG0, n)
    {
      assert use.Has(n) <==> n in live;
    }
  }

  /** The pairs of a definition against the live registers: machine registers that are written get none. */
  ghost predicate Interferes(def: set<Name>, live: set<Name>, x: Name, y: Name) {
    x != y && ((x in def && !x.C? && y in live) || (y in def && !y.C? && x in live))
  }

  function VarName(temp: bool, i: nat): Name {
    if temp then T(i) else V(i)
  }

  /** The definitions among the first `n` variables or temporaries. */
  ghost predicate InterferesBelow(def: set<Name>, live: set<Name>, temp: bool, n: nat, x: Name, y: Name) {
    exists i :: 0 <= i < n && VarName(temp, i) in def && Clashes(VarName(temp, i), live, x, y)
  }

  /** One of the two outer loops of regset_output_nomatch_pairs. */
  method PairDefs(ps: PairList, part: array<bool>, temp: bool, use: RegSet, ghost def: set<Name>,
                  ghost live: set<Name>)
    returns (ok: bool, ghost a: Name, ghost b: Name)
    requires ps.Valid() && use.Valid() && use.Is(live) && part.Length == 8
    requires forall i :: 0 <= i < 8 ==> (part[i] <==> VarName(temp, i) in def)
    modifies ps
    ensures ps.Valid() && old(ps.pairs) <= ps.pairs
    ensures ok ==> forall x, y :: Listed(ps.pairs, x, y) <==>
                                  Listed(old(ps.pairs), x, y) || InterferesBelow(def, live, temp, 8, x, y)
    ensures forall x, y :: Listed(ps.pairs, x, y) ==>
                             Listed(old(ps.pairs), x, y) || InterferesBelow(def, live, temp, 8, x, y)
    ensures !ok ==> InterferesBelow(def, live, temp, 8, a, b) && NoRoom(ps.pairs, a, b)
  {
    a, b := VarName(temp, 0), VarName(temp, 0);
    for i := 0 to 8
      invariant ps.Valid() && old(ps.pairs) <= ps.pairs
      invariant forall x, y :: Listed(ps.pairs, x, y) <==>
                               Listed(old(ps.pairs), x, y) || InterferesBelow(def, live, temp, i, x, y)
    {
      if part[i] {
        ok, a, b := PairWith(ps, if temp then TEMP_REG0 + i else i, use, live);
        if !ok {
          InterferesNext(def, live, temp, i);
          InterferesMore(def, live, temp, i + 1);
          return false, a, b;
        }
      }
      InterferesNext(def, live, temp, i);
    }
    return true, a, b;
  }

  lemma InterferesMore(def: set<Name>, live: set<Name>, temp: bool, i: nat)
    requires i <= 8
    ensures forall x, y :: InterferesBelow(def, live, temp, i, x, y) ==> InterferesBelow(def, live, temp, 8, x, y)
  {
  }

  lemma InterferesNext(def: set<Name>, live: set<Name>, temp: bool, i: nat)
    ensures var d := VarName(temp, i);
            forall x, y :: InterferesBelow(def, live, temp, i + 1, x, y) <==>
                           InterferesBelow(def, live, temp, i, x, y) || (d in def && Clashes(d, live, x, y))
  {
  }

  lemma InterferesAll(def: set<Name>, live: set<Name>)
    requires forall x :: x in def ==> x.n < 8
    ensures forall x, y :: Interferes(def, live, x, y) <==>
                           InterferesBelow(def, live, false, 8, x, y) || InterferesBelow(def, live, true, 8, x, y)
  {
    forall x, y | Interferes(def, live, x, y)
      ensures InterferesBelow(def, live, false, 8, x, y) || InterferesBelow(def, live, true, 8, x, y)
    {
      var d := if x in def && !x.C? && y in live then x else y;
      assert d == VarName(d.T?, d.n) && Clashes(d, live, x, y);
    }
  }

  /** regset_output_nomatch_pairs; false where the list would overflow. */
  method OutputNomatchPairs(ps: PairList, idef: RegSet, use: RegSet, ghost def: set<Name>,
                            ghost live: set<Name>)
    returns (ok: bool, ghost a: Name, ghost b: Name)
    requires ps.Valid() && idef.Valid() && use.Valid() && idef.Is(def) && use.Is(live)
    modifies ps
    ensures ps.Valid() && old(ps.pairs) <= ps.pairs
    ensures ok ==> forall x, y :: Listed(ps.pairs, x, y) <==> Listed(old(ps.pairs), x, y) || Interferes(def, live, x, y)
    ensures forall x, y :: Listed(ps.pairs, x, y) ==> Listed(old(ps.pairs), x, y) || Interferes(def, live, x, y)
    ensures !ok ==> Interferes(def, live, a, b) && NoRoom(ps.pairs, a, b)
  {
    InterferesAll(def, live);
    assert forall x :: x in def ==> idef.Has(x);
    forall i | 0 <= i < 8
      ensures (idef.vregs[i] <==> VarName(false, i) in def) && (idef.tregs[i] <==> VarName(true, i) in def)
    {
      assert idef.Has(V(i)) <==> V(i) in def;
      assert idef.Has(T(i)) <==> T(i) in def;
    }
    ok, a, b := PairDefs(ps, idef.vregs, false, use, def, live);
    if !ok {
      return;
    }
    ok, a, b := PairDefs(ps, idef.tregs, true, use, def, live);
  }

  // ---------- what an instruction reads and writes ----------

  /** The register numbers the disassembler and the rules can produce. */
  predicate OperandOk(op: Operand) {
    match op
    case Plain(_, Reg, val, tag) => InRange(val, tag)
    case Mem(_, m, t) => (m.base != -1 ==> InRange(m.base, t.base)) && (m.index != -1 ==> InRange(m.index, t.index))
                         && t.all == TagConst
    case _ => true
  }

  predicate InsnOk(insn: Insn) {
    OperandOk(insn.op0) && OperandOk(insn.op1) && OperandOk(insn.op2)
  }

  /** The name of a register operand; a byte register is a part of one of the first four. */
  function RegName(op: Operand): Name
    requires op.Plain? && op.kind == Reg && OperandOk(op)
  {
    NameOf(if op.tag == TagConst && op.size == 1 then op.val % 4 else op.val, op.tag)
  }

  function MemNames(op: Operand): (r: set<Name>)
    requires op.Mem? && OperandOk(op)
  {
    (if op.mem.base != -1 then {NameOf(op.mem.base, op.tags.base)} else {})
    + (if op.mem.index != -1 then {NameOf(op.mem.index, op.tags.index)} else {})
  }

  /** What operand `i` adds to the registers read. */
  function OpUse(op: Operand, i: nat): set<Name>
    requires OperandOk(op)
  {
    match op
    case Plain(_, Reg, _, _) => if i == 0 then {} else {RegName(op)}
    case Mem(_, _, _) => MemNames(op)
    case _ => {}
  }

  function OpDef(op: Operand, i: nat): set<Name>
    requires OperandOk(op)
  {
    if op.Plain? && op.kind == Reg && i == 0 then {RegName(op)} else {}
  }

  /** The registers that insn_get_usedef takes to be read: all but the first operand's own register. */
  function Use(insn: Insn): set<Name>
    requires InsnOk(insn)
  {
    OpUse(insn.op0, 0) + OpUse(insn.op1, 1) + OpUse(insn.op2, 2)
  }

  /** The register that it takes to be written. */
  function Def(insn: Insn): set<Name>
    requires InsnOk(insn)
  {
    OpDef(insn.op0, 0)
  }

  /** Operand `i` reads the register with this number: a register operand after the first, or the base or the index
      of a memory operand.  A machine register of one byte is a part of one of the first four. */
  ghost predicate ReadsNumber(op: Operand, i: nat, machine: bool, reg: int) {
    match op
    case Plain(size, Reg, val, tag) =>
      i > 0 && machine == (tag == TagConst) && reg == if machine && size == 1 then val % 4 else val
    case Mem(_, m, t) =>
      (m.base == reg && machine == (t.base == TagConst)) || (m.index == reg && machine == (t.index == TagConst))
    case _ => false
  }

  /** The instruction writes the register with this number: that of its first operand. */
  ghost predicate WritesNumber(insn: Insn, machine: bool, reg: int) {
    match insn.op0
    case Plain(size, Reg, val, tag) =>
      machine == (tag == TagConst) && reg == if machine && size == 1 then val % 4 else val
    case _ => false
  }

  ghost predicate SomeReads(insn: Insn, machine: bool, reg: int) {
    || ReadsNumber(insn.op0, 0, machine, reg) || ReadsNumber(insn.op1, 1, machine, reg)
    || ReadsNumber(insn.op2, 2, machine, reg)
  }

  /** The sets of names are those of the numbers. */
  lemma OpUseNumbers(op: Operand, i: nat, n: nat)
    requires OperandOk(op) && n < NUM_REGS
    ensures C(n) in OpUse(op, i) <==> ReadsNumber(op, i, true, n)
    ensures V(n) in OpUse(op, i) <==> ReadsNumber(op, i, false, n)
    ensures T(n) in OpUse(op, i) <==> ReadsNumber(op, i, false, TEMP_REG0 + n)
  {
  }

  lemma UseDefNumbers(insn: Insn, n: nat)
    requires InsnOk(insn) && n < NUM_REGS
    ensures C(n) in Use(insn) <==> SomeReads(insn, true, n)
    ensures V(n) in Use(insn) <==> SomeReads(insn, false, n)
    ensures T(n) in Use(insn) <==> SomeReads(insn, false, TEMP_REG0 + n)
    ensures C(n) in Def(insn) <==> WritesNumber(insn, true, n)
    ensures V(n) in Def(insn) <==> WritesNumber(insn, false, n)
    ensures T(n) in Def(insn) <==> WritesNumber(insn, false, TEMP_REG0 + n)
  {
    hide OpUse;
    OpUseNumbers(insn.op0, 0, n);
    OpUseNumbers(insn.op1, 1, n);
    OpUseNumbers(insn.op2, 2, n);
  }

  /** The three arrays of a set hold just the numbers for which the predicate holds. */
  ghost predicate HoldsNumbers(s: RegSet, p: (bool, int) -> bool)
    requires s.Valid()
    reads s.cregs, s.vregs, s.tregs
  {
    forall n :: 0 <= n < NUM_REGS ==>
                  && s.cregs[n] == p(true, n) && s.vregs[n] == p(false, n) && s.tregs[n] == p(false, TEMP_REG0 + n)
  }

  lemma SetsHoldNumbers(insn: Insn, use: RegSet, def: RegSet)
    requires InsnOk(insn) && use.Valid() && def.Valid() && use.Is(Use(insn)) && def.Is(Def(insn))
    ensures HoldsNumbers(use, (machine: bool, n: int) => SomeReads(insn, machine, n))
    ensures HoldsNumbers(def, (machine: bool, n: int) => WritesNumber(insn, machine, n))
  {
    hide Use, Def;
    forall n | 0 <= n < NUM_REGS
      ensures use.cregs[n] == SomeReads(insn, true, n) && use.vregs[n] == SomeReads(insn, false, n)
      ensures use.tregs[n] == SomeReads(insn, false, TEMP_REG0 + n)
      ensures def.cregs[n] == WritesNumber(insn, true, n) && def.vregs[n] == WritesNumber(insn, false, n)
      ensures def.tregs[n] == WritesNumber(insn, false, TEMP_REG0 + n)
    {
      UseDefNumbers(insn, n);
      assert use.Has(C(n)) <==> C(n) in Use(insn);
      assert use.Has(V(n)) <==> V(n) in Use(insn);
      assert use.Has(T(n)) <==> T(n) in Use(insn);
      assert def.Has(C(n)) <==> C(n) in Def(insn);
      assert def.Has(V(n)) <==> V(n) in Def(insn);
      assert def.Has(T(n)) <==> T(n) in Def(insn);
    }
  }

  method MarkOperand(op: Operand, i: nat, use: RegSet, def: RegSet, ghost u: set<Name>, ghost f: set<Name>)
    requires OperandOk(op) && use.Valid() && def.Valid() && use.Apart(def) && use.Is(u) && def.Is(f)
    modifies use.cregs, use.vregs, use.tregs, def.cregs, def.vregs, def.tregs
    ensures use.Is(u + OpUse(op, i)) && def.Is(f + OpDef(op, i))
  {
    match op
    case Plain(size, Reg, val, tag) =>
      var reg := if tag == TagConst && size == 1 then val % 4 else val;
      if i == 0 {
        def.Mark(tag, reg);
      } else {
        use.Mark(tag, reg);
      }
    case Mem(_, m, t) =>
      if m.base != -1 {
        use.Mark(t.base, m.base);
      }
      if m.index != -1 {
        use.Mark(t.index, m.index);
      }
    case _ =>
  }

  /** insn_get_usedef: the sets hold exactly the numbers of the registers that the operands read and write. */
  method InsnGetUsedef(insn: Insn) returns (use: RegSet, def: RegSet)
    requires InsnOk(insn)
    ensures use.Valid() && def.Valid() && use.Is(Use(insn)) && def.Is(Def(insn))
    ensures HoldsNumbers(use, (machine: bool, n: int) => SomeReads(insn, machine, n))
    ensures HoldsNumbers(def, (machine: bool, n: int) => WritesNumber(insn, machine, n))
    ensures fresh(use.cregs) && fresh(use.vregs) && fresh(use.tregs) && fresh(def.cregs) && fresh(def.vregs)
            && fresh(def.tregs)
    ensures use.Apart(def)
  {
    use := new RegSet();
    def := new RegSet();
    ghost var u: set<Name>, f: set<Name> := {}, {};
    for i := 0 to 3
      invariant use.Valid() && def.Valid() && use.Apart(def) && use.Is(u) && def.Is(f)
      invariant u == (if i > 0 then OpUse(insn.op0, 0) else {})
                     + (if i > 1 then OpUse(insn.op1, 1) else {}) + (if i > 2 then OpUse(insn.op2, 2) else {})
      invariant f == if i > 0 then Def(insn) else {}
    {
      MarkOperand(insn.Op(i), i, use, def, u, f);
      u, f := u + OpUse(insn.Op(i), i), f + OpDef(insn.Op(i), i);
    }
    SetsHoldNumbers(insn, use, def);
  }

  // ---------- the backward loop ----------

  ghost predicate CodeOk(code: seq<Insn>) {
    forall k :: 0 <= k < |code| ==> InsnOk(code[k])
  }

  /** The registers whose values are still read from instruction `k` on. */
  function Live(code: seq<Insn>, k: nat): set<Name>
    requires k <= |code| && CodeOk(code)
    decreases |code| - k
  {
    if k == |code| then {} else Live(code, k + 1) - Def(code[k]) + Use(code[k])
  }

  ghost predicate ConflictAt(code: seq<Insn>, k: nat, x: Name, y: Name)
    requires k < |code| && CodeOk(code)
  {
    Interferes(Def(code[k]), Live(code, k + 1), x, y)
  }

  /** Some instruction writes one of the two while the other is live. */
  ghost predicate Conflict(code: seq<Insn>, x: Name, y: Name)
    requires CodeOk(code)
  {
    exists k :: 0 <= k < |code| && ConflictAt(code, k, x, y)
  }

  ghost predicate ConflictFrom(code: seq<Insn>, from: nat, x: Name, y: Name)
    requires CodeOk(code)
  {
    exists k :: from <= k < |code| && ConflictAt(code, k, x, y)
  }

  lemma ConflictNext(code: seq<Insn>, k: nat)
    requires CodeOk(code) && k < |code|
    ensures forall x, y :: ConflictFrom(code, k, x, y) <==> ConflictFrom(code, k + 1, x, y) || ConflictAt(code, k, x, y)
  {
  }

  /** The body of the liveness loop. */
  method StepBack(code: seq<Insn>, i: nat, ps: PairList, use: RegSet)
    returns (ok: bool, ghost a: Name, ghost b: Name)
    requires CodeOk(code) && i < |code| && ps.Valid() && use.Valid() && use.Is(Live(code, i + 1))
    requires forall x, y :: Listed(ps.pairs, x, y) <==> ConflictFrom(code, i + 1, x, y)
    modifies ps, use.cregs, use.vregs, use.tregs
    ensures ps.Valid()
    ensures ok ==> use.Is(Live(code, i)) && forall x, y :: Listed(ps.pairs, x, y) <==> ConflictFrom(code, i, x, y)
    ensures forall x, y :: Listed(ps.pairs, x, y) ==> ConflictFrom(code, i, x, y)
    ensures !ok ==> ConflictFrom(code, i, a, b) && NoRoom(ps.pairs, a, b)
  {
    hide Use, Def, Interferes, Listed, ConflictFrom, NoRoom, HoldsNumbers;
    var iuse, idef := InsnGetUsedef(code[i]);
    ConflictNext(code, i);
    ok, a, b := OutputNomatchPairs(ps, idef, use, Def(code[i]), Live(code, i + 1));
    if !ok {
      return;
    }
    use.Diff(idef);
    use.Union(iuse);
  }

  /** The liveness loop of output_nomatch_pairs_for_entry: it lists exactly the conflicts, each once, and fails only
      when there are more than the list has room for. */
  method NomatchPairsForEntry(code: seq<Insn>) returns (ok: bool, ps: PairList, ghost a: Name, ghost b: Name)
    requires CodeOk(code)
    ensures ps.Valid()
    ensures ok ==> forall x, y :: Listed(ps.pairs, x, y) <==> Conflict(code, x, y)
    ensures !ok ==> Conflict(code, a, b) && NoRoom(ps.pairs, a, b)
    ensures forall x, y :: Listed(ps.pairs, x, y) ==> Conflict(code, x, y)
  {
    a, b := C(0), C(0);
    ps := new PairList();
    var use := new RegSet();
    var i := |code|;
    while i > 0
      invariant 0 <= i <= |code| && ps.Valid() && use.Valid() && use.Is(Live(code, i))
      invariant fresh(ps) && fresh(use.cregs) && fresh(use.vregs) && fresh(use.tregs)
      invariant forall x, y :: Listed(ps.pairs, x, y) <==> ConflictFrom(code, i, x, y)
    {
      i := i - 1;
      ok, a, b := StepBack(code, i, ps, use);
      if !ok {
        return;
      }
    }
    return true, ps, a, b;
  }

  // ---------- what the pairs are for ----------

  /** The values that an operand takes from registers. */
  datatype Inputs<A> = Inputs(reg: Option<A>, base: Option<A>, index: Option<A>)

  /** Straight-line code over abstract values and an abstract rest of the machine: an instruction computes one
      register value and the rest of the state from what its three operands take from registers. */
  datatype Semantics<!A, !W> = Semantics(value: (Insn, seq<Inputs<A>>, W) -> A, rest: (Insn, seq<Inputs<A>>, W) -> W)

  /** Every name with a cell of its own, or the names in the registers that `color` gives them. */
  datatype Store<!A, !W> = Store(cell: Name -> A, rest: W)

  datatype File<!A, !W> = File(reg: int -> A, rest: W)

  /** What operand `i` takes: a register operand after the first its register, where one of a byte is a part of
      one of the first four, and a memory operand its base and its index. */
  function OperandReads<A>(op: Operand, i: nat, cell: Name -> A): Inputs<A>
    requires OperandOk(op)
  {
    match op
    case Plain(size, Reg, val, tag) =>
      if i == 0 then Inputs(None, None, None)
      else if tag == TagConst then Inputs(Some(cell(C(if size == 1 then val % 4 else val))), None, None)
      else Inputs(Some(cell(NameOf(val, tag))), None, None)
    case Mem(_, m, t) =>
      Inputs(None, if m.base == -1 then None else Some(cell(NameOf(m.base, t.base))),
             if m.index == -1 then None else Some(cell(NameOf(m.index, t.index))))
    case _ => Inputs(None, None, None)
  }

  function Reads<A>(insn: Insn, cell: Name -> A): seq<Inputs<A>>
    requires InsnOk(insn)
  {
    [OperandReads(insn.op0, 0, cell), OperandReads(insn.op1, 1, cell), OperandReads(insn.op2, 2, cell)]
  }

  /** The same through the registers of the names. */
  function FileReads<A>(insn: Insn, color: Name -> int, reg: int -> A): seq<Inputs<A>>
    requires InsnOk(insn)
  {
    Reads(insn, x => reg(color(x)))
  }

  /** The register that an instruction writes, that of its first operand. */
  function Target(insn: Insn): Option<Name>
    requires InsnOk(insn)
  {
    match insn.op0
    case Plain(size, Reg, val, tag) =>
      Some(if tag == TagConst then C(if size == 1 then val % 4 else val) else NameOf(val, tag))
    case _ => None
  }

  /** One instruction over separate cells. */
  function StoreStep<A, W>(sem: Semantics<A, W>, insn: Insn, t: Store<A, W>): Store<A, W>
    requires InsnOk(insn)
  {
    var r := Reads(insn, t.cell);
    Store(x => if Target(insn) == Some(x) then sem.value(insn, r, t.rest) else t.cell(x), sem.rest(insn, r, t.rest))
  }

  /** One instruction over registers. */
  function FileStep<A, W>(sem: Semantics<A, W>, insn: Insn, color: Name -> int, t: File<A, W>): File<A, W>
    requires InsnOk(insn)
  {
    var r := FileReads(insn, color, t.reg);
    var written := match Target(insn) case None => None case Some(x) => Some(color(x));
    File(c => if written == Some(c) then sem.value(insn, r, t.rest) else t.reg(c), sem.rest(insn, r, t.rest))
  }

  lemma DefIsTarget(insn: Insn)
    requires InsnOk(insn)
    ensures Def(insn) == match Target(insn) case None => {} case Some(x) => {x}
  {
  }

  lemma OperandReadsSame<A>(op: Operand, i: nat, f: Name -> A, g: Name -> A)
    requires OperandOk(op)
    ensures OperandReads(op, i, f) == OperandReads(op, i, g) <==> forall x :: x in OpUse(op, i) ==> f(x) == g(x)
  {
  }

  /** What an instruction takes from registers is decided by just the names in its use set. */
  lemma UseDecidesReads<A>(insn: Insn, f: Name -> A, g: Name -> A)
    requires InsnOk(insn)
    ensures Reads(insn, f) == Reads(insn, g) <==> forall x :: x in Use(insn) ==> f(x) == g(x)
  {
    hide OperandReads, OpUse;
    OperandReadsSame(insn.op0, 0, f, g);
    OperandReadsSame(insn.op1, 1, f, g);
    OperandReadsSame(insn.op2, 2, f, g);
  }

  /** The store before instruction `k`. */
  function StoreAt<A, W>(sem: Semantics<A, W>, code: seq<Insn>, k: nat, s: Store<A, W>): Store<A, W>
    requires k <= |code| && CodeOk(code)
  {
    if k == 0 then s else StoreStep(sem, code[k - 1], StoreAt(sem, code, k - 1, s))
  }

  function FileAt<A, W>(sem: Semantics<A, W>, code: seq<Insn>, color: Name -> int, k: nat, f: File<A, W>): File<A, W>
    requires k <= |code| && CodeOk(code)
  {
    if k == 0 then f else FileStep(sem, code[k - 1], color, FileAt(sem, code, color, k - 1, f))
  }

  /** The registers hold the values of the names that are live. */
  ghost predicate Agree<A, W>(live: set<Name>, color: Name -> int, s: Store<A, W>, f: File<A, W>) {
    s.rest == f.rest && forall x :: x in live ==> f.reg(color(x)) == s.cell(x)
  }

  /** The assignment keeps the listed pairs apart. */
  ghost predicate Separates(ps: seq<Pair>, color: Name -> int) {
    forall x, y :: Listed(ps, x, y) ==> color(x) != color(y)
  }

  /** No machine register is written while a name that shares it is live.  The generator lists no pairs
      for machine registers that are written; there is nothing to ask when only variables and
      temporaries are. */
  ghost predicate MachineApart(code: seq<Insn>, color: Name -> int)
    requires CodeOk(code)
  {
    forall k, d, x :: 0 <= k < |code| && d in Def(code[k]) && d.C? && x in Live(code, k + 1) && x != d ==>
                        color(d) != color(x)
  }

  /** No instruction from the `k`th on writes `x`. */
  ghost predicate KeptFrom(code: seq<Insn>, k: nat, x: Name)
    requires CodeOk(code)
  {
    forall i :: k <= i < |code| ==> x !in Def(code[i])
  }

  /** The registers whose values are still needed from instruction `k` on, when those in `results` are
      needed at the end. */
  ghost function Needed(code: seq<Insn>, k: nat, results: set<Name>): set<Name>
    requires k <= |code| && CodeOk(code)
  {
    Live(code, k) + set x | x in results && KeptFrom(code, k, x)
  }

  lemma NeededBefore(code: seq<Insn>, k: nat, results: set<Name>)
    requires CodeOk(code) && k < |code|
    ensures Needed(code, k, results) == Needed(code, k + 1, results) - Def(code[k]) + Use(code[k])
  {
    forall x
      ensures KeptFrom(code, k, x) <==> KeptFrom(code, k + 1, x) && x !in Def(code[k])
    {
    }
  }

  lemma NeededAtEnd(code: seq<Insn>, results: set<Name>)
    requires CodeOk(code)
    ensures Needed(code, |code|, results) == results
  {
  }

  /** No name that is written shares its register with a result whose last write came before. */
  ghost predicate ResultsApart(code: seq<Insn>, color: Name -> int, results: set<Name>)
    requires CodeOk(code)
  {
    forall k, d, x :: 0 <= k < |code| && d in Def(code[k]) && x in results && x != d && KeptFrom(code, k + 1, x) ==>
                        color(d) != color(x)
  }

  /** Before instruction `k` the code over registers reads what it reads over separate cells. */
  ghost predicate SameReads<A, W>(sem: Semantics<A, W>, code: seq<Insn>, color: Name -> int, k: nat, s: Store<A, W>,
                                  f: File<A, W>)
    requires CodeOk(code) && k < |code|
  {
    && Reads(code[k], StoreAt(sem, code, k, s).cell) == FileReads(code[k], color, FileAt(sem, code, color, k, f).reg)
    && StoreAt(sem, code, k, s).rest == FileAt(sem, code, color, k, f).rest
  }

  /** The code over registers makes every instruction read what it reads over separate cells, and leaves
      the values of the results and the rest of the machine as the code over separate cells does. */
  ghost predicate Faithful<A(!new), W(!new)>(sem: Semantics<A, W>, code: seq<Insn>, color: Name -> int,
                                             results: set<Name>)
    requires CodeOk(code)
  {
    forall s: Store<A, W>, f: File<A, W> :: Agree(Needed(code, 0, results), color, s, f) ==>
                                              && (forall k: nat :: k < |code| ==> SameReads(sem, code, color, k, s, f))
                                              && Agree(results, color, StoreAt(sem, code, |code|, s),
                                                       FileAt(sem, code, color, |code|, f))
  }

  /** One instruction keeps the agreement when what it writes is apart from what stays live. */
  lemma AgreeStep<A, W>(sem: Semantics<A, W>, insn: Insn, color: Name -> int, live: set<Name>, s: Store<A, W>,
                        f: File<A, W>)
    requires InsnOk(insn) && Agree(live - Def(insn) + Use(insn), color, s, f)
    requires forall d, x :: d in Def(insn) && x in live && d != x ==> color(d) != color(x)
    ensures Reads(insn, s.cell) == FileReads(insn, color, f.reg)
    ensures Agree(live, color, StoreStep(sem, insn, s), FileStep(sem, insn, color, f))
  {
    hide Use, Def, Reads;
    UseDecidesReads(insn, s.cell, x => f.reg(color(x)));
    DefIsTarget(insn);
  }

  lemma ApartAt(code: seq<Insn>, k: nat, color: Name -> int, ps: seq<Pair>, results: set<Name>)
    requires CodeOk(code) && MachineApart(code, color) && k < |code|
    requires Separates(ps, color) && ResultsApart(code, color, results)
    requires forall x, y :: Listed(ps, x, y) <==> Conflict(code, x, y)
    ensures forall d, x :: d in Def(code[k]) && x in Needed(code, k + 1, results) && d != x ==> color(d) != color(x)
  {
    forall d, x | d in Def(code[k]) && x in Needed(code, k + 1, results) && d != x
      ensures color(d) != color(x)
    {
      if x in Live(code, k + 1) && !d.C? {
        assert ConflictAt(code, k, d, x);
        assert Listed(ps, d, x);
      }
    }
  }

  lemma {:induction false} AgreeThroughout<A, W>(sem: Semantics<A, W>, code: seq<Insn>, color: Name -> int,
                                                 ps: seq<Pair>, results: set<Name>, k: nat, s: Store<A, W>,
                                                 f: File<A, W>)
    requires CodeOk(code) && MachineApart(code, color) && k <= |code| && Agree(Needed(code, 0, results), color, s, f)
    requires forall x, y :: Listed(ps, x, y) <==> Conflict(code, x, y)
    requires Separates(ps, color) && ResultsApart(code, color, results)
    ensures Agree(Needed(code, k, results), color, StoreAt(sem, code, k, s), FileAt(sem, code, color, k, f))
  {
    hide StoreStep, FileStep, Agree, Use, Def, Listed, Conflict, InsnOk, Needed, ResultsApart, Separates, MachineApart;
    if k > 0 {
      AgreeThroughout(sem, code, color, ps, results, k - 1, s, f);
      ApartAt(code, k - 1, color, ps, results);
      NeededBefore(code, k - 1, results);
      AgreeStep(sem, code[k - 1], color, Needed(code, k, results), StoreAt(sem, code, k - 1, s),
                FileAt(sem, code, color, k - 1, f));
    }
  }

  lemma ReadsAgree<A, W>(sem: Semantics<A, W>, code: seq<Insn>, color: Name -> int, results: set<Name>, k: nat,
                         s: Store<A, W>, f: File<A, W>)
    requires CodeOk(code) && k < |code|
    requires Agree(Needed(code, k, results), color, StoreAt(sem, code, k, s), FileAt(sem, code, color, k, f))
    ensures SameReads(sem, code, color, k, s, f)
  {
    hide StoreStep, FileStep, Use, Def, InsnOk, Reads;
    assert Use(code[k]) <= Live(code, k);
    UseDecidesReads(code[k], StoreAt(sem, code, k, s).cell, x => FileAt(sem, code, color, k, f).reg(color(x)));
  }

  /** Separating the listed pairs, live names from machine registers that are written, and the results
      from what is written after them, is enough, whatever the instructions compute. */
  lemma SeparationIsEnough<A(!new), W(!new)>(sem: Semantics<A, W>, code: seq<Insn>, color: Name -> int, ps: seq<Pair>,
                                             results: set<Name>)
    requires CodeOk(code) && Separates(ps, color) && MachineApart(code, color) && ResultsApart(code, color, results)
    requires forall x, y :: Listed(ps, x, y) <==> Conflict(code, x, y)
    ensures Faithful(sem, code, color, results)
  {
    hide StoreStep, FileStep, Use, Def, InsnOk, Separates, ResultsApart, MachineApart, Needed, SameReads, Agree;
    forall s: Store<A, W>, f: File<A, W> | Agree(Needed(code, 0, results), color, s, f)
      ensures forall k: nat :: k < |code| ==> SameReads(sem, code, color, k, s, f)
      ensures Agree(results, color, StoreAt(sem, code, |code|, s), FileAt(sem, code, color, |code|, f))
    {
      forall k: nat | k < |code|
        ensures SameReads(sem, code, color, k, s, f)
      {
        AgreeThroughout(sem, code, color, ps, results, k, s, f);
        ReadsAgree(sem, code, color, results, k, s, f);
      }
      AgreeThroughout(sem, code, color, ps, results, |code|, s, f);
      NeededAtEnd(code, results);
    }
  }

  // ---------- and no pair is idle ----------

  /** Values that say who made them. */
  datatype Mark = Initial(reg: int) | Made(step: nat)

  const MARKING: Semantics<Mark, nat> := Semantics((insn, r, w) => Made(w), (insn, r, w) => w + 1)

  /** A live register is read by a later instruction, and not written before that. */
  lemma {:induction false} LiveIsRead(code: seq<Insn>, k: nat, x: Name) returns (j: nat)
    requires CodeOk(code) && k <= |code| && x in Live(code, k)
    ensures k <= j < |code| && x in Use(code[j]) && forall i :: k <= i < j ==> x !in Def(code[i])
    decreases |code| - k
  {
    hide Use, Def, InsnOk;
    if x in Use(code[k]) {
      j := k;
    } else {
      j := LiveIsRead(code, k + 1, x);
    }
  }

  ghost function Start(color: Name -> int): Store<Mark, nat> {
    Store(x => Initial(color(x)), 0)
  }

  ghost function StartFile(): File<Mark, nat> {
    File(c => Initial(c), 0)
  }

  lemma {:induction false} Clock(code: seq<Insn>, color: Name -> int, k: nat)
    requires CodeOk(code) && k <= |code|
    ensures StoreAt(MARKING, code, k, Start(color)).rest == k == FileAt(MARKING, code, color, k, StartFile()).rest
  {
    if k > 0 {
      Clock(code, color, k - 1);
    }
  }

  /** The cell of a name that is not written from `i` on bears a mark from before `i`. */
  lemma {:induction false} CellIsOld(code: seq<Insn>, color: Name -> int, i: nat, k: nat, x: Name)
    requires CodeOk(code) && k <= |code| && forall j :: i <= j < k ==> x !in Def(code[j])
    ensures var v := StoreAt(MARKING, code, k, Start(color)).cell(x); v.Made? ==> v.step < i
  {
    hide Use, Def, Reads;
    if k > 0 {
      DefIsTarget(code[k - 1]);
      CellIsOld(code, color, i, k - 1, x);
      Clock(code, color, k - 1);
    }
  }

  lemma MarkStep(insn: Insn, color: Name -> int, f: File<Mark, nat>, c: int)
    requires InsnOk(insn)
    ensures var v := FileStep(MARKING, insn, color, f).reg(c);
            if exists x :: x in Def(insn) && color(x) == c then v == Made(f.rest) else v == f.reg(c)
  {
    hide Def, Reads;
    DefIsTarget(insn);
  }

  /** The register that instruction `i` wrote bears a mark of `i` or later ever after. */
  lemma {:induction false} RegisterIsNew(code: seq<Insn>, color: Name -> int, i: nat, k: nat, d: Name)
    requires CodeOk(code) && i < k <= |code| && d in Def(code[i])
    ensures var v := FileAt(MARKING, code, color, k, StartFile()).reg(color(d)); v.Made? && i <= v.step
  {
    hide FileStep, Use, Def, InsnOk;
    Clock(code, color, k - 1);
    MarkStep(code[k - 1], color, FileAt(MARKING, code, color, k - 1, StartFile()), color(d));
    if i < k - 1 {
      RegisterIsNew(code, color, i, k - 1, d);
    }
  }

  lemma OneDef(insn: Insn, d: Name, u: Name)
    requires InsnOk(insn) && d in Def(insn) && u != d
    ensures u !in Def(insn)
  {
  }

  /** A register written at `i` differs at `k` from the cell of a name not written between. */
  lemma MarksDiffer(code: seq<Insn>, color: Name -> int, i: nat, k: nat, d: Name, u: Name)
    requires CodeOk(code) && i < k <= |code| && d in Def(code[i]) && u != d && color(d) == color(u)
    requires forall j :: i < j < k ==> u !in Def(code[j])
    ensures StoreAt(MARKING, code, k, Start(color)).cell(u)
         != FileAt(MARKING, code, color, k, StartFile()).reg(color(u))
  {
    OneDef(code[i], d, u);
    CellIsOld(code, color, i, k, u);
    RegisterIsNew(code, color, i, k, d);
  }

  /** A write to the register of another name that is live makes some instruction read a wrong value,
      when the instructions compute values that can be told apart. */
  lemma LiveWriteIsFatal(code: seq<Insn>, color: Name -> int, i: nat, d: Name, u: Name, results: set<Name>)
    requires CodeOk(code) && i < |code| && d in Def(code[i]) && u in Live(code, i + 1) && u != d && color(d) == color(u)
    ensures !Faithful(MARKING, code, color, results)
  {
    hide StoreStep, FileStep, Use, Def, InsnOk, Needed;
    var k := LiveIsRead(code, i + 1, u);
    MarksDiffer(code, color, i, k, d, u);
    assert Agree(Needed(code, 0, results), color, Start(color), StartFile());
    var cells, regs := StoreAt(MARKING, code, k, Start(color)).cell, FileAt(MARKING, code, color, k, StartFile()).reg;
    UseDecidesReads(code[k], cells, x => regs(color(x)));
    assert !SameReads(MARKING, code, color, k, Start(color), StartFile());
  }

  /** An assignment that gives a listed pair one register is wrong. */
  lemma EveryPairIsNeeded(code: seq<Insn>, color: Name -> int, x: Name, y: Name, results: set<Name>)
    requires CodeOk(code) && Conflict(code, x, y) && color(x) == color(y)
    ensures !Faithful(MARKING, code, color, results)
  {
    var i :| 0 <= i < |code| && ConflictAt(code, i, x, y);
    if x in Def(code[i]) && y in Live(code, i + 1) {
      LiveWriteIsFatal(code, color, i, x, y, results);
    } else {
      LiveWriteIsFatal(code, color, i, y, x, results);
    }
  }

  /** A write after the last one of a result, to its register under another name, leaves a wrong result. */
  lemma LateWriteIsFatal(code: seq<Insn>, color: Name -> int, k: nat, d: Name, x: Name, results: set<Name>)
    requires CodeOk(code) && k < |code| && d in Def(code[k]) && x in results && x != d && KeptFrom(code, k + 1, x)
    requires color(d) == color(x)
    ensures !Faithful(MARKING, code, color, results)
  {
    hide StoreStep, FileStep, Use, Def, InsnOk, Needed;
    MarksDiffer(code, color, k, |code|, d, x);
    assert Agree(Needed(code, 0, results), color, Start(color), StartFile());
  }

  ghost predicate AlwaysFaithful(code: seq<Insn>, color: Name -> int, results: set<Name>)
    requires CodeOk(code)
  {
    forall sem: Semantics<Mark, nat> :: Faithful(sem, code, color, results)
  }

  /** The assignments that work for every meaning of the instructions are those that separate the listed
      pairs, live names from machine registers that are written, and the results from what is written
      after them. */
  lemma PairsAreExact(code: seq<Insn>, color: Name -> int, ps: seq<Pair>, results: set<Name>)
    requires CodeOk(code) && forall x, y :: Listed(ps, x, y) <==> Conflict(code, x, y)
    ensures Separates(ps, color) && MachineApart(code, color) && ResultsApart(code, color, results)
       <==> Faithful(MARKING, code, color, results)
    ensures Separates(ps, color) && MachineApart(code, color) && ResultsApart(code, color, results)
       <==> AlwaysFaithful(code, color, results)
  {
    if Separates(ps, color) && MachineApart(code, color) && ResultsApart(code, color, results) {
      forall sem: Semantics<Mark, nat>
        ensures Faithful(sem, code, color, results)
      {
        SeparationIsEnough(sem, code, color, ps, results);
      }
    } else if !Separates(ps, color) {
      var x, y :| Listed(ps, x, y) && color(x) == color(y);
      EveryPairIsNeeded(code, color, x, y, results);
    } else if !MachineApart(code, color) {
      var k, d, x :| 0 <= k < |code| && d in Def(code[k]) && d.C? && x in Live(code, k + 1) && x != d
                     && color(d) == color(x);
      LiveWriteIsFatal(code, color, k, d, x, results);
    } else {
      var k, d, x :| 0 <= k < |code| && d in Def(code[k]) && x in results && x != d && KeptFrom(code, k + 1, x)
                     && color(d) == color(x);
      LateWriteIsFatal(code, color, k, d, x, results);
    }
  }

  /** Only variables and temporaries are written. */
  ghost predicate WritesVariables(code: seq<Insn>)
    requires CodeOk(code)
  {
    forall k, x :: 0 <= k < |code| && x in Def(code[k]) ==> !x.C?
  }

  /** The listed pairs decide alone when only variables are written and only reads matter. */
  lemma PairsDecideReads(code: seq<Insn>, color: Name -> int, ps: seq<Pair>)
    requires CodeOk(code) && WritesVariables(code) && forall x, y :: Listed(ps, x, y) <==> Conflict(code, x, y)
    ensures Separates(ps, color) <==> AlwaysFaithful(code, color, {})
  {
    PairsAreExact(code, color, ps, {});
  }

  /** An instruction that only writes the register. */
  function WriteOnly(reg: nat): Insn {
    Insn(0, Plain(4, Reg, reg, TagVar), Invalid(0), Invalid(0))
  }

  lemma NothingListed()
    ensures forall x, y :: !Listed([], x, y)
  {
  }

  lemma TwoWrites(code: seq<Insn>)
    requires code == [WriteOnly(0), WriteOnly(TEMP_REG0)]
    ensures CodeOk(code) && WritesVariables(code) && Def(code[0]) == {V(0)} && Def(code[1]) == {T(0)}
    ensures forall x, y :: !Conflict(code, x, y)
  {
    assert Use(code[0]) == {} && Use(code[1]) == {};
    NothingLive(code, 1);
    NothingLive(code, 2);
    assert forall x, y :: !ConflictAt(code, 0, x, y) && !ConflictAt(code, 1, x, y);
  }

  /** The pairs do not protect what a rule leaves behind, since nothing is live at its end for the generator:
      a variable and then a temporary are written, no pair is listed, and in one register the temporary
      destroys the variable. */
  lemma ResultIsLost(color: Name -> int)
    requires color(V(0)) == color(T(0))
    ensures var code := [WriteOnly(0), WriteOnly(TEMP_REG0)];
            && CodeOk(code) && WritesVariables(code) && (forall x, y :: !Conflict(code, x, y))
            && AlwaysFaithful(code, color, {}) && !AlwaysFaithful(code, color, {V(0)})
  {
    hide Use, Def, Conflict, Listed;
    var code := [WriteOnly(0), WriteOnly(TEMP_REG0)];
    TwoWrites(code);
    NothingListed();
    PairsDecideReads(code, color, []);
    LateWriteIsFatal(code, color, 1, T(0), V(0), {V(0)});
  }

  /** Writes machine register `reg`. */
  function WriteMachine(reg: nat): Insn {
    Insn(0, Plain(4, Reg, reg, TagConst), Invalid(0), Invalid(0))
  }

  /** Writes one variable and reads another. */
  function ReadOther(written: nat, read: nat): Insn {
    Insn(0, Plain(4, Reg, written, TagVar), Plain(4, Reg, read, TagVar), Invalid(0))
  }

  lemma MachineThenRead(code: seq<Insn>)
    requires code == [WriteMachine(0), ReadOther(1, 0)]
    ensures CodeOk(code) && Def(code[0]) == {C(0)} && V(0) in Live(code, 1)
    ensures forall x, y :: !Conflict(code, x, y)
  {
    assert Use(code[1]) == {V(0)} && Def(code[1]) == {V(1)};
    assert Live(code, 2) == {};
    assert Live(code, 1) == Live(code, 2) - Def(code[1]) + Use(code[1]);
    assert forall x, y :: !ConflictAt(code, 0, x, y) && !ConflictAt(code, 1, x, y);
  }

  /** Nor do the pairs protect a variable that is live while the code writes a machine register. */
  lemma MachineWriteIsLost(color: Name -> int)
    requires color(V(0)) == color(C(0))
    ensures var code := [WriteMachine(0), ReadOther(1, 0)];
            CodeOk(code) && (forall x, y :: !Conflict(code, x, y)) && !AlwaysFaithful(code, color, {})
  {
    hide Use, Def, Conflict, Live;
    var code := [WriteMachine(0), ReadOther(1, 0)];
    MachineThenRead(code);
    LiveWriteIsFatal(code, color, 0, C(0), V(0), {});
  }

  lemma {:induction false} NothingLive(code: seq<Insn>, k: nat)
    requires CodeOk(code) && k <= |code| && forall i :: 0 <= i < |code| ==> Use(code[i]) == {}
    ensures Live(code, k) == {}
    decreases |code| - k
  {
    if k < |code| {
      NothingLive(code, k + 1);
    }
  }
}
