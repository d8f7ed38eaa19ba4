/**
 Variable assignments (peep/assignments.c) and the comparison of operands (peep/insn.c).
 */
module Assignments {
  import opened Common
  import opened Insns

  const MAX_VARIABLES: nat := 8

  const R_EAX: int := 0
  const R_ESP: int := 4
  const R_CS: int := 1
  const R_GS: int := 5

  /** operands_equal; two memory operands are not compared in their address size. */
  predicate OperandsEqual(a: Operand, b: Operand) {
    match (a, b)
    case (Invalid(s), Invalid(t)) => s == t
    case (Plain(s, k, v, g), Plain(s', k', v', g')) => s == s' && k == k' && v == v' && g == g'
    case (Mem(s, m, g), Mem(s', m', g')) =>
      s == s' && m.(addrsize := m'.addrsize) == m' && g == g'
    case _ => false
  }

  /** It finds just equal operands equal, but for the address size of memory operands. */
  lemma OperandsEqualIff(a: Operand, b: Operand)
    ensures OperandsEqual(a, b) <==>
            a == b || (a.Mem? && b.Mem? && a.(mem := a.mem.(addrsize := b.mem.addrsize)) == b)
  {
  }

  /** val_satisfies_tag */
  predicate Satisfies(val: int, tag: Tag) {
    match tag
    case TagConst => false
    case TagVar => true
    case TagEax => val == R_EAX
    case TagAbcd => 0 <= val <= 3
    case TagNoEsp => val != R_ESP
    case TagNoEax => val != R_EAX
    case TagNoEaxEsp => val != R_EAX && val != R_ESP
    case TagNoCsGs => val != R_GS && val != R_CS
    case TagCsGs => val == R_GS || val == R_CS
  }

  /** The numbers of registers, or of segment registers, that a variable with the tag may stand for. */
  function Numbers(tag: Tag): set<int> {
    match tag
    case TagConst => {}
    case TagVar => {0, 1, 2, 3, 4, 5, 6, 7}
    case TagEax => {0}
    case TagAbcd => {0, 1, 2, 3}
    case TagNoEsp => {0, 1, 2, 3, 5, 6, 7}
    case TagNoEax => {1, 2, 3, 4, 5, 6, 7}
    case TagNoEaxEsp => {1, 2, 3, 5, 6, 7}
    case TagNoCsGs => {0, 2, 3, 4, 6, 7}
    case TagCsGs => {1, 5}
  }

  /** The tests of the tags are right. */
  lemma SatisfiesIff(r: int, tag: Tag)
    ensures Satisfies(r, tag) && 0 <= r < NUM_REGS <==> r in Numbers(tag)
  {
  }

  /** assignment_is_coherent */
  predicate Coherent(v: Operand, val: Operand) {
    v.Plain? && val.Plain? && v.kind == val.kind && (v.kind == Reg || v.kind == Seg ==> Satisfies(val.val, v.tag))
  }

  datatype Binding = Binding(v: Operand, val: Operand)

  predicate IsReg(op: Operand) {
    op.Plain? && op.kind == Reg
  }

  predicate IsVar(op: Operand) {
    op.Plain? && op.tag != TagConst
  }

  /** A one-value operand in another size. */
  function Resized(op: Operand, size: nat): Operand
    requires op.Plain?
  {
    Plain(size, op.kind, op.val, op.tag)
  }

  /** assignments_getval: the first binding of the same variable; a register variable is also found
      under another size, and its value is then taken in the size asked for. */
  function Getval(arr: seq<Binding>, templ: Operand): Option<Operand> {
    if arr == [] then None
    else if OperandsEqual(arr[0].v, templ) then Some(arr[0].val)
    else if IsReg(templ) && IsReg(arr[0].v) && templ.val == arr[0].v.val
            && arr[0].val.Plain? then Some(Resized(arr[0].val, templ.size))
    else Getval(arr[1..], templ)
  }

  /** The binding that assignments_add stores: registers are bound whole. */
  function Whole(templ: Operand, op: Operand): Binding {
    if IsReg(templ) && templ.size != 4 && op.Plain? then Binding(Resized(templ, 4), Resized(op, 4))
    else Binding(templ, op)
  }

  ghost predicate AllCoherent(arr: seq<Binding>) {
    forall i :: 0 <= i < |arr| ==> Coherent(arr[i].v, arr[i].val)
  }

  class Assignments {
    var arr: seq<Binding>

    constructor ()
      ensures arr == []
    {
      arr := [];
    }

    /** assignments_init */
    method Clear()
      modifies this
      ensures arr == []
    {
      arr := [];
    }

    /** assignments_getval */
    method GetvalOf(templ: Operand) returns (out: Option<Operand>)
      ensures out == Getval(arr, templ)
    {
      for i := 0 to |arr|
        invariant Getval(arr, templ) == Getval(arr[i..], templ)
      {
        assert arr[i..][1..] == arr[i + 1..];
        if OperandsEqual(arr[i].v, templ) {
          return Some(arr[i].val);
        } else if IsReg(templ) && IsReg(arr[i].v) && templ.val == arr[i].v.val && arr[i].val.Plain? {
          return Some(Resized(arr[i].val, templ.size));
        }
      }
      return None;
    }

    /** assignments_add */
    method Add(templ: Operand, op: Operand)
      requires |arr| < MAX_VARIABLES
      modifies this
      ensures arr == old(arr) + [Whole(templ, op)]
    {
      arr := arr + [Whole(templ, op)];
    }

    /** append_assignments */
    method Append(more: Assignments)
      requires |arr| + |more.arr| < MAX_VARIABLES
      modifies this
      ensures arr == old(arr) + old(more.arr)
    {
      var n := more.arr;
      for i := 0 to |n|
        invariant arr == old(arr) + n[..i]
      {
        arr := arr + [n[i]];
      }
    }

    /** assignments_get_regs: the places of the register bindings. */
    method GetRegs() returns (indices: seq<nat>)
      ensures forall k :: k in indices <==> 0 <= k < |arr| && IsReg(arr[k].v)
      ensures forall j :: 0 <= j < |indices| ==> indices[j] < |arr| && IsReg(arr[indices[j]].v)
    {
      indices := [];
      for i := 0 to |arr|
        invariant forall k :: k in indices <==> 0 <= k < i && IsReg(arr[k].v)
        invariant forall j :: 0 <= j < |indices| ==> indices[j] < |arr| && IsReg(arr[indices[j]].v)
      {
        if IsReg(arr[i].v) {
          indices := indices + [i];
        }
      }
    }
  }

  /** What a template variable was bound to stays when more is bound. */
  lemma {:induction false} GetvalExtends(a: seq<Binding>, b: seq<Binding>, templ: Operand)
    ensures Getval(a + b, templ) == if Getval(a, templ).Some? then Getval(a, templ) else Getval(b, templ)
  {
    if a == [] {
      assert a + b == b;
    } else {
      assert (a + b)[1..] == a[1..] + b;
      GetvalExtends(a[1..], b, templ);
    }
  }
}
