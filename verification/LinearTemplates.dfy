/**
 Templates in which no operand names a variable of an earlier one (peep/peep.c): what they match, operand by
 operand, in register numbers and values.
 */
module LinearTemplates {
  import opened Common
  import opened Insns
  import opened Assignments
  import opened Unify

  /** A constant field has its own value; a variable has a number that its tag allows. */
  ghost predicate FieldAllows(tag: Tag, want: int, have: int, numbers: bool) {
    if tag == TagConst then have == want else numbers ==> have in Numbers(tag)
  }

  /** What the operand `t` of a template stands for, on its own. */
  ghost predicate Allows(t: Operand, o: Operand) {
    match (t, o)
    case (Invalid(s), Invalid(s')) => s == s'
    case (Plain(s, k, v, g), Plain(s', k', v', _)) =>
      k == k' && if s == s' then FieldAllows(g, v, v', k == Reg || k == Seg)
      else k == Imm && s' == 0 && v' < Pow256(s)
    case (Mem(s, m, g), Mem(s', m', _)) =>
      && s == s' && m.addrsize == m'.addrsize && m.isSel == m'.isSel && m.scale == m'.scale
      && FieldAllows(g.seg, m.seg, m'.seg, m.isSel) && FieldAllows(g.base, m.base, m'.base, true)
      && FieldAllows(g.index, m.index, m'.index, true) && FieldAllows(g.disp, m.disp, m'.disp, false)
    case _ => false
  }

  /** The sizes of immediates. */
  lemma ImmediateSizes()
    ensures Pow256(0) == 1 && Pow256(1) == 0x100 && Pow256(2) == 0x1_0000 && Pow256(4) == WORD
  {
    assert Pow256(2) == 256 * Pow256(1) && Pow256(3) == 256 * Pow256(2) && Pow256(4) == 256 * Pow256(3);
  }

  /** An operand as the disassembler makes it, with segment registers in range. */
  ghost predicate InNumbers(o: Operand) {
    && Concrete(o) && (o.Plain? && o.kind == Seg ==> 0 <= o.val < NUM_REGS)
    && (o.Mem? && o.mem.isSel ==> 0 <= o.mem.seg < NUM_REGS)
  }

  /** The operand names no variable that is bound. */
  ghost predicate Unbound(t: Operand, ks: set<Var>) {
    VarSet(t) !! ks
  }

  ghost predicate LinearFrom(ts: seq<Operand>, ks: set<Var>) {
    ts == [] || (Unbound(ts[0], ks) && LinearFrom(ts[1..], ks + VarSet(ts[0])))
  }

  /** No operand names a variable of an earlier one. */
  ghost predicate Linear(tmpl: seq<Insn>) {
    LinearFrom(Ops(tmpl), {})
  }

  lemma FieldIff(arr: seq<Binding>, tmp: seq<Binding>, t: Operand, o: Operand)
    requires PlainBindings(arr) && t.Plain? && o.Plain? && FieldVars(t) !! Keys(arr)
    requires t.kind == o.kind && (t.kind == Reg || t.kind == Seg || t.kind == Imm)
    requires t.kind == Reg ==> o.val == -1 || 0 <= o.val < NUM_REGS
    requires t.kind == Seg ==> 0 <= o.val < NUM_REGS
    ensures MatchField(arr, tmp, t, o).Some? <==> FieldAllows(t.tag, t.val, o.val, t.kind != Imm)
  {
    hide Keys, PlainBindings, Getval;
    SatisfiesIff(o.val, t.tag);
    if t.tag != TagConst {
      assert VarOf(t) in FieldVars(t);
      GetvalKeys(arr, t);
    }
  }

  lemma MemIff(arr: seq<Binding>, o: Operand, t: Operand)
    requires PlainBindings(arr) && t.Mem? && o.Mem? && t.size == o.size && InNumbers(o) && Unbound(t, Keys(arr))
    ensures MatchMem(arr, o, t).Some? <==> Allows(t, o)
  {
    hide MatchField, Keys, PlainBindings, FieldAllows;
    var m, g, m', g' := t.mem, t.tags, o.mem, o.tags;
    if m.addrsize != m'.addrsize || m.isSel != m'.isSel {
      return;
    }
    var f1, f2, f3, f4 := SegField(m, g), BaseField(m, g), IndexField(m, g), DispField(m, g);
    var o1, o2, o3, o4 := SegField(m', g'), BaseField(m', g'), IndexField(m', g'), DispField(m', g');
    assert FieldVars(f1) <= VarSet(t) && FieldVars(f2) <= VarSet(t) && FieldVars(f3) <= VarSet(t)
           && FieldVars(f4) <= VarSet(t);
    FieldIff(arr, [], f1, o1);
    if m1 :| MatchField(arr, [], f1, o1) == Some(m1) {
      FieldIff(arr, m1, f2, o2);
      if m2 :| MatchField(arr, m1, f2, o2) == Some(m2) {
        FieldIff(arr, m2, f3, o3);
        if m3 :| MatchField(arr, m2, f3, o3) == Some(m3) {
          FieldIff(arr, m3, f4, o4);
        }
      }
    }
  }

  /** An operand with no bound variable matches exactly what it stands for. */
  lemma OperandIff(arr: seq<Binding>, o: Operand, t: Operand)
    requires PlainBindings(arr) && TemplateOk(t) && InNumbers(o) && Unbound(t, Keys(arr))
    ensures MatchOperand(arr, o, t).Some? <==> Allows(t, o)
  {
    hide Keys, PlainBindings, MatchMem;
    if t.Mem? && o.Mem? && t.size == o.size {
      MemIff(arr, o, t);
    } else if t.Plain? && o.Plain? && t.kind == o.kind && t.tag != TagConst {
      assert VarOf(t) in VarSet(t);
      GetvalKeys(arr, t);
      SatisfiesIff(o.val, t.tag);
    }
  }

  ghost predicate AllAllowed(ts: seq<Operand>, ops: seq<Operand>)
    requires |ts| == |ops|
  {
    forall k :: 0 <= k < |ts| ==> Allows(ts[k], ops[k])
  }

  lemma {:induction false} OpsIff(arr: seq<Binding>, ops: seq<Operand>, ts: seq<Operand>)
    requires PlainBindings(arr) && |ops| == |ts| && AllOk(ts) && LinearFrom(ts, Keys(arr))
    requires forall k :: 0 <= k < |ops| ==> InNumbers(ops[k])
    ensures MatchOps(arr, ops, ts).Some? <==> AllAllowed(ts, ops)
    decreases |ops|
  {
    hide Keys, PlainBindings, MatchOperand, Allows, InNumbers, TemplateOk;
    if ops != [] {
      OperandIff(arr, ops[0], ts[0]);
      assert AllAllowed(ts, ops) <==> Allows(ts[0], ops[0]) && AllAllowed(ts[1..], ops[1..]) by {
        assert forall k :: 0 < k < |ts| ==> ts[k] == ts[1..][k - 1] && ops[k] == ops[1..][k - 1];
      }
      if a :| MatchOperand(arr, ops[0], ts[0]) == Some(a) {
        OperandKeys(arr, ops[0], ts[0]);
        OpsIff(a, ops[1..], ts[1..]);
      }
    }
  }

  /** A template in which no operand names a variable of an earlier one matches exactly the instructions with its
      opcodes whose operands are what its operands stand for. */
  lemma LinearMatchIff(insns: seq<Insn>, tmpl: seq<Insn>)
    requires InsnsTemplateOk(tmpl) && Linear(tmpl) && forall k :: 0 <= k < |Ops(insns)| ==> InNumbers(Ops(insns)[k])
    ensures MatchInsns(insns, tmpl).Some? <==>
            |insns| == |tmpl| && SameOpcodes(insns, tmpl) && AllAllowed(Ops(tmpl), Ops(insns))
  {
    hide MatchOps, Keys, PlainBindings, Ops, InsnsTemplateOk;
    if |insns| == |tmpl| {
      OpsOk(tmpl);
      FromIsOps([], insns, tmpl);
      NoKeys();
      OpsIff([], Ops(insns), Ops(tmpl));
    }
  }
}
