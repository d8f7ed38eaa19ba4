/**
 Template unification (peep/peep.c): when a rule's template matches disassembled instructions, and
 what the matches are.
 */
module Unify {
  import opened Common
  import opened Insns
  import opened Assignments
  import opened Temporaries

  // ---------- operands of instructions and of templates ----------

  /** A register operand as the disassembler makes it. */
  predicate RegNumber(kind: Kind, val: int) {
    kind == Reg ==> 0 <= val < NUM_REGS
  }

  /** An operand of an instruction: constants only, immediates without a size. */
  ghost predicate Concrete(op: Operand) {
    match op
    case Invalid(_) => true
    case Plain(size, kind, val, tag) => tag == TagConst && (kind == Imm ==> size == 0) && RegNumber(kind, val)
    case Mem(_, m, t) => t == MemTag(TagConst, TagConst, TagConst, TagConst, TagConst)
                         && (m.base == -1 || RegNumber(Reg, m.base)) && (m.index == -1 || RegNumber(Reg, m.index))
  }

  /** The fields of a memory operand as operands of their own, in the order in which they are matched. */
  function SegField(m: MemVal, t: MemTag): Operand {
    if m.isSel then Plain(m.addrsize, Seg, m.seg, t.seg) else Plain(0, Imm, m.seg, t.seg)
  }

  function BaseField(m: MemVal, t: MemTag): Operand {
    Plain(m.addrsize, Reg, m.base, t.base)
  }

  function IndexField(m: MemVal, t: MemTag): Operand {
    Plain(m.addrsize, Reg, m.index, t.index)
  }

  function DispField(m: MemVal, t: MemTag): Operand {
    Plain(0, Imm, m.disp, t.disp)
  }

  /** A template variable for an immediate of a given size. */
  predicate SizedImm(t: Operand) {
    t.Plain? && t.kind == Imm && t.tag != TagConst && t.size != 0
  }

  /** What is asked of a template operand: variables for registers in range, constant immediates without a size. */
  ghost predicate TemplateOk(t: Operand) {
    match t
    case Invalid(_) => true
    case Plain(size, kind, val, tag) => RegNumber(kind, val) && (kind == Imm && tag == TagConst ==> size == 0)
    case Mem(_, m, g) =>
      && g.all == TagConst
      && (g.base != TagConst ==> RegNumber(Reg, m.base)) && (g.index != TagConst ==> RegNumber(Reg, m.index))
  }

  // ---------- matching ----------

  /** mem_match: one field, with the bindings made so far and those of the current memory operand. */
  function MatchField(arr: seq<Binding>, tmp: seq<Binding>, t: Operand, o: Operand): Option<seq<Binding>>
    requires t.Plain? && o.Plain?
  {
    if t.tag == TagConst then if o.val == t.val then Some(tmp) else None
    else if t.kind == Reg && o.val == -1 then None
    else match Getval(arr, t)
         case Some(x) => if OperandsEqual(x, o) then Some(tmp) else None
         case None => if Coherent(t, o) then Some(tmp + [Whole(t, o)]) else None
  }

  /** mem_operands_match */
  function MatchMem(arr: seq<Binding>, op: Operand, t: Operand): Option<seq<Binding>>
    requires op.Mem? && t.Mem?
  {
    if op.mem.addrsize != t.mem.addrsize || op.mem.isSel != t.mem.isSel then None
    else match MatchField(arr, [], SegField(t.mem, t.tags), SegField(op.mem, op.tags))
         case None => None
         case Some(t1) =>
           match MatchField(arr, t1, BaseField(t.mem, t.tags), BaseField(op.mem, op.tags))
           case None => None
           case Some(t2) =>
             match MatchField(arr, t2, IndexField(t.mem, t.tags), IndexField(op.mem, op.tags))
             case None => None
             case Some(t3) =>
               if t.mem.scale != op.mem.scale then None
               else match MatchField(arr, t3, DispField(t.mem, t.tags), DispField(op.mem, op.tags))
                    case None => None
                    case Some(t4) => Some(arr + t4)
  }

  function Pow256(n: nat): nat {
    if n == 0 then 1 else 256 * Pow256(n - 1)
  }

  predicate SameType(a: Operand, b: Operand) {
    match (a, b)
    case (Invalid(_), Invalid(_)) => true
    case (Plain(_, k, _, _), Plain(_, k', _, _)) => k == k'
    case (Mem(_, _, _), Mem(_, _, _)) => true
    case _ => false
  }

  /** operands_match; as in the source, a variable that is bound already never matches, not even its own value. */
  function MatchOperand(arr: seq<Binding>, op: Operand, t: Operand): Option<seq<Binding>> {
    if !SameType(op, t) then None
    else if op.size != t.size then
      if op.size == 0 && op.Plain? && op.kind == Imm && op.val < Pow256(t.size) then Some(arr + [Whole(t, op)])
      else None
    else match t
         case Invalid(_) => Some(arr)
         case Mem(_, _, _) => MatchMem(arr, op, t)
         case Plain(_, _, _, tag) =>
           if tag == TagConst then if OperandsEqual(t, op) then Some(arr) else None
           else if Getval(arr, t).Some? then None
           else if Coherent(t, op) then Some(arr + [Whole(t, op)]) else None
  }

  /** templ_matches_insn */
  function MatchInsn(arr: seq<Binding>, insn: Insn, t: Insn): Option<seq<Binding>> {
    if insn.opc != t.opc then None
    else match MatchOperand(arr, insn.op0, t.op0)
         case None => None
         case Some(a1) =>
           match MatchOperand(a1, insn.op1, t.op1)
           case None => None
           case Some(a2) => MatchOperand(a2, insn.op2, t.op2)
  }

  function MatchFrom(arr: seq<Binding>, insns: seq<Insn>, tmpl: seq<Insn>): Option<seq<Binding>>
    requires |insns| == |tmpl|
    decreases |insns|
  {
    if insns == [] then Some(arr)
    else match MatchInsn(arr, insns[0], tmpl[0])
         case None => None
         case Some(a) => MatchFrom(a, insns[1..], tmpl[1..])
  }

  /** templ_matches_insns */
  function MatchInsns(insns: seq<Insn>, tmpl: seq<Insn>): Option<seq<Binding>> {
    if |insns| != |tmpl| then None else MatchFrom([], insns, tmpl)
  }

  // ---------- substitution ----------

  /** The value of a field of a template under an assignment. */
  function FieldValue(arr: seq<Binding>, t: Operand): Option<int>
    requires t.Plain?
  {
    if t.tag == TagConst then Some(t.val)
    else match Getval(arr, t)
         case Some(Plain(_, _, v, _)) => Some(v)
         case _ => None
  }

  /** A template operand with its variables replaced by what they are bound to. */
  function Subst(arr: seq<Binding>, t: Operand): Option<Operand> {
    match t
    case Invalid(_) => Some(t)
    case Plain(_, _, _, tag) => if tag == TagConst then Some(t) else Getval(arr, t)
    case Mem(size, m, g) =>
      var seg, base, index, disp :=
        FieldValue(arr, SegField(m, g)), FieldValue(arr, BaseField(m, g)),
        FieldValue(arr, IndexField(m, g)), FieldValue(arr, DispField(m, g));
      if seg.Some? && base.Some? && index.Some? && disp.Some? then
        Some(Operand.Mem(size, MemVal(m.addrsize, m.isSel, seg.value, base.value, m.scale, index.value, disp.value),
                         MemTag(TagConst, TagConst, TagConst, TagConst, TagConst)))
      else None
  }

  /** More bindings do not change what is bound. */
  lemma SubstExtends(a: seq<Binding>, b: seq<Binding>, t: Operand)
    requires Subst(a, t).Some?
    ensures Subst(a + b, t) == Subst(a, t)
  {
    match t
    case Invalid(_) =>
    case Plain(_, _, _, _) => GetvalExtends(a, b, t);
    case Mem(_, m, g) =>
      GetvalExtends(a, b, SegField(m, g));
      GetvalExtends(a, b, BaseField(m, g));
      GetvalExtends(a, b, IndexField(m, g));
      GetvalExtends(a, b, DispField(m, g));
  }

  // ---------- operands in a row ----------

  /** The operands of all instructions, in the order in which they are matched. */
  function Ops(insns: seq<Insn>): (r: seq<Operand>)
    ensures |r| == 3 * |insns|
  {
    if insns == [] then [] else [insns[0].op0, insns[0].op1, insns[0].op2] + Ops(insns[1..])
  }

  function MatchOps(arr: seq<Binding>, ops: seq<Operand>, ts: seq<Operand>): Option<seq<Binding>>
    requires |ops| == |ts|
    decreases |ops|
  {
    if ops == [] then Some(arr)
    else match MatchOperand(arr, ops[0], ts[0])
         case None => None
         case Some(a) => MatchOps(a, ops[1..], ts[1..])
  }

  predicate SameOpcodes(insns: seq<Insn>, tmpl: seq<Insn>)
    requires |insns| == |tmpl|
  {
    forall i :: 0 <= i < |insns| ==> insns[i].opc == tmpl[i].opc
  }

  lemma OneOp(arr: seq<Binding>, o: Operand, t: Operand, ops: seq<Operand>, ts: seq<Operand>)
    requires |ops| == |ts|
    ensures MatchOps(arr, [o] + ops, [t] + ts)
         == match MatchOperand(arr, o, t) case None => None case Some(a) => MatchOps(a, ops, ts)
  {
    hide MatchOperand;
    assert ([o] + ops)[1..] == ops && ([t] + ts)[1..] == ts;
  }

  lemma ThreeOps(arr: seq<Binding>, o: Insn, t: Insn, ops: seq<Operand>, ts: seq<Operand>)
    requires |ops| == |ts| && o.opc == t.opc
    ensures MatchOps(arr, [o.op0, o.op1, o.op2] + ops, [t.op0, t.op1, t.op2] + ts)
         == match MatchInsn(arr, o, t) case None => None case Some(a) => MatchOps(a, ops, ts)
  {
    hide MatchOperand, MatchOps;
    var o2, t2 := [o.op2] + ops, [t.op2] + ts;
    var o1, t1 := [o.op1] + o2, [t.op1] + t2;
    assert [o.op0, o.op1, o.op2] + ops == [o.op0] + o1 && [t.op0, t.op1, t.op2] + ts == [t.op0] + t1;
    OneOp(arr, o.op0, t.op0, o1, t1);
    match MatchOperand(arr, o.op0, t.op0)
    case None =>
    case Some(a1) =>
      OneOp(a1, o.op1, t.op1, o2, t2);
      match MatchOperand(a1, o.op1, t.op1)
      case None =>
      case Some(a2) => OneOp(a2, o.op2, t.op2, ops, ts);
  }

  /** Matching instruction by instruction is matching all operands in a row, if the opcodes agree. */
  lemma {:induction false} FromIsOps(arr: seq<Binding>, insns: seq<Insn>, tmpl: seq<Insn>)
    requires |insns| == |tmpl|
    ensures MatchFrom(arr, insns, tmpl) ==
            if SameOpcodes(insns, tmpl) then MatchOps(arr, Ops(insns), Ops(tmpl)) else None
    decreases |insns|
  {
    hide MatchInsn, MatchOps;
    if insns == [] {
      assert MatchOps(arr, [], []) == Some(arr) by {
        NoOps(arr);
      }
    } else {
      OpcodesApart(insns, tmpl);
      if insns[0].opc != tmpl[0].opc {
        OtherOpcode(arr, insns[0], tmpl[0]);
        return;
      }
      ThreeOps(arr, insns[0], tmpl[0], Ops(insns[1..]), Ops(tmpl[1..]));
      if MatchInsn(arr, insns[0], tmpl[0]).Some? {
        FromIsOps(MatchInsn(arr, insns[0], tmpl[0]).value, insns[1..], tmpl[1..]);
      }
    }
  }

  lemma NoOps(arr: seq<Binding>)
    ensures MatchOps(arr, [], []) == Some(arr)
  {
  }

  lemma OtherOpcode(arr: seq<Binding>, o: Insn, t: Insn)
    requires o.opc != t.opc
    ensures MatchInsn(arr, o, t) == None
  {
  }

  lemma OpcodesApart(insns: seq<Insn>, tmpl: seq<Insn>)
    requires |insns| == |tmpl| > 0
    ensures SameOpcodes(insns, tmpl) <==> insns[0].opc == tmpl[0].opc && SameOpcodes(insns[1..], tmpl[1..])
  {
    assert forall i :: 0 < i < |insns| ==> insns[i] == insns[1..][i - 1] && tmpl[i] == tmpl[1..][i - 1];
  }

  // ---------- variables ----------

  /** The variable that a template operand names: registers by number, all others by the whole operand. */
  datatype Var = RegVar(n: int) | OtherVar(t: Operand)

  function VarOf(t: Operand): Var
    requires t.Plain?
  {
    if t.kind == Reg then RegVar(t.val) else OtherVar(t)
  }

  function FieldVars(t: Operand): set<Var>
    requires t.Plain?
  {
    if t.tag != TagConst then {VarOf(t)} else {}
  }

  /** The variables of a template operand. */
  function VarSet(t: Operand): set<Var> {
    match t
    case Invalid(_) => {}
    case Plain(_, _, _, _) => FieldVars(t)
    case Mem(_, m, g) =>
      FieldVars(SegField(m, g)) + FieldVars(BaseField(m, g)) + FieldVars(IndexField(m, g)) + FieldVars(DispField(m, g))
  }

  ghost predicate PlainBindings(arr: seq<Binding>) {
    forall i :: 0 <= i < |arr| ==> IsVar(arr[i].v) && arr[i].val.Plain?
  }

  /** The variables that are bound. */
  ghost function Keys(arr: seq<Binding>): set<Var> {
    set i | 0 <= i < |arr| && arr[i].v.Plain? :: VarOf(arr[i].v)
  }

  lemma KeysOfTwo(a: seq<Binding>, b: seq<Binding>)
    ensures Keys(a + b) == Keys(a) + Keys(b)
    ensures PlainBindings(a) && PlainBindings(b) ==> PlainBindings(a + b)
  {
    var c := a + b;
    forall x | x in Keys(a)
      ensures x in Keys(c)
    {
      var i :| 0 <= i < |a| && a[i].v.Plain? && VarOf(a[i].v) == x;
      assert c[i] == a[i];
    }
    forall x | x in Keys(b)
      ensures x in Keys(c)
    {
      var i :| 0 <= i < |b| && b[i].v.Plain? && VarOf(b[i].v) == x;
      assert c[|a| + i] == b[i];
    }
  }

  lemma KeyOfOne(b: Binding)
    requires b.v.Plain?
    ensures Keys([b]) == {VarOf(b.v)}
  {
    assert [b][0] == b;
  }

  /** A lookup finds something exactly when the variable is bound. */
  lemma {:induction false} GetvalKeys(arr: seq<Binding>, t: Operand)
    requires PlainBindings(arr) && IsVar(t)
    ensures Getval(arr, t).Some? <==> VarOf(t) in Keys(arr)
    ensures Getval(arr, t).Some? ==> Getval(arr, t).value.Plain?
  {
    if arr != [] {
      assert arr == [arr[0]] + arr[1..];
      KeysOfTwo([arr[0]], arr[1..]);
      KeyOfOne(arr[0]);
      GetvalKeys(arr[1..], t);
    }
  }

  lemma FieldKeys(arr: seq<Binding>, tmp: seq<Binding>, t: Operand, o: Operand)
    requires t.Plain? && o.Plain? && PlainBindings(arr) && PlainBindings(tmp) && MatchField(arr, tmp, t, o).Some?
    ensures var tmp' := MatchField(arr, tmp, t, o).value;
            && PlainBindings(tmp') && Keys(arr) + Keys(tmp') == Keys(arr) + Keys(tmp) + FieldVars(t)
            && Keys(tmp') <= Keys(tmp) + FieldVars(t) && |tmp'| == |tmp| + NewField(t, Keys(arr))
  {
    if t.tag != TagConst {
      GetvalKeys(arr, t);
      if Getval(arr, t).None? {
        KeysOfTwo(tmp, [Whole(t, o)]);
        KeyOfOne(Whole(t, o));
      }
    }
  }

  /** The number of bindings that a match of the field adds when the variables `ks` are bound. */
  function NewField(t: Operand, ks: set<Var>): nat
    requires t.Plain?
  {
    if IsVar(t) && VarOf(t) !in ks then 1 else 0
  }

  /** The number of bindings that a match of the operand adds. */
  function NewBindings(t: Operand, ks: set<Var>): nat {
    match t
    case Invalid(_) => 0
    case Plain(_, _, _, _) => if IsVar(t) then 1 else 0
    case Mem(_, m, g) =>
      NewField(SegField(m, g), ks) + NewField(BaseField(m, g), ks) + NewField(IndexField(m, g), ks)
      + NewField(DispField(m, g), ks)
  }

  lemma MemKeys(arr: seq<Binding>, op: Operand, t: Operand)
    requires op.Mem? && t.Mem? && PlainBindings(arr) && MatchMem(arr, op, t).Some?
    ensures var arr' := MatchMem(arr, op, t).value;
            PlainBindings(arr') && Keys(arr') == Keys(arr) + VarSet(t) && |arr'| == |arr| + NewBindings(t, Keys(arr))
  {
    hide MatchField, FieldVars, NewField, Keys, PlainBindings;
    var m, g, m', g' := t.mem, t.tags, op.mem, op.tags;
    var t1 := MatchField(arr, [], SegField(m, g), SegField(m', g')).value;
    var t2 := MatchField(arr, t1, BaseField(m, g), BaseField(m', g')).value;
    var t3 := MatchField(arr, t2, IndexField(m, g), IndexField(m', g')).value;
    var t4 := MatchField(arr, t3, DispField(m, g), DispField(m', g')).value;
    NoKeys();
    FieldKeys(arr, [], SegField(m, g), SegField(m', g'));
    FieldKeys(arr, t1, BaseField(m, g), BaseField(m', g'));
    FieldKeys(arr, t2, IndexField(m, g), IndexField(m', g'));
    FieldKeys(arr, t3, DispField(m, g), DispField(m', g'));
    KeysOfTwo(arr, t4);
  }

  lemma NoKeys()
    ensures PlainBindings([]) && Keys([]) == {}
  {
  }

  /** A plain variable that must not be bound yet; an immediate with a size may be. */
  predicate Fresh(t: Operand, ks: set<Var>) {
    t.Plain? && IsVar(t) && !SizedImm(t) ==> VarOf(t) !in ks
  }

  /** What a match does to the bound variables, and what it needs of them. */
  lemma OperandKeys(arr: seq<Binding>, op: Operand, t: Operand)
    requires TemplateOk(t) && PlainBindings(arr) && MatchOperand(arr, op, t).Some?
    ensures var arr' := MatchOperand(arr, op, t).value;
            && PlainBindings(arr') && Keys(arr') == Keys(arr) + VarSet(t) && |arr'| == |arr| + NewBindings(t, Keys(arr))
            && Fresh(t, Keys(arr))
  {
    if t.Mem? {
      MemKeys(arr, op, t);
    } else if t.Plain? && t.tag != TagConst {
      GetvalKeys(arr, t);
      KeysOfTwo(arr, [Whole(t, op)]);
      KeyOfOne(Whole(t, op));
    }
  }

  // ---------- completeness ----------

  /** A value for every variable. */
  type Valuation = Var -> int

  /** The one-value operand that a template operand stands for. */
  function Given(nu: Valuation, t: Operand): Operand
    requires t.Plain?
  {
    if t.tag == TagConst then t else Plain(if t.kind == Imm then 0 else t.size, t.kind, nu(VarOf(t)), TagConst)
  }

  /** The value is one the variable may have: a machine register that satisfies the tag, or a number that
      fits the size. */
  predicate GivenOk(nu: Valuation, t: Operand)
    requires t.Plain?
  {
    t.tag != TagConst ==>
      var v := nu(VarOf(t));
      && RegNumber(t.kind, v) && (t.kind == Reg || t.kind == Seg ==> Satisfies(v, t.tag))
      && (SizedImm(t) ==> v < Pow256(t.size))
  }

  /** The template operand with the values put in. */
  function Filled(nu: Valuation, t: Operand): Operand {
    match t
    case Invalid(_) => t
    case Plain(_, _, _, _) => Given(nu, t)
    case Mem(size, m, g) =>
      Operand.Mem(size, MemVal(m.addrsize, m.isSel, Given(nu, SegField(m, g)).val, Given(nu, BaseField(m, g)).val,
                               m.scale, Given(nu, IndexField(m, g)).val, Given(nu, DispField(m, g)).val),
                  MemTag(TagConst, TagConst, TagConst, TagConst, TagConst))
  }

  predicate FilledOk(nu: Valuation, t: Operand) {
    match t
    case Invalid(_) => true
    case Plain(_, _, _, _) => GivenOk(nu, t)
    case Mem(_, m, g) =>
      && GivenOk(nu, SegField(m, g)) && GivenOk(nu, BaseField(m, g))
      && GivenOk(nu, IndexField(m, g)) && GivenOk(nu, DispField(m, g))
  }

  /** All variables are bound to their values. */
  ghost predicate Values(arr: seq<Binding>, nu: Valuation) {
    forall i :: 0 <= i < |arr| ==> IsVar(arr[i].v) && arr[i].val == Given(nu, arr[i].v)
  }

  lemma {:induction false} GetvalGiven(arr: seq<Binding>, nu: Valuation, t: Operand)
    requires Values(arr, nu) && IsVar(t) && Getval(arr, t).Some?
    ensures Getval(arr, t) == Some(Given(nu, t))
  {
    if !OperandsEqual(arr[0].v, t) && !(IsReg(t) && IsReg(arr[0].v) && t.val == arr[0].v.val) {
      assert forall i :: 0 <= i < |arr| - 1 ==> arr[1..][i] == arr[i + 1];
      GetvalGiven(arr[1..], nu, t);
    }
  }

  lemma FieldFilled(arr: seq<Binding>, tmp: seq<Binding>, nu: Valuation, t: Operand, o: Operand)
    requires t.Plain? && !SizedImm(t) && Values(arr, nu) && Values(tmp, nu) && GivenOk(nu, t)
    requires o.Plain? && o.val == Given(nu, t).val && (t.tag != TagConst ==> o == Given(nu, t))
    ensures MatchField(arr, tmp, t, o).Some? && Values(MatchField(arr, tmp, t, o).value, nu)
  {
    if t.tag != TagConst && Getval(arr, t).Some? {
      GetvalGiven(arr, nu, t);
    }
  }

  lemma MemFilled(arr: seq<Binding>, nu: Valuation, t: Operand)
    requires t.Mem? && Values(arr, nu) && FilledOk(nu, t)
    ensures MatchMem(arr, Filled(nu, t), t).Some? && Values(MatchMem(arr, Filled(nu, t), t).value, nu)
  {
    hide MatchField, Values;
    var op := Filled(nu, t);
    var m, g, m', g' := t.mem, t.tags, op.mem, op.tags;
    NoValues(nu);
    FieldFilled(arr, [], nu, SegField(m, g), SegField(m', g'));
    var t1 := MatchField(arr, [], SegField(m, g), SegField(m', g')).value;
    FieldFilled(arr, t1, nu, BaseField(m, g), BaseField(m', g'));
    var t2 := MatchField(arr, t1, BaseField(m, g), BaseField(m', g')).value;
    FieldFilled(arr, t2, nu, IndexField(m, g), IndexField(m', g'));
    var t3 := MatchField(arr, t2, IndexField(m, g), IndexField(m', g')).value;
    FieldFilled(arr, t3, nu, DispField(m, g), DispField(m', g'));
    var t4 := MatchField(arr, t3, DispField(m, g), DispField(m', g')).value;
    ValuesOfTwo(arr, t4, nu);
  }

  lemma NoValues(nu: Valuation)
    ensures Values([], nu)
  {
  }

  lemma ValuesOfTwo(a: seq<Binding>, b: seq<Binding>, nu: Valuation)
    requires Values(a, nu) && Values(b, nu)
    ensures Values(a + b, nu)
  {
  }

  lemma ValuesArePlain(arr: seq<Binding>, nu: Valuation)
    requires Values(arr, nu)
    ensures PlainBindings(arr)
  {
  }

  /** An operand filled in matches if its variable is fresh. */
  lemma OperandFilled(arr: seq<Binding>, nu: Valuation, t: Operand)
    requires TemplateOk(t) && FilledOk(nu, t) && Values(arr, nu) && Fresh(t, Keys(arr))
    ensures MatchOperand(arr, Filled(nu, t), t).Some? && Values(MatchOperand(arr, Filled(nu, t), t).value, nu)
  {
    ValuesArePlain(arr, nu);
    if t.Mem? {
      MemFilled(arr, nu, t);
    } else if t.Plain? && t.tag != TagConst {
      GetvalKeys(arr, t);
    }
  }

  /** No plain variable but an immediate with a size stands where the variable is bound already. */
  predicate FreshFrom(ts: seq<Operand>, ks: set<Var>) {
    ts == [] || (Fresh(ts[0], ks) && FreshFrom(ts[1..], ks + VarSet(ts[0])))
  }

  ghost predicate AllOk(ts: seq<Operand>) {
    forall i :: 0 <= i < |ts| ==> TemplateOk(ts[i])
  }

  ghost predicate AllConcrete(ops: seq<Operand>) {
    forall i :: 0 <= i < |ops| ==> Concrete(ops[i])
  }

  ghost predicate AllFilled(nu: Valuation, ops: seq<Operand>, ts: seq<Operand>)
    requires |ops| == |ts|
  {
    forall i :: 0 <= i < |ts| ==> ops[i] == Filled(nu, ts[i]) && FilledOk(nu, ts[i])
  }

  /** Nothing matches operands of which a bound variable is one. */
  lemma {:induction false} MatchesAreFresh(arr: seq<Binding>, ops: seq<Operand>, ts: seq<Operand>)
    requires |ops| == |ts| && AllConcrete(ops) && AllOk(ts) && PlainBindings(arr) && MatchOps(arr, ops, ts).Some?
    ensures FreshFrom(ts, Keys(arr))
    decreases |ops|
  {
    hide MatchOperand, Concrete, TemplateOk, Fresh, VarSet, Keys, PlainBindings;
    if ops != [] {
      OperandKeys(arr, ops[0], ts[0]);
      MatchesAreFresh(MatchOperand(arr, ops[0], ts[0]).value, ops[1..], ts[1..]);
    }
  }

  /** Everything that is filled in matches operands without such a variable. */
  lemma {:induction false} FreshMatches(arr: seq<Binding>, nu: Valuation, ops: seq<Operand>, ts: seq<Operand>)
    requires |ops| == |ts| && AllConcrete(ops) && AllOk(ts) && Values(arr, nu) && AllFilled(nu, ops, ts)
    requires FreshFrom(ts, Keys(arr))
    ensures MatchOps(arr, ops, ts).Some?
    decreases |ops|
  {
    hide MatchOperand, Concrete, TemplateOk, Fresh, VarSet, Keys, Filled, FilledOk;
    if ops != [] {
      OperandFilled(arr, nu, ts[0]);
      ValuesArePlain(arr, nu);
      OperandKeys(arr, ops[0], ts[0]);
      FreshMatches(MatchOperand(arr, ops[0], ts[0]).value, nu, ops[1..], ts[1..]);
    }
  }

  // ---------- whole templates ----------

  ghost predicate InsnConcrete(insn: Insn) {
    Concrete(insn.op0) && Concrete(insn.op1) && Concrete(insn.op2)
  }

  ghost predicate InsnTemplateOk(t: Insn) {
    TemplateOk(t.op0) && TemplateOk(t.op1) && TemplateOk(t.op2)
  }

  ghost predicate InsnsConcrete(insns: seq<Insn>) {
    forall i :: 0 <= i < |insns| ==> InsnConcrete(insns[i])
  }

  ghost predicate InsnsTemplateOk(tmpl: seq<Insn>) {
    forall i :: 0 <= i < |tmpl| ==> InsnTemplateOk(tmpl[i])
  }

  lemma {:induction false} OpAt(insns: seq<Insn>, i: nat, p: nat)
    requires i < |insns| && p < 3
    ensures Ops(insns)[3 * i + p] == insns[i].Op(p)
  {
    if i > 0 {
      OpAt(insns[1..], i - 1, p);
      assert Ops(insns)[3 * i + p] == Ops(insns[1..])[3 * (i - 1) + p];
    }
  }

  lemma OpOf(insns: seq<Insn>, k: nat)
    requires k < |Ops(insns)|
    ensures Ops(insns)[k] == insns[k / 3].Op(k % 3)
  {
    OpAt(insns, k / 3, k % 3);
  }

  lemma OpsConcrete(insns: seq<Insn>)
    requires InsnsConcrete(insns)
    ensures AllConcrete(Ops(insns))
  {
    forall k | 0 <= k < |Ops(insns)|
      ensures Concrete(Ops(insns)[k])
    {
      OpOf(insns, k);
      assert InsnConcrete(insns[k / 3]);
    }
  }

  lemma OpsOk(tmpl: seq<Insn>)
    requires InsnsTemplateOk(tmpl)
    ensures AllOk(Ops(tmpl))
  {
    forall k | 0 <= k < |Ops(tmpl)|
      ensures TemplateOk(Ops(tmpl)[k])
    {
      OpOf(tmpl, k);
      assert InsnTemplateOk(tmpl[k / 3]);
    }
  }

  /** The instructions are the template with the values put in, and the values are such as the variables
      may have. */
  ghost predicate FilledIn(nu: Valuation, insns: seq<Insn>, tmpl: seq<Insn>) {
    && |insns| == |tmpl| && SameOpcodes(insns, tmpl)
    && forall i, p :: 0 <= i < |tmpl| && 0 <= p < 3 ==>
                        insns[i].Op(p) == Filled(nu, tmpl[i].Op(p)) && FilledOk(nu, tmpl[i].Op(p))
  }

  /** No variable other than an immediate with a size stands as a whole operand after it was bound. */
  predicate NoPlainRepeat(tmpl: seq<Insn>) {
    FreshFrom(Ops(tmpl), {})
  }

  /** A template in which a bound variable comes again as a whole operand matches nothing. */
  lemma RepeatNeverMatches(insns: seq<Insn>, tmpl: seq<Insn>)
    requires InsnsConcrete(insns) && InsnsTemplateOk(tmpl) && !NoPlainRepeat(tmpl)
    ensures MatchInsns(insns, tmpl).None?
  {
    if |insns| == |tmpl| && MatchInsns(insns, tmpl).Some? {
      FromIsOps([], insns, tmpl);
      OpsConcrete(insns);
      OpsOk(tmpl);
      NoKeys();
      MatchesAreFresh([], Ops(insns), Ops(tmpl));
    }
  }

  /** Instructions that are a template filled in match it exactly when no bound variable comes again as a
      whole operand of the template. */
  lemma FilledMatchesIff(nu: Valuation, insns: seq<Insn>, tmpl: seq<Insn>)
    requires InsnsConcrete(insns) && InsnsTemplateOk(tmpl) && FilledIn(nu, insns, tmpl)
    ensures MatchInsns(insns, tmpl).Some? <==> NoPlainRepeat(tmpl)
  {
    if NoPlainRepeat(tmpl) {
      FromIsOps([], insns, tmpl);
      OpsConcrete(insns);
      OpsOk(tmpl);
      NoKeys();
      NoValues(nu);
      forall k | 0 <= k < |Ops(tmpl)|
        ensures Ops(insns)[k] == Filled(nu, Ops(tmpl)[k]) && FilledOk(nu, Ops(tmpl)[k])
      {
        OpOf(insns, k);
        OpOf(tmpl, k);
      }
      FreshMatches([], nu, Ops(insns), Ops(tmpl));
    } else {
      RepeatNeverMatches(insns, tmpl);
    }
  }

  /** Matching is complete for a template, if anything can be an instance of it, exactly when no bound
      variable comes again as a whole operand. */
  lemma CompleteIff(tmpl: seq<Insn>, nu0: Valuation, insns0: seq<Insn>)
    requires InsnsTemplateOk(tmpl) && InsnsConcrete(insns0) && FilledIn(nu0, insns0, tmpl)
    ensures (forall nu, insns :: InsnsConcrete(insns) && FilledIn(nu, insns, tmpl) ==> MatchInsns(insns, tmpl).Some?)
       <==> NoPlainRepeat(tmpl)
  {
    forall nu, insns | InsnsConcrete(insns) && FilledIn(nu, insns, tmpl)
      ensures MatchInsns(insns, tmpl).Some? <==> NoPlainRepeat(tmpl)
    {
      FilledMatchesIff(nu, insns, tmpl);
    }
  }

  // ---------- soundness ----------

  ghost predicate Fitting(arr: seq<Binding>) {
    forall i :: 0 <= i < |arr| && SizedImm(arr[i].v) ==> arr[i].val.Plain? && arr[i].val.val < Pow256(arr[i].v.size)
  }

  /** What every assignment built by a match of a sound template satisfies. */
  ghost predicate Built(arr: seq<Binding>) {
    AllCoherent(arr) && BindingsOk(arr) && Fitting(arr) && PlainBindings(arr)
  }

  /** The template operands name one variable, which is not bound: nothing compares their values. */
  predicate Doubled(a: Operand, b: Operand, ks: set<Var>) {
    IsVar(a) && IsVar(b) && VarOf(a) == VarOf(b) && VarOf(a) !in ks
  }

  /** The operand can give a variable a second value: an immediate with a size that is bound already, or
      two fields of a memory operand with one unbound variable, unless their tag allows only one value. */
  predicate Splits(t: Operand, ks: set<Var>) {
    match t
    case Invalid(_) => false
    case Plain(_, _, _, _) => SizedImm(t) && VarOf(t) in ks
    case Mem(_, m, g) =>
      || (Doubled(BaseField(m, g), IndexField(m, g), ks) && !(g.base == TagEax && g.index == TagEax))
      || Doubled(SegField(m, g), DispField(m, g), ks)
  }

  predicate SoundFrom(ts: seq<Operand>, ks: set<Var>) {
    ts == [] || (!Splits(ts[0], ks) && SoundFrom(ts[1..], ks + VarSet(ts[0])))
  }

  /** No operand of the template can give a variable a second value. */
  predicate NoSplit(tmpl: seq<Insn>) {
    SoundFrom(Ops(tmpl), {})
  }

  /** Operands that name one variable have one value. */
  lemma {:induction false} OneVariable(arr: seq<Binding>, t: Operand, u: Operand)
    requires PlainBindings(arr) && IsVar(t) && IsVar(u) && VarOf(t) == VarOf(u) && Getval(arr, t).Some?
    ensures Getval(arr, u).Some? && Getval(arr, t).value.Plain? && Getval(arr, u).value.Plain?
    ensures Getval(arr, t).value.val == Getval(arr, u).value.val
  {
    GetvalKeys(arr, t);
    GetvalKeys(arr, u);
    if !OperandsEqual(arr[0].v, t) && !(IsReg(t) && IsReg(arr[0].v) && t.val == arr[0].v.val) {
      OneVariable(arr[1..], t, u);
    }
  }

  lemma {:induction false} RegisterBound(arr: seq<Binding>, t: Operand) returns (i: nat)
    requires PlainBindings(arr) && IsReg(t) && IsVar(t) && Getval(arr, t).Some?
    ensures i < |arr| && IsReg(arr[i].v) && arr[i].v.val == t.val && Getval(arr, t).value.Plain?
    ensures arr[i].val.val == Getval(arr, t).value.val
  {
    if !OperandsEqual(arr[0].v, t) && !(IsReg(t) && IsReg(arr[0].v) && t.val == arr[0].v.val) {
      i := RegisterBound(arr[1..], t);
      i := i + 1;
    } else {
      i := 0;
    }
  }

  /** The value that a new binding has to have if the variable is bound already. */
  ghost predicate Agreeing(arr: seq<Binding>, t: Operand, o: Operand)
    requires o.Plain?
  {
    Getval(arr, t).Some? ==> Getval(arr, t).value.Plain? && Getval(arr, t).value.val == o.val
  }

  lemma {:induction false} NoneBound(arr: seq<Binding>, t: Operand)
    requires PlainBindings(arr) && IsVar(t) && IsReg(t) && Getval(arr, t).None?
    ensures forall i :: 0 <= i < |arr| && IsReg(arr[i].v) ==> arr[i].v.val != t.val
  {
    GetvalKeys(arr, t);
    forall i | 0 <= i < |arr| && IsReg(arr[i].v)
      ensures arr[i].v.val != t.val
    {
      assert VarOf(arr[i].v) in Keys(arr);
    }
  }

  /** A new binding keeps the assignment as it should be, and the variable has its value. */
  lemma BindVariable(arr: seq<Binding>, t: Operand, o: Operand)
    requires Built(arr) && IsVar(t) && o.Plain? && Agreeing(arr, t, o) && Coherent(t, o)
    requires RegNumber(t.kind, t.val) && RegNumber(o.kind, o.val) && (SizedImm(t) ==> o.val < Pow256(t.size))
    ensures Built(arr + [Whole(t, o)])
    ensures Agreeing(arr + [Whole(t, o)], t, o) && Getval(arr + [Whole(t, o)], t).Some?
    ensures Getval(arr, t).None? ==>
              var size := if t.size == 4 then o.size else t.size;
              Getval(arr + [Whole(t, o)], t) == Some(if t.kind == Reg then Resized(o, size) else o)
  {
    if t.kind == Reg {
      if Getval(arr, t).Some? {
        var i := RegisterBound(arr, t);
      } else {
        NoneBound(arr, t);
      }
    }
    GetvalExtends(arr, [Whole(t, o)], t);
  }

  /** One field of a memory operand. */
  lemma FieldSound(arr: seq<Binding>, tmp: seq<Binding>, t: Operand, o: Operand)
    requires t.Plain? && o.Plain? && t.kind == o.kind && !SizedImm(t) && Built(arr + tmp)
    requires MatchField(arr, tmp, t, o).Some? && (IsVar(t) && Getval(arr, t).None? ==> Agreeing(tmp, t, o))
    requires t.tag != TagConst ==> RegNumber(t.kind, t.val) && (o.val == -1 || RegNumber(o.kind, o.val))
    ensures var tmp' := MatchField(arr, tmp, t, o).value;
            Built(arr + tmp') && FieldValue(arr + tmp', t) == Some(o.val) && tmp <= tmp'
  {
    var tmp' := MatchField(arr, tmp, t, o).value;
    if t.tag != TagConst {
      GetvalExtends(arr, tmp, t);
      if Getval(arr, t).None? {
        BindVariable(arr + tmp, t, o);
        assert arr + tmp' == arr + tmp + [Whole(t, o)];
      }
    }
  }

  lemma FieldStays(arr: seq<Binding>, tmp: seq<Binding>, tmp': seq<Binding>, t: Operand)
    requires t.Plain? && tmp <= tmp' && FieldValue(arr + tmp, t).Some?
    ensures FieldValue(arr + tmp', t) == FieldValue(arr + tmp, t)
  {
    assert arr + tmp' == arr + tmp + tmp'[|tmp|..];
    GetvalExtends(arr + tmp, tmp'[|tmp|..], t);
  }

  /** A variable that is not among the fields matched so far is not bound by them. */
  lemma NotAmong(tmp: seq<Binding>, ks: set<Var>, t: Operand, o: Operand)
    requires PlainBindings(tmp) && Keys(tmp) <= ks && IsVar(t) && o.Plain? && VarOf(t) !in ks
    ensures Agreeing(tmp, t, o)
  {
    GetvalKeys(tmp, t);
  }

  /** An index that names the variable of the base has its value, since both are register 0. */
  lemma IndexAgrees(arr: seq<Binding>, tmp: seq<Binding>, base: Operand, index: Operand, b: Operand, i: Operand)
    requires PlainBindings(arr) && PlainBindings(tmp) && IsVar(base) && IsVar(index) && VarOf(base) == VarOf(index)
    requires base.tag == TagEax && index.tag == TagEax && Getval(arr, index).None?
    requires b.Plain? && i.Plain? && FieldValue(arr + tmp, base) == Some(b.val) && Coherent(base, b)
             && Coherent(index, i)
    requires base.kind == Reg
    ensures Agreeing(tmp, index, i)
  {
    KeysOfTwo(arr, tmp);
    GetvalExtends(arr, tmp, index);
    OneVariable(arr + tmp, base, index);
  }

  lemma EmptyBuilt()
    ensures Built([])
  {
  }

  /** A field that binds its variable has a coherent value. */
  lemma BoundCoherent(arr: seq<Binding>, tmp: seq<Binding>, t: Operand, o: Operand)
    requires t.Plain? && o.Plain? && IsVar(t) && MatchField(arr, tmp, t, o).Some? && Getval(arr, t).None?
    ensures Coherent(t, o)
  {
  }

  /** What the index of a memory operand that does not split may rely on. */
  lemma IndexReady(arr: seq<Binding>, t1: seq<Binding>, t2: seq<Binding>, f1: Operand, f2: Operand, f3: Operand,
                   o2: Operand, o3: Operand)
    requires PlainBindings(arr) && PlainBindings(t2) && f1.Plain? && f1.kind != Reg && IsReg(f2) && IsReg(f3)
    requires o2.Plain? && o3.Plain? && MatchField(arr, t1, f2, o2) == Some(t2) && MatchField(arr, t2, f3, o3).Some?
    requires Keys(t2) <= FieldVars(f1) + FieldVars(f2) && FieldValue(arr + t2, f2) == Some(o2.val)
    requires Doubled(f2, f3, Keys(arr)) ==> f2.tag == TagEax && f3.tag == TagEax
    ensures IsVar(f3) && Getval(arr, f3).None? ==> Agreeing(t2, f3, o3)
  {
    if IsVar(f3) && Getval(arr, f3).None? {
      GetvalKeys(arr, f3);
      if IsVar(f2) && VarOf(f2) == VarOf(f3) {
        GetvalKeys(arr, f2);
        BoundCoherent(arr, t1, f2, o2);
        BoundCoherent(arr, t2, f3, o3);
        IndexAgrees(arr, t2, f2, f3, o2, o3);
      } else {
        NotAmong(t2, FieldVars(f1) + FieldVars(f2), f3, o3);
      }
    }
  }

  /** A matched memory operand is its template's instance. */
  lemma MemSound(arr: seq<Binding>, op: Operand, t: Operand)
    requires op.Mem? && t.Mem? && op.size == t.size && Concrete(op) && TemplateOk(t) && Built(arr)
    requires MatchMem(arr, op, t).Some? && !Splits(t, Keys(arr))
    ensures var arr' := MatchMem(arr, op, t).value;
            arr <= arr' && Built(arr') && Subst(arr', t) == Some(op)
  {
    hide BindingsOk, AllCoherent, Fitting, PlainBindings, MatchField, FieldValue, RegNumber, Keys, FieldVars,
      Agreeing, Doubled;
    var f1, f2, f3, f4 :=
      SegField(t.mem, t.tags), BaseField(t.mem, t.tags), IndexField(t.mem, t.tags), DispField(t.mem, t.tags);
    var o1, o2, o3, o4 := SegField(op.mem, op.tags), BaseField(op.mem, op.tags), IndexField(op.mem, op.tags),
                          DispField(op.mem, op.tags);
    var t1 := MatchField(arr, [], f1, o1).value;
    var t2 := MatchField(arr, t1, f2, o2).value;
    var t3 := MatchField(arr, t2, f3, o3).value;
    var t4 := MatchField(arr, t3, f4, o4).value;
    assert arr + [] == arr;
    NoKeys();
    NotRegister(f1, o1);
    NotRegister(f4, o4);
    FieldKeys(arr, [], f1, o1);
    FieldKeys(arr, t1, f2, o2);
    FieldKeys(arr, t2, f3, o3);
    SegReady(f1, o1);
    FieldSound(arr, [], f1, o1);
    BaseReady(t1, f1, f2, o2);
    FieldSound(arr, t1, f2, o2);
    IndexReady(arr, t1, t2, f1, f2, f3, o2, o3);
    FieldSound(arr, t2, f3, o3);
    DispReady(arr, t3, f1, f2, f3, f4, o4);
    FieldSound(arr, t3, f4, o4);
    FieldStays(arr, t1, t2, f1);
    FieldStays(arr, t2, t3, f1);
    FieldStays(arr, t3, t4, f1);
    FieldStays(arr, t2, t3, f2);
    FieldStays(arr, t3, t4, f2);
    FieldStays(arr, t3, t4, f3);
  }

  lemma SegReady(t: Operand, o: Operand)
    requires o.Plain?
    ensures Agreeing([], t, o)
  {
  }

  lemma BaseReady(t1: seq<Binding>, f1: Operand, f2: Operand, o2: Operand)
    requires PlainBindings(t1) && f1.Plain? && f1.kind != Reg && IsReg(f2) && o2.Plain? && Keys(t1) <= FieldVars(f1)
    ensures IsVar(f2) ==> Agreeing(t1, f2, o2)
  {
    if IsVar(f2) {
      NotAmong(t1, FieldVars(f1), f2, o2);
    }
  }

  lemma DispReady(arr: seq<Binding>, t3: seq<Binding>, f1: Operand, f2: Operand, f3: Operand, f4: Operand, o4: Operand)
    requires PlainBindings(arr) && PlainBindings(t3) && f1.Plain? && IsReg(f2) && IsReg(f3) && f4.Plain?
             && f4.kind == Imm
    requires o4.Plain? && Keys(t3) <= FieldVars(f1) + FieldVars(f2) + FieldVars(f3) && !Doubled(f1, f4, Keys(arr))
    ensures IsVar(f4) && Getval(arr, f4).None? ==> Agreeing(t3, f4, o4)
  {
    if IsVar(f4) && Getval(arr, f4).None? {
      GetvalKeys(arr, f4);
      NotAmong(t3, FieldVars(f1) + FieldVars(f2) + FieldVars(f3), f4, o4);
    }
  }

  lemma NotRegister(t: Operand, o: Operand)
    requires t.Plain? && o.Plain? && t.kind != Reg && o.kind != Reg
    ensures RegNumber(t.kind, t.val) && RegNumber(o.kind, o.val)
  {
  }

  /** A matched operand is its template's instance, and the assignment stays well formed. */
  lemma OperandSound(arr: seq<Binding>, op: Operand, t: Operand)
    requires Concrete(op) && TemplateOk(t) && !Splits(t, Keys(arr)) && Built(arr) && MatchOperand(arr, op, t).Some?
    ensures var arr' := MatchOperand(arr, op, t).value;
            arr <= arr' && Built(arr') && Subst(arr', t) == Some(op)
  {
    if t.Mem? {
      MemSound(arr, op, t);
    } else if t.Plain? && t.tag != TagConst {
      GetvalKeys(arr, t);
      BindVariable(arr, t, op);
    }
  }

  lemma SubstStays(a: seq<Binding>, b: seq<Binding>, t: Operand)
    requires a <= b && Subst(a, t).Some?
    ensures Subst(b, t) == Subst(a, t)
  {
    SubstExtends(a, b[|a|..], t);
    assert a + b[|a|..] == b;
  }

  ghost predicate OpsInstance(arr: seq<Binding>, ops: seq<Operand>, ts: seq<Operand>)
    requires |ops| == |ts|
  {
    forall k :: 0 <= k < |ts| ==> Subst(arr, ts[k]) == Some(ops[k])
  }

  lemma {:induction false} OpsSound(arr: seq<Binding>, ops: seq<Operand>, ts: seq<Operand>)
    requires |ops| == |ts| && AllConcrete(ops) && AllOk(ts) && Built(arr) && MatchOps(arr, ops, ts).Some?
    requires SoundFrom(ts, Keys(arr))
    ensures var arr' := MatchOps(arr, ops, ts).value;
            arr <= arr' && Built(arr') && OpsInstance(arr', ops, ts)
    decreases |ops|
  {
    hide MatchOperand, Concrete, TemplateOk, Splits, VarSet, Keys, BindingsOk, AllCoherent, Fitting, Subst;
    if ops != [] {
      var a := MatchOperand(arr, ops[0], ts[0]).value;
      OperandKeys(arr, ops[0], ts[0]);
      OperandSound(arr, ops[0], ts[0]);
      OpsSound(a, ops[1..], ts[1..]);
      var arr' := MatchOps(arr, ops, ts).value;
      forall k | 0 <= k < |ts|
        ensures Subst(arr', ts[k]) == Some(ops[k])
      {
        if k == 0 {
          SubstStays(a, arr', ts[0]);
        } else {
          assert ts[1..][k - 1] == ts[k] && ops[1..][k - 1] == ops[k];
        }
      }
    }
  }

  /** The instructions are the template's instance under the assignment. */
  ghost predicate Instance(arr: seq<Binding>, insns: seq<Insn>, tmpl: seq<Insn>) {
    && |insns| == |tmpl| && SameOpcodes(insns, tmpl)
    && forall i, p :: 0 <= i < |tmpl| && 0 <= p < 3 ==> Subst(arr, tmpl[i].Op(p)) == Some(insns[i].Op(p))
  }

  lemma InstanceIsOps(arr: seq<Binding>, insns: seq<Insn>, tmpl: seq<Insn>)
    requires |insns| == |tmpl| && SameOpcodes(insns, tmpl)
    ensures Instance(arr, insns, tmpl) <==> OpsInstance(arr, Ops(insns), Ops(tmpl))
  {
    hide Subst;
    forall i, p | 0 <= i < |tmpl| && 0 <= p < 3
      ensures Ops(tmpl)[3 * i + p] == tmpl[i].Op(p) && Ops(insns)[3 * i + p] == insns[i].Op(p)
    {
      OpAt(tmpl, i, p);
      OpAt(insns, i, p);
    }
    if Instance(arr, insns, tmpl) {
      forall k | 0 <= k < |Ops(tmpl)|
        ensures Subst(arr, Ops(tmpl)[k]) == Some(Ops(insns)[k])
      {
        OpOf(tmpl, k);
        OpOf(insns, k);
      }
    }
    if OpsInstance(arr, Ops(insns), Ops(tmpl)) {
      forall i, p | 0 <= i < |tmpl| && 0 <= p < 3
        ensures Subst(arr, tmpl[i].Op(p)) == Some(insns[i].Op(p))
      {
        assert Subst(arr, Ops(tmpl)[3 * i + p]) == Some(Ops(insns)[3 * i + p]);
      }
    }
  }

  /** A match is sound, if no operand can give a variable a second value: every operand of every
      instruction is the template's with the bound values put in, the bound values satisfy the tags of
      their variables and the sizes of immediates, and the register bindings are what the choice of
      temporaries relies on. */
  lemma MatchIsSound(insns: seq<Insn>, tmpl: seq<Insn>)
    requires MatchInsns(insns, tmpl).Some? && InsnsConcrete(insns) && InsnsTemplateOk(tmpl) && NoSplit(tmpl)
    ensures var arr := MatchInsns(insns, tmpl).value;
            Instance(arr, insns, tmpl) && AllCoherent(arr) && BindingsOk(arr) && Fitting(arr)
  {
    hide Instance, OpsInstance, Concrete, TemplateOk, AllCoherent, BindingsOk, Fitting;
    FromIsOps([], insns, tmpl);
    OpsConcrete(insns);
    OpsOk(tmpl);
    NoKeys();
    EmptyBuilt();
    OpsSound([], Ops(insns), Ops(tmpl));
    InstanceIsOps(MatchInsns(insns, tmpl).value, insns, tmpl);
  }

  // ---------- templates that match too much ----------

  /** Two assignments in which every lookup gives the same. */
  ghost predicate Alike(a: seq<Binding>, b: seq<Binding>) {
    forall t :: Getval(a, t) == Getval(b, t)
  }

  lemma AlikeExtends(a: seq<Binding>, b: seq<Binding>, c: seq<Binding>)
    requires Alike(a, b)
    ensures Alike(a + c, b + c)
  {
    forall t
      ensures Getval(a + c, t) == Getval(b + c, t)
    {
      GetvalExtends(a, c, t);
      GetvalExtends(b, c, t);
    }
  }

  lemma AlikeField(a: seq<Binding>, b: seq<Binding>, tmp: seq<Binding>, t: Operand, o: Operand)
    requires Alike(a, b) && t.Plain? && o.Plain?
    ensures MatchField(a, tmp, t, o) == MatchField(b, tmp, t, o)
  {
  }

  lemma AlikeMem(a: seq<Binding>, b: seq<Binding>, op: Operand, t: Operand)
    requires Alike(a, b) && op.Mem? && t.Mem?
    ensures MatchMem(a, op, t).Some? <==> MatchMem(b, op, t).Some?
    ensures MatchMem(a, op, t).Some? ==> Alike(MatchMem(a, op, t).value, MatchMem(b, op, t).value)
  {
    hide MatchField, Alike;
    forall tmp, f: Operand, o: Operand | f.Plain? && o.Plain?
      ensures MatchField(a, tmp, f, o) == MatchField(b, tmp, f, o)
    {
      AlikeField(a, b, tmp, f, o);
    }
    forall c
      ensures Alike(a + c, b + c)
    {
      AlikeExtends(a, b, c);
    }
  }

  lemma AlikeOperand(a: seq<Binding>, b: seq<Binding>, op: Operand, t: Operand)
    requires Alike(a, b)
    ensures MatchOperand(a, op, t).Some? <==> MatchOperand(b, op, t).Some?
    ensures MatchOperand(a, op, t).Some? ==> Alike(MatchOperand(a, op, t).value, MatchOperand(b, op, t).value)
  {
    if op.Mem? && t.Mem? {
      AlikeMem(a, b, op, t);
    } else {
      AlikeExtends(a, b, [Whole(t, op)]);
    }
  }

  /** What matches does not depend on values that no lookup finds. */
  lemma {:induction false} AlikeOps(a: seq<Binding>, b: seq<Binding>, ops: seq<Operand>, ts: seq<Operand>)
    requires Alike(a, b) && |ops| == |ts|
    ensures MatchOps(a, ops, ts).Some? <==> MatchOps(b, ops, ts).Some?
    decreases |ops|
  {
    hide Alike, MatchOperand;
    if ops != [] {
      AlikeOperand(a, b, ops[0], ts[0]);
      if MatchOperand(a, ops[0], ts[0]).Some? {
        AlikeOps(MatchOperand(a, ops[0], ts[0]).value, MatchOperand(b, ops[0], ts[0]).value, ops[1..], ts[1..]);
      }
    }
  }

  /** A lookup of `t` stops at a binding of `v`. */
  predicate Hits(v: Operand, t: Operand) {
    OperandsEqual(v, t) || (IsReg(t) && IsReg(v) && t.val == v.val)
  }

  /** A lookup that a second binding would stop stops at the first one already. */
  lemma {:induction false} HitBefore(a: seq<Binding>, v: Operand, t: Operand)
    requires PlainBindings(a) && IsVar(v) && VarOf(v) in Keys(a) && Hits(v, t)
    ensures Getval(a, t).Some?
  {
    var i :| 0 <= i < |a| && a[i].v.Plain? && VarOf(a[i].v) == VarOf(v);
    if i > 0 {
      assert a[1..][i - 1] == a[i];
      HitBefore(a[1..], v, t);
    }
  }

  /** The value of a second binding is never found. */
  lemma ShadowedIsAlike(a: seq<Binding>, x: Binding, y: Binding)
    requires PlainBindings(a) && x.v == y.v && IsVar(x.v) && VarOf(x.v) in Keys(a)
    ensures Alike(a + [x], a + [y])
  {
    forall t
      ensures Getval(a + [x], t) == Getval(a + [y], t)
    {
      GetvalExtends(a, [x], t);
      GetvalExtends(a, [y], t);
      if Hits(x.v, t) {
        HitBefore(a, x.v, t);
      }
    }
  }

  /** A variable that stands in base and index has one tag. */
  predicate OneTag(t: Operand) {
    t.Mem? && IsVar(BaseField(t.mem, t.tags)) && IsVar(IndexField(t.mem, t.tags)) && t.mem.base == t.mem.index ==>
      t.tags.base == t.tags.index
  }

  /** Another register that satisfies the tag. */
  function Another(tag: Tag, v: int): (r: int)
    requires tag != TagEax && tag != TagConst
    ensures 0 <= r < NUM_REGS && r != v && Satisfies(r, tag)
  {
    match tag
    case TagVar => if v == 0 then 1 else 0
    case TagAbcd => if v == 0 then 1 else 0
    case TagNoEsp => if v == 0 then 1 else 0
    case TagNoEax => if v == 1 then 2 else 1
    case TagNoEaxEsp => if v == 1 then 2 else 1
    case TagNoCsGs => if v == 0 then 2 else 0
    case TagCsGs => if v == 1 then 5 else 1
  }

  lemma {:induction false} Pow256Positive(n: nat)
    ensures Pow256(n) >= 1 && (n > 0 ==> Pow256(n) >= 256)
  {
    if n > 0 {
      Pow256Positive(n - 1);
    }
  }

  /** The bindings of the four fields of a memory operand in turn. */
  ghost predicate MemSteps(arr: seq<Binding>, op: Operand, t: Operand, t1: seq<Binding>, t2: seq<Binding>,
                           t3: seq<Binding>, t4: seq<Binding>)
    requires op.Mem? && t.Mem?
  {
    && op.mem.addrsize == t.mem.addrsize && op.mem.isSel == t.mem.isSel && t.mem.scale == op.mem.scale
    && MatchField(arr, [], SegField(t.mem, t.tags), SegField(op.mem, op.tags)) == Some(t1)
    && MatchField(arr, t1, BaseField(t.mem, t.tags), BaseField(op.mem, op.tags)) == Some(t2)
    && MatchField(arr, t2, IndexField(t.mem, t.tags), IndexField(op.mem, op.tags)) == Some(t3)
    && MatchField(arr, t3, DispField(t.mem, t.tags), DispField(op.mem, op.tags)) == Some(t4)
  }

  lemma StepsOfMem(arr: seq<Binding>, op: Operand, t: Operand)
    returns (t1: seq<Binding>, t2: seq<Binding>, t3: seq<Binding>, t4: seq<Binding>)
    requires op.Mem? && t.Mem? && MatchMem(arr, op, t).Some?
    ensures MemSteps(arr, op, t, t1, t2, t3, t4) && MatchMem(arr, op, t) == Some(arr + t4)
  {
    hide MatchField;
    t1 := MatchField(arr, [], SegField(t.mem, t.tags), SegField(op.mem, op.tags)).value;
    t2 := MatchField(arr, t1, BaseField(t.mem, t.tags), BaseField(op.mem, op.tags)).value;
    t3 := MatchField(arr, t2, IndexField(t.mem, t.tags), IndexField(op.mem, op.tags)).value;
    t4 := MatchField(arr, t3, DispField(t.mem, t.tags), DispField(op.mem, op.tags)).value;
  }

  lemma MemOfSteps(arr: seq<Binding>, op: Operand, t: Operand, t1: seq<Binding>, t2: seq<Binding>, t3: seq<Binding>,
                   t4: seq<Binding>)
    requires op.Mem? && t.Mem? && MemSteps(arr, op, t, t1, t2, t3, t4)
    ensures MatchMem(arr, op, t) == Some(arr + t4)
  {
    hide MatchField;
  }

  lemma SplitKeys(arr: seq<Binding>, tmp: seq<Binding>, x: Binding, y: Binding, z: seq<Binding>)
    requires PlainBindings(arr) && PlainBindings(tmp) && x.v == y.v && IsVar(x.v) && VarOf(x.v) in Keys(arr) + Keys(tmp)
    ensures Alike(arr + (tmp + [x] + z), arr + (tmp + [y] + z))
  {
    hide PlainBindings, Keys, Alike;
    KeysOfTwo(arr, tmp);
    ShadowedIsAlike(arr + tmp, x, y);
    AlikeExtends(arr + tmp + [x], arr + tmp + [y], z);
    assert arr + (tmp + [x] + z) == arr + tmp + [x] + z;
    assert arr + (tmp + [y] + z) == arr + tmp + [y] + z;
  }

  /** An index in place of another one with the variable of the base. */
  lemma AlterIndex(arr: seq<Binding>, op: Operand, t: Operand) returns (op': Operand)
    requires op.Mem? && t.Mem? && Concrete(op) && TemplateOk(t) && PlainBindings(arr) && MatchMem(arr, op, t).Some?
    requires Doubled(BaseField(t.mem, t.tags), IndexField(t.mem, t.tags), Keys(arr))
    requires t.tags.base == t.tags.index != TagEax
    ensures op'.Mem? && op'.size == op.size && Concrete(op') && MatchMem(arr, op', t).Some?
    ensures Alike(MatchMem(arr, op, t).value, MatchMem(arr, op', t).value)
    ensures op'.mem.base != op'.mem.index
  {
    hide MatchField, MatchMem, Alike, PlainBindings, Keys;
    var t1, t2, t3, t4 := StepsOfMem(arr, op, t);
    op' := op.(mem := op.mem.(index := Another(t.tags.index, op.mem.base)));
    var m, g, m', g' := t.mem, t.tags, op.mem, op.tags;
    var base, index, b, i, i' := BaseField(m, g), IndexField(m, g), BaseField(m', g'), IndexField(m', g'),
                                 IndexField(op'.mem, g');
    IndexIsFree(arr, t1, base, index, b, i, i');
    NoKeys();
    FieldKeys(arr, [], SegField(m, g), SegField(m', g'));
    FieldKeys(arr, t1, base, b);
    var z := DispTail(arr, t3, t2 + [Whole(index, i')], DispField(m, g), DispField(m', g'));
    SplitKeys(arr, t2, Whole(index, i), Whole(index, i'), z);
    MemOfSteps(arr, op', t, t1, t2, t2 + [Whole(index, i')], t2 + [Whole(index, i')] + z);
  }

  /** What the last field appends does not depend on the fields before. */
  lemma DispTail(arr: seq<Binding>, tmp: seq<Binding>, tmp': seq<Binding>, t: Operand,
                 o: Operand) returns (z: seq<Binding>)
    requires t.Plain? && o.Plain? && MatchField(arr, tmp, t, o).Some?
    ensures MatchField(arr, tmp, t, o) == Some(tmp + z) && MatchField(arr, tmp', t, o) == Some(tmp' + z)
  {
    z := if IsVar(t) && Getval(arr, t).None? then [Whole(t, o)] else [];
    assert tmp + [] == tmp && tmp' + [] == tmp';
  }

  /** Nothing is compared when base and index name one unbound variable. */
  lemma IndexIsFree(arr: seq<Binding>, t1: seq<Binding>, base: Operand, index: Operand, b: Operand, i: Operand,
                    i': Operand)
    requires PlainBindings(arr) && IsReg(base) && IsReg(index) && Doubled(base, index, Keys(arr))
    requires b.Plain? && i.Plain? && MatchField(arr, t1, base, b).Some?
    requires var t2 := MatchField(arr, t1, base, b).value; MatchField(arr, t2, index, i).Some?
    requires i'.Plain? && i'.kind == Reg && i'.val != -1 && Satisfies(i'.val, index.tag)
    ensures MatchField(arr, t1, base, b).value == t1 + [Whole(base, b)]
    ensures var t2 := MatchField(arr, t1, base, b).value;
            && MatchField(arr, t2, index, i) == Some(t2 + [Whole(index, i)])
            && MatchField(arr, t2, index, i') == Some(t2 + [Whole(index, i')])
  {
    GetvalKeys(arr, base);
    GetvalKeys(arr, index);
  }

  /** A displacement in place of another one with the variable of the segment. */
  lemma AlterDisp(arr: seq<Binding>, op: Operand, t: Operand) returns (op': Operand)
    requires op.Mem? && t.Mem? && Concrete(op) && TemplateOk(t) && PlainBindings(arr) && MatchMem(arr, op, t).Some?
    requires Doubled(SegField(t.mem, t.tags), DispField(t.mem, t.tags), Keys(arr))
    ensures op'.Mem? && op'.size == op.size && Concrete(op') && MatchMem(arr, op', t).Some?
    ensures Alike(MatchMem(arr, op, t).value, MatchMem(arr, op', t).value)
    ensures op'.mem.seg != op'.mem.disp
  {
    hide MatchField, MatchMem, Alike, PlainBindings, Keys;
    var t1, t2, t3, t4 := StepsOfMem(arr, op, t);
    op' := op.(mem := op.mem.(disp := if op.mem.seg == 0 then 1 else 0));
    var m, g, m', g' := t.mem, t.tags, op.mem, op.tags;
    var seg, disp, o := SegField(m, g), DispField(m, g), SegField(m', g');
    var d, d' := DispField(m', g'), DispField(op'.mem, g');
    DispIsFree(arr, t3, seg, disp, o, d, d');
    NoKeys();
    FieldKeys(arr, [], seg, o);
    FieldKeys(arr, t1, BaseField(m, g), BaseField(m', g'));
    FieldKeys(arr, t2, IndexField(m, g), IndexField(m', g'));
    SplitKeys(arr, t3, Whole(disp, d), Whole(disp, d'), []);
    assert t3 + [Whole(disp, d)] + [] == t3 + [Whole(disp, d)] && t3 + [Whole(disp, d')] + [] == t3 + [Whole(disp, d')];
    MemOfSteps(arr, op', t, t1, t2, t3, t3 + [Whole(disp, d')]);
  }

  lemma DispIsFree(arr: seq<Binding>, t3: seq<Binding>, seg: Operand, disp: Operand, o: Operand, d: Operand,
                   d': Operand)
    requires PlainBindings(arr) && seg.Plain? && disp.Plain? && disp.kind == Imm && Doubled(seg, disp, Keys(arr))
    requires o.Plain? && d.Plain? && d.kind == Imm && d'.Plain? && d'.kind == Imm
    ensures MatchField(arr, t3, disp, d) == Some(t3 + [Whole(disp, d)])
    ensures MatchField(arr, t3, disp, d') == Some(t3 + [Whole(disp, d')])
  {
    GetvalKeys(arr, disp);
  }

  /** Another immediate for a variable with a size that is bound already. */
  lemma AlterImm(arr: seq<Binding>, op: Operand, t: Operand) returns (op': Operand)
    requires SizedImm(t) && Concrete(op) && PlainBindings(arr) && VarOf(t) in Keys(arr)
             && MatchOperand(arr, op, t).Some?
    ensures Concrete(op') && MatchOperand(arr, op', t).Some?
    ensures Alike(MatchOperand(arr, op, t).value, MatchOperand(arr, op', t).value)
    ensures Getval(arr, t).Some? && Getval(arr, t) != Some(op')
  {
    GetvalKeys(arr, t);
    Pow256Positive(t.size);
    op' := Plain(0, Imm, if Getval(arr, t).value.val == 0 then 1 else 0, TagConst);
    ShadowedIsAlike(arr, Whole(t, op), Whole(t, op'));
  }

  /** An operand that matches in place of another one, but does not fit the template: a memory operand is
      no instance of its template at all, an immediate differs from what its variable is bound to. */
  lemma AlterOperand(arr: seq<Binding>, op: Operand, t: Operand) returns (op': Operand)
    requires Concrete(op) && TemplateOk(t) && PlainBindings(arr) && MatchOperand(arr, op, t).Some?
    requires Splits(t, Keys(arr)) && OneTag(t)
    ensures Concrete(op') && MatchOperand(arr, op', t).Some?
    ensures Alike(MatchOperand(arr, op, t).value, MatchOperand(arr, op', t).value)
    ensures t.Mem? ==> forall a :: Subst(a, t) != Some(op')
    ensures !t.Mem? ==> SizedImm(t) && VarOf(t) in Keys(arr) && Getval(arr, t) != Some(op')
  {
    hide PlainBindings, Alike, Keys;
    match t
    case Plain(_, _, _, _) => op' := AlterImm(arr, op, t);
    case Mem(_, m, g) =>
      if Doubled(SegField(m, g), DispField(m, g), Keys(arr)) {
        op' := AlterDisp(arr, op, t);
        assert forall a :: FieldValue(a, SegField(m, g)) == FieldValue(a, DispField(m, g));
      } else {
        op' := AlterIndex(arr, op, t);
        assert forall a :: FieldValue(a, BaseField(m, g)) == FieldValue(a, IndexField(m, g));
      }
  }

  lemma OperandExtends(arr: seq<Binding>, op: Operand, t: Operand)
    requires MatchOperand(arr, op, t).Some?
    ensures arr <= MatchOperand(arr, op, t).value
  {
  }

  /** The assignment `a` gives another value than `arr` to some immediate variable with a size. */
  ghost predicate Disagrees(a: seq<Binding>, arr: seq<Binding>) {
    exists t :: SizedImm(t) && VarOf(t) in Keys(arr) && Getval(a, t) != Getval(arr, t)
  }

  lemma SizedInVarSet(t: Operand, x: Operand)
    requires SizedImm(x) && VarOf(x) in VarSet(t)
    ensures x == t
  {
  }

  lemma MatchSized(arr: seq<Binding>, op: Operand, t: Operand)
    requires SizedImm(t) && Concrete(op) && MatchOperand(arr, op, t).Some?
    ensures MatchOperand(arr, op, t) == Some(arr + [Binding(t, op)])
  {
  }

  lemma OneGetval(t: Operand, o: Operand)
    requires t.Plain?
    ensures Getval([Binding(t, o)], t) == Some(o)
  {
  }

  /** An immediate variable with a size that an operand binds is the operand, and has its value. */
  lemma NewImm(arr: seq<Binding>, op: Operand, t: Operand, x: Operand)
    requires Concrete(op) && TemplateOk(t) && PlainBindings(arr) && MatchOperand(arr, op, t).Some?
    requires SizedImm(x) && VarOf(x) in Keys(MatchOperand(arr, op, t).value) && VarOf(x) !in Keys(arr)
    ensures x == t && Getval(MatchOperand(arr, op, t).value, t) == Some(op)
  {
    hide MatchOperand, Keys, VarSet, Getval, TemplateOk, Concrete, PlainBindings;
    OperandKeys(arr, op, t);
    SizedInVarSet(t, x);
    MatchSized(arr, op, t);
    GetvalKeys(arr, t);
    GetvalExtends(arr, [Binding(t, op)], t);
    OneGetval(t, op);
  }

  /** What an assignment says otherwise than a match, it says otherwise than the match before the last
      operand, if it fits that one. */
  lemma ImmBound(arr: seq<Binding>, op: Operand, t: Operand, a: seq<Binding>)
    requires Concrete(op) && TemplateOk(t) && PlainBindings(arr) && MatchOperand(arr, op, t).Some?
    requires Subst(a, t) == Some(op) && Disagrees(a, MatchOperand(arr, op, t).value)
    ensures Disagrees(a, arr)
  {
    hide MatchOperand, Keys, TemplateOk, Concrete;
    var arr' := MatchOperand(arr, op, t).value;
    var x :| SizedImm(x) && VarOf(x) in Keys(arr') && Getval(a, x) != Getval(arr', x);
    if VarOf(x) !in Keys(arr) {
      NewImm(arr, op, t, x);
    } else {
      OperandExtends(arr, op, t);
      GetvalKeys(arr, x);
      GetvalExtends(arr, arr'[|arr|..], x);
      assert arr' == arr + arr'[|arr|..];
    }
  }

  ghost predicate AllOneTag(ts: seq<Operand>) {
    forall i :: 0 <= i < |ts| ==> OneTag(ts[i])
  }

  /** Operands that match a template which splits some variable, and are instances of it under no assignment
      that keeps the values found so far. */
  lemma {:induction false} SplitMatches(arr: seq<Binding>, ops: seq<Operand>,
                                        ts: seq<Operand>) returns (ops': seq<Operand>)
    requires |ops| == |ts| && AllConcrete(ops) && AllOk(ts) && AllOneTag(ts) && PlainBindings(arr)
    requires MatchOps(arr, ops, ts).Some? && !SoundFrom(ts, Keys(arr))
    ensures |ops'| == |ops| && AllConcrete(ops') && MatchOps(arr, ops', ts).Some?
    ensures forall a :: OpsInstance(a, ops', ts) ==> Disagrees(a, arr)
    decreases |ops|
  {
    hide MatchOperand, Concrete, TemplateOk, OneTag, Splits, VarSet, Keys, PlainBindings, Subst, Disagrees, Alike;
    var arr' := MatchOperand(arr, ops[0], ts[0]).value;
    if Splits(ts[0], Keys(arr)) {
      var op' := AlterOperand(arr, ops[0], ts[0]);
      AlikeOps(arr', MatchOperand(arr, op', ts[0]).value, ops[1..], ts[1..]);
      ops' := [op'] + ops[1..];
      forall a | OpsInstance(a, ops', ts)
        ensures Disagrees(a, arr)
      {
        assert Subst(a, ts[0]) == Some(ops'[0]);
        AlteredDisagrees(a, arr, op', ts[0]);
      }
    } else {
      OperandKeys(arr, ops[0], ts[0]);
      var rest := SplitMatches(arr', ops[1..], ts[1..]);
      ops' := [ops[0]] + rest;
      forall a | OpsInstance(a, ops', ts)
        ensures Disagrees(a, arr)
      {
        assert Subst(a, ts[0]) == Some(ops'[0]);
        forall k | 0 <= k < |rest|
          ensures Subst(a, ts[1..][k]) == Some(rest[k])
        {
          assert Subst(a, ts[k + 1]) == Some(ops'[k + 1]);
        }
        assert OpsInstance(a, rest, ts[1..]);
        ImmBound(arr, ops[0], ts[0], a);
      }
    }
    assert ops'[1..] == if Splits(ts[0], Keys(arr)) then ops[1..] else ops'[1..];
  }

  lemma AlteredDisagrees(a: seq<Binding>, arr: seq<Binding>, op': Operand, t: Operand)
    requires Subst(a, t) == Some(op') && (t.Mem? ==> forall b :: Subst(b, t) != Some(op'))
    requires !t.Mem? ==> SizedImm(t) && VarOf(t) in Keys(arr) && Getval(arr, t) != Some(op')
    ensures Disagrees(a, arr)
  {
  }

  /** The instructions with other operands. */
  function WithOps(insns: seq<Insn>, ops: seq<Operand>): (r: seq<Insn>)
    requires |ops| == 3 * |insns|
    ensures |r| == |insns|
    ensures forall i :: 0 <= i < |r| ==> r[i] == Insn(insns[i].opc, ops[3 * i], ops[3 * i + 1], ops[3 * i + 2])
  {
    seq(|insns|, i requires 0 <= i < |insns| => Insn(insns[i].opc, ops[3 * i], ops[3 * i + 1], ops[3 * i + 2]))
  }

  lemma OpsOfWithOps(insns: seq<Insn>, ops: seq<Operand>)
    requires |ops| == 3 * |insns|
    ensures Ops(WithOps(insns, ops)) == ops
    ensures AllConcrete(ops) ==> InsnsConcrete(WithOps(insns, ops))
  {
    forall k | 0 <= k < |ops|
      ensures Ops(WithOps(insns, ops))[k] == ops[k]
    {
      OpOf(WithOps(insns, ops), k);
      assert k == 3 * (k / 3) + k % 3;
    }
  }

  ghost predicate TemplateOneTag(tmpl: seq<Insn>) {
    forall i, p :: 0 <= i < |tmpl| && 0 <= p < 3 ==> OneTag(tmpl[i].Op(p))
  }

  lemma OpsOneTag(tmpl: seq<Insn>)
    requires TemplateOneTag(tmpl)
    ensures AllOneTag(Ops(tmpl))
  {
    forall k | 0 <= k < |Ops(tmpl)|
      ensures OneTag(Ops(tmpl)[k])
    {
      OpOf(tmpl, k);
    }
  }

  /** A template that can split a variable, and matches anything, matches something that is its instance
      under no assignment. */
  lemma SplitIsUnsound(insns: seq<Insn>, tmpl: seq<Insn>) returns (insns': seq<Insn>)
    requires InsnsConcrete(insns) && InsnsTemplateOk(tmpl) && TemplateOneTag(tmpl)
    requires MatchInsns(insns, tmpl).Some? && !NoSplit(tmpl)
    ensures InsnsConcrete(insns') && MatchInsns(insns', tmpl).Some? && forall a :: !Instance(a, insns', tmpl)
  {
    hide OpsInstance, Instance;
    FromIsOps([], insns, tmpl);
    OpsConcrete(insns);
    OpsOk(tmpl);
    OpsOneTag(tmpl);
    NoKeys();
    var ops' := SplitMatches([], Ops(insns), Ops(tmpl));
    insns' := WithOps(insns, ops');
    OpsOfWithOps(insns, ops');
    FromIsOps([], insns', tmpl);
    forall a
      ensures !Instance(a, insns', tmpl)
    {
      InstanceIsOps(a, insns', tmpl);
      assert !Disagrees(a, []);
    }
  }

  /** Matching is sound for a template, if anything matches it, exactly when no operand of the template can
      give a variable a second value. */
  lemma SoundIff(insns0: seq<Insn>, tmpl: seq<Insn>)
    requires InsnsTemplateOk(tmpl) && TemplateOneTag(tmpl) && InsnsConcrete(insns0) && MatchInsns(insns0, tmpl).Some?
    ensures (forall insns :: InsnsConcrete(insns) && MatchInsns(insns, tmpl).Some? ==>
                               Instance(MatchInsns(insns, tmpl).value, insns, tmpl))
       <==> NoSplit(tmpl)
  {
    if NoSplit(tmpl) {
      forall insns | InsnsConcrete(insns) && MatchInsns(insns, tmpl).Some?
        ensures Instance(MatchInsns(insns, tmpl).value, insns, tmpl)
      {
        MatchIsSound(insns, tmpl);
      }
    } else {
      var insns' := SplitIsUnsound(insns0, tmpl);
    }
  }

  // ---------- inputs that show it ----------

  function Reg4(r: int): Operand {
    Plain(4, Reg, r, TagConst)
  }

  function OneOperand(opc: int, o: Operand): Insn {
    Insn(opc, o, Invalid(0), Invalid(0))
  }

  /** The conditions on a template of one instruction. */
  lemma OneInsnTemplate(t: Insn)
    ensures NoPlainRepeat([t]) <==>
            Fresh(t.op0, {}) && Fresh(t.op1, VarSet(t.op0)) && Fresh(t.op2, VarSet(t.op0) + VarSet(t.op1))
    ensures NoSplit([t]) <==>
            !Splits(t.op0, {}) && !Splits(t.op1, VarSet(t.op0)) && !Splits(t.op2, VarSet(t.op0) + VarSet(t.op1))
  {
    hide Fresh, Splits, VarSet;
    var ts := Ops([t]);
    assert [t][1..] == [] && ts == [t.op0, t.op1, t.op2];
    assert ts[1..] == [t.op1, t.op2] && ts[1..][1..] == [t.op2] && ts[1..][1..][1..] == [];
    assert {} + VarSet(t.op0) == VarSet(t.op0);
    FirstCondition(ts, {});
    FirstCondition(ts[1..], VarSet(t.op0));
    FirstCondition(ts[1..][1..], VarSet(t.op0) + VarSet(t.op1));
    LastCondition(VarSet(t.op0) + VarSet(t.op1) + VarSet(t.op2));
  }

  lemma LastCondition(ks: set<Var>)
    ensures FreshFrom([], ks) && SoundFrom([], ks)
  {
  }

  lemma FirstCondition(ts: seq<Operand>, ks: set<Var>)
    requires ts != []
    ensures FreshFrom(ts, ks) <==> Fresh(ts[0], ks) && FreshFrom(ts[1..], ks + VarSet(ts[0]))
    ensures SoundFrom(ts, ks) <==> !Splits(ts[0], ks) && SoundFrom(ts[1..], ks + VarSet(ts[0]))
  {
  }

  /** A template with one register variable twice, although filled in it is an instruction with the same
      register twice, matches neither that nor anything else. */
  lemma RepeatedVariableFails(opc: int, r: int, tag: Tag)
    requires 0 <= r < NUM_REGS && tag != TagConst && Satisfies(r, tag)
    ensures var insns := [Insn(opc, Reg4(r), Reg4(r), Invalid(0))];
            var tmpl := [Insn(opc, Plain(4, Reg, 0, tag), Plain(4, Reg, 0, tag), Invalid(0))];
            && InsnsConcrete(insns) && InsnsTemplateOk(tmpl) && FilledIn(_ => r, insns, tmpl)
            && !NoPlainRepeat(tmpl) && forall other :: InsnsConcrete(other) ==> MatchInsns(other, tmpl).None?
  {
    var t := Insn(opc, Plain(4, Reg, 0, tag), Plain(4, Reg, 0, tag), Invalid(0));
    OneInsnTemplate(t);
    forall other | InsnsConcrete(other)
      ensures MatchInsns(other, [t]).None?
    {
      RepeatNeverMatches(other, [t]);
    }
  }

  /** Two variables of one memory operand are not compared with each other: a template whose base and
      index are the same variable matches different registers. */
  lemma RepeatedInMemoryUnsound(opc: int)
    ensures var t := OneOperand(opc, Operand.Mem(4, MemVal(4, true, 3, 0, 1, 0, 0),
                                                 MemTag(TagConst, TagConst, TagVar, TagVar, TagConst)));
            var insn := OneOperand(opc, Operand.Mem(4, MemVal(4, true, 3, 1, 1, 2, 0),
                                                    MemTag(TagConst, TagConst, TagConst, TagConst, TagConst)));
            && InsnsConcrete([insn]) && InsnsTemplateOk([t]) && !NoSplit([t])
            && MatchInsns([insn], [t]).Some? && forall a :: !Instance(a, [insn], [t])
  {
    var t := Operand.Mem(4, MemVal(4, true, 3, 0, 1, 0, 0), MemTag(TagConst, TagConst, TagVar, TagVar, TagConst));
    var op := Operand.Mem(4, MemVal(4, true, 3, 1, 1, 2, 0), MemTag(TagConst, TagConst, TagConst, TagConst, TagConst));
    var x := Plain(4, Reg, 0, TagVar);
    var arr := [Binding(x, Reg4(1)), Binding(x, Reg4(2))];
    assert [] + [arr[0]] == arr[..1];
    assert MatchField([], [], BaseField(t.mem, t.tags), BaseField(op.mem, op.tags)) == Some(arr[..1]);
    assert arr[..1] + [arr[1]] == arr;
    assert MatchField([], arr[..1], IndexField(t.mem, t.tags), IndexField(op.mem, op.tags)) == Some(arr);
    assert MatchOperand([], op, t) == Some([] + arr);
    FromOne([], OneOperand(opc, op), OneOperand(opc, t));
    OneInsnTemplate(OneOperand(opc, t));
    forall a
      ensures !Instance(a, [OneOperand(opc, op)], [OneOperand(opc, t)])
    {
      assert FieldValue(a, BaseField(t.mem, t.tags)) == FieldValue(a, IndexField(t.mem, t.tags));
      assert Subst(a, [OneOperand(opc, t)][0].Op(0)) != Some(op);
      assert [OneOperand(opc, op)][0].Op(0) == op;
    }
  }

  lemma FromOne(arr: seq<Binding>, insn: Insn, t: Insn)
    ensures MatchFrom(arr, [insn], [t]) == MatchInsn(arr, insn, t)
  {
    assert [insn][1..] == [] && [t][1..] == [];
  }

  /** An immediate variable with a size that comes again is not compared with its value. */
  lemma RepeatedImmUnsound(opc: int)
    ensures var c := Plain(1, Imm, 0, TagVar);
            var t := Insn(opc, c, c, Invalid(0));
            var insn := Insn(opc, Plain(0, Imm, 1, TagConst), Plain(0, Imm, 2, TagConst), Invalid(0));
            && InsnsConcrete([insn]) && InsnsTemplateOk([t]) && NoPlainRepeat([t]) && !NoSplit([t])
            && MatchInsns([insn], [t]).Some? && forall a :: !Instance(a, [insn], [t])
  {
    var c := Plain(1, Imm, 0, TagVar);
    var t := Insn(opc, c, c, Invalid(0));
    var insn := Insn(opc, Plain(0, Imm, 1, TagConst), Plain(0, Imm, 2, TagConst), Invalid(0));
    Pow256Positive(1);
    var a1 := [Binding(c, insn.op0)];
    assert [] + a1 == a1;
    assert MatchOperand([], insn.op0, c) == Some(a1);
    assert MatchOperand(a1, insn.op1, c) == Some(a1 + [Binding(c, insn.op1)]);
    FromOne([], insn, t);
    OneInsnTemplate(t);
    forall a
      ensures !Instance(a, [insn], [t])
    {
      assert Subst(a, [t][0].Op(0)) == Subst(a, [t][0].Op(1));
      assert [insn][0].Op(0) != [insn][0].Op(1);
    }
  }
}
