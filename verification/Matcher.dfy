/**
 The rule matcher (peep/peep.c): the loops over templates and instructions, and the search of the rule table.
 */
module Matcher {
  import opened Common
  import opened Insns
  import opened Assignments
  import opened Liveness
  import opened Temporaries
  import opened Unify
  import HashTable

  // ---------- the matching methods ----------

  /** The bindings fit the fixed array, after the operand; those of a memory operand leave one place free. */
  predicate OperandRoom(t: Operand, n: nat, ks: set<Var>) {
    n + NewBindings(t, ks) + (if t.Mem? then 1 else 0) <= MAX_VARIABLES
  }

  function InsnVarSet(t: Insn): set<Var> {
    VarSet(t.op0) + VarSet(t.op1) + VarSet(t.op2)
  }

  function InsnBindings(t: Insn, ks: set<Var>): nat {
    NewBindings(t.op0, ks) + NewBindings(t.op1, ks + VarSet(t.op0))
    + NewBindings(t.op2, ks + VarSet(t.op0) + VarSet(t.op1))
  }

  predicate InsnRoom(t: Insn, n: nat, ks: set<Var>) {
    && OperandRoom(t.op0, n, ks)
    && OperandRoom(t.op1, n + NewBindings(t.op0, ks), ks + VarSet(t.op0))
    && OperandRoom(t.op2, n + NewBindings(t.op0, ks) + NewBindings(t.op1, ks + VarSet(t.op0)),
                   ks + VarSet(t.op0) + VarSet(t.op1))
  }

  /** The C assertions on the number of bindings hold throughout a match, when `n` bindings for the variables
      `ks` are there. */
  predicate TemplateRoom(tmpl: seq<Insn>, n: nat, ks: set<Var>) {
    tmpl == []
    || (InsnRoom(tmpl[0], n, ks) && TemplateRoom(tmpl[1..], n + InsnBindings(tmpl[0], ks), ks + InsnVarSet(tmpl[0])))
  }

  class Peep {
    const assignments: Assignments
    const tmpAssignments: Assignments

    constructor ()
      ensures Valid() && fresh(assignments) && fresh(tmpAssignments)
    {
      assignments := new Assignments();
      tmpAssignments := new Assignments();
    }

    ghost predicate Valid() {
      assignments != tmpAssignments
    }

    /** The macro mem_match. */
    method MemMatch(t: Operand, o: Operand) returns (ok: bool)
      requires Valid() && t.Plain? && o.Plain? && PlainBindings(assignments.arr)
      requires |tmpAssignments.arr| + NewField(t, Keys(assignments.arr)) <= MAX_VARIABLES
      modifies tmpAssignments
      ensures var m := MatchField(assignments.arr, old(tmpAssignments.arr), t, o);
              (ok <==> m.Some?) && (ok ==> tmpAssignments.arr == m.value)
    {
      if t.tag == TagConst {
        return o.val == t.val;
      }
      if t.kind == Reg && o.val == -1 {
        return false;
      }
      GetvalKeys(assignments.arr, t);
      var tmpOp := assignments.GetvalOf(t);
      if tmpOp.Some? {
        return OperandsEqual(tmpOp.value, o);
      }
      if !Coherent(t, o) {
        return false;
      }
      tmpAssignments.Add(t, o);
      return true;
    }

    /** mem_operands_match */
    method MemOperandsMatch(op: Operand, t: Operand) returns (ok: bool)
      requires Valid() && op.Mem? && t.Mem? && PlainBindings(assignments.arr)
      requires OperandRoom(t, |assignments.arr|, Keys(assignments.arr))
      modifies assignments, tmpAssignments
      ensures var m := MatchMem(old(assignments.arr), op, t);
              (ok <==> m.Some?) && (ok ==> assignments.arr == m.value)
    {
      hide Keys, NewField, PlainBindings, MatchField;
      var m, g, m', g' := t.mem, t.tags, op.mem, op.tags;
      if m'.addrsize != m.addrsize || m'.isSel != m.isSel {
        return false;
      }
      tmpAssignments.Clear();
      ghost var arr := assignments.arr;
      NoKeys();
      ok := MemMatch(SegField(m, g), SegField(m', g'));
      if !ok {
        return;
      }
      FieldKeys(arr, [], SegField(m, g), SegField(m', g'));
      ghost var t1 := tmpAssignments.arr;
      ok := MemMatch(BaseField(m, g), BaseField(m', g'));
      if !ok {
        return;
      }
      FieldKeys(arr, t1, BaseField(m, g), BaseField(m', g'));
      ghost var t2 := tmpAssignments.arr;
      ok := MemMatch(IndexField(m, g), IndexField(m', g'));
      if !ok {
        return;
      }
      FieldKeys(arr, t2, IndexField(m, g), IndexField(m', g'));
      if m.scale != m'.scale {
        return false;
      }
      ghost var t3 := tmpAssignments.arr;
      ok := MemMatch(DispField(m, g), DispField(m', g'));
      if !ok {
        return;
      }
      FieldKeys(arr, t3, DispField(m, g), DispField(m', g'));
      assignments.Append(tmpAssignments);
    }

    /** operands_match */
    method OperandsMatch(op: Operand, t: Operand) returns (ok: bool)
      requires Valid() && TemplateOk(t) && PlainBindings(assignments.arr)
      requires OperandRoom(t, |assignments.arr|, Keys(assignments.arr))
      modifies assignments, tmpAssignments
      ensures var m := MatchOperand(old(assignments.arr), op, t);
              (ok <==> m.Some?) && (ok ==> assignments.arr == m.value)
    {
      if !SameType(op, t) {
        return false;
      }
      if op.size != t.size {
        if op.size == 0 && op.Plain? && op.kind == Imm && op.val < Pow256(t.size) {
          assignments.Add(t, op);
          return true;
        }
        return false;
      }
      match t
      case Invalid(_) =>
        return true;
      case Mem(_, _, _) =>
        ok := MemOperandsMatch(op, t);
      case Plain(_, _, _, tag) =>
        if tag == TagConst {
          return OperandsEqual(t, op);
        }
        var tmpOp := assignments.GetvalOf(t);
        if tmpOp.Some? {
          return false;
        }
        if Coherent(t, op) {
          assignments.Add(t, op);
          return true;
        }
        return false;
    }

    /** templ_matches_insn */
    method TemplMatchesInsn(insn: Insn, t: Insn) returns (ok: bool)
      requires Valid() && InsnTemplateOk(t) && PlainBindings(assignments.arr)
      requires InsnRoom(t, |assignments.arr|, Keys(assignments.arr))
      modifies assignments, tmpAssignments
      ensures var m := MatchInsn(old(assignments.arr), insn, t);
              (ok <==> m.Some?) && (ok ==> assignments.arr == m.value)
      ensures ok ==> PlainBindings(assignments.arr)
                     && |assignments.arr| == |old(assignments.arr)| + InsnBindings(t, Keys(old(assignments.arr)))
                     && Keys(assignments.arr) == Keys(old(assignments.arr)) + InsnVarSet(t)
    {
      hide MatchOperand, TemplateOk, NewBindings, VarSet, Keys, PlainBindings, OperandRoom;
      if insn.opc != t.opc {
        return false;
      }
      ghost var a0 := assignments.arr;
      ok := OperandsMatch(insn.op0, t.op0);
      if !ok {
        return;
      }
      OperandKeys(a0, insn.op0, t.op0);
      ghost var a1 := assignments.arr;
      ok := OperandsMatch(insn.op1, t.op1);
      if !ok {
        return;
      }
      OperandKeys(a1, insn.op1, t.op1);
      ghost var a2 := assignments.arr;
      ok := OperandsMatch(insn.op2, t.op2);
      if !ok {
        return;
      }
      OperandKeys(a2, insn.op2, t.op2);
    }

    /** templ_matches_insns */
    method TemplMatchesInsns(insns: seq<Insn>, tmpl: seq<Insn>) returns (ok: bool)
      requires Valid() && InsnsTemplateOk(tmpl) && TemplateRoom(tmpl, 0, {})
      modifies assignments, tmpAssignments
      ensures var m := MatchInsns(insns, tmpl);
              (ok <==> m.Some?) && (ok ==> assignments.arr == m.value)
    {
      hide MatchInsn, InsnTemplateOk, InsnBindings, InsnVarSet, InsnRoom, Keys, PlainBindings;
      assignments.Clear();
      NoKeys();
      if |insns| != |tmpl| {
        return false;
      }
      assert insns[0..] == insns && tmpl[0..] == tmpl;
      for i := 0 to |insns|
        invariant MatchFrom(assignments.arr, insns[i..], tmpl[i..]) == MatchInsns(insns, tmpl)
        invariant PlainBindings(assignments.arr)
        invariant TemplateRoom(tmpl[i..], |assignments.arr|, Keys(assignments.arr))
      {
        assert insns[i..][1..] == insns[i + 1..] && tmpl[i..][1..] == tmpl[i + 1..];
        ok := TemplMatchesInsn(insns[i], tmpl[i]);
        if !ok {
          return;
        }
      }
      return true;
    }
  }

  // ---------- the rule table ----------

  datatype Rule = Rule(name: int, tmpl: seq<Insn>, temporaries: seq<Tag>, pairs: seq<Pair>)

  function TypeNumber(op: Operand): nat {
    match op
    case Invalid(_) => 0
    case Mem(_, _, _) => 3
    case Plain(_, kind, _, _) =>
      match kind
      case Reg => 1
      case Seg => 2
      case Imm => 4
      case Pcrel => 5
      case Cr => 6
      case Db => 7
      case Tr => 8
      case Mmx => 9
      case Xmm => 10
      case D3now => 11
      case Prefix => 12
      case St => 13
  }

  function InsnHash(insn: Insn): int {
    insn.opc * 1601 + (TypeNumber(insn.op0) + TypeNumber(insn.op1) + TypeNumber(insn.op2)) * 487
  }

  function SumHash(insns: seq<Insn>): int {
    if insns == [] then 0 else InsnHash(insns[0]) + SumHash(insns[1..])
  }

  /** hash_insns, in 32-bit arithmetic. */
  function HashInsns(insns: seq<Insn>): nat {
    (|insns| * 313 + SumHash(insns)) % WORD
  }

  /** Operands have one type number exactly when they are of one type. */
  lemma TypeNumbersDiffer(a: Operand, b: Operand)
    ensures TypeNumber(a) == TypeNumber(b) <==> SameType(a, b)
  {
  }

  lemma {:induction false} SumAdds(a: seq<Insn>, b: seq<Insn>)
    ensures SumHash(a + b) == SumHash(a) + SumHash(b)
  {
    hide InsnHash;
    if a == [] {
      assert a + b == b;
    } else {
      assert (a + b)[1..] == a[1..] + b;
      SumAdds(a[1..], b);
    }
  }

  /** The hash value counts each opcode, each operand type and the length, wherever they stand. */
  lemma HashAdds(a: seq<Insn>, b: seq<Insn>)
    ensures HashInsns(a + b) == (HashInsns(a) + HashInsns(b)) % WORD
  {
    SumAdds(a, b);
    WordSum(|a| * 313 + SumHash(a), |b| * 313 + SumHash(b));
  }

  lemma WordSum(x: int, y: int)
    ensures (x % WORD + y % WORD) % WORD == (x + y) % WORD
  {
    var q := HashTable.Quotient(x % WORD + y % WORD, WORD);
    HashTable.Remainder(x + y, WORD, HashTable.Quotient(x, WORD) + HashTable.Quotient(y, WORD) + q,
                        (x % WORD + y % WORD) % WORD);
  }

  lemma SameWord(x: int, y: int)
    ensures x % WORD == y % WORD <==> (x - y) % WORD == 0
  {
    var q, q' := HashTable.Quotient(x, WORD), HashTable.Quotient(y, WORD);
    if x % WORD == y % WORD {
      HashTable.Remainder(x - y, WORD, q - q', 0);
    } else if (x - y) % WORD == 0 {
      HashTable.Remainder(x, WORD, HashTable.Quotient(x - y, WORD) + q', y % WORD);
    }
  }

  /** When the hash values of two instructions differ. */
  lemma OneInsnHashIff(a: Insn, b: Insn)
    ensures HashInsns([a]) == HashInsns([b]) <==>
            (1601 * (a.opc - b.opc)
             + 487 * (TypeNumber(a.op0) - TypeNumber(b.op0) + TypeNumber(a.op1) - TypeNumber(b.op1)
                      + TypeNumber(a.op2) - TypeNumber(b.op2))) % WORD == 0
  {
    SumOfOne(a);
    SumOfOne(b);
    SameWord(313 + InsnHash(a), 313 + InsnHash(b));
  }

  lemma SumOfOne(a: Insn)
    ensures SumHash([a]) == InsnHash(a)
  {
  }

  lemma {:induction false} MatchForcesSum(arr: seq<Binding>, insns: seq<Insn>, tmpl: seq<Insn>)
    requires |insns| == |tmpl| && MatchFrom(arr, insns, tmpl).Some?
    ensures SumHash(insns) == SumHash(tmpl)
    decreases |insns|
  {
    if insns != [] {
      MatchForcesSum(MatchInsn(arr, insns[0], tmpl[0]).value, insns[1..], tmpl[1..]);
    }
  }

  /** What matches hashes alike. */
  lemma MatchForcesHash(insns: seq<Insn>, tmpl: seq<Insn>)
    requires MatchInsns(insns, tmpl).Some?
    ensures HashInsns(insns) == HashInsns(tmpl)
  {
    MatchForcesSum([], insns, tmpl);
  }

  /** The rule applies: the CPU's constraints allow it and its template matches. */
  ghost predicate Usable(allowed: Rule -> bool, insns: seq<Insn>, r: Rule) {
    allowed(r) && MatchInsns(insns, r.tmpl).Some?
  }

  ghost predicate RuleOk(r: Rule) {
    && InsnsTemplateOk(r.tmpl) && TemplateRoom(r.tmpl, 0, {})
    && NoSplit(r.tmpl) && |r.temporaries| <= MAX_TEMPORARIES && PairsOk(r.pairs)
  }

  /** The buckets hold the entries, those of each bucket with the last one first. */
  ghost predicate FilledWith(tab: HashTable.Table<Rule>, entries: seq<Rule>)
    reads tab, tab.buckets
  {
    var n := tab.buckets.Length;
    n > 0 && tab.buckets[..] == HashTable.PushAll(RuleHash, HashTable.Empties(n), entries)
  }

  /** The rule is the last entry that is usable. */
  ghost predicate LastUsable(allowed: Rule -> bool, insns: seq<Insn>, entries: seq<Rule>, r: Rule) {
    exists i :: && 0 <= i < |entries| && entries[i] == r && Usable(allowed, insns, r)
                && forall m :: i < m < |entries| ==> !Usable(allowed, insns, entries[m])
  }

  /** The first usable rule of the bucket is the last usable entry of the table. */
  lemma FirstInBucketIsLast(tab: HashTable.Table<Rule>, entries: seq<Rule>, allowed: Rule -> bool, insns: seq<Insn>,
                                                 j: nat)
    requires tab.Valid() && FilledWith(tab, entries)
    requires var bucket := tab.buckets[tab.BucketOf(HashInsns(insns))];
             && j < |bucket| && Usable(allowed, insns, bucket[j])
             && forall m :: 0 <= m < j ==> !Usable(allowed, insns, bucket[m])
    ensures LastUsable(allowed, insns, entries, tab.buckets[tab.BucketOf(HashInsns(insns))][j])
  {
    hide MatchInsns, HashTable.And;
    var k, n := tab.BucketOf(HashInsns(insns)), tab.buckets.Length;
    HashTable.PushedOrder(RuleHash, entries, k, n);
    var usable := r => Usable(allowed, insns, r);
    var i := HashTable.FirstIsLast(RuleHash, entries, k, n, usable, j);
    forall m | i < m < |entries|
      ensures !Usable(allowed, insns, entries[m])
    {
      assert !usable(entries[m]) || RuleHash(entries[m]) != HashInsns(insns);
      if MatchInsns(insns, entries[m].tmpl).Some? {
        MatchForcesHash(insns, entries[m].tmpl);
      }
    }
  }

  /** The first entry makes the number of buckets a power of two. */
  lemma FirstEntry(hash: Rule -> nat, size: nat, e: Rule, n: nat)
    requires size > 0 && n > 0
    ensures HashTable.Resized(hash, HashTable.Fronted(hash, HashTable.Empties(size), e), n)
         == HashTable.PushAll(hash, HashTable.Empties(n), [e])
  {
    var b := HashTable.Empties<Rule>(size);
    var c := HashTable.Fronted(hash, b, e);
    HashTable.FlatEmpty(b);
    HashTable.FlatPush(b, HashTable.And(hash(e), size - 1), e);
    var flat := HashTable.Flat(c);
    assert |flat| == 1 && multiset(flat) == multiset{e};
    assert flat[0] in multiset(flat);
    assert flat == [e];
  }

  /** The buckets after the first `i` entries. */
  ghost predicate FilledTo(b: seq<seq<Rule>>, size: nat, entries: seq<Rule>, i: nat)
    requires size > 0 && i <= |entries|
  {
    if i == 0 then b == HashTable.Empties(size)
    else && |b| == HashTable.IdealCount(i, size) > 0
         && b == HashTable.PushAll(RuleHash, HashTable.Empties(|b|), entries[..i])
  }

  /** Only the first entry changes the number of buckets. */
  lemma EntryNext(size: nat, b: seq<seq<Rule>>, entries: seq<Rule>, i: nat)
    requires size > 0 && i < |entries| <= size && FilledTo(b, size, entries, i)
    ensures |b| > 0
    ensures FilledTo(HashTable.Resized(RuleHash, HashTable.Fronted(RuleHash, b, entries[i]),
                                       HashTable.IdealCount(i + 1, size)), size, entries, i + 1)
  {
    hide HashTable.Fronted, HashTable.Greatest;
    if i == 0 {
      FirstEntry(RuleHash, size, entries[0], HashTable.IdealCount(1, size));
      assert entries[..1] == [entries[0]];
    } else {
      assert entries[..i + 1][..i] == entries[..i];
    }
  }

  lemma AllFilled(b: seq<seq<Rule>>, size: nat, entries: seq<Rule>)
    requires size > 0 && FilledTo(b, size, entries, |entries|)
    ensures |b| > 0 && b == HashTable.PushAll(RuleHash, HashTable.Empties(|b|), entries)
  {
    HashTable.NothingPushed(RuleHash, HashTable.Empties<Rule>(size));
    assert entries[..|entries|] == entries;
  }

  /** One hash_insert of peep_init, whose comparison never finds anything equal. */
  method AddRule(tab: HashTable.Table<Rule>, r: Rule)
    requires tab.Valid() && tab.hash == RuleHash && tab.equal == NeverEqual
    modifies tab, tab.buckets
    ensures tab.Valid() && tab.Contents() == old(tab.Contents()) + multiset{r}
    ensures tab.buckets == old(tab.buckets) || fresh(tab.buckets)
    ensures tab.minBucketCount > 0 && tab.elemCnt == old(tab.elemCnt) + 1 && |old(tab.buckets[..])| > 0
    ensures tab.buckets[..] == HashTable.Resized(RuleHash, HashTable.Fronted(RuleHash, old(tab.buckets[..]), r),
                                                 HashTable.IdealCount(tab.elemCnt, tab.minBucketCount))
  {
    hide HashTable.Table.Contents;
    hide HashTable.Resized, HashTable.Fronted, HashTable.IdealCount, HashTable.Flat, HashTable.Placed;
    assert HashTable.Compatible(tab.hash, tab.equal);
    var found := tab.Insert(r);
  }

  function RuleHash(r: Rule): nat {
    HashInsns(r.tmpl)
  }

  /** peep_entry_equal */
  predicate NeverEqual(a: Rule, b: Rule) {
    false
  }

  /** peep_init: the table holds every entry, through every rehash on the way. */
  method PeepInit(entries: seq<Rule>) returns (tab: HashTable.Table<Rule>)
    ensures tab.Valid() && tab.Contents() == multiset(entries) && tab.hash == RuleHash && FilledWith(tab, entries)
  {
    hide HashTable.Table.Valid, HashTable.Table.Contents;
    hide HashTable.Resized, HashTable.Fronted, HashTable.PushAll, HashTable.IdealCount, HashTable.Empties, FilledTo;
    var size := if |entries| > 256 then |entries| else 256;
    tab := new HashTable.Table<Rule>(size, RuleHash, NeverEqual);
    NothingYet(size, entries);
    for i := 0 to |entries|
      invariant tab.Valid() && fresh(tab) && fresh(tab.buckets) && tab.Contents() == multiset(entries[..i])
      invariant tab.hash == RuleHash && tab.equal == NeverEqual && tab.minBucketCount == size && tab.elemCnt == i
      invariant FilledTo(tab.buckets[..], size, entries, i)
    {
      EntryNext(size, tab.buckets[..], entries, i);
      AddRule(tab, entries[i]);
      assert entries[..i + 1] == entries[..i] + [entries[i]];
    }
    assert entries[..|entries|] == entries;
    AllFilled(tab.buckets[..], size, entries);
  }

  lemma NothingYet(size: nat, entries: seq<Rule>)
    requires size > 0
    ensures FilledTo(HashTable.Empties(size), size, entries, 0)
  {
  }

  /** The scan of peep_translate.  It finds a usable rule exactly when the whole table has one,
      although it looks at one bucket only; the match that it leaves is the rule's. */
  method FindRule(tab: HashTable.Table<Rule>, p: Peep, insns: seq<Insn>,
                                       allowed: Rule -> bool) returns (r: Option<Rule>)
    requires tab.Valid() && tab.hash == RuleHash && p.Valid()
    requires forall x :: x in tab.Contents() ==> RuleOk(x)
    modifies p.assignments, p.tmpAssignments
    ensures r.None? ==> forall x :: x in tab.Contents() ==> !Usable(allowed, insns, x)
    ensures r.Some? ==>
              r.value in tab.Contents() && Usable(allowed, insns, r.value)
              && Some(p.assignments.arr) == MatchInsns(insns, r.value.tmpl)
    ensures r.Some? ==> forall entries :: FilledWith(tab, entries) ==> LastUsable(allowed, insns, entries, r.value)
  {
    hide HashTable.Table.Contents, MatchInsns, TemplateRoom, InsnsTemplateOk, NoSplit, PairsOk;
    var bucket := tab.buckets[tab.BucketOf(HashInsns(insns))];
    tab.InBucketOf(HashInsns(insns));
    for i := 0 to |bucket|
      invariant forall j :: 0 <= j < i ==> !Usable(allowed, insns, bucket[j])
      invariant tab.Contents() == old(tab.Contents())
    {
      var entry := bucket[i];
      assert entry in bucket && RuleOk(entry);
      if allowed(entry) {
        var ok := p.TemplMatchesInsns(insns, entry.tmpl);
        if ok {
          forall entries | FilledWith(tab, entries)
            ensures LastUsable(allowed, insns, entries, entry)
          {
            FirstInBucketIsLast(tab, entries, allowed, insns, i);
          }
          return Some(entry);
        }
      }
    }
    forall x | x in tab.Contents()
      ensures !Usable(allowed, insns, x)
    {
      if MatchInsns(insns, x.tmpl).Some? {
        MatchForcesHash(insns, x.tmpl);
        assert x in bucket;
      }
    }
    return None;
  }

  /** peep_translate up to the call of the generated code: a rule that applies, the registers of its
      variables, and registers for its temporaries.  The source only logs that none are left. */
  method PeepTranslate(tab: HashTable.Table<Rule>, p: Peep, insns: seq<Insn>, allowed: Rule -> bool)
    returns (r: Option<Rule>, ok: bool, temps: seq<int>)
    requires tab.Valid() && tab.hash == RuleHash && p.Valid()
    requires (forall x :: x in tab.Contents() ==> RuleOk(x)) && InsnsConcrete(insns)
    modifies p.assignments, p.tmpAssignments
    ensures r.None? ==> forall x :: x in tab.Contents() ==> !Usable(allowed, insns, x)
    ensures r.Some? ==> var arr := p.assignments.arr;
                        && r.value in tab.Contents() && Usable(allowed, insns, r.value)
                        && Instance(arr, insns, r.value.tmpl) && AllCoherent(arr) && BindingsOk(arr)
                        && Chosen(temps, r.value.temporaries, arr, r.value.pairs)
                        && (ok <==> |temps| == |r.value.temporaries|)
                        && temps == Greedy(AllCandidates(r.value.temporaries, arr, r.value.pairs),
                                           |r.value.temporaries|)
    ensures r.Some? ==> forall entries :: FilledWith(tab, entries) ==> LastUsable(allowed, insns, entries, r.value)
  {
    hide FilledWith, LastUsable, Usable, Greedy, AllCandidates, Instance, AllCoherent, BindingsOk, Chosen;
    hide HashTable.Table.Contents;
    ok, temps := false, [];
    r := FindRule(tab, p, insns, allowed);
    if r.Some? {
      MatchIsSound(insns, r.value.tmpl);
      ok, temps := FindTemporaryRegs(r.value.temporaries, p.assignments, r.value.pairs);
    }
  }

  // ---------- an input that shows the limits of a match ----------

  function TwoVariables(): Insn {
    Insn(1, Plain(4, Reg, 0, TagVar), Plain(4, Reg, 1, TagVar), Invalid(0))
  }

  function SameTwice(): Insn {
    Insn(1, Reg4(R_EAX), Reg4(R_EAX), Invalid(0))
  }

  lemma MatchesBoth()
    ensures InsnsConcrete([SameTwice()]) && InsnsTemplateOk([TwoVariables()])
    ensures NoSplit([TwoVariables()]) && NoPlainRepeat([TwoVariables()])
    ensures MatchInsns([SameTwice()], [TwoVariables()])
         == Some([Binding(TwoVariables().op0, Reg4(R_EAX)), Binding(TwoVariables().op1, Reg4(R_EAX))])
  {
    var insn, t := SameTwice(), TwoVariables();
    var a1 := [Binding(t.op0, insn.op0)];
    assert [] + a1 == a1;
    assert MatchOperand([], insn.op0, t.op0) == Some(a1);
    assert Getval(a1, t.op1).None? by {
      assert a1[1..] == [];
    }
    assert MatchOperand(a1, insn.op1, t.op1) == Some(a1 + [Binding(t.op1, insn.op1)]);
    assert a1 + [Binding(t.op1, insn.op1)] == [Binding(t.op0, insn.op0), Binding(t.op1, insn.op1)];
    FromOne([], insn, t);
    OneInsnTemplate(t);
  }

  lemma WrittenWhileLive(code: seq<Insn>)
    requires code == [WriteOnly(0), TwoVariables()]
    ensures CodeOk(code) && WritesVariables(code) && Conflict(code, V(0), V(1))
  {
    assert Use(code[1]) == {V(1)} && Def(code[0]) == {V(0)};
    assert Live(code, 1) == Live(code, 2) - Def(code[1]) + Use(code[1]);
    assert ConflictAt(code, 0, V(0), V(1));
  }

  /** A match may bind two variables that must not share a register to the same one: the template takes any
      two registers, the instruction has one twice, and output code that writes the first variable before it
      reads the second goes wrong. */
  lemma OneRegisterForTwo()
    ensures var code := [WriteOnly(0), TwoVariables()];
            var m := MatchInsns([SameTwice()], [TwoVariables()]);
            && InsnsConcrete([SameTwice()]) && InsnsTemplateOk([TwoVariables()]) && NoSplit([TwoVariables()])
            && CodeOk(code) && WritesVariables(code) && Conflict(code, V(0), V(1)) && m.Some?
            && Color(m.value, [], V(0)) == Color(m.value, [], V(1))
            && !AlwaysFaithful(code, x => Color(m.value, [], x), {})
  {
    MatchesBoth();
    var code := [WriteOnly(0), TwoVariables()];
    WrittenWhileLive(code);
    var arr := MatchInsns([SameTwice()], [TwoVariables()]).value;
    assert arr[1..][0] == arr[1];
    EveryPairIsNeeded(code, x => Color(arr, [], x), V(0), V(1), {});
  }
}
