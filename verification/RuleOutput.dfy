/**
 From a matched rule to bytes (peepgen.c, peep/peep.c): the generator assembles a rule once for every
 register that each variable's tag allows, the matcher and the choice of temporaries keep to the tags, and
 so the patched bytes are those of the registers found.
 */
module RuleOutput {
  import opened Common
  import opened Insns
  import opened Assignments
  import opened Liveness
  import opened Temporaries
  import opened Patching

  // ---------- the generator ----------

  /** There is a variant for exactly the registers that the tag allows. */
  ghost predicate VariantsFor(code: Variants, tag: Tag) {
    |code| == NUM_REGS && forall r :: 0 <= r < NUM_REGS ==> (code[r].Some? <==> r in Numbers(tag))
  }

  /** The loop of generate_output_code over the registers of one variable; `assembled` is what the assembler
      makes of the text for each of them. */
  method OutputVariants(tag: Tag, assembled: seq<seq<bv8>>, ghost l: Layout, ghost base: seq<bool>, ghost v: nat)
    returns (code: Variants)
    requires |assembled| == NUM_REGS && |base| == l.Fields() && v < l.vars
    requires forall r :: 0 <= r < NUM_REGS ==> assembled[r] == l.Bytes(WithReg(base, v, r))
    ensures VariantsFor(code, tag) && Assembled(l, base, v, code)
  {
    hide Layout.Bytes, WithReg;
    code := [];
    for j := 0 to NUM_REGS
      invariant |code| == j
      invariant forall r :: 0 <= r < j ==> code[r] == if r in Numbers(tag) then Some(assembled[r]) else None
    {
      SatisfiesIff(j, tag);
      code := code + [if Satisfies(j, tag) then Some(assembled[j]) else None];
    }
    assert forall r :: 0 <= r < NUM_REGS ==> |l.Bytes(WithReg(base, v, r))| == l.size by {
      BytesLength(l, base, v);
    }
  }

  lemma BytesLength(l: Layout, base: seq<bool>, v: nat)
    requires |base| == l.Fields() && v < l.vars
    ensures forall r :: 0 <= r < NUM_REGS ==> |l.Bytes(WithReg(base, v, r))| == l.size
  {
  }

  /** Whatever the tag, each bit of a register number has a pair of variants, or is the same in all registers
      that the tag allows. */
  lemma PairOrFixed(code: Variants, tag: Tag, i: nat, r: nat, s: nat)
    requires VariantsFor(code, tag) && i < NUM_REGBITS
    requires r < NUM_REGS && s < NUM_REGS && r in Numbers(tag) && s in Numbers(tag)
    ensures FindPair(code, i).Some? || (Bit(r, i) <==> Bit(s, i))
  {
    if tag == TagEax || tag == TagAbcd || tag == TagCsGs {
      SmallTag(code, tag, i);
    } else {
      LargeTag(code, tag, i);
    }
  }

  lemma SmallTag(code: Variants, tag: Tag, i: nat)
    requires VariantsFor(code, tag) && i < NUM_REGBITS && (tag == TagEax || tag == TagAbcd || tag == TagCsGs)
    ensures tag == TagAbcd && i < 2 ==> FindPair(code, i).Some?
    ensures tag == TagCsGs && i == 2 ==> FindPair(code, i).Some?
  {
    assert tag == TagAbcd ==> code[0].Some? && code[1].Some? && code[2].Some?;
    assert tag == TagCsGs ==> code[1].Some? && code[5].Some?;
    assert tag == TagCsGs && i == 2 ==> PairFrom(code, i, 0) == Some(1);
  }

  lemma LargeTag(code: Variants, tag: Tag, i: nat)
    requires VariantsFor(code, tag) && i < NUM_REGBITS
    requires tag in {TagVar, TagNoEsp, TagNoEax, TagNoEaxEsp, TagNoCsGs}
    ensures FindPair(code, i).Some?
  {
    assert code[2].Some? && code[3].Some? && code[6].Some? && code[7].Some?;
    if tag == TagNoCsGs {
      assert code[0].Some? && code[4].Some?;
      assert i == 0 ==> PairFrom(code, 0, 0) == PairFrom(code, 0, 1) == Some(2);
    } else {
      assert code[1].Some? && code[5].Some?;
      assert i > 0 ==> PairFrom(code, i, 0) == Some(1);
      assert i == 0 ==> PairFrom(code, 0, 0) == PairFrom(code, 0, 1) == Some(2);
    }
  }

  // ---------- a rule's output ----------

  /** The output code of a rule: its encoding, the names and tags of its register variables, the registers of
      its root entry, and the variants. */
  datatype Entry = Entry(l: Layout, names: seq<Name>, tags: seq<Tag>, base: seq<nat>, variants: seq<Variants>)

  ghost predicate Allowed(e: Entry, regs: seq<nat>) {
    && |regs| == e.l.vars == |e.tags|
    && forall v :: 0 <= v < e.l.vars ==> regs[v] < NUM_REGS && regs[v] in Numbers(e.tags[v])
  }

  ghost predicate EntryOk(e: Entry) {
    && |e.names| == |e.variants| == e.l.vars && e.l.Disjoint() && Allowed(e, e.base)
    && (forall v :: 0 <= v < e.l.vars ==> VariantsFor(e.variants[v], e.tags[v]))
    && AllAssembled(e.l, e.l.Select(e.base), e.variants)
  }

  /** For registers that the tags allow, the patched bytes are the assembled ones. */
  lemma AllowedIsAssembled(e: Entry, regs: seq<nat>)
    requires EntryOk(e) && Allowed(e, regs)
    ensures e.l.Bytes(PatchedFields(e.l.Select(e.base), e.variants, regs)) == e.l.Assemble(regs)
  {
    hide Layout.Disjoint, Layout.Bytes, AllAssembled, FindPair, Bit, Numbers;
    var base := e.l.Select(e.base);
    forall q | 0 <= q < e.l.Fields() && !HasPair(e.variants, q)
      ensures base[q] == e.l.Select(regs)[q]
    {
      var v, i := q / NUM_REGBITS, q % NUM_REGBITS;
      PairOrFixed(e.variants[v], e.tags[v], i, e.base[v], regs[v]);
    }
    PatchedIsAssembled(e.l, base, e.variants, regs);
  }

  /** The variables of the output are bound by the match under the entry's tags, or are temporaries with them. */
  ghost predicate NamesFit(e: Entry, arr: seq<Binding>, tags: seq<Tag>) {
    |e.names| == |e.tags| && forall v :: 0 <= v < |e.names| ==> NameFits(e.names[v], e.tags[v], arr, tags)
  }

  ghost predicate NameFits(x: Name, tag: Tag, arr: seq<Binding>, tags: seq<Tag>) {
    match x
    case C(_) => false
    case V(n) => Bound(arr, n).Some? && forall i :: 0 <= i < |arr| && IsReg(arr[i].v) && arr[i].v.val == n ==>
                                                      arr[i].v.tag == tag
    case T(n) => n < |tags| && tags[n] == tag
  }

  /** The registers of the output's variables, from the match and the choice of temporaries. */
  function RegsOf(names: seq<Name>, arr: seq<Binding>, temps: seq<int>): (regs: seq<int>)
    ensures |regs| == |names| && forall v :: 0 <= v < |names| ==> regs[v] == Color(arr, temps, names[v])
  {
    seq(|names|, v requires 0 <= v < |names| => Color(arr, temps, names[v]))
  }

  /** What a match leaves and the choice adds is allowed by the tags. */
  lemma FoundIsAllowed(x: Name, tag: Tag, arr: seq<Binding>, temps: seq<int>, tags: seq<Tag>, ps: seq<Pair>)
    requires AllCoherent(arr) && BindingsOk(arr) && Chosen(temps, tags, arr, ps) && |temps| == |tags|
    requires NameFits(x, tag, arr, tags)
    ensures 0 <= Color(arr, temps, x) < NUM_REGS && Color(arr, temps, x) in Numbers(tag)
  {
    if x.V? {
      var i := BoundFrom(arr, x.n);
      assert Coherent(arr[i].v, arr[i].val);
      SatisfiesIff(arr[i].val.val, tag);
    }
  }

  /** The registers found for a matched rule. */
  ghost predicate Found(e: Entry, arr: seq<Binding>, temps: seq<int>, tags: seq<Tag>, ps: seq<Pair>) {
    && AllCoherent(arr) && BindingsOk(arr) && Chosen(temps, tags, arr, ps) && |temps| == |tags|
    && NamesFit(e, arr, tags)
  }

  lemma FoundAreAllowed(e: Entry, arr: seq<Binding>, temps: seq<int>, tags: seq<Tag>, ps: seq<Pair>)
    requires EntryOk(e) && Found(e, arr, temps, tags, ps)
    ensures var found := RegsOf(e.names, arr, temps);
            |found| == e.l.vars == |e.tags|
            && forall v :: 0 <= v < |found| ==> 0 <= found[v] < NUM_REGS && found[v] in Numbers(e.tags[v])
  {
    hide AllAssembled, VariantsFor, Numbers;
    var found := RegsOf(e.names, arr, temps);
    forall v | 0 <= v < |found|
      ensures 0 <= found[v] < NUM_REGS && found[v] in Numbers(e.tags[v])
    {
      FoundIsAllowed(e.names[v], e.tags[v], arr, temps, tags, ps);
    }
  }

  /** The register numbers found for a matched rule. */
  ghost function FoundRegs(e: Entry, arr: seq<Binding>, temps: seq<int>, tags: seq<Tag>, ps: seq<Pair>)
    : (regs: seq<nat>)
    requires EntryOk(e) && Found(e, arr, temps, tags, ps)
    ensures regs == RegsOf(e.names, arr, temps) && Allowed(e, regs)
  {
    FoundAreAllowed(e, arr, temps, tags, ps);
    RegsOf(e.names, arr, temps)
  }

  /** The two halves together.  The bytes emitted for a matched rule always are those that the assembler gives
      for the registers found, and with these registers the output computes with every meaning of its
      instructions what it would over separate cells exactly when the match kept apart the listed registers and
      variables, live names are apart from machine registers that are written, and nothing is written over a
      result. */
  lemma RuleIsRight(e: Entry, code: seq<Insn>, arr: seq<Binding>, temps: seq<int>, tags: seq<Tag>, ps: seq<Pair>,
                    results: set<Name>)
    returns (regs: seq<nat>)
    requires EntryOk(e) && Found(e, arr, temps, tags, ps) && PairsOk(ps)
    requires CodeOk(code) && forall x, y :: Listed(ps, x, y) <==> Conflict(code, x, y)
    requires forall x, y :: Listed(ps, x, y) && x.T? ==> x.n < |temps|
    ensures regs == RegsOf(e.names, arr, temps) && Allowed(e, regs)
    ensures e.l.Bytes(PatchedFields(e.l.Select(e.base), e.variants, regs)) == e.l.Assemble(regs)
    ensures var color := x => Color(arr, temps, x);
            AlwaysFaithful(code, color, results) <==>
            && (forall x, y :: Listed(ps, x, y) && !x.T? && !y.T? ==> Color(arr, [], x) != Color(arr, [], y))
            && MachineApart(code, color) && ResultsApart(code, color, results)
  {
    hide EntryOk, Conflict, Listed, AlwaysFaithful, MachineApart, ResultsApart, Layout.Bytes;
    regs := FoundRegs(e, arr, temps, tags, ps);
    assert |regs| == e.l.vars by {
      EntrySizes(e);
    }
    AllowedIsAssembled(e, regs);
    MatchedRuleFaithful(code, temps, tags, arr, ps, results);
  }

  lemma EntrySizes(e: Entry)
    requires EntryOk(e)
    ensures |e.names| == |e.variants| == |e.base| == e.l.vars
    ensures forall v :: 0 <= v < e.l.vars ==> |e.variants[v]| == NUM_REGS
  {
  }

  /** The generator's output for the entry: the bytes of the root entry and the masks of its variants. */
  ghost predicate Generated(e: Entry, bytes: seq<bv8>, masks: seq<seq<bv8>>) {
    && |e.base| == e.l.vars == |e.variants| && (forall v :: 0 <= v < e.l.vars ==> |e.variants[v]| == NUM_REGS)
    && bytes == e.l.Assemble(e.base) && MasksOk(e.l, e.variants, masks, e.l.Fields())
  }

  lemma EntryParts(e: Entry)
    requires EntryOk(e)
    ensures |e.names| == |e.base| == e.l.vars && e.l.Disjoint()
    ensures AllAssembled(e.l, e.l.Select(e.base), e.variants)
  {
  }

  // ---------- emission ----------

  /** A matched rule to be emitted: its entry, how many of its bytes are code, what the generator made of it, and
      the match with the choice of temporaries. */
  datatype Matched = Matched(entry: Entry, codeSize: nat, bytes: seq<bv8>, masks: seq<seq<bv8>>, arr: seq<Binding>,
                             temps: seq<int>, tags: seq<Tag>, pairs: seq<Pair>)

  ghost predicate MatchedOk(m: Matched) {
    && EntryOk(m.entry) && Found(m.entry, m.arr, m.temps, m.tags, m.pairs)
    && Generated(m.entry, m.bytes, m.masks) && m.codeSize <= m.entry.l.size
  }

  /** The rule's output as the assembler gives it for the registers found. */
  ghost function OutputOf(m: Matched): (r: seq<bv8>)
    requires MatchedOk(m)
    ensures |r| == m.entry.l.size
  {
    m.entry.l.Assemble(FoundRegs(m.entry, m.arr, m.temps, m.tags, m.pairs))
  }

  /** Its code bytes and its edge bytes. */
  ghost function CodeOf(m: Matched): (r: seq<bv8>)
    requires MatchedOk(m)
    ensures |r| == m.codeSize
  {
    OutputOf(m)[..m.codeSize]
  }

  ghost function EdgeOf(m: Matched): (r: seq<bv8>)
    requires MatchedOk(m)
    ensures m.codeSize + |r| == m.entry.l.size
  {
    OutputOf(m)[m.codeSize..]
  }

  /** The generated code of an entry, run for a matched rule: the rule's output, assembled for the registers found,
      comes at the two output pointers, and nothing else is written. */
  method EmitRule(out: array<bv8>, o: nat, edge: array<bv8>, p: nat, m: Matched) returns (optr: nat, eptr: nat)
    requires MatchedOk(m) && Room(out, o, edge, p, m.codeSize, m.entry.l.size)
    modifies out, edge
    ensures optr == o + m.codeSize && eptr == p + m.entry.l.size - m.codeSize
    ensures out[..] == Overlaid(old(out[..]), o, CodeOf(m))
    ensures edge[..] == Overlaid(old(edge[..]), p, EdgeOf(m))
  {
    hide EntryOk, AllAssembled, Layout.Bytes, Layout.Disjoint, MasksOk, Found, Overlaid;
    ghost var e := m.entry;
    ghost var found := FoundRegs(e, m.arr, m.temps, m.tags, m.pairs);
    var regs := RegsOf(m.entry.names, m.arr, m.temps);
    EntryParts(e);
    AllowedIsAssembled(e, found);
    BytesAt(e.l, e.l.Select(e.base));
    optr, eptr := EmitEntry(out, o, edge, p, m.codeSize, m.bytes, m.masks, regs, e.l, e.l.Select(e.base), e.variants);
  }

  /** The code bytes of rules emitted one after another. */
  ghost function CodeParts(ms: seq<Matched>): seq<bv8>
    requires forall k :: 0 <= k < |ms| ==> MatchedOk(ms[k])
  {
    if ms == [] then [] else CodeParts(ms[..|ms| - 1]) + CodeOf(ms[|ms| - 1])
  }

  ghost function EdgeParts(ms: seq<Matched>): seq<bv8>
    requires forall k :: 0 <= k < |ms| ==> MatchedOk(ms[k])
  {
    if ms == [] then [] else EdgeParts(ms[..|ms| - 1]) + EdgeOf(ms[|ms| - 1])
  }

  lemma OverlaidOn(buffer: seq<bv8>, at: nat, x: seq<bv8>, y: seq<bv8>)
    requires at + |x| + |y| <= |buffer|
    ensures Overlaid(Overlaid(buffer, at, x), at + |x|, y) == Overlaid(buffer, at, x + y)
  {
  }

  lemma {:induction false} PartsGrow(ms: seq<Matched>, n: nat)
    requires n <= |ms| && forall k :: 0 <= k < |ms| ==> MatchedOk(ms[k])
    ensures |CodeParts(ms[..n])| <= |CodeParts(ms)| && |EdgeParts(ms[..n])| <= |EdgeParts(ms)|
  {
    hide MatchedOk, CodeOf, EdgeOf;
    if n < |ms| {
      var front := ms[..|ms| - 1];
      assert front[..n] == ms[..n];
      PartsGrow(front, n);
    } else {
      assert ms[..n] == ms;
    }
  }

  lemma PartsNext(ms: seq<Matched>, n: nat)
    requires n < |ms| && forall k :: 0 <= k < |ms| ==> MatchedOk(ms[k])
    ensures CodeParts(ms[..n + 1]) == CodeParts(ms[..n]) + CodeOf(ms[n])
    ensures EdgeParts(ms[..n + 1]) == EdgeParts(ms[..n]) + EdgeOf(ms[n])
  {
    hide MatchedOk, CodeOf, EdgeOf;
    assert ms[..n + 1][..n] == ms[..n];
  }

  /** The emission loop of translate over instructions that match rules: the two output pointers run through the
      code and the edge buffer, which get the outputs of the rules one after another and nothing else. */
  method EmitRules(out: array<bv8>, o: nat, edge: array<bv8>, p: nat, ms: seq<Matched>) returns (optr: nat, eptr: nat)
    requires out != edge && forall k :: 0 <= k < |ms| ==> MatchedOk(ms[k])
    requires o + |CodeParts(ms)| <= out.Length && p + |EdgeParts(ms)| <= edge.Length
    modifies out, edge
    ensures optr == o + |CodeParts(ms)| && eptr == p + |EdgeParts(ms)|
    ensures out[..] == Overlaid(old(out[..]), o, CodeParts(ms))
    ensures edge[..] == Overlaid(old(edge[..]), p, EdgeParts(ms))
  {
    hide MatchedOk, CodeOf, EdgeOf, CodeParts, EdgeParts, Overlaid;
    ghost var out0, edge0 := out[..], edge[..];
    optr, eptr := o, p;
    NothingEmitted(out0, o, edge0, p);
    for n := 0 to |ms|
      invariant |CodeParts(ms[..n])| <= |CodeParts(ms)| && |EdgeParts(ms[..n])| <= |EdgeParts(ms)|
      invariant optr == o + |CodeParts(ms[..n])| && eptr == p + |EdgeParts(ms[..n])|
      invariant out[..] == Overlaid(out0, o, CodeParts(ms[..n]))
      invariant edge[..] == Overlaid(edge0, p, EdgeParts(ms[..n]))
    {
      PartsNext(ms, n);
      PartsGrow(ms, n + 1);
      OverlaidOn(out0, o, CodeParts(ms[..n]), CodeOf(ms[n]));
      OverlaidOn(edge0, p, EdgeParts(ms[..n]), EdgeOf(ms[n]));
      optr, eptr := EmitRule(out, optr, edge, eptr, ms[n]);
    }
    assert ms[..|ms|] == ms;
  }

  lemma NothingEmitted(out: seq<bv8>, o: nat, edge: seq<bv8>, p: nat)
    requires o <= |out| && p <= |edge|
    ensures CodeParts([]) == [] && EdgeParts([]) == [] && Overlaid(out, o, []) == out && Overlaid(edge, p, []) == edge
  {
  }
}
