/**
 Code templates with register fields (peepgen.c): the generator derives, bit by bit of each register
 number, what to set and to clear in a template's bytes, and the generated code applies it.
 */
module Patching {
  import opened Common
  import opened Insns

  const NUM_REGBITS: nat := 3

  /** Bit `i` of a register number. */
  predicate Bit(r: nat, i: nat)
    requires i < NUM_REGBITS
  {
    (if i == 0 then r else if i == 1 then r / 2 else r / 4) % 2 == 1
  }

  /** 1 << i */
  function Power(i: nat): (p: nat)
    requires i < NUM_REGBITS
    ensures p < NUM_REGS && forall k :: 0 <= k < NUM_REGBITS ==> (Bit(p, k) <==> k == i)
  {
    if i == 0 then 1 else if i == 1 then 2 else 4
  }

  /** Bitwise or of two bytes. */
  function Or(x: bv8, y: bv8): bv8 {
    x | y
  }

  // ---------- the assembler's encoding ----------

  /** How the assembler encodes `vars` register variables in `size` bytes: bit `i` of variable `v` is
      field number 3 v + i, and each field is some bits of each byte. */
  datatype Layout = Layout(size: nat, vars: nat, fixed: nat -> bv8, field: (nat, nat) -> bv8)
  {
    function Fields(): nat { NUM_REGBITS * vars }

    function Field(q: nat, b: nat): bv8 { field(q, b) }

    function Fixed(b: nat): bv8 { fixed(b) }

    /** No bit of a byte belongs to two fields, or to a field and the fixed part. */
    ghost predicate Disjoint() {
      && (forall p, q, b :: p != q ==> Field(p, b) & Field(q, b) == 0)
      && (forall q, b :: Field(q, b) & Fixed(b) == 0)
    }

    /** Byte `b` when just the chosen ones of the first `n` fields are set. */
    function Byte(sel: seq<bool>, n: nat, b: nat): bv8
      requires n <= |sel|
    {
      if n == 0 then Fixed(b) else Or(Byte(sel, n - 1, b), if sel[n - 1] then Field(n - 1, b) else 0)
    }

    function Bytes(sel: seq<bool>): (r: seq<bv8>)
      requires |sel| == Fields()
    {
      seq(size, b requires 0 <= b => Byte(sel, Fields(), b))
    }

    /** The fields that an assignment of registers sets. */
    function Select(regs: seq<nat>): (sel: seq<bool>)
      requires |regs| == vars
      ensures |sel| == Fields()
    {
      seq(Fields(), q requires 0 <= q < NUM_REGBITS * vars => Bit(regs[q / NUM_REGBITS], q % NUM_REGBITS))
    }

    /** The bytes assembled for an assignment. */
    function Assemble(regs: seq<nat>): seq<bv8>
      requires |regs| == vars
    {
      Bytes(Select(regs))
    }
  }

  lemma {:induction false} FieldIsOff(l: Layout, sel: seq<bool>, n: nat, q: nat, b: nat)
    requires l.Disjoint() && n <= |sel| && n <= q
    ensures l.Byte(sel, n, b) & l.Field(q, b) == 0
  {
    if n > 0 {
      FieldIsOff(l, sel, n - 1, q, b);
      assert l.Field(n - 1, b) & l.Field(q, b) == 0;
    } else {
      assert l.Field(q, b) & l.Fixed(b) == 0;
    }
  }

  /** A field of a byte is all there or all gone. */
  lemma {:induction false} FieldShows(l: Layout, sel: seq<bool>, n: nat, q: nat, b: nat)
    requires l.Disjoint() && q < n <= |sel|
    ensures l.Byte(sel, n, b) & l.Field(q, b) == if sel[q] then l.Field(q, b) else 0
  {
    if q == n - 1 {
      FieldIsOff(l, sel, n - 1, q, b);
    } else {
      FieldShows(l, sel, n - 1, q, b);
      assert l.Field(n - 1, b) & l.Field(q, b) == 0;
    }
  }

  lemma {:induction false} ByteSame(l: Layout, s: seq<bool>, t: seq<bool>, n: nat, b: nat)
    requires n <= |s| && n <= |t| && forall q :: 0 <= q < n ==> s[q] == t[q]
    ensures l.Byte(s, n, b) == l.Byte(t, n, b)
  {
    if n > 0 {
      ByteSame(l, s, t, n - 1, b);
    }
  }

  /** The bits `f` of a byte set or cleared. */
  function Patched(x: bv8, f: bv8, on: bool): bv8 {
    if on then x | f else x & !f
  }

  /** Setting the bits of a field, and clearing them, chooses and drops the field. */
  lemma {:induction false} SetField(l: Layout, sel: seq<bool>, n: nat, q: nat, on: bool, b: nat)
    requires l.Disjoint() && q < n <= |sel|
    ensures l.Byte(sel[q := on], n, b) == Patched(l.Byte(sel, n, b), l.Field(q, b), on)
  {
    hide Or, Patched, Layout.Disjoint, Layout.Byte, Layout.Field;
    var t, f := sel[q := on], l.Field(q, b);
    if q == n - 1 {
      ByteSame(l, sel, t, q, b);
      FieldIsOff(l, sel, q, q, b);
      PatchOwn(l.Byte(sel, q, b), f, on, sel[q]);
      Unfold(l, t, n, b);
      Unfold(l, sel, n, b);
    } else {
      SetField(l, sel, n - 1, q, on, b);
      Apart(l, n - 1, q, b);
      PatchOther(l.Byte(sel, n - 1, b), if sel[n - 1] then l.Field(n - 1, b) else 0, f, on);
      assert t[n - 1] == sel[n - 1];
      Unfold(l, t, n, b);
      Unfold(l, sel, n, b);
    }
  }

  lemma Unfold(l: Layout, sel: seq<bool>, n: nat, b: nat)
    requires 0 < n <= |sel|
    ensures l.Byte(sel, n, b) == Or(l.Byte(sel, n - 1, b), if sel[n - 1] then l.Field(n - 1, b) else 0)
  {
  }

  lemma Apart(l: Layout, p: nat, q: nat, b: nat)
    requires l.Disjoint() && p != q
    ensures l.Field(p, b) & l.Field(q, b) == 0 && 0 & l.Field(q, b) == 0
  {
  }

  lemma PatchOwn(x: bv8, f: bv8, on: bool, was: bool)
    requires x & f == 0
    ensures Patched(Or(x, if was then f else 0), f, on) == Or(x, if on then f else 0)
  {
  }

  lemma PatchOther(x: bv8, g: bv8, f: bv8, on: bool)
    requires g & f == 0
    ensures Or(Patched(x, f, on), g) == Patched(Or(x, g), f, on)
  {
  }

  // ---------- the generator ----------

  /** The bytes of a template assembled once for each available number of one register variable. */
  type Variants = seq<Option<seq<bv8>>>

  ghost predicate VariantsOk(code: Variants, size: nat) {
    |code| == NUM_REGS && forall r :: 0 <= r < NUM_REGS && code[r].Some? ==> |code[r].value| == size
  }

  /** Two available numbers that differ in bit `i` only, among the pairs that output_regbit_code looks at. */
  function FindPair(code: Variants, i: nat): (p: Option<nat>)
    requires |code| == NUM_REGS && i < NUM_REGBITS
    ensures p.Some? ==>
              p.value + Power(i) < NUM_REGS && !Bit(p.value, i) && code[p.value].Some? && code[p.value + Power(i)].Some?
  {
    if code[0].Some? && code[Power(i)].Some? then Some(0)
    else PairFrom(code, i, 0)
  }

  function PairFrom(code: Variants, i: nat, j: nat): (p: Option<nat>)
    requires |code| == NUM_REGS && i < NUM_REGBITS
    ensures p.Some? ==>
              p.value + Power(i) < NUM_REGS && !Bit(p.value, i) && code[p.value].Some? && code[p.value + Power(i)].Some?
    decreases NUM_REGBITS - j
  {
    if j >= NUM_REGBITS then None
    else if j != i && code[Power(j)].Some? && code[Power(j) + Power(i)].Some? then Some(Power(j))
    else PairFrom(code, i, j + 1)
  }

  lemma OneBitApart(r: nat, i: nat)
    requires i < NUM_REGBITS && r + Power(i) < NUM_REGS && !Bit(r, i)
    ensures Bit(r + Power(i), i) && forall k :: 0 <= k < NUM_REGBITS && k != i ==> (Bit(r + Power(i), k) <==> Bit(r, k))
  {
  }

  /** A selection of fields with those of variable `v` as register number `r` has them. */
  function WithReg(sel: seq<bool>, v: nat, r: nat): (t: seq<bool>)
    requires NUM_REGBITS * v + NUM_REGBITS <= |sel|
    ensures |t| == |sel|
  {
    sel[NUM_REGBITS * v := Bit(r, 0)][NUM_REGBITS * v + 1 := Bit(r, 1)][NUM_REGBITS * v + 2 := Bit(r, 2)]
  }

  /** The available variants are what the assembler makes of the template with one register changed. */
  ghost predicate Assembled(l: Layout, base: seq<bool>, v: nat, code: Variants)
    requires |base| == l.Fields() && v < l.vars
  {
    VariantsOk(code, l.size) && forall r :: 0 <= r < NUM_REGS && code[r].Some? ==>
                                              code[r].value == l.Bytes(WithReg(base, v, r))
  }

  /** Byte `b` is the same in all available variants. */
  ghost predicate Identical(code: Variants, size: nat, b: nat)
    requires VariantsOk(code, size) && b < size
  {
    forall r, s :: 0 <= r < NUM_REGS && 0 <= s < NUM_REGS && code[r].Some? && code[s].Some? ==>
                     code[r].value[b] == code[s].value[b]
  }

  /** is_identical_byte */
  method IsIdenticalByte(code: Variants, size: nat, b: nat) returns (same: bool)
    requires VariantsOk(code, size) && b < size
    ensures same <==> Identical(code, size, b)
  {
    var known: Option<bv8> := None;
    ghost var at := 0;
    for r := 0 to NUM_REGS
      invariant known.None? ==> forall k :: 0 <= k < r ==> code[k].None?
      invariant known.Some? ==> at < r && code[at].Some? && known.value == code[at].value[b]
      invariant known.Some? ==> forall k :: 0 <= k < r && code[k].Some? ==> code[k].value[b] == known.value
    {
      if code[r].Some? {
        if known.None? {
          known, at := Some(code[r].value[b]), r;
        } else if code[r].value[b] != known.value {
          return false;
        }
      }
    }
    return true;
  }

  /** Choosing a field adds its bits to a byte that has none of them. */
  lemma FieldAdds(l: Layout, sel: seq<bool>, q: nat, b: nat)
    requires l.Disjoint() && q < |sel| && !sel[q]
    ensures l.Byte(sel[q := true], |sel|, b) == Or(l.Byte(sel, |sel|, b), l.Field(q, b))
    ensures l.Byte(sel, |sel|, b) & l.Field(q, b) == 0
  {
    hide Layout.Disjoint, Layout.Byte, Layout.Field;
    SetField(l, sel, |sel|, q, true, b);
    FieldShows(l, sel, |sel|, q, b);
  }

  /** Two register numbers that differ in one bit differ in one field. */
  lemma PairTurnsField(sel: seq<bool>, v: nat, p: nat, i: nat)
    requires NUM_REGBITS * v + NUM_REGBITS <= |sel| && i < NUM_REGBITS && p + Power(i) < NUM_REGS && !Bit(p, i)
    ensures var q := NUM_REGBITS * v + i;
            WithReg(sel, v, p + Power(i)) == WithReg(sel, v, p)[q := true] && !WithReg(sel, v, p)[q]
  {
    OneBitApart(p, i);
    hide Bit, Power;
  }

  lemma VariantByte(l: Layout, base: seq<bool>, v: nat, code: Variants, r: nat, b: nat)
    requires |base| == l.Fields() && v < l.vars && Assembled(l, base, v, code)
    requires r < NUM_REGS && code[r].Some? && b < l.size
    ensures |code[r].value| == l.size && code[r].value[b] == l.Byte(WithReg(base, v, r), l.Fields(), b)
  {
    hide Layout.Byte, WithReg;
  }

  /** The difference of the two variants of a pair is the field of the bit. */
  lemma PairShowsField(l: Layout, base: seq<bool>, v: nat, code: Variants, i: nat, b: nat)
    requires l.Disjoint() && |base| == l.Fields() && v < l.vars && Assembled(l, base, v, code)
    requires i < NUM_REGBITS && FindPair(code, i).Some? && b < l.size
    ensures var p := FindPair(code, i).value;
            var reset, set' := code[p].value[b], code[p + Power(i)].value[b];
            set' == Or(reset, l.Field(NUM_REGBITS * v + i, b)) && reset & l.Field(NUM_REGBITS * v + i, b) == 0
  {
    hide Layout.Disjoint, Layout.Byte, Layout.Field, FindPair, Bit, Power, WithReg, Or;
    var p, q := FindPair(code, i).value, NUM_REGBITS * v + i;
    PairTurnsField(base, v, p, i);
    FieldAdds(l, WithReg(base, v, p), q, b);
    VariantByte(l, base, v, code, p, b);
    VariantByte(l, base, v, code, p + Power(i), b);
  }

  /** The mask that the generator computes from a pair. */
  function Xor(x: bv8, y: bv8): bv8 {
    x ^ y
  }

  /** The C assertions on a pair. */
  predicate PairOk(set': bv8, reset: bv8) {
    set' >= reset && Xor(set', reset) | set' == set' && Xor(set', reset) | reset == set'
  }

  lemma Difference(x: bv8, f: bv8)
    requires x & f == 0
    ensures Xor(Or(x, f), x) == f && PairOk(Or(x, f), x) && (Or(x, f) == x ==> f == 0)
  {
  }

  lemma MaskIsField(l: Layout, base: seq<bool>, v: nat, code: Variants, i: nat, b: nat)
    requires l.Disjoint() && |base| == l.Fields() && v < l.vars && Assembled(l, base, v, code)
    requires i < NUM_REGBITS && FindPair(code, i).Some? && b < l.size
    ensures var p := FindPair(code, i).value;
            var reset, set' := code[p].value[b], code[p + Power(i)].value[b];
            var field := l.Field(NUM_REGBITS * v + i, b);
            PairOk(set', reset) && Xor(set', reset) == field && (set' == reset ==> field == 0)
  {
    PairShowsField(l, base, v, code, i, b);
    Difference(code[FindPair(code, i).value].value[b], l.Field(NUM_REGBITS * v + i, b));
  }

  /** output_regbit_code: the bits of each byte that depend on bit `i` of the variable's register number,
      or nothing when no suitable pair of variants is there. */
  method RegbitCode(code: Variants, size: nat, i: nat, ghost l: Layout, ghost base: seq<bool>,
                    ghost v: nat) returns (masks: seq<bv8>)
    requires l.Disjoint() && |base| == l.Fields() && v < l.vars && Assembled(l, base, v, code) && size == l.size
             && i < NUM_REGBITS
    ensures |masks| == size || masks == []
    ensures size > 0 ==> (masks == [] <==> FindPair(code, i).None? && exists b :: 0 <= b < size &&
                                                                                  !Identical(code, size, b))
    ensures forall b :: 0 <= b < size ==>
                          (if masks == [] then 0 else masks[b]) ==
                          if FindPair(code, i).Some? then l.Field(NUM_REGBITS * v + i, b) else 0
  {
    hide Xor, PairOk, FindPair, Layout.Disjoint, Layout.Bytes, Layout.Field;
    masks := [];
    var pair := FindPair(code, i);
    for b := 0 to size
      invariant |masks| == b && (pair.None? ==> forall k :: 0 <= k < b ==> Identical(code, size, k))
      invariant forall k :: 0 <= k < b ==> masks[k] == if pair.Some? then l.Field(NUM_REGBITS * v + i, k) else 0
    {
      var same := IsIdenticalByte(code, size, b);
      if pair.Some? {
        MaskIsField(l, base, v, code, i, b);
      }
      if same {
        masks := masks + [0];
      } else {
        if pair.None? {
          return [];
        }
        var reset, set' := code[pair.value].value[b], code[pair.value + Power(i)].value[b];
        assert PairOk(set', reset);
        masks := masks + [Xor(set', reset)];
      }
    }
  }

  // ---------- the generated code ----------

  /** One byte of the two output buffers: the first `codeSize` bytes are in the code, the others in the edge. */
  ghost function Cell(code: array<bv8>, o: nat, edge: array<bv8>, e: nat, codeSize: nat, b: nat): bv8
    requires b < codeSize ==> o + b < code.Length
    requires b >= codeSize ==> e + b - codeSize < edge.Length
    reads code, edge
  {
    if b < codeSize then code[o + b] else edge[e + b - codeSize]
  }

  /** Only the `n` bytes from `at` on may differ. */
  ghost predicate SameBut(before: seq<bv8>, after: seq<bv8>, at: nat, n: nat) {
    |before| == |after| && forall k :: 0 <= k < |before| && !(at <= k < at + n) ==> after[k] == before[k]
  }

  /** The bytes of a buffer with `part` at `at`. */
  function Overlaid(buffer: seq<bv8>, at: nat, part: seq<bv8>): (r: seq<bv8>)
    requires at + |part| <= |buffer|
    ensures |r| == |buffer|
  {
    buffer[..at] + part + buffer[at + |part|..]
  }

  ghost predicate Room(code: array<bv8>, o: nat, edge: array<bv8>, e: nat, codeSize: nat, size: nat) {
    code != edge && codeSize <= size && o + codeSize <= code.Length && e + size - codeSize <= edge.Length
  }

  /** The two memcpy calls. */
  method CopyTemplate(code: array<bv8>, o: nat, edge: array<bv8>, e: nat, codeSize: nat, bytes: seq<bv8>)
    requires Room(code, o, edge, e, codeSize, |bytes|)
    modifies code, edge
    ensures forall b :: 0 <= b < |bytes| ==> Cell(code, o, edge, e, codeSize, b) == bytes[b]
    ensures SameBut(old(code[..]), code[..], o, codeSize)
    ensures SameBut(old(edge[..]), edge[..], e, |bytes| - codeSize)
  {
    for b := 0 to |bytes|
      invariant SameBut(old(code[..]), code[..], o, codeSize)
      invariant SameBut(old(edge[..]), edge[..], e, |bytes| - codeSize)
      invariant forall k :: 0 <= k < b ==> Cell(code, o, edge, e, codeSize, k) == bytes[k]
    {
      if b < codeSize {
        code[o + b] := bytes[b];
      } else {
        edge[e + b - codeSize] := bytes[b];
      }
    }
  }

  /** The statements generated for one bit of one register number, the bit being `on`. */
  method ApplyMasks(code: array<bv8>, o: nat, edge: array<bv8>, e: nat, codeSize: nat, size: nat, masks: seq<bv8>,
                    on: bool)
    requires Room(code, o, edge, e, codeSize, size) && |masks| == size
    modifies code, edge
    ensures forall b :: 0 <= b < size ==>
                          Cell(code, o, edge, e, codeSize, b) ==
                          Patched(old(Cell(code, o, edge, e, codeSize, b)), masks[b], on)
    ensures SameBut(old(code[..]), code[..], o, codeSize)
    ensures SameBut(old(edge[..]), edge[..], e, size - codeSize)
  {
    for b := 0 to size
      invariant SameBut(old(code[..]), code[..], o, codeSize)
      invariant SameBut(old(edge[..]), edge[..], e, size - codeSize)
      invariant forall k :: 0 <= k < size ==>
                              Cell(code, o, edge, e, codeSize, k) ==
                              if k < b then Patched(old(Cell(code, o, edge, e, codeSize, k)), masks[k], on)
                              else old(Cell(code, o, edge, e, codeSize, k))
    {
      PatchNothing(old(Cell(code, o, edge, e, codeSize, b)), on);
      if masks[b] != 0 {
        if b < codeSize {
          code[o + b] := Patched(code[o + b], masks[b], on);
        } else {
          edge[e + b - codeSize] := Patched(edge[e + b - codeSize], masks[b], on);
        }
      }
    }
  }

  lemma PatchNothing(x: bv8, on: bool)
    ensures Patched(x, 0, on) == x
  {
  }

  // ---------- a whole template ----------

  /** The pairs that the generator needs are there for field `q`. */
  predicate HasPair(variants: seq<Variants>, q: nat)
    requires q < NUM_REGBITS * |variants| && forall v :: 0 <= v < |variants| ==> |variants[v]| == NUM_REGS
  {
    FindPair(variants[q / NUM_REGBITS], q % NUM_REGBITS).Some?
  }

  ghost predicate AllAssembled(l: Layout, base: seq<bool>, variants: seq<Variants>) {
    |base| == l.Fields() && |variants| == l.vars && forall v :: 0 <= v < l.vars ==> Assembled(l, base, v, variants[v])
  }

  /** The fields after the patches: those with a pair as the registers have them, the others as in the template. */
  function PatchedFields(base: seq<bool>, variants: seq<Variants>, regs: seq<nat>): (sel: seq<bool>)
    requires |base| == NUM_REGBITS * |variants| && |regs| == |variants| && forall v :: 0 <= v < |variants| ==>
                                                                                         |variants[v]| == NUM_REGS
    ensures |sel| == |base|
  {
    seq(|base|, q requires 0 <= q < |base| =>
      if HasPair(variants, q) then Bit(regs[q / NUM_REGBITS], q % NUM_REGBITS) else base[q])
  }

  /** The first `q` fields are those of `goal`, the others those of `base`. */
  ghost predicate Between(base: seq<bool>, goal: seq<bool>, sel: seq<bool>, q: nat) {
    |sel| == |base| == |goal| && q <= |sel| && forall p :: 0 <= p < |sel| ==>
                                                             sel[p] == if p < q then goal[p] else base[p]
  }

  lemma PatchedNext(base: seq<bool>, variants: seq<Variants>, regs: seq<nat>, sel: seq<bool>, q: nat)
    requires |base| == NUM_REGBITS * |variants| && |regs| == |variants|
             && (forall v :: 0 <= v < |variants| ==> |variants[v]| == NUM_REGS)
    requires q < |base| && Between(base, PatchedFields(base, variants, regs), sel, q)
    ensures var on := Bit(regs[q / NUM_REGBITS], q % NUM_REGBITS);
            Between(base, PatchedFields(base, variants, regs),
                    if HasPair(variants, q) then sel[q := on] else sel, q + 1)
  {
    hide HasPair, Bit;
  }

  /** The patches cover the first `n` fields. */
  ghost predicate MasksOk(l: Layout, variants: seq<Variants>, masks: seq<seq<bv8>>, n: nat)
    requires |variants| == l.vars && n <= l.Fields() && forall v :: 0 <= v < |variants| ==> |variants[v]| == NUM_REGS
  {
    |masks| == n && forall q :: 0 <= q < n ==> MaskOk(l, variants, masks[q], q)
  }

  ghost predicate MaskOk(l: Layout, variants: seq<Variants>, mask: seq<bv8>, q: nat)
    requires |variants| == l.vars && q < l.Fields() && forall v :: 0 <= v < |variants| ==> |variants[v]| == NUM_REGS
  {
    && (|mask| == l.size || mask == [])
    && forall b :: 0 <= b < l.size ==>
                     (if mask == [] then 0 else mask[b]) == if HasPair(variants, q) then l.Field(q, b) else 0
  }

  /** output_register_variable_code: the patches of all variables, bit by bit. */
  method RegisterVariableCode(variants: seq<Variants>, ghost l: Layout, ghost base: seq<bool>,
                              size: nat) returns (masks: seq<seq<bv8>>)
    requires l.Disjoint() && AllAssembled(l, base, variants) && size == l.size
    ensures MasksOk(l, variants, masks, l.Fields())
  {
    hide Layout.Disjoint, FindPair;
    masks := [];
    for q := 0 to NUM_REGBITS * |variants|
      invariant MasksOk(l, variants, masks, q)
    {
      var v, i := q / NUM_REGBITS, q % NUM_REGBITS;
      var mask := RegbitCode(variants[v], size, i, l, base, v);
      assert MaskOk(l, variants, mask, q);
      masks := masks + [mask];
    }
  }

  /** One patch moves the output from one selection of fields to the next. */
  method ApplyBit(code: array<bv8>, o: nat, edge: array<bv8>, e: nat, codeSize: nat, mask: seq<bv8>, on: bool,
                  size: nat,
                  ghost l: Layout, ghost variants: seq<Variants>, ghost sel: seq<bool>, ghost q: nat)
    requires Room(code, o, edge, e, codeSize, size) && l.Disjoint() && size == l.size && |sel| == l.Fields()
             && q < l.Fields()
    requires |variants| == l.vars && (forall v :: 0 <= v < |variants| ==> |variants[v]| == NUM_REGS)
             && MaskOk(l, variants, mask, q)
    requires forall b :: 0 <= b < size ==> Cell(code, o, edge, e, codeSize, b) == l.Byte(sel, l.Fields(), b)
    modifies code, edge
    ensures var sel' := if HasPair(variants, q) then sel[q := on] else sel;
            forall b :: 0 <= b < size ==> Cell(code, o, edge, e, codeSize, b) == l.Byte(sel', l.Fields(), b)
    ensures SameBut(old(code[..]), code[..], o, codeSize)
    ensures SameBut(old(edge[..]), edge[..], e, size - codeSize)
  {
    hide Layout.Disjoint, Layout.Byte, Layout.Field, FindPair, Patched;
    forall b | 0 <= b < size
      ensures l.Byte(sel[q := on], l.Fields(), b) == Patched(l.Byte(sel, l.Fields(), b), l.Field(q, b), on)
      ensures Patched(l.Byte(sel, l.Fields(), b), 0, on) == l.Byte(sel, l.Fields(), b)
    {
      SetField(l, sel, l.Fields(), q, on, b);
      PatchNothing(l.Byte(sel, l.Fields(), b), on);
    }
    if mask != [] {
      ApplyMasks(code, o, edge, e, codeSize, size, mask, on);
    }
  }

  /** Once the two parts hold `bytes` and nothing else changed, the buffers are the old ones with these over them. */
  lemma PartsOverlaid(code: array<bv8>, o: nat, edge: array<bv8>, e: nat, codeSize: nat, bytes: seq<bv8>,
                      code0: seq<bv8>, edge0: seq<bv8>)
    requires Room(code, o, edge, e, codeSize, |bytes|)
    requires SameBut(code0, code[..], o, codeSize) && SameBut(edge0, edge[..], e, |bytes| - codeSize)
    requires forall b :: 0 <= b < |bytes| ==> Cell(code, o, edge, e, codeSize, b) == bytes[b]
    ensures code[..] == Overlaid(code0, o, bytes[..codeSize])
    ensures edge[..] == Overlaid(edge0, e, bytes[codeSize..])
  {
    forall k | 0 <= k < |edge0|
      ensures edge[k] == Overlaid(edge0, e, bytes[codeSize..])[k]
    {
      if e <= k < e + |bytes| - codeSize {
        assert Cell(code, o, edge, e, codeSize, k - e + codeSize) == bytes[k - e + codeSize];
      }
    }
    forall k | 0 <= k < |code0|
      ensures code[k] == Overlaid(code0, o, bytes[..codeSize])[k]
    {
      if o <= k < o + codeSize {
        assert Cell(code, o, edge, e, codeSize, k - o) == bytes[k - o];
      }
    }
  }

  /** The code generated for an entry: the template copied, then every bit of every register number patched, and
      the two output pointers moved on. */
  method EmitEntry(code: array<bv8>, o: nat, edge: array<bv8>, e: nat, codeSize: nat, bytes: seq<bv8>,
                   masks: seq<seq<bv8>>, regs: seq<nat>,
                   ghost l: Layout, ghost base: seq<bool>, ghost variants: seq<Variants>)
    returns (optr: nat, eptr: nat)
    requires Room(code, o, edge, e, codeSize, |bytes|) && l.Disjoint() && AllAssembled(l, base, variants)
    requires bytes == l.Bytes(base) && MasksOk(l, variants, masks, l.Fields()) && |regs| == l.vars
    modifies code, edge
    ensures optr == o + codeSize && eptr == e + l.size - codeSize
    ensures var out := l.Bytes(PatchedFields(base, variants, regs));
            && |out| == l.size && code[..] == Overlaid(old(code[..]), o, out[..codeSize])
            && edge[..] == Overlaid(old(edge[..]), e, out[codeSize..])
  {
    hide Layout.Disjoint, Layout.Byte, Layout.Bytes, Layout.Field, HasPair, PatchedFields, MaskOk, Cell, Bit, Overlaid;
    BytesAt(l, base);
    ghost var code0, edge0 := code[..], edge[..];
    CopyTemplate(code, o, edge, e, codeSize, bytes);
    ghost var sel, goal := base, PatchedFields(base, variants, regs);
    for q := 0 to |masks|
      invariant |sel| == l.Fields() && Between(base, goal, sel, q)
      invariant forall b :: 0 <= b < |bytes| ==> Cell(code, o, edge, e, codeSize, b) == l.Byte(sel, l.Fields(), b)
      invariant SameBut(code0, code[..], o, codeSize) && SameBut(edge0, edge[..], e, |bytes| - codeSize)
    {
      var on := Bit(regs[q / NUM_REGBITS], q % NUM_REGBITS);
      assert MaskOk(l, variants, masks[q], q);
      ApplyBit(code, o, edge, e, codeSize, masks[q], on, |bytes|, l, variants, sel, q);
      ghost var next := if HasPair(variants, q) then sel[q := on] else sel;
      PatchedNext(base, variants, regs, sel, q);
      sel := next;
    }
    assert sel == goal;
    BytesAt(l, goal);
    PartsOverlaid(code, o, edge, e, codeSize, l.Bytes(goal), code0, edge0);
    optr, eptr := o + codeSize, e + |bytes| - codeSize;
  }

  lemma BytesAt(l: Layout, sel: seq<bool>)
    requires |sel| == l.Fields()
    ensures |l.Bytes(sel)| == l.size && forall b :: 0 <= b < l.size ==> l.Bytes(sel)[b] == l.Byte(sel, l.Fields(), b)
  {
  }

  /** The patched bytes are the assembled ones exactly when every field that lacks a pair of variants
      is empty or as the registers want it in the template already. */
  lemma PatchedIsAssembled(l: Layout, base: seq<bool>, variants: seq<Variants>, regs: seq<nat>)
    requires l.Disjoint() && AllAssembled(l, base, variants) && |regs| == l.vars
    ensures l.Bytes(PatchedFields(base, variants, regs)) == l.Assemble(regs) <==>
            forall q :: 0 <= q < l.Fields() && !HasPair(variants, q) ==>
                          base[q] == l.Select(regs)[q] || EmptyField(l, q)
  {
    hide Layout.Disjoint, Layout.Byte, FindPair;
    var s, t, n := PatchedFields(base, variants, regs), l.Select(regs), l.Fields();
    if l.Bytes(s) == l.Bytes(t) {
      forall q | 0 <= q < n && !HasPair(variants, q)
        ensures base[q] == t[q] || EmptyField(l, q)
      {
        forall b | 0 <= b < l.size
          ensures s[q] == t[q] || l.Field(q, b) == 0
        {
          assert l.Bytes(s)[b] == l.Bytes(t)[b];
          FieldShows(l, s, n, q, b);
          FieldShows(l, t, n, q, b);
        }
      }
    }
    if forall q :: 0 <= q < n && !HasPair(variants, q) ==> base[q] == t[q] || EmptyField(l, q) {
      forall b | 0 <= b < l.size
        ensures l.Byte(s, n, b) == l.Byte(t, n, b)
      {
        SameButEmpty(l, s, t, n, b);
      }
    }
  }

  ghost predicate EmptyField(l: Layout, q: nat) {
    forall b :: 0 <= b < l.size ==> l.Field(q, b) == 0
  }

  lemma {:induction false} SameButEmpty(l: Layout, s: seq<bool>, t: seq<bool>, n: nat, b: nat)
    requires n <= |s| && n <= |t| && b < l.size && forall q :: 0 <= q < n ==> s[q] == t[q] || EmptyField(l, q)
    ensures l.Byte(s, n, b) == l.Byte(t, n, b)
  {
    if n > 0 {
      SameButEmpty(l, s, t, n - 1, b);
      assert s[n - 1] != t[n - 1] ==> l.Field(n - 1, b) == 0;
    }
  }

  /** An instruction of one byte whose low bits are the register number, as push has it. */
  function OneByte(): Layout {
    Layout(1, 1, _ => 0x50, (q, b) => if q == 0 then 1 else if q == 1 then 2 else if q == 2 then 4 else 0)
  }

  /** Assembled for the numbers 0 to 3 only, which is all that some operands can hold. */
  function FourVariants(): Variants {
    [Some([0x50]), Some([0x51]), Some([0x52]), Some([0x53]), None, None, None, None]
  }

  lemma OneByteIs(sel: seq<bool>)
    requires |sel| == 3
    ensures OneByte().Bytes(sel)
         == [(0x50 | if sel[0] then 1 else 0) | (if sel[1] then 2 else 0) | if sel[2] then 4 else 0]
  {
    var l := OneByte();
    Unfold(l, sel, 1, 0);
    Unfold(l, sel, 2, 0);
    Unfold(l, sel, 3, 0);
  }

  lemma OneByteDisjoint()
    ensures OneByte().Disjoint()
  {
  }

  lemma FourAssembled(base: seq<bool>)
    requires base == [false, false, false]
    ensures Assembled(OneByte(), base, 0, FourVariants())
  {
    hide Layout.Bytes, Bit;
    forall r | 0 <= r < 4
      ensures OneByte().Bytes(WithReg(base, 0, r)) == FourVariants()[r].value
    {
      OneByteIs(WithReg(base, 0, r));
      LowBits(r);
    }
  }

  lemma LowBits(r: nat)
    requires r < 4
    ensures Bit(r, 0) == (r == 1 || r == 3) && Bit(r, 1) == (r == 2 || r == 3) && !Bit(r, 2)
  {
  }

  lemma PairOfFour()
    ensures FindPair(FourVariants(), 2).None?
  {
    assert PairFrom(FourVariants(), 2, 3).None?;
    assert PairFrom(FourVariants(), 2, 2).None?;
  }

  /** Without a variant for a register above 3 there is no pair for bit 2: the code for register 4 comes
      out as that for register 0. */
  lemma NoPairFails()
    ensures var l, base, variants := OneByte(), [false, false, false], [FourVariants()];
            && l.Disjoint() && AllAssembled(l, base, variants) && !HasPair(variants, 2)
            && l.Bytes(PatchedFields(base, variants, [4])) == [0x50] && l.Assemble([4]) == [0x54]
  {
    hide Layout.Bytes, FindPair, Layout.Disjoint, Assembled;
    var l, base, variants := OneByte(), [false, false, false], [FourVariants()];
    OneByteDisjoint();
    FourAssembled(base);
    PairOfFour();
    OneByteIs(PatchedFields(base, variants, [4]));
    OneByteIs(l.Select([4]));
  }
}
