/**
 The choice of registers for the temporaries of a matched rule (peep/peep.c).
 */
module Temporaries {
  import opened Common
  import opened Insns
  import opened Assignments
  import opened Liveness

  // ---------- the registers of a matched rule ----------

  /** The first register bound to variable `n`. */
  function Bound(arr: seq<Binding>, n: nat): Option<int> {
    if arr == [] then None
    else if IsReg(arr[0].v) && arr[0].v.val == n && arr[0].val.Plain? then Some(arr[0].val.val)
    else Bound(arr[1..], n)
  }

  /** What the matcher leaves: variables below TEMP_REG0, bound to machine registers, each to only one. */
  ghost predicate BindingsOk(arr: seq<Binding>) {
    && (forall i :: 0 <= i < |arr| && IsReg(arr[i].v) ==>
                      arr[i].val.Plain? && 0 <= arr[i].v.val < TEMP_REG0 && arr[i].v.tag != TagConst
                      && 0 <= arr[i].val.val < NUM_REGS)
    && (forall i, j :: 0 <= i < j < |arr| && IsReg(arr[i].v) && IsReg(arr[j].v) && arr[i].v.val == arr[j].v.val ==>
                         arr[i].val.val == arr[j].val.val)
  }

  lemma {:induction false} BoundAt(arr: seq<Binding>, i: nat)
    requires BindingsOk(arr) && i < |arr| && IsReg(arr[i].v)
    ensures Bound(arr, arr[i].v.val) == Some(arr[i].val.val)
  {
    if i > 0 {
      assert arr[1..][i - 1] == arr[i];
      BoundAt(arr[1..], i - 1);
    }
  }

  lemma {:induction false} BoundFrom(arr: seq<Binding>, n: nat) returns (i: nat)
    requires BindingsOk(arr) && Bound(arr, n).Some?
    ensures i < |arr| && IsReg(arr[i].v) && arr[i].v.val == n && arr[i].val.val == Bound(arr, n).value
  {
    if IsReg(arr[0].v) && arr[0].v.val == n && arr[0].val.Plain? {
      i := 0;
    } else {
      i := BoundFrom(arr[1..], n);
      i := i + 1;
    }
  }

  /** The machine register of every name; a variable the template does not bind has none. */
  function Color(arr: seq<Binding>, temps: seq<int>, x: Name): int {
    match x
    case C(n) => n
    case V(n) => (match Bound(arr, n) case Some(r) => r case None => NUM_REGS)
    case T(n) => if n < |temps| then temps[n] else NUM_REGS + 1
  }

  // ---------- the check of one register ----------

  /** A pair joins temporary `t` and some name, which already has the register `r`. */
  ghost predicate Taken(arr: seq<Binding>, ps: seq<Pair>, t: nat, r: int) {
    exists n, x {:trigger ps[n].Joins(T(t), x)} :: 0 <= n < |ps| && ps[n].Joins(T(t), x) && !x.T?
                                                   && Color(arr, [], x) == r
  }

  /** The machine registers in pairs exist, and no temporary is paired with itself. */
  ghost predicate PairsOk(ps: seq<Pair>) {
    PlainTags(ps) && forall n :: 0 <= n < |ps| ==>
                                   InRange(ps[n].reg1, ps[n].tag1) && InRange(ps[n].reg2, ps[n].tag2)
                                   && !(ps[n].reg1 == ps[n].reg2 && ps[n].tag1 == ps[n].tag2)
  }

  /** The loop over the bindings for one variable `otherval`. */
  method SomeBindingIs(assignments: Assignments, otherval: nat, reg: int) returns (found: bool)
    requires BindingsOk(assignments.arr)
    ensures found <==> Bound(assignments.arr, otherval) == Some(reg)
  {
    var indices := assignments.GetRegs();
    for k := 0 to |indices|
      invariant forall j :: 0 <= j < k ==>
                              !(assignments.arr[indices[j]].v.val == otherval
                                && assignments.arr[indices[j]].val.val == reg)
    {
      var i := indices[k];
      assert i in indices;
      if otherval == assignments.arr[i].v.val {
        if reg == assignments.arr[i].val.val {
          BoundAt(assignments.arr, i);
          return true;
        }
      }
    }
    if Bound(assignments.arr, otherval) == Some(reg) {
      ghost var i := BoundFrom(assignments.arr, otherval);
    }
    return false;
  }

  /** temp_assignment_violates_nomatch_pairs */
  method ViolatesPairs(tempno: nat, reg: int, assignments: Assignments, ps: seq<Pair>) returns (bad: bool)
    requires BindingsOk(assignments.arr) && PairsOk(ps) && tempno < MAX_TEMPORARIES && 0 <= reg < NUM_REGS
    ensures bad <==> Taken(assignments.arr, ps, tempno, reg)
  {
    for n := 0 to |ps|
      invariant !Taken(assignments.arr, ps[..n], tempno, reg)
    {
      var otherval: int, othertag := -1, TagConst;
      if ps[n].reg1 == TEMP_REG0 + tempno && ps[n].tag1 == TagVar {
        otherval, othertag := ps[n].reg2, ps[n].tag2;
      }
      if ps[n].reg2 == TEMP_REG0 + tempno && ps[n].tag2 == TagVar {
        otherval, othertag := ps[n].reg1, ps[n].tag1;
      }
      OtherOf(ps[n], tempno);
      if otherval != -1 {
        ghost var x := NameOf(otherval, othertag);
        assert ps[n].Joins(T(tempno), x);
        if othertag == TagConst {
          if otherval == reg {
            return true;
          }
        } else if otherval < TEMP_REG0 {
          bad := SomeBindingIs(assignments, otherval, reg);
          if bad {
            return true;
          }
        }
      }
      assert ps[..n + 1][..n] == ps[..n];
      TakenNext(assignments.arr, ps, n, tempno, reg);
    }
    assert ps[..|ps|] == ps;
    return false;
  }

  /** The one name that a pair joins with temporary `t`. */
  lemma OtherOf(p: Pair, t: nat)
    requires !(p.reg1 == p.reg2 && p.tag1 == p.tag2) && p.tag1 in {TagConst, TagVar} && p.tag2 in {TagConst, TagVar}
    ensures forall x :: p.Joins(T(t), x) ==>
                          (p.reg1 == TEMP_REG0 + t && p.tag1 == TagVar && x == NameOf(p.reg2, p.tag2))
                          || (p.reg2 == TEMP_REG0 + t && p.tag2 == TagVar && x == NameOf(p.reg1, p.tag1))
  {
  }

  lemma TakenNext(arr: seq<Binding>, ps: seq<Pair>, n: nat, t: nat, r: int)
    requires n < |ps|
    ensures Taken(arr, ps[..n + 1], t, r) <==>
            Taken(arr, ps[..n], t, r) || exists x :: ps[n].Joins(T(t), x) && !x.T? && Color(arr, [], x) == r
  {
    if Taken(arr, ps[..n + 1], t, r) {
      var k, x :| 0 <= k < n + 1 && ps[..n + 1][k].Joins(T(t), x) && !x.T? && Color(arr, [], x) == r;
      assert k < n ==> ps[..n][k].Joins(T(t), x);
    }
    if Taken(arr, ps[..n], t, r) {
      var k, x :| 0 <= k < n && ps[..n][k].Joins(T(t), x) && !x.T? && Color(arr, [], x) == r;
      assert ps[..n + 1][k].Joins(T(t), x);
    }
    if x :| ps[n].Joins(T(t), x) && !x.T? && Color(arr, [], x) == r {
      assert ps[..n + 1][n].Joins(T(t), x);
    }
  }

  // ---------- the choice ----------

  /** The registers chosen so far may stand: in range, of the right kind, different, and free of the pairs. */
  ghost predicate Chosen(temps: seq<int>, tags: seq<Tag>, arr: seq<Binding>, ps: seq<Pair>) {
    && |temps| <= |tags|
    && (forall j :: 0 <= j < |temps| ==>
                      0 <= temps[j] < NUM_REGS && temps[j] in Numbers(tags[j]) && !Taken(arr, ps, j, temps[j]))
    && (forall i, j :: 0 <= i < j < |temps| ==> temps[i] != temps[j])
  }

  /** Register `r` could be the next one. */
  ghost predicate Fits(temps: seq<int>, tags: seq<Tag>, arr: seq<Binding>, ps: seq<Pair>, r: int)
    requires |temps| < |tags|
  {
    r in Numbers(tags[|temps|]) && r !in temps && !Taken(arr, ps, |temps|, r)
  }

  /** The inner loop of find_temporary_regs: the highest register that fits, or -1. */
  method PickRegister(ghost temps: seq<int>, used: array<bool>, tag: Tag, assignments: Assignments, ps: seq<Pair>,
                      j: nat, ghost tags: seq<Tag>)
    returns (r: int)
    requires used.Length == NUM_REGS && forall k :: 0 <= k < NUM_REGS ==> (used[k] <==> k in temps)
    requires j == |temps| < |tags| && tags[j] == tag && j < MAX_TEMPORARIES
    requires BindingsOk(assignments.arr) && PairsOk(ps)
    ensures -1 <= r < NUM_REGS && (r >= 0 ==> Fits(temps, tags, assignments.arr, ps, r))
    ensures forall q :: r < q < NUM_REGS ==> !Fits(temps, tags, assignments.arr, ps, q)
  {
    r := NUM_REGS - 1;
    while r >= 0
      invariant -1 <= r < NUM_REGS
      invariant forall q :: r < q < NUM_REGS ==> !Fits(temps, tags, assignments.arr, ps, q)
    {
      SatisfiesIff(r, tag);
      if Satisfies(r, tag) && !used[r] {
        var bad := ViolatesPairs(j, r, assignments, ps);
        if !bad {
          return;
        }
      }
      r := r - 1;
    }
  }

  /** The registers that could be temporary `t`, whatever the others are. */
  ghost function Candidates(tags: seq<Tag>, arr: seq<Binding>, ps: seq<Pair>, t: nat): (c: set<int>)
    requires t < |tags|
  {
    set r | 0 <= r < NUM_REGS && r in Numbers(tags[t]) && !Taken(arr, ps, t, r)
  }

  ghost function AllCandidates(tags: seq<Tag>, arr: seq<Binding>, ps: seq<Pair>): (cs: seq<set<int>>)
    ensures |cs| == |tags| && Families(cs)
    ensures forall t :: 0 <= t < |tags| ==> cs[t] == Candidates(tags, arr, ps, t)
  {
    seq(|tags|, t requires 0 <= t < |tags| => Candidates(tags, arr, ps, t))
  }

  ghost predicate Families(cs: seq<set<int>>) {
    forall t, r :: 0 <= t < |cs| && r in cs[t] ==> 0 <= r < NUM_REGS
  }

  /** The highest register below `n` in the set, or -1. */
  ghost function HighestBelow(n: nat, c: set<int>): (r: int)
    ensures -1 <= r < n && (r >= 0 ==> r in c) && forall q :: r < q < n ==> q !in c
  {
    if n == 0 then -1 else if n - 1 in c then n - 1 else HighestBelow(n - 1, c)
  }

  ghost function Elements(s: seq<int>): set<int> {
    set r | r in s
  }

  /** The first `n` choices: of each set the highest register not chosen yet, up to a set that has none. */
  ghost function Greedy(cs: seq<set<int>>, n: nat): (s: seq<int>)
    requires n <= |cs|
    ensures |s| <= n
  {
    if n == 0 then []
    else
      var s := Greedy(cs, n - 1);
      var r := HighestBelow(NUM_REGS, cs[n - 1] - Elements(s));
      if |s| < n - 1 || r < 0 then s else s + [r]
  }

  /** find_temporary_regs.  Its registers are the greedy choice from the candidates; on success they may
      stand, on failure none is left for some temporary. */
  method FindTemporaryRegs(tags: seq<Tag>, assignments: Assignments, ps: seq<Pair>) returns (ok: bool, temps: seq<int>)
    requires |tags| <= MAX_TEMPORARIES && BindingsOk(assignments.arr) && PairsOk(ps)
    ensures Chosen(temps, tags, assignments.arr, ps)
    ensures if ok then |temps| == |tags|
            else |temps| < |tags| && forall r :: 0 <= r < NUM_REGS ==> !Fits(temps, tags, assignments.arr, ps, r)
    ensures temps == Greedy(AllCandidates(tags, assignments.arr, ps), |tags|)
  {
    hide Taken, Numbers, BindingsOk, PairsOk, Fits, Chosen, AllCandidates;
    var used := new bool[NUM_REGS](_ => false);
    temps := [];
    ghost var cs := AllCandidates(tags, assignments.arr, ps);
    NothingChosen(tags, assignments.arr, ps);
    for j := 0 to |tags|
      invariant |temps| == j && Chosen(temps, tags, assignments.arr, ps)
      invariant forall k :: 0 <= k < NUM_REGS ==> (used[k] <==> k in temps)
      invariant temps == Greedy(cs, j)
    {
      var r := PickRegister(temps, used, tags[j], assignments, ps, j, tags);
      PickIsHighest(tags, assignments.arr, ps, temps, r);
      if r < 0 {
        StaysStuck(cs, j + 1, |tags|);
        return false, temps;
      }
      ChosenNext(temps, tags, assignments.arr, ps, r);
      used[r] := true;
      temps := temps + [r];
    }
    return true, temps;
  }

  lemma NothingChosen(tags: seq<Tag>, arr: seq<Binding>, ps: seq<Pair>)
    ensures Chosen([], tags, arr, ps) && |AllCandidates(tags, arr, ps)| == |tags|
  {
  }

  lemma ChosenNext(temps: seq<int>, tags: seq<Tag>, arr: seq<Binding>, ps: seq<Pair>, r: int)
    requires Chosen(temps, tags, arr, ps) && |temps| < |tags| && 0 <= r < NUM_REGS && Fits(temps, tags, arr, ps, r)
    ensures Chosen(temps + [r], tags, arr, ps)
  {
  }

  /** What the inner loop picks is the highest candidate not chosen yet. */
  lemma PickIsHighest(tags: seq<Tag>, arr: seq<Binding>, ps: seq<Pair>, temps: seq<int>, r: int)
    requires |temps| < |tags| && -1 <= r < NUM_REGS && (r >= 0 ==> Fits(temps, tags, arr, ps, r))
    requires forall q :: r < q < NUM_REGS ==> !Fits(temps, tags, arr, ps, q)
    ensures r == HighestBelow(NUM_REGS, AllCandidates(tags, arr, ps)[|temps|] - Elements(temps))
  {
    var c := Candidates(tags, arr, ps, |temps|);
    assert forall q :: 0 <= q < NUM_REGS ==> (q in c - Elements(temps) <==> Fits(temps, tags, arr, ps, q));
    var h := HighestBelow(NUM_REGS, c - Elements(temps));
  }

  lemma {:induction false} StaysStuck(cs: seq<set<int>>, n: nat, m: nat)
    requires n <= m <= |cs| && |Greedy(cs, n)| < n
    ensures Greedy(cs, m) == Greedy(cs, n)
  {
    if n < m {
      StaysStuck(cs, n, m - 1);
    }
  }

  // ---------- when the choice succeeds ----------

  /** Every temporary gets a register. */
  ghost predicate Succeeds(cs: seq<set<int>>) {
    |Greedy(cs, |cs|)| == |cs|
  }

  /** The choice succeeds exactly when no candidate set lies within the registers chosen before it. */
  lemma SucceedsIff(cs: seq<set<int>>)
    requires Families(cs)
    ensures Succeeds(cs) <==> forall t :: 0 <= t < |cs| ==> !(cs[t] <= Elements(Greedy(cs, t)))
  {
    ReachesIff(cs, |cs|);
  }

  /** One more choice is made exactly when all before were and a candidate is left. */
  lemma ReachesNext(cs: seq<set<int>>, n: nat)
    requires Families(cs) && n < |cs|
    ensures |Greedy(cs, n + 1)| == n + 1 <==> |Greedy(cs, n)| == n && !(cs[n] <= Elements(Greedy(cs, n)))
    ensures |Greedy(cs, n + 1)| == n + 1 ==>
              Greedy(cs, n + 1) == Greedy(cs, n) + [HighestBelow(NUM_REGS, cs[n] - Elements(Greedy(cs, n)))]
  {
    var s := Greedy(cs, n);
    var r := HighestBelow(NUM_REGS, cs[n] - Elements(s));
    if r < 0 {
      forall q | q in cs[n]
        ensures q in Elements(s)
      {
        assert q !in cs[n] - Elements(s);
      }
    }
  }

  lemma {:induction false} ReachesIff(cs: seq<set<int>>, n: nat)
    requires Families(cs) && n <= |cs|
    ensures |Greedy(cs, n)| == n <==> forall t :: 0 <= t < n ==> !(cs[t] <= Elements(Greedy(cs, t)))
  {
    hide Greedy, Elements;
    if n > 0 {
      ReachesIff(cs, n - 1);
      ReachesNext(cs, n - 1);
    } else {
      assert |Greedy(cs, 0)| == 0;
    }
  }

  lemma {:induction false} FewElements(s: seq<int>)
    ensures |Elements(s)| <= |s|
  {
    if s == [] {
      assert Elements(s) == {};
    } else {
      FewElements(s[1..]);
      assert Elements(s) == {s[0]} + Elements(s[1..]);
    }
  }

  /** A temporary with more candidates than there are temporaries before it gets a register. */
  lemma EnoughCandidates(cs: seq<set<int>>)
    requires Families(cs) && forall t :: 0 <= t < |cs| ==> |cs[t]| > t
    ensures Succeeds(cs)
  {
    forall t | 0 <= t < |cs|
      ensures !(cs[t] <= Elements(Greedy(cs, t)))
    {
      FewElements(Greedy(cs, t));
      if cs[t] <= Elements(Greedy(cs, t)) {
        SubsetSize(cs[t], Elements(Greedy(cs, t)));
      }
    }
    SucceedsIff(cs);
  }

  lemma {:induction false} SubsetSize<X>(a: set<X>, b: set<X>)
    requires a <= b
    ensures |a| <= |b|
    decreases a
  {
    if a != {} {
      var x :| x in a;
      SubsetSize(a - {x}, b - {x});
    }
  }

  /** The `k` highest registers. */
  ghost function Highest(k: nat): (c: set<int>)
    requires k <= NUM_REGS
    ensures |c| == k && forall r :: r in c <==> NUM_REGS - k <= r < NUM_REGS
  {
    if k == 0 then {} else Highest(k - 1) + {NUM_REGS - k}
  }

  /** The sets are of registers and have the given sizes. */
  ghost predicate HasSizes(cs: seq<set<int>>, sizes: seq<nat>) {
    Families(cs) && |cs| == |sizes| && forall t :: 0 <= t < |cs| ==> |cs[t]| == sizes[t]
  }

  ghost function HighestOf(sizes: seq<nat>): (cs: seq<set<int>>)
    requires forall t :: 0 <= t < |sizes| ==> sizes[t] <= NUM_REGS
    ensures HasSizes(cs, sizes) && forall t :: 0 <= t < |sizes| ==> cs[t] == Highest(sizes[t])
  {
    seq(|sizes|, t requires 0 <= t < |sizes| => Highest(sizes[t]))
  }

  /** Of sets of highest registers, those chosen first are again the highest. */
  lemma {:induction false} GreedyTakesHighest(sizes: seq<nat>, n: nat)
    requires n <= |sizes| && forall t :: 0 <= t < |sizes| ==> sizes[t] <= NUM_REGS
    requires |Greedy(HighestOf(sizes), n)| == n
    ensures n <= NUM_REGS && Elements(Greedy(HighestOf(sizes), n)) == Highest(n)
  {
    hide Greedy, Highest, HighestBelow;
    var cs := HighestOf(sizes);
    if n > 0 {
      ReachesNext(cs, n - 1);
      GreedyTakesHighest(sizes, n - 1);
      TakesNext(cs[n - 1], sizes[n - 1], n - 1);
      assert Elements(Greedy(cs, n - 1) + [NUM_REGS - n]) == Elements(Greedy(cs, n - 1)) + {NUM_REGS - n};
    }
  }

  lemma TakesNext(c: set<int>, k: nat, n: nat)
    requires k <= NUM_REGS && n <= NUM_REGS && c == Highest(k) && !(c <= Highest(n))
    ensures n < NUM_REGS && HighestBelow(NUM_REGS, c - Highest(n)) == NUM_REGS - n - 1
    ensures Highest(n + 1) == Highest(n) + {NUM_REGS - n - 1}
  {
    var q :| q in c && q !in Highest(n);
    assert NUM_REGS - n - 1 in c - Highest(n);
    var r := HighestBelow(NUM_REGS, c - Highest(n));
  }

  /** The numbers of candidates alone decide exactly when every number exceeds the number of temporaries
      before: then the choice succeeds whatever the candidates are, otherwise it fails for some. */
  lemma SizesDecide(sizes: seq<nat>)
    requires forall t :: 0 <= t < |sizes| ==> sizes[t] <= NUM_REGS
    ensures (forall cs :: HasSizes(cs, sizes) ==> Succeeds(cs)) <==> forall t :: 0 <= t < |sizes| ==> sizes[t] > t
  {
    if forall t :: 0 <= t < |sizes| ==> sizes[t] > t {
      forall cs | HasSizes(cs, sizes)
        ensures Succeeds(cs)
      {
        EnoughCandidates(cs);
      }
    } else {
      var t :| 0 <= t < |sizes| && sizes[t] <= t;
      var cs := HighestOf(sizes);
      SucceedsIff(cs);
      ReachesIff(cs, t);
      if |Greedy(cs, t)| == t {
        GreedyTakesHighest(sizes, t);
        assert cs[t] <= Elements(Greedy(cs, t));
      }
    }
  }

  ghost function Union(cs: seq<set<int>>, ts: set<nat>): set<int>
    requires forall t :: t in ts ==> t < |cs|
  {
    set t, r | t in ts && r in cs[t] :: r
  }

  /** Different registers, one from each set. */
  ghost predicate ChoiceFrom(cs: seq<set<int>>, s: seq<int>) {
    && |s| == |cs| && (forall t :: 0 <= t < |s| ==> s[t] in cs[t])
    && (forall t, u :: 0 <= t < u < |s| ==> s[t] != s[u])
  }

  lemma {:induction false} GreedyChooses(cs: seq<set<int>>, n: nat)
    requires n <= |cs| && |Greedy(cs, n)| == n
    ensures ChoiceFrom(cs[..n], Greedy(cs, n))
  {
    if n > 0 {
      GreedyChooses(cs, n - 1);
      assert forall t :: 0 <= t < n - 1 ==> cs[..n][t] == cs[..n - 1][t];
    }
  }

  /** No choice at all succeeds unless any temporaries have together as many candidates as they are. */
  lemma {:induction false} ChoiceNeedsCandidates(cs: seq<set<int>>, s: seq<int>, ts: set<nat>)
    requires ChoiceFrom(cs, s) && forall t :: t in ts ==> t < |cs|
    ensures |Union(cs, ts)| >= |ts|
  {
    var chosen := set t | t in ts :: s[t];
    forall r | r in chosen
      ensures r in Union(cs, ts)
    {
      var t :| t in ts && r == s[t];
      assert r in cs[t];
    }
    SubsetSize(chosen, Union(cs, ts));
    ManyChosen(s, ts);
  }

  lemma {:induction false} ManyChosen(s: seq<int>, ts: set<nat>)
    requires (forall t :: t in ts ==> t < |s|) && forall t, u :: 0 <= t < u < |s| ==> s[t] != s[u]
    ensures |set t | t in ts :: s[t]| == |ts|
    decreases ts
  {
    if ts != {} {
      var t :| t in ts;
      ManyChosen(s, ts - {t});
      assert (set u | u in ts :: s[u]) == (set u | u in ts - {t} :: s[u]) + {s[t]};
    }
  }

  lemma SuccessNeedsCandidates(cs: seq<set<int>>, ts: set<nat>)
    requires Succeeds(cs) && forall t :: t in ts ==> t < |cs|
    ensures |Union(cs, ts)| >= |ts|
  {
    GreedyChooses(cs, |cs|);
    assert cs[..|cs|] == cs;
    ChoiceNeedsCandidates(cs, Greedy(cs, |cs|), ts);
  }

  // ---------- what the choice is good for ----------

  /** The chosen registers are apart from everything a listed pair joins them with. */
  lemma TemporariesSeparated(temps: seq<int>, tags: seq<Tag>, arr: seq<Binding>, ps: seq<Pair>, t: nat, x: Name)
    requires Chosen(temps, tags, arr, ps) && PairsOk(ps) && t < |temps| && Listed(ps, T(t), x)
    ensures Color(arr, temps, T(t)) != Color(arr, temps, x)
  {
    var n :| 0 <= n < |ps| && ps[n].Joins(T(t), x);
    OtherOf(ps[n], t);
    if x.T? {
      assert x.n != t;
    } else {
      assert Color(arr, temps, x) == Color(arr, [], x);
    }
  }

  /** After a successful choice every listed pair is separated exactly when those between registers
      and variables are; the choice itself never looks at them. */
  lemma SeparationIff(temps: seq<int>, tags: seq<Tag>, arr: seq<Binding>, ps: seq<Pair>)
    requires Chosen(temps, tags, arr, ps) && PairsOk(ps)
    requires forall x, y :: Listed(ps, x, y) && x.T? ==> x.n < |temps|
    ensures (forall x, y :: Listed(ps, x, y) ==> Color(arr, temps, x) != Color(arr, temps, y)) <==>
            (forall x, y :: Listed(ps, x, y) && !x.T? && !y.T? ==> Color(arr, [], x) != Color(arr, [], y))
  {
    forall x, y | Listed(ps, x, y)
      ensures x.T? || y.T? ==> Color(arr, temps, x) != Color(arr, temps, y)
      ensures !x.T? && !y.T? ==> Color(arr, temps, x) == Color(arr, [], x) && Color(arr, temps, y) == Color(arr, [], y)
    {
      var k :| 0 <= k < |ps| && ps[k].Joins(x, y);
      assert ps[k].Joins(y, x);
      if x.T? {
        TemporariesSeparated(temps, tags, arr, ps, x.n, y);
      } else if y.T? {
        assert Listed(ps, y, x);
        TemporariesSeparated(temps, tags, arr, ps, y.n, x);
      }
    }
  }

  /** The two halves of the rule machinery together.  The pairs are those of the rule's output code; with
      the matched and the chosen registers, the code computes with every meaning of its instructions what it
      would over separate cells, results included, exactly when the match itself kept apart the listed
      registers and variables, live names are apart from machine registers that are written, and nothing
      is written over a result. */
  lemma MatchedRuleFaithful(code: seq<Insn>, temps: seq<int>, tags: seq<Tag>, arr: seq<Binding>, ps: seq<Pair>,
                            results: set<Name>)
    requires CodeOk(code) && forall x, y :: Listed(ps, x, y) <==> Conflict(code, x, y)
    requires Chosen(temps, tags, arr, ps) && PairsOk(ps)
    requires forall x, y :: Listed(ps, x, y) && x.T? ==> x.n < |temps|
    ensures var color := x => Color(arr, temps, x);
            AlwaysFaithful(code, color, results) <==>
            && (forall x, y :: Listed(ps, x, y) && !x.T? && !y.T? ==> Color(arr, [], x) != Color(arr, [], y))
            && MachineApart(code, color) && ResultsApart(code, color, results)
  {
    var color := x => Color(arr, temps, x);
    PairsAreExact(code, color, ps, results);
    SeparationIff(temps, tags, arr, ps);
    assert Separates(ps, color) <==> forall x, y :: Listed(ps, x, y) ==> Color(arr, temps, x) != Color(arr, temps, y);
  }

  /** Highest-first choice is not exhaustive: here the registers 2 and 3 would do for the two
      temporaries, but the first one takes 3, the only one that fits the second. */
  lemma GreedyGetsStuck()
    ensures var tags := [TagAbcd, TagAbcd];
            var ps := [Pair(9, TagVar, 0, TagConst), Pair(9, TagVar, 1, TagConst), Pair(9, TagVar, 2, TagConst)];
            && Chosen([2, 3], tags, [], ps)
            && Chosen([3], tags, [], ps) && (forall r :: 3 < r < NUM_REGS ==> !Fits([], tags, [], ps, r))
            && forall r :: 0 <= r < NUM_REGS ==> !Fits([3], tags, [], ps, r)
  {
    var tags := [TagAbcd, TagAbcd];
    var ps := [Pair(9, TagVar, 0, TagConst), Pair(9, TagVar, 1, TagConst), Pair(9, TagVar, 2, TagConst)];
    hide Taken;
    TakenOfSecond(ps, 0);
    TakenOfSecond(ps, 1);
    TakenOfSecond(ps, 2);
    NoPairOfFirst(ps);
  }

  lemma TakenOfSecond(ps: seq<Pair>, r: int)
    requires 0 <= r < |ps| && ps[r] == Pair(9, TagVar, r, TagConst)
    ensures Taken([], ps, 1, r)
  {
    assert ps[r].Joins(T(1), C(r));
  }

  lemma NoPairOfFirst(ps: seq<Pair>)
    requires forall n :: 0 <= n < |ps| ==> ps[n].reg1 == 9 && ps[n].tag1 == TagVar && ps[n].tag2 == TagConst
    ensures forall r :: !Taken([], ps, 0, r)
    ensures (forall n :: 0 <= n < |ps| ==> ps[n].reg2 != 3) ==> !Taken([], ps, 1, 3)
  {
  }
}
