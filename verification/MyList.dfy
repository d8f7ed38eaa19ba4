/**
 Doubly linked lists with a head and a tail element (lib/mylist.c), and their in-place natural merge sort.
 */
module MyList {
  import opened Common

  class Elem<T> {
    const entry: T
    var prev: Elem?<T>
    var next: Elem?<T>

    constructor (entry: T)
      ensures this.entry == entry
    {
      this.entry := entry;
      prev, next := null, null;
    }
  }

  lemma NoDupJoin<N>(a: seq<N>, b: seq<N>)
    requires NoDup(a) && NoDup(b) && forall n :: n in a ==> n !in b
    ensures NoDup(a + b)
  {
    forall i, j | 0 <= i < j < |a + b|
      ensures (a + b)[i] != (a + b)[j]
    {
      if i < |a| <= j {
        assert a[i] in a && b[j - |a|] in b;
      }
    }
  }

  /** The parts `p` to `q` and `q` to `r` of a sequence exchanged. */
  ghost function Exchanged<N>(c: seq<N>, p: nat, q: nat, r: nat): (d: seq<N>)
    requires p <= q <= r <= |c|
    ensures |d| == |c|
  {
    c[..p] + c[q..r] + c[p..q] + c[r..]
  }

  /** Elements `i` to `j` (exclusive) taken out and put before element `k`. */
  ghost function Spliced<N>(c: seq<N>, i: nat, j: nat, k: nat): (r: seq<N>)
    requires i <= j <= |c| && k <= |c| && (k <= i || j <= k)
    ensures |r| == |c|
  {
    if k <= i then Exchanged(c, k, i, j) else Exchanged(c, i, j, k)
  }

  ghost predicate Joined<T>(a: Elem<T>, b: Elem<T>)
    reads a, b
  {
    a.next == b && b.prev == a
  }

  /** Neighbours in the sequence point at each other. */
  ghost predicate Linked<T>(c: seq<Elem<T>>)
    reads c
  {
    forall i :: 0 <= i < |c| - 1 ==> Joined(c[i], c[i + 1])
  }

  /** Neighbours point at each other except across the places `p`, `q` and `r`. */
  ghost predicate LinkedBut<T>(c: seq<Elem<T>>, p: nat, q: nat, r: nat)
    reads c
  {
    forall i :: 0 <= i < |c| - 1 && i + 1 != p && i + 1 != q && i + 1 != r ==> Joined(c[i], c[i + 1])
  }

  lemma LinkedPart<T>(c: seq<Elem<T>>, i: nat, j: nat)
    requires Linked(c) && i <= j <= |c|
    ensures Linked(c[i..j])
  {
    forall k | 0 <= k < j - i - 1
      ensures Joined(c[i..j][k], c[i..j][k + 1])
    {
      assert Joined(c[i + k], c[i + k + 1]);
    }
  }

  lemma LinkedJoin<T>(a: seq<Elem<T>>, b: seq<Elem<T>>)
    requires Linked(a) && Linked(b) && (a != [] && b != [] ==> Joined(a[|a| - 1], b[0]))
    ensures Linked(a + b)
  {
    forall k | 0 <= k < |a + b| - 1
      ensures Joined((a + b)[k], (a + b)[k + 1])
    {
      if k >= |a| {
        assert Joined(b[k - |a|], b[k - |a| + 1]);
      }
    }
  }

  lemma RowJoin<T>(a: seq<Elem<T>>, m: seq<Elem<T>>, b: seq<Elem<T>>) returns (c: seq<Elem<T>>)
    requires Linked(a) && Linked(m) && Linked(b) && NoDup(a) && NoDup(m) && NoDup(b)
    requires a != [] && m != [] && b != [] && Joined(a[|a| - 1], m[0]) && Joined(m[|m| - 1], b[0])
    requires forall n :: n in a ==> n !in b && n !in m
    requires forall n :: n in m ==> n !in b
    ensures c == a + m + b && Linked(c) && NoDup(c)
  {
    hide Linked, NoDup, Joined;
    LinkedJoin(a, m);
    LinkedJoin(a + m, b);
    NoDupJoin(a, m);
    NoDupJoin(a + m, b);
    c := a + m + b;
  }

  lemma BothJoin<T>(a: seq<Elem<T>>, b: seq<Elem<T>>) returns (c: seq<Elem<T>>)
    requires Linked(a) && Linked(b) && NoDup(a) && NoDup(b)
    requires a != [] && b != [] && Joined(a[|a| - 1], b[0]) && forall n :: n in a ==> n !in b
    ensures c == a + b && Linked(c) && NoDup(c)
  {
    LinkedJoin(a, b);
    NoDupJoin(a, b);
    c := a + b;
  }

  lemma SingleLinked<T>(e: Elem<T>)
    ensures Linked([e]) && NoDup([e])
  {
  }

  /** The steps of a list are kept where only the pointers across the places `p`, `q` and `r` are written. */
  twostate lemma OtherSteps<T>(c: seq<Elem<T>>, new p: nat, new q: nat, new r: nat)
    requires old(Linked(c))
    requires NoDup(c)
    requires 0 < p < q <= r < |c|
    requires forall n :: n in c && n != c[p - 1] && n != c[q - 1] && n != c[r - 1] ==> n.next == old(n.next)
    requires forall n :: n in c && n != c[p] && n != c[q] && n != c[r] ==> n.prev == old(n.prev)
    ensures LinkedBut(c, p, q, r)
  {
    forall k | 0 <= k < |c| - 1 && k + 1 != p && k + 1 != q && k + 1 != r
      ensures Joined(c[k], c[k + 1])
    {
      assert old(Joined(c[k], c[k + 1])) && c[k] in c && c[k + 1] in c;
    }
  }

  /** A part of a list stays linked when only the pointers that lead out of it are written. */
  twostate lemma LinkedKept<T>(c: seq<Elem<T>>)
    requires old(Linked(c))
    requires NoDup(c)
    requires forall n :: n in c && n != c[|c| - 1] ==> n.next == old(n.next)
    requires forall n :: n in c && n != c[0] ==> n.prev == old(n.prev)
    ensures Linked(c)
  {
    forall k | 0 <= k < |c| - 1
      ensures Joined(c[k], c[k + 1])
    {
      assert old(Joined(c[k], c[k + 1]));
    }
  }

  lemma StillSame<T(!new)>(less: (T, T) -> bool, c: seq<Elem<T>>)
    ensures SameClasses(less, c, c)
  {
  }

  lemma ClassesJoin<T(!new)>(less: (T, T) -> bool, a: seq<Elem<T>>, b: seq<Elem<T>>, c: seq<Elem<T>>)
    requires SameClasses(less, a, b) && SameClasses(less, b, c)
    ensures SameClasses(less, a, c)
  {
  }

  lemma SortedInside<T>(less: (T, T) -> bool, c: seq<Elem<T>>)
    requires |c| >= 2 && SortedPart(less, c, 1, |c| - 1)
    ensures Sorted(less, c[1..|c| - 1])
  {
  }

  /** The head and the tail add the same to every class. */
  lemma ClassesInside<T(!new)>(less: (T, T) -> bool, c: seq<Elem<T>>, d: seq<Elem<T>>)
    requires |c| == |d| >= 2 && c[0] == d[0] && c[|c| - 1] == d[|d| - 1] && SameClasses(less, c, d)
    ensures SameClasses(less, c[1..|c| - 1], d[1..|d| - 1])
  {
    var x, y := c[1..|c| - 1], d[1..|d| - 1];
    forall e
      ensures Class(less, x, e) == Class(less, y, e)
    {
      ClassInside(less, c, e);
      ClassInside(less, d, e);
      Cancel(Class(less, [c[0]], e), Class(less, x, e), Class(less, y, e), Class(less, [c[|c| - 1]], e));
    }
  }

  lemma Cancel<N>(h: seq<N>, x: seq<N>, y: seq<N>, t: seq<N>)
    requires h + x + t == h + y + t
    ensures x == y
  {
    assert |x| == |y|;
    assert x == (h + x + t)[|h|..|h| + |x|] && y == (h + y + t)[|h|..|h| + |y|];
  }

  lemma {:induction false} ClassInside<T>(less: (T, T) -> bool, c: seq<Elem<T>>, e: T)
    requires |c| >= 2
    ensures Class(less, c, e) == Class(less, [c[0]], e) + Class(less, c[1..|c| - 1], e) + Class(less, [c[|c| - 1]], e)
  {
    ThreeClasses(less, [c[0]], c[1..|c| - 1], [c[|c| - 1]], e);
    assert c == [c[0]] + c[1..|c| - 1] + [c[|c| - 1]];
  }

  lemma ThreeClasses<T>(less: (T, T) -> bool, a: seq<Elem<T>>, b: seq<Elem<T>>, c: seq<Elem<T>>, e: T)
    ensures Class(less, a + b + c, e) == Class(less, a, e) + Class(less, b, e) + Class(less, c, e)
  {
    ClassConcat(less, a, b, e);
    ClassConcat(less, a + b, c, e);
  }

  // ---------- counting runs ----------

  /** A pass over `c0` has come to place `p` with `n` runs counted, and made `c` of it. */
  ghost predicate PassAt<T>(less: (T, T) -> bool, c0: seq<Elem<T>>, c: seq<Elem<T>>, p: nat, end: nat, n: nat) {
    && 1 <= p <= end == |c| - 1 == |c0| - 1 && SameOutside(c0, c, 1, p)
    && Descents(less, c, 1, p) <= (if n == 0 then 0 else n - 1) && (n == 0 ==> p == 1)
    && if p < end then Descents(less, c0, 1, p + 1) >= 2 * n else n == 0 || Descents(less, c0, 1, end) >= 2 * n - 1
  }

  lemma PassStart<T>(less: (T, T) -> bool, c: seq<Elem<T>>)
    requires |c| >= 2
    ensures PassAt(less, c, c, 1, |c| - 1, 0)
  {
  }

  lemma PassEnd<T>(less: (T, T) -> bool, c0: seq<Elem<T>>, c: seq<Elem<T>>, end: nat, n: nat)
    requires PassAt(less, c0, c, end, end, n)
    ensures n <= 1 ==> Descents(less, c, 1, end) == 0
    ensures n > 1 ==> Descents(less, c, 1, end) < Descents(less, c0, 1, end)
  {
  }

  lemma SameLength<N>(c0: seq<N>, c: seq<N>, d: seq<N>, lo: nat, hi: nat)
    requires |c0| == |c| && SameOutside(c, d, lo, hi)
    ensures |d| == |c0|
  {
  }

  lemma LastRun<T>(less: (T, T) -> bool, c0: seq<Elem<T>>, c: seq<Elem<T>>, p: nat, end: nat, n: nat)
    requires n > 0 && PassAt(less, c0, c, p, end, n - 1) && p < end && Descents(less, c, p, end) == 0
    ensures n <= 1 ==> Descents(less, c, 1, end) == 0
    ensures n > 1 ==> Descents(less, c, 1, end) < Descents(less, c0, 1, end)
  {
    if p > 1 {
      DescentsSplit(less, c, 1, p, end);
    }
    if p + 1 < end {
      DescentsSplit(less, c0, 1, p + 1, end);
    }
  }

  lemma TwoRuns<T>(less: (T, T) -> bool, c0: seq<Elem<T>>, c: seq<Elem<T>>, d: seq<Elem<T>>, p: nat, k1: nat, k2: nat,
                   end: nat, n: nat)
    requires n > 0 && PassAt(less, c0, c, p, end, n - 1) && p < k1 < k2 <= end && SameOutside(c, d, p, k2)
    requires less(c[k1].entry, c[k1 - 1].entry) && (k2 < end ==> less(c[k2].entry, c[k2 - 1].entry))
    requires Descents(less, d, p, k2) == 0
    ensures PassAt(less, c0, d, k2, end, n)
  {
    DescentsSame(less, c, d, 1, p);
    if p > 1 {
      DescentsSplit(less, d, 1, p, k2);
    }
    assert c[k1] == c0[k1] && (k1 - 1 > p ==> c[k1 - 1] == c0[k1 - 1]);
    DescentsSplit(less, c0, 1, k1, k2);
    DescentsMore(less, c0, p + 1, k1);
    if k2 < end {
      assert Descents(less, c0, 1, k2 + 1) == Descents(less, c0, 1, k2) + Fall(less, c0, k2);
    }
  }

  lemma {:induction false} DescentsMore<T>(less: (T, T) -> bool, c: seq<Elem<T>>, a: nat, b: nat)
    requires 1 <= a <= b <= |c|
    ensures Descents(less, c, 1, a) <= Descents(less, c, 1, b)
  {
    if a < b {
      DescentsMore(less, c, a, b - 1);
    }
  }

  /** Nothing outside a part has moved. */
  ghost predicate SameOutside<N>(c: seq<N>, d: seq<N>, lo: nat, hi: nat) {
    |c| == |d| && forall k :: 0 <= k < |c| && !(lo <= k < hi) ==> d[k] == c[k]
  }

  lemma MovedEnds<N>(c: seq<N>, d: seq<N>, i: nat, j: nat)
    requires Moved(c, d, i, j)
    ensures SameOutside(c, d, i, j + 1) && forall n :: n in d <==> n in c
  {
    forall n | n in d
      ensures n in c
    {
      var k :| 0 <= k < |d| && d[k] == n;
      assert n == c[if k < i || k > j then k else if k == i then j else k - 1];
    }
    forall n | n in c
      ensures n in d
    {
      var k :| 0 <= k < |c| && c[k] == n;
      assert n == d[if k < i || k > j then k else if k == j then i else k + 1];
    }
  }

  // ---------- order ----------

  ghost predicate SortedPart<T>(less: (T, T) -> bool, c: seq<Elem<T>>, lo: nat, hi: nat)
    requires hi <= |c|
  {
    forall i, j :: lo <= i < j < hi ==> !less(c[j].entry, c[i].entry)
  }

  ghost predicate Sorted<T>(less: (T, T) -> bool, c: seq<Elem<T>>) {
    SortedPart(less, c, 0, |c|)
  }

  /** The number of elements of a part that are less than the element before them. */
  ghost function Descents<T>(less: (T, T) -> bool, c: seq<Elem<T>>, lo: nat, hi: nat): nat
    requires hi <= |c|
    decreases hi
  {
    if hi <= lo + 1 then 0 else Descents(less, c, lo, hi - 1) + Fall(less, c, hi - 1)
  }

  ghost function Fall<T>(less: (T, T) -> bool, c: seq<Elem<T>>, k: nat): nat
    requires 0 < k < |c|
  {
    if less(c[k].entry, c[k - 1].entry) then 1 else 0
  }

  ghost predicate Equivalent<T>(less: (T, T) -> bool, x: T, y: T) {
    !less(x, y) && !less(y, x)
  }

  /** The elements equivalent to `e`, in their order. */
  ghost function Class<T>(less: (T, T) -> bool, c: seq<Elem<T>>, e: T): seq<Elem<T>> {
    if c == [] then [] else (if Equivalent(less, c[0].entry, e) then [c[0]] else []) + Class(less, c[1..], e)
  }

  /** A stable rearrangement: every class has the same elements in the same order. */
  ghost predicate SameClasses<T(!new)>(less: (T, T) -> bool, c: seq<Elem<T>>, d: seq<Elem<T>>) {
    forall e :: Class(less, c, e) == Class(less, d, e)
  }

  lemma ClassFrom<T>(less: (T, T) -> bool, c: seq<Elem<T>>, d: seq<Elem<T>>, e: T) returns (own: seq<Elem<T>>)
    requires c != [] && d != [] && c[0] == d[0]
    ensures Class(less, c, e) == own + Class(less, c[1..], e)
    ensures Class(less, d, e) == own + Class(less, d[1..], e)
  {
    own := if Equivalent(less, c[0].entry, e) then [c[0]] else [];
  }

  lemma {:induction false} ClassConcat<T>(less: (T, T) -> bool, a: seq<Elem<T>>, b: seq<Elem<T>>, e: T)
    ensures Class(less, a + b, e) == Class(less, a, e) + Class(less, b, e)
  {
    if a == [] {
      assert a + b == b;
    } else {
      hide Class;
      var own := ClassFrom(less, a + b, a, e);
      assert (a + b)[1..] == a[1..] + b;
      ClassConcat(less, a[1..], b, e);
    }
  }

  lemma {:induction false} NoClass<T>(less: (T, T) -> bool, a: seq<Elem<T>>, e: T)
    requires forall n :: n in a ==> !Equivalent(less, n.entry, e)
    ensures Class(less, a, e) == []
  {
    if a != [] {
      NoClass(less, a[1..], e);
    }
  }

  /** Moving an element forward over larger ones changes no class. */
  lemma MoveKeepsClasses<T(!new)>(less: (T, T) -> bool, c: seq<Elem<T>>, p: nat, q: nat)
    requires StrictWeakOrder(less) && p <= q < |c| && forall k :: p <= k < q ==> less(c[q].entry, c[k].entry)
    ensures SameClasses(less, c, Exchanged(c, p, q, q + 1))
  {
    forall e
      ensures Class(less, c, e) == Class(less, Exchanged(c, p, q, q + 1), e)
    {
      MoveKeepsClass(less, c[..p], c[p..q], c[q..q + 1], c[q + 1..], e);
      assert c == c[..p] + c[p..q] + c[q..q + 1] + c[q + 1..];
    }
  }

  lemma MoveKeepsClass<T(!new)>(less: (T, T) -> bool, a: seq<Elem<T>>, x: seq<Elem<T>>, y: seq<Elem<T>>,
                                b: seq<Elem<T>>, e: T)
    requires StrictWeakOrder(less) && |y| == 1 && forall n :: n in x ==> less(y[0].entry, n.entry)
    ensures Class(less, a + x + y + b, e) == Class(less, a + y + x + b, e)
  {
    if Equivalent(less, y[0].entry, e) {
      NoClass(less, x, e);
    } else {
      NoClass(less, y, e);
    }
    assert Class(less, x, e) + Class(less, y, e) == Class(less, y, e) + Class(less, x, e);
    FourClasses(less, a, x, y, b, e);
    FourClasses(less, a, y, x, b, e);
  }

  lemma FourClasses<T>(less: (T, T) -> bool, a: seq<Elem<T>>, x: seq<Elem<T>>, y: seq<Elem<T>>, b: seq<Elem<T>>, e: T)
    ensures Class(less, a + x + y + b, e)
         == Class(less, a, e) + (Class(less, x, e) + Class(less, y, e)) + Class(less, b, e)
  {
    hide Class;
    ClassConcat(less, a, x, e);
    ClassConcat(less, a + x, y, e);
    ClassConcat(less, a + x + y, b, e);
  }

  // ---------- runs ----------

  lemma {:induction false} NoDescents<T(!new)>(less: (T, T) -> bool, c: seq<Elem<T>>, lo: nat, hi: nat)
    requires StrictWeakOrder(less) && hi <= |c|
    ensures Descents(less, c, lo, hi) == 0 <==> SortedPart(less, c, lo, hi)
    decreases hi
  {
    if hi > lo + 1 {
      NoDescents(less, c, lo, hi - 1);
      if Descents(less, c, lo, hi) == 0 {
        forall i | lo <= i < hi - 1
          ensures !less(c[hi - 1].entry, c[i].entry)
        {
          assert !less(c[hi - 1].entry, c[hi - 2].entry);
        }
      }
    }
  }

  lemma {:induction false} DescentsSplit<T>(less: (T, T) -> bool, c: seq<Elem<T>>, lo: nat, mid: nat, hi: nat)
    requires lo < mid < hi <= |c|
    ensures Descents(less, c, lo, hi) == Descents(less, c, lo, mid) + Fall(less, c, mid) + Descents(less, c, mid, hi)
    decreases hi
  {
    if hi > mid + 1 {
      DescentsSplit(less, c, lo, mid, hi - 1);
    }
  }

  lemma {:induction false} DescentsSame<T>(less: (T, T) -> bool, c: seq<Elem<T>>, d: seq<Elem<T>>, lo: nat, hi: nat)
    requires hi <= |c| == |d| && forall k :: lo <= k < hi ==> c[k] == d[k]
    ensures Descents(less, c, lo, hi) == Descents(less, d, lo, hi)
    decreases hi
  {
    if hi > lo + 1 {
      DescentsSame(less, c, d, lo, hi - 1);
    }
  }

  // ---------- merging ----------

  /** A merge of the parts `lo` to `mid` and `mid` to `hi` has come to the places `i` and `j`. */
  ghost predicate Merging<T>(less: (T, T) -> bool, c: seq<Elem<T>>, lo: nat, i: nat, j: nat, hi: nat) {
    && lo <= i <= j <= hi <= |c|
    && SortedPart(less, c, lo, j) && SortedPart(less, c, j, hi)
    && forall x, y :: lo <= x < i && j <= y < hi ==> !less(c[y].entry, c[x].entry)
  }

  lemma MergeStart<T(!new)>(less: (T, T) -> bool, c: seq<Elem<T>>, lo: nat, mid: nat, hi: nat)
    requires lo <= mid <= hi <= |c| && SortedPart(less, c, lo, mid) && SortedPart(less, c, mid, hi)
    ensures Merging(less, c, lo, lo, mid, hi) && SameOutside(c, c, lo, hi)
  {
  }

  lemma MergeEnd<T(!new)>(less: (T, T) -> bool, c: seq<Elem<T>>, lo: nat, i: nat, j: nat, hi: nat)
    requires Merging(less, c, lo, i, j, hi) && (i == j || j == hi)
    ensures SortedPart(less, c, lo, hi)
  {
  }

  lemma MovedInside<T(!new)>(less: (T, T) -> bool, c0: seq<Elem<T>>, c: seq<Elem<T>>, d: seq<Elem<T>>, lo: nat,
                             i: nat, j: nat, hi: nat)
    requires SameOutside(c0, c, lo, hi) && SameOutside(c, d, i, j + 1) && Merging(less, c, lo, i, j, hi) && j < hi < |c|
    ensures SameOutside(c0, d, lo, hi) && d[hi] == c[hi]
  {
  }

  lemma MergeSkips<T(!new)>(less: (T, T) -> bool, c: seq<Elem<T>>, lo: nat, i: nat, j: nat, hi: nat)
    requires StrictWeakOrder(less) && Merging(less, c, lo, i, j, hi) && i < j < hi && !less(c[j].entry, c[i].entry)
    ensures Merging(less, c, lo, i + 1, j, hi)
  {
    forall x, y | lo <= x < i + 1 && j <= y < hi
      ensures !less(c[y].entry, c[x].entry)
    {
      assert y > j ==> !less(c[y].entry, c[j].entry);
    }
  }

  /** `d` is `c` with the element at `j` moved to `i`. */
  ghost predicate Moved<N>(c: seq<N>, d: seq<N>, i: nat, j: nat) {
    && i <= j < |c| == |d|
    && (forall k :: 0 <= k < i || j < k < |c| ==> d[k] == c[k])
    && d[i] == c[j] && forall k :: i < k <= j ==> d[k] == c[k - 1]
  }

  lemma ExchangedMoves<N>(c: seq<N>, i: nat, j: nat)
    requires i <= j < |c|
    ensures Moved(c, Exchanged(c, i, j, j + 1), i, j)
  {
  }

  lemma AllLarger<T(!new)>(less: (T, T) -> bool, c: seq<Elem<T>>, lo: nat, i: nat, j: nat, hi: nat)
    requires StrictWeakOrder(less) && Merging(less, c, lo, i, j, hi) && i < j < hi && less(c[j].entry, c[i].entry)
    ensures forall k :: i <= k < j ==> less(c[j].entry, c[k].entry)
  {
    forall k | i <= k < j
      ensures less(c[j].entry, c[k].entry)
    {
      assert k > i ==> !less(c[k].entry, c[i].entry);
    }
  }

  lemma MovedSorted<T(!new)>(less: (T, T) -> bool, c: seq<Elem<T>>, d: seq<Elem<T>>, lo: nat, i: nat, j: nat, hi: nat)
    requires StrictWeakOrder(less) && Merging(less, c, lo, i, j, hi) && j < hi && Moved(c, d, i, j)
    requires forall k :: i <= k < j ==> less(c[j].entry, c[k].entry)
    ensures SortedPart(less, d, lo, j + 1)
  {
    forall x, y | lo <= x < y < j + 1
      ensures !less(d[y].entry, d[x].entry)
    {
      if x == i {
        assert less(c[j].entry, c[y - 1].entry);
      } else if x < i < y {
        assert d[y] == c[y - 1];
      }
    }
  }

  lemma MergeMoves<T(!new)>(less: (T, T) -> bool, c: seq<Elem<T>>, d: seq<Elem<T>>, lo: nat, i: nat, j: nat, hi: nat)
    requires StrictWeakOrder(less) && Merging(less, c, lo, i, j, hi) && j < hi && Moved(c, d, i, j)
    requires forall k :: i <= k < j ==> less(c[j].entry, c[k].entry)
    ensures Merging(less, d, lo, i + 1, j + 1, hi)
  {
    MovedSorted(less, c, d, lo, i, j, hi);
    forall x, y | lo <= x < i + 1 && j + 1 <= y < hi
      ensures !less(d[y].entry, d[x].entry)
    {
      assert d[y] == c[y];
    }
  }

  lemma PartsLinked<T>(c: seq<Elem<T>>, p: nat, q: nat, r: nat)
    requires p <= q <= r <= |c|
    requires LinkedBut(c, p, q, r)
    ensures Linked(c[..p]) && Linked(c[p..q]) && Linked(c[q..r]) && Linked(c[r..])
  {
    LinkedWithin(c, 0, p);
    LinkedWithin(c, p, q);
    LinkedWithin(c, q, r);
    LinkedWithin(c, r, |c|);
    assert c[0..p] == c[..p] && c[r..|c|] == c[r..];
  }

  lemma LinkedWithin<T>(c: seq<Elem<T>>, lo: nat, hi: nat)
    requires lo <= hi <= |c| && forall k :: lo <= k < hi - 1 ==> Joined(c[k], c[k + 1])
    ensures Linked(c[lo..hi])
  {
    forall k | 0 <= k < hi - lo - 1
      ensures Joined(c[lo..hi][k], c[lo..hi][k + 1])
    {
      assert Joined(c[lo + k], c[lo + k + 1]);
    }
  }

  lemma ExchangedJoin<T>(c: seq<Elem<T>>, p: nat, q: nat, r: nat)
    requires NoDup(c) && 0 < p < q <= r < |c|
    requires Linked(c[..p]) && Linked(c[p..q]) && Linked(c[q..r]) && Linked(c[r..])
    requires if q == r then Joined(c[p - 1], c[p]) && Joined(c[q - 1], c[q])
             else Joined(c[p - 1], c[q]) && Joined(c[r - 1], c[p]) && Joined(c[q - 1], c[r])
    ensures var d := Exchanged(c, p, q, r); Linked(d) && NoDup(d) && d[0] == c[0] && d[|d| - 1] == c[|c| - 1]
  {
    LinkedJoin(c[..p], c[q..r]);
    LinkedJoin(c[..p] + c[q..r], c[p..q]);
    LinkedJoin(c[..p] + c[q..r] + c[p..q], c[r..]);
    ExchangedNoDup(c, p, q, r);
  }

  lemma EndsLinked<T>(c: seq<Elem<T>>, i: nat, j: nat)
    requires Linked(c) && NoDup(c) && i <= j <= |c|
    ensures Linked(c[..i]) && Linked(c[j..]) && NoDup(c[..i]) && NoDup(c[j..])
    ensures forall n :: n in c[..i] ==> n in c && n !in c[j..]
    ensures forall n :: n in c[j..] ==> n in c
  {
    LinkedPart(c, 0, i);
    LinkedPart(c, j, |c|);
    assert c[..i] == c[0..i] && c[j..] == c[j..|c|];
  }

  lemma MiddleLinked<T>(c: seq<Elem<T>>, i: nat, j: nat)
    requires Linked(c) && NoDup(c) && i <= j <= |c|
    ensures Linked(c[i..j]) && NoDup(c[i..j])
    ensures forall n :: n in c[i..j] ==> n in c && n !in c[..i] && n !in c[j..]
  {
    LinkedPart(c, i, j);
  }

  lemma OnceOnly<N>(c: seq<N>, i: nat, j: nat)
    requires NoDup(c) && i <= j < |c|
    ensures c[i] == c[j] <==> i == j
  {
  }

  lemma ExchangedNothing<N>(c: seq<N>, i: nat, k: nat)
    requires i <= |c| && k <= |c|
    ensures Spliced(c, i, i, k) == c
  {
  }

  lemma ExchangedNoDup<N>(c: seq<N>, p: nat, q: nat, r: nat)
    requires NoDup(c) && p <= q <= r <= |c|
    ensures NoDup(Exchanged(c, p, q, r))
  {
    var d := Exchanged(c, p, q, r);
    forall i, j | 0 <= i < j < |d|
      ensures d[i] != d[j]
    {
      var si := if i < p then i else if i < p + r - q then i + q - p else if i < r then i - (r - q) else i;
      var sj := if j < p then j else if j < p + r - q then j + q - p else if j < r then j - (r - q) else j;
      assert d[i] == c[si] && d[j] == c[sj] && si != sj;
    }
  }

  // ---------- lists ----------

  class List<T(!new)> {
    const head: Elem<T>
    const tail: Elem<T>
    /** All elements in order, with the head and the tail. */
    ghost var chain: seq<Elem<T>>

    ghost predicate Valid()
      reads this, chain
    {
      && |chain| >= 2 && chain[0] == head && chain[|chain| - 1] == tail && NoDup(chain)
      && head.prev == null && tail.next == null
      && Linked(chain)
    }

    ghost function Members(): set<Elem<T>>
      reads this
    {
      set n | n in chain
    }

    /** The interior elements in order. */
    ghost function Elems(): seq<Elem<T>>
      requires |chain| >= 2
      reads this
    {
      chain[1..|chain| - 1]
    }

    /** mylist_init */
    constructor (head: Elem<T>, tail: Elem<T>)
      requires head != tail
      modifies head, tail
      ensures Valid() && Elems() == [] && this.head == head && this.tail == tail
    {
      this.head, this.tail := head, tail;
      chain := [head, tail];
      new;
      head.prev, head.next := null, tail;
      tail.prev, tail.next := head, null;
    }

    lemma Neighbours(k: nat)
      requires Valid() && 0 < k < |chain|
      ensures chain[k].prev == chain[k - 1] && chain[k - 1].next == chain[k]
    {
      assert Joined(chain[k - 1], chain[k - 1 + 1]);
    }

    /** mylist_insert: `elem` goes just before the element at place `k`. */
    method Insert(before: Elem<T>, elem: Elem<T>, ghost k: nat)
      requires Valid() && 0 < k < |chain| && chain[k] == before && elem !in chain
      modifies this`chain, chain, elem
      ensures Valid() && chain == old(chain)[..k] + [elem] + old(chain)[k..]
    {
      hide Linked, NoDup;
      ghost var a, b := chain[..k], chain[k..];
      Neighbours(k);
      EndsLinked(chain, k, k);
      elem.prev := before.prev;
      elem.next := before;
      before.prev.next := elem;
      before.prev := elem;
      LinkedKept(a);
      LinkedKept(b);
      SingleLinked(elem);
      chain := RowJoin(a, [elem], b);
    }

    /** mylist_remove */
    method Remove(elem: Elem<T>, ghost k: nat) returns (next: Elem<T>)
      requires Valid() && 0 < k < |chain| - 1 && chain[k] == elem
      modifies this`chain, chain
      ensures Valid() && chain == old(chain)[..k] + old(chain)[k + 1..] && next == chain[k]
    {
      hide Linked, NoDup;
      ghost var a, b := chain[..k], chain[k + 1..];
      Neighbours(k);
      Neighbours(k + 1);
      EndsLinked(chain, k, k + 1);
      MiddleLinked(chain, k, k + 1);
      elem.prev.next := elem.next;
      elem.next.prev := elem.prev;
      LinkedKept(a);
      LinkedKept(b);
      chain := BothJoin(a, b);
      return elem.next;
    }

    /** The six pointer writes of mylist_splice, where the elements from `first` to `end` and `before`
        bound the parts `p` to `q` and `q` to `r` that change places. */
    method Relink(first: Elem<T>, end: Elem<T>, before: Elem<T>, ghost p: nat, ghost q: nat, ghost r: nat)
      requires Valid() && 0 < p < q <= r < |chain|
      requires (q < r && first == chain[q] && end == chain[r - 1] && before == chain[p])
               || (first == chain[p] && end == chain[q - 1] && before == chain[r])
      modifies chain
      ensures LinkedBut(chain, p, q, r)
      ensures if q == r then Joined(chain[p - 1], chain[p]) && Joined(chain[q - 1], chain[q])
              else Joined(chain[p - 1], chain[q]) && Joined(chain[r - 1], chain[p]) && Joined(chain[q - 1], chain[r])
      ensures head.prev == null && tail.next == null
    {
      hide Linked;
      Neighbours(p);
      Neighbours(q);
      Neighbours(r);
      first.prev.next := end.next;
      end.next.prev := first.prev;
      first.prev := before.prev;
      end.next := before;
      before.prev.next := first;
      before.prev := end;
      OtherSteps(chain, p, q, r);
    }

    /** mylist_splice within one list: the elements at places `i` to `j` (exclusive) go before place `k`. */
    method Splice(before: Elem<T>, first: Elem<T>, last: Elem<T>, ghost i: nat, ghost j: nat, ghost k: nat)
      requires Valid() && 0 < i <= j < |chain| && 0 < k < |chain| && (k < i || j <= k)
      requires chain[i] == first && chain[j] == last && chain[k] == before
      modifies this`chain, chain
      ensures Valid() && chain == Spliced(old(chain), i, j, k)
    {
      hide Linked, LinkedBut, NoDup, Exchanged;
      OnceOnly(chain, i, j);
      if first == last {
        ExchangedNothing(chain, i, k);
        return;
      }
      var end := last.prev;
      Neighbours(j);
      ghost var p, q, r := if k < i then k else i, if k < i then i else j, if k < i then j else k;
      Relink(first, end, before, p, q, r);
      PartsLinked(chain, p, q, r);
      ExchangedJoin(chain, p, q, r);
      chain := Exchanged(chain, p, q, r);
    }

    /** No element is in both lists. */
    ghost predicate Beside(other: List<T>)
      reads this, other
    {
      this != other && forall n :: n in chain ==> n !in other.chain
    }

    /** The first two pointer writes of mylist_splice: the elements at places `i` to `j` leave the list. */
    method CutOut(first: Elem<T>, end: Elem<T>, ghost i: nat, ghost j: nat) returns (ghost mid: seq<Elem<T>>)
      requires Valid() && 0 < i < j < |chain| && chain[i] == first && chain[j - 1] == end
      modifies this`chain, Members()
      ensures Valid() && chain == old(chain)[..i] + old(chain)[j..]
      ensures mid == old(chain)[i..j] && Linked(mid) && NoDup(mid) && forall n :: n in mid ==> n !in chain
    {
      hide Linked, NoDup;
      ghost var a, b := chain[..i], chain[j..];
      mid := chain[i..j];
      Neighbours(i);
      Neighbours(j);
      EndsLinked(chain, i, j);
      MiddleLinked(chain, i, j);
      first.prev.next := end.next;
      end.next.prev := first.prev;
      LinkedKept(a);
      LinkedKept(mid);
      LinkedKept(b);
      chain := BothJoin(a, b);
    }

    /** Its last four pointer writes: a linked row of other elements goes before place `k`. */
    method PutIn(first: Elem<T>, end: Elem<T>, before: Elem<T>, ghost mid: seq<Elem<T>>, ghost k: nat)
      requires Valid() && 0 < k < |chain| && chain[k] == before
      requires mid != [] && mid[0] == first && mid[|mid| - 1] == end && Linked(mid) && NoDup(mid)
      requires forall n :: n in mid ==> n !in chain
      modifies this`chain, Members(), set n | n in mid
      ensures Valid() && chain == old(chain)[..k] + mid + old(chain)[k..]
    {
      hide Linked, NoDup;
      ghost var a, b := chain[..k], chain[k..];
      Neighbours(k);
      EndsLinked(chain, k, k);
      assert first in mid && end in mid;
      first.prev := before.prev;
      end.next := before;
      before.prev.next := first;
      before.prev := end;
      LinkedKept(a);
      LinkedKept(mid);
      LinkedKept(b);
      chain := RowJoin(a, mid, b);
    }

    /** mylist_splice between two lists: the elements of `other` at places `i` to `j` (exclusive) go before
        place `k` of this one. */
    method SpliceFrom(other: List<T>, before: Elem<T>, first: Elem<T>, last: Elem<T>, ghost i: nat, ghost j: nat,
                      ghost k: nat)
      requires Valid() && other.Valid() && Beside(other) && 0 < i <= j < |other.chain| && 0 < k < |chain|
      requires other.chain[i] == first && other.chain[j] == last && chain[k] == before
      modifies this`chain, other`chain, Members(), other.Members()
      ensures Valid() && chain == old(chain)[..k] + old(other.chain)[i..j] + old(chain)[k..]
      ensures other.Valid() && other.chain == old(other.chain)[..i] + old(other.chain)[j..] && Beside(other)
    {
      hide Linked, NoDup;
      ghost var c, o := chain, other.chain;
      OnceOnly(o, i, j);
      if first == last {
        assert c == c[..k] + o[i..i] + c[k..] && o == o[..i] + o[i..];
        return;
      }
      other.Neighbours(j);
      var end := last.prev;
      assert c[0] in c && c[|c| - 1] in c && o[0] in o && o[|o| - 1] in o;
      ghost var mid := other.CutOut(first, end, i, j);
      assert forall n :: n in other.chain || n in mid ==> n in o;
      PutIn(first, end, before, mid, k);
    }

    // ---------- sorting ----------

    /** The element at place `k` and the pointers to its neighbours. */
    ghost predicate At(k: nat, e: Elem<T>)
      reads this
    {
      k < |chain| && chain[k] == e
    }

    /** find_end_of_run */
    method FindEndOfRun(a: Elem<T>, b: Elem<T>, less: (T, T) -> bool, ghost i: nat, ghost j: nat)
      returns (r: Elem<T>, ghost k: nat)
      requires Valid() && 0 < i < j && At(i, a) && At(j, b)
      ensures At(k, r) && i < k <= j && Descents(less, chain, i, k) == 0
      ensures k < j ==> less(chain[k].entry, chain[k - 1].entry)
    {
      Neighbours(i + 1);
      r := a.next;
      k := i + 1;
      OnceOnly(chain, k, j);
      while r != b && !less(r.entry, r.prev.entry)
        invariant At(k, r) && i < k <= j && r.prev == chain[k - 1] && (r == b <==> k == j)
        invariant Descents(less, chain, i, k) == 0
        decreases j - k
      {
        Neighbours(k + 1);
        r := r.next;
        k := k + 1;
        OnceOnly(chain, k, j);
      }
    }

    /** One move of the merge: the element at `j` goes before the one at `i`. */
    method MergeMove(a0: Elem<T>, a1b0: Elem<T>, less: (T, T) -> bool, ghost lo: nat, ghost i: nat, ghost j: nat,
                     ghost hi: nat)
      returns (next: Elem<T>)
      requires StrictWeakOrder(less) && Valid() && 0 < i < j < hi < |chain| && At(i, a0) && At(j, a1b0)
      requires Merging(less, chain, lo, i, j, hi) && less(a1b0.entry, a0.entry)
      modifies this`chain, Members()
      ensures Valid() && Moved(old(chain), chain, i, j) && At(j + 1, next)
      ensures Merging(less, chain, lo, i + 1, j + 1, hi) && SameClasses(less, old(chain), chain)
      ensures SameOutside(old(chain), chain, i, j + 1) && Members() == old(Members())
    {
      hide Merging, SameClasses, Moved, Exchanged;
      Neighbours(j + 1);
      next := a1b0.next;
      ghost var c := chain;
      AllLarger(less, c, lo, i, j, hi);
      MoveKeepsClasses(less, c, i, j);
      ExchangedMoves(c, i, j);
      Splice(a0, next.prev, next, j, j + 1, i);
      MergeMoves(less, c, chain, lo, i, j, hi);
      MovedEnds(c, chain, i, j);
    }

    /** inplace_merge */
    method InplaceMerge(a0: Elem<T>, a1b0: Elem<T>, b1: Elem<T>, less: (T, T) -> bool, ghost lo: nat, ghost mid: nat,
                        ghost hi: nat)
      requires StrictWeakOrder(less) && Valid() && 0 < lo < mid < hi && At(lo, a0) && At(mid, a1b0) && At(hi, b1)
      requires SortedPart(less, chain, lo, mid) && SortedPart(less, chain, mid, hi)
      modifies this`chain, Members()
      ensures Valid() && SameOutside(old(chain), chain, lo, hi) && Members() == old(Members()) && At(hi, b1)
      ensures SortedPart(less, chain, lo, hi) && SameClasses(less, old(chain), chain)
    {
      hide SameClasses, Linked, NoDup, Merging, SameOutside, SortedPart;
      var a: Elem<T>, b: Elem<T> := a0, a1b0;
      ghost var i, j, c0 := lo, mid, chain;
      StillSame(less, chain);
      MergeStart(less, chain, lo, mid, hi);
      OnceOnly(chain, i, j);
      OnceOnly(chain, j, hi);
      while a != b && b != b1
        invariant Valid() && 0 < i <= j <= hi && At(i, a) && At(j, b) && At(hi, b1) && Members() == old(Members())
        invariant Merging(less, chain, lo, i, j, hi) && (a == b <==> i == j) && (b == b1 <==> j == hi)
        invariant SameOutside(c0, chain, lo, hi) && SameClasses(less, c0, chain)
        decreases hi - j + hi - i
      {
        if !less(b.entry, a.entry) {
          MergeSkips(less, chain, lo, i, j, hi);
          Neighbours(i + 1);
          a := a.next;
          i := i + 1;
        } else {
          ghost var c := chain;
          b := MergeMove(a, b, less, lo, i, j, hi);
          ClassesJoin(less, c0, c, chain);
          MovedInside(less, c0, c, chain, lo, i, j, hi);
          i, j := i + 1, j + 1;
        }
        OnceOnly(chain, i, j);
        OnceOnly(chain, j, hi);
      }
      MergeEnd(less, chain, lo, i, j, hi);
    }

    /** The for loop of mylist_sort: one pass over the list.  It leaves at most one run for every run it
        counts, and finds at least two, but for the last, for every run it counts. */
    method Pass(less: (T, T) -> bool) returns (outputRunCnt: nat)
      requires StrictWeakOrder(less) && Valid()
      modifies this`chain, Members()
      ensures Valid() && Members() == old(Members()) && |chain| == |old(chain)|
      ensures SameClasses(less, old(chain), chain)
      ensures outputRunCnt <= 1 ==> Descents(less, chain, 1, |chain| - 1) == 0
      ensures outputRunCnt > 1 ==> Descents(less, chain, 1, |chain| - 1) < Descents(less, old(chain), 1, |chain| - 1)
    {
      hide SameClasses, Linked, NoDup, PassAt, SameOutside, Descents, SortedPart;
      outputRunCnt := 0;
      Neighbours(1);
      var a0: Elem<T> := head.next;
      ghost var p, end, c0 := 1, |chain| - 1, chain;
      StillSame(less, chain);
      PassStart(less, chain);
      OnceOnly(chain, p, end);
      while a0 != tail
        invariant Valid() && Members() == old(Members()) && At(p, a0) && At(end, tail) && 0 < p <= end == |chain| - 1
        invariant a0 == tail <==> p == end
        invariant SameClasses(less, c0, chain) && PassAt(less, c0, chain, p, end, outputRunCnt)
        decreases end - p
      {
        outputRunCnt := outputRunCnt + 1;
        var a1b0;
        ghost var k1, k2;
        a1b0, k1 := FindEndOfRun(a0, tail, less, p, end);
        OnceOnly(chain, k1, end);
        if a1b0 == tail {
          LastRun(less, c0, chain, p, end, outputRunCnt);
          return;
        }
        var b1;
        b1, k2 := FindEndOfRun(a1b0, tail, less, k1, end);
        NoDescents(less, chain, p, k1);
        NoDescents(less, chain, k1, k2);
        ghost var c := chain;
        InplaceMerge(a0, a1b0, b1, less, p, k1, k2);
        NoDescents(less, chain, p, k2);
        TwoRuns(less, c0, c, chain, p, k1, k2, end, outputRunCnt);
        ClassesJoin(less, c0, c, chain);
        SameLength(c0, c, chain, p, k2);
        a0, p := b1, k2;
        OnceOnly(chain, p, end);
      }
      PassEnd(less, c0, chain, end, outputRunCnt);
    }

    /** mylist_sort: sorts in place and keeps equivalent elements in their order.  It ends because every
        pass that leaves more than one run leaves fewer descents. */
    method Sort(less: (T, T) -> bool)
      requires StrictWeakOrder(less) && Valid()
      modifies this`chain, Members()
      ensures Valid() && Members() == old(Members()) && |chain| == |old(chain)|
      ensures Sorted(less, Elems()) && SameClasses(less, old(Elems()), Elems())
    {
      hide SameClasses, Linked, NoDup;
      ghost var c0 := chain;
      var outputRunCnt := Pass(less);
      while outputRunCnt > 1
        invariant Valid() && Members() == old(Members()) && |chain| == |c0| && SameClasses(less, c0, chain)
        invariant outputRunCnt <= 1 ==> Descents(less, chain, 1, |chain| - 1) == 0
        decreases Descents(less, chain, 1, |chain| - 1) + 1, outputRunCnt
      {
        ghost var c := chain;
        outputRunCnt := Pass(less);
        ClassesJoin(less, c0, c, chain);
      }
      NoDescents(less, chain, 1, |chain| - 1);
      SortedInside(less, chain);
      ClassesInside(less, c0, chain);
    }
  }
}
