/**
 The resizing hash table (lib/hash.c).  A bucket is the sequence of its list's elements.
 */
module HashTable {
  import opened Common

  // ---------- bits ----------

  /** Bitwise and. */
  function And(a: nat, b: nat): (r: nat)
    ensures r <= a && r <= b
  {
    if a == 0 || b == 0 then 0 else 2 * And(a / 2, b / 2) + if a % 2 == 1 && b % 2 == 1 then 1 else 0
  }

  function TurnOffLeast1Bit(x: nat): nat
    requires x > 0
  {
    And(x, x - 1)
  }

  predicate IsPowerOf2(x: nat) {
    x != 0 && TurnOffLeast1Bit(x) == 0
  }

  ghost function LowBit(x: nat): (r: nat)
    requires x > 0
    ensures 0 < r <= x
  {
    if x % 2 == 1 then 1 else 2 * LowBit(x / 2)
  }

  lemma {:induction false} AndSelf(a: nat)
    ensures And(a, a) == a
  {
    if a > 0 {
      AndSelf(a / 2);
    }
  }

  lemma {:induction false} TurnsOffLowBit(x: nat)
    requires x > 0
    ensures TurnOffLeast1Bit(x) == x - LowBit(x)
  {
    if x % 2 == 1 {
      assert x / 2 == (x - 1) / 2;
      AndSelf(x / 2);
    } else {
      assert (x - 1) / 2 == x / 2 - 1;
      TurnsOffLowBit(x / 2);
    }
  }

  lemma {:induction false} NextBit(x: nat)
    requires x > 0 && x > LowBit(x)
    ensures LowBit(x - LowBit(x)) >= 2 * LowBit(x)
  {
    if x % 2 == 0 {
      NextBit(x / 2);
      assert (x - LowBit(x)) / 2 == x / 2 - LowBit(x / 2);
    }
  }

  /** For a power of two, masking with one less is the remainder. */
  lemma {:induction false} MaskIsRemainder(h: nat, n: nat)
    requires IsPowerOf2(n)
    ensures And(h, n - 1) == h % n
  {
    TurnsOffLowBit(n);
    if n > 1 {
      assert n % 2 == 0;
      TurnsOffLowBit(n / 2);
      assert (n - 1) / 2 == n / 2 - 1;
      MaskIsRemainder(h / 2, n / 2);
      HalfRemainder(h, n);
    }
  }

  function Power2(k: nat): (n: nat)
    ensures n > 0
  {
    if k == 0 then 1 else 2 * Power2(k - 1)
  }

  /** The powers of two pass the test. */
  lemma {:induction false} PowerIsPower(k: nat)
    ensures IsPowerOf2(Power2(k))
  {
    if k > 0 {
      PowerIsPower(k - 1);
      var n := Power2(k - 1);
      assert (2 * n - 1) / 2 == n - 1;
    }
  }

  lemma HalfRemainder(h: nat, n: nat)
    requires n > 0 && n % 2 == 0
    ensures h % n == 2 * ((h / 2) % (n / 2)) + h % 2
  {
    var m := n / 2;
    var q, r := Quotient(h / 2, m), (h / 2) % m;
    Doubled(q, m);
    Remainder(h, n, q, 2 * r + h % 2);
  }

  function Quotient(a: int, m: nat): (q: int)
    requires m > 0
    ensures a == q * m + a % m
  {
    a / m
  }

  lemma Doubled(q: int, m: nat)
    ensures q * (2 * m) == 2 * (q * m)
  {
  }

  lemma AtLeast(d: int, n: int)
    requires n >= 0
    ensures d > 0 ==> d * n >= n
    ensures d < 0 ==> d * n <= -n
  {
  }

  lemma Remainder(h: int, n: nat, q: int, r: nat)
    requires n > 0 && h == q * n + r && r < n
    ensures h % n == r
  {
    var p := Quotient(h, n);
    AtLeast(q - p, n);
    assert (q - p) * n == q * n - p * n;
  }

  /** The greatest power of two that is not above `m`. */
  ghost function Greatest(m: nat): (n: nat)
    requires m > 0
    ensures n > 0
  {
    if m == 1 then 1 else 2 * Greatest(m / 2)
  }

  lemma HalfPower(n: nat)
    requires IsPowerOf2(n) && n > 1
    ensures n % 2 == 0 && IsPowerOf2(n / 2)
  {
    TurnsOffLowBit(n);
    if n % 2 == 0 {
      TurnsOffLowBit(n / 2);
    }
  }

  lemma {:induction false} IsGreatest(n: nat, m: nat)
    requires IsPowerOf2(n) && n <= m < 2 * n
    ensures n == Greatest(m)
  {
    hide IsPowerOf2;
    if n > 1 {
      HalfPower(n);
      IsGreatest(n / 2, m / 2);
    }
  }

  // ---------- buckets ----------

  ghost function Flat<T>(b: seq<seq<T>>): seq<T> {
    if b == [] then [] else Flat(b[..|b| - 1]) + b[|b| - 1]
  }

  lemma AlsoWith<T>(a: multiset<T>, x: multiset<T>, p: multiset<T>, s: multiset<T>, l: multiset<T>)
    requires a + x == p + s
    ensures a + l + x == p + l + s
  {
    assert a + l + x == a + x + l && p + l + s == p + s + l;
  }

  lemma Cancel<T>(a: multiset<T>, p: multiset<T>, e: multiset<T>, l: multiset<T>)
    requires a + l == p + (e + l)
    ensures a == p + e
  {
    assert a == a + l - l && p + e == p + (e + l) - l;
  }

  /** Exchanging a bucket exchanges its elements. */
  lemma {:induction false} FlatChange<T>(b: seq<seq<T>>, i: nat, s: seq<T>)
    requires i < |b|
    ensures multiset(Flat(b[i := s])) + multiset(b[i]) == multiset(Flat(b)) + multiset(s)
    ensures |Flat(b[i := s])| + |b[i]| == |Flat(b)| + |s|
  {
    var n, c := |b| - 1, b[i := s];
    assert Flat(b) == Flat(b[..n]) + b[n];
    assert Flat(c) == Flat(c[..n]) + c[n];
    if i == n {
      assert c[..n] == b[..n];
    } else {
      FlatChange(b[..n], i, s);
      assert c[..n] == b[..n][i := s] && b[..n][i] == b[i] && c[n] == b[n];
      AlsoWith(multiset(Flat(c[..n])), multiset(b[i]), multiset(Flat(b[..n])), multiset(s), multiset(b[n]));
      assert multiset(Flat(c)) == multiset(Flat(c[..n])) + multiset(b[n])
             && multiset(Flat(b)) == multiset(Flat(b[..n])) + multiset(b[n]);
    }
  }

  lemma FlatPush<T>(b: seq<seq<T>>, i: nat, x: T)
    requires i < |b|
    ensures multiset(Flat(b[i := [x] + b[i]])) == multiset(Flat(b)) + multiset{x}
    ensures |Flat(b[i := [x] + b[i]])| == |Flat(b)| + 1
  {
    FlatChange(b, i, [x] + b[i]);
    Cancel(multiset(Flat(b[i := [x] + b[i]])), multiset(Flat(b)), multiset{x}, multiset(b[i]));
  }

  lemma FlatRemove<T>(b: seq<seq<T>>, i: nat, k: nat)
    requires i < |b| && k < |b[i]|
    ensures var c := b[i := b[i][..k] + b[i][k + 1..]];
            multiset(Flat(b)) == multiset(Flat(c)) + multiset{b[i][k]} && |Flat(b)| == |Flat(c)| + 1
  {
    var rest := b[i][..k] + b[i][k + 1..];
    FlatChange(b, i, rest);
    assert b[i] == b[i][..k] + [b[i][k]] + b[i][k + 1..];
    assert multiset(b[i]) == multiset{b[i][k]} + multiset(rest);
    Cancel(multiset(Flat(b)), multiset(Flat(b[i := rest])), multiset{b[i][k]}, multiset(rest));
  }

  lemma {:induction false} FlatHas<T>(b: seq<seq<T>>, x: T)
    ensures x in Flat(b) <==> exists i :: 0 <= i < |b| && x in b[i]
  {
    if b != [] {
      var n := |b| - 1;
      FlatHas(b[..n], x);
      if i :| 0 <= i < |b| && x in b[i] {
        assert i < n ==> x in b[..n][i];
      }
    }
  }

  lemma {:induction false} FlatEmpty<T>(b: seq<seq<T>>)
    requires forall i :: 0 <= i < |b| ==> b[i] == []
    ensures Flat(b) == []
  {
    if b != [] {
      FlatEmpty(b[..|b| - 1]);
    }
  }

  // ---------- the order in the buckets ----------

  ghost function Empties<T>(n: nat): (b: seq<seq<T>>)
    ensures |b| == n
  {
    seq(n, _ => [])
  }

  /** An element in front of its bucket. */
  ghost function Fronted<T>(hash: T -> nat, b: seq<seq<T>>, e: T): (c: seq<seq<T>>)
    requires |b| > 0
    ensures |c| == |b|
  {
    var i := And(hash(e), |b| - 1);
    b[i := [e] + b[i]]
  }

  /** The same for one element after another. */
  ghost function PushAll<T>(hash: T -> nat, b: seq<seq<T>>, es: seq<T>): (c: seq<seq<T>>)
    requires |b| > 0
    ensures |c| == |b|
  {
    if es == [] then b else Fronted(hash, PushAll(hash, b, es[..|es| - 1]), es[|es| - 1])
  }

  /** The buckets after a change to `n` of them. */
  ghost function Resized<T>(hash: T -> nat, b: seq<seq<T>>, n: nat): (c: seq<seq<T>>)
    requires n > 0
    ensures |c| == n
  {
    if |b| == n then b else PushAll(hash, Empties(n), Flat(b))
  }

  lemma NothingPushed<T>(hash: T -> nat, b: seq<seq<T>>)
    requires |b| > 0
    ensures PushAll(hash, b, []) == b
  {
  }

  lemma {:induction false} PushAllConcat<T>(hash: T -> nat, b: seq<seq<T>>, x: seq<T>, y: seq<T>)
    requires |b| > 0
    ensures PushAll(hash, b, x + y) == PushAll(hash, PushAll(hash, b, x), y)
  {
    hide Fronted;
    if y == [] {
      assert x + y == x;
    } else {
      assert (x + y)[..|x + y| - 1] == x + y[..|y| - 1];
      PushAllConcat(hash, b, x, y[..|y| - 1]);
    }
  }

  /** Of the elements `es` those that belong in bucket `k` of `n`, the last first. */
  ghost function InBucket<T>(hash: T -> nat, es: seq<T>, k: nat, n: nat): seq<T>
    requires n > 0
  {
    if es == [] then []
    else
      var front, last := InBucket(hash, es[..|es| - 1], k, n), es[|es| - 1];
      if And(hash(last), n - 1) == k then [last] + front else front
  }

  lemma {:induction false} PushedOrder<T>(hash: T -> nat, es: seq<T>, k: nat, n: nat)
    requires k < n
    ensures PushAll(hash, Empties(n), es)[k] == InBucket(hash, es, k, n)
  {
    if es != [] {
      PushedOrder(hash, es[..|es| - 1], k, n);
    }
  }

  /** The first element of a bucket with a property is the last one pushed into it that has the property. */
  lemma {:induction false} FirstIsLast<T>(hash: T -> nat, es: seq<T>, k: nat, n: nat, has: T -> bool, j: nat)
    returns (i: nat)
    requires n > 0 && j < |InBucket(hash, es, k, n)|
    requires forall m :: 0 <= m < j ==> !has(InBucket(hash, es, k, n)[m])
    ensures i < |es| && es[i] == InBucket(hash, es, k, n)[j]
    ensures forall m :: i < m < |es| && And(hash(es[m]), n - 1) == k ==> !has(es[m])
  {
    hide And;
    var front, last := es[..|es| - 1], es[|es| - 1];
    if And(hash(last), n - 1) != k {
      i := FirstIsLast(hash, front, k, n, has, j);
    } else if j == 0 {
      i := |es| - 1;
    } else {
      assert forall m :: 0 <= m < j - 1 ==> InBucket(hash, front, k, n)[m] == InBucket(hash, es, k, n)[m + 1];
      assert !has(InBucket(hash, es, k, n)[0]);
      i := FirstIsLast(hash, front, k, n, has, j - 1);
    }
  }

  /** Every element is in the bucket of its hash value. */
  ghost predicate Placed<T>(hash: T -> nat, b: seq<seq<T>>) {
    forall i, x :: 0 <= i < |b| && x in b[i] ==> And(hash(x), |b| - 1) == i
  }

  lemma EmptyPlaced<T>(hash: T -> nat, b: seq<seq<T>>)
    requires forall i :: 0 <= i < |b| ==> b[i] == []
    ensures Placed(hash, b) && Flat(b) == []
  {
    FlatEmpty(b);
  }

  lemma FlatNext<T>(b: seq<seq<T>>, i: nat)
    requires i < |b|
    ensures Flat(b[..i + 1]) == Flat(b[..i]) + b[i]
  {
    assert b[..i + 1][..i] == b[..i];
  }

  lemma PlacedPush<T>(hash: T -> nat, b: seq<seq<T>>, i: nat, x: T)
    requires Placed(hash, b) && i < |b| && And(hash(x), |b| - 1) == i
    ensures Placed(hash, b[i := [x] + b[i]])
  {
  }

  lemma PlacedRemove<T>(hash: T -> nat, b: seq<seq<T>>, i: nat, k: nat)
    requires Placed(hash, b) && i < |b| && k < |b[i]|
    ensures Placed(hash, b[i := b[i][..k] + b[i][k + 1..]])
  {
    var c := b[i := b[i][..k] + b[i][k + 1..]];
    forall j, x | 0 <= j < |c| && x in c[j]
      ensures And(hash(x), |c| - 1) == j
    {
      assert x in b[j];
    }
  }

  /** An element is in the table exactly when it is in its bucket. */
  lemma InItsBucket<T>(hash: T -> nat, b: seq<seq<T>>, x: T)
    requires Placed(hash, b) && |b| > 0
    ensures x in Flat(b) <==> x in b[And(hash(x), |b| - 1)]
  {
    FlatHas(b, x);
  }

  // ---------- the table ----------

  /** No two elements are equal, and none is there twice. */
  ghost predicate Distinct<T(!new)>(equal: (T, T) -> bool, s: multiset<T>) {
    forall x, y :: x in s && y in s && equal(x, y) ==> x == y && s[x] == 1
  }

  /** Equal elements have equal hash values. */
  ghost predicate Compatible<T(!new)>(hash: T -> nat, equal: (T, T) -> bool) {
    forall x, y :: equal(x, y) ==> hash(x) == hash(y)
  }

  /** The search of rehash for a number of buckets: the greatest power of two that is not above the
      greater of half the elements and the minimum.  `SearchEndsIff` says that it ends for no other input. */
  method IdealBucketCount(elemCnt: nat, minBucketCount: nat) returns (n: nat)
    requires minBucketCount > 0 || elemCnt >= 2
    ensures IsPowerOf2(n) && n <= (if elemCnt / 2 < minBucketCount then minBucketCount else elemCnt / 2) < 2 * n
    ensures n == IdealCount(elemCnt, minBucketCount)
  {
    n := elemCnt / 2;
    if n < minBucketCount {
      n := minBucketCount;
    }
    ghost var top := n;
    TurnsOffLowBit(n);
    while !IsPowerOf2(n)
      invariant 0 < n <= top < n + LowBit(n) && TurnOffLeast1Bit(n) == n - LowBit(n)
      decreases n
    {
      NextBit(n);
      n := TurnOffLeast1Bit(n);
      TurnsOffLowBit(n);
    }
    IsGreatest(n, top);
  }

  ghost function IdealCount(elemCnt: nat, minBucketCount: nat): (n: nat)
    requires minBucketCount > 0 || elemCnt >= 2
    ensures n > 0
  {
    Greatest(if elemCnt / 2 < minBucketCount then minBucketCount else elemCnt / 2)
  }

  /** The body of the search loop; the word before 0 is the greatest one. */
  function SearchStep(x: nat): nat {
    And(x, if x == 0 then WORD - 1 else x - 1)
  }

  /** The value of the search loop's variable after `n` rounds. */
  function SearchRounds(x: nat, n: nat): nat
    decreases n
  {
    if n == 0 then x else SearchRounds(SearchStep(x), n - 1)
  }

  predicate EndsAfter(x: nat, n: nat) {
    IsPowerOf2(SearchRounds(x, n))
  }

  lemma {:induction false} ZeroIsStuck(n: nat)
    ensures SearchRounds(0, n) == 0
  {
    if n > 0 {
      ZeroIsStuck(n - 1);
    }
  }

  lemma {:induction false} SearchEnds(x: nat) returns (n: nat)
    requires x > 0
    ensures IsPowerOf2(SearchRounds(x, n))
  {
    if IsPowerOf2(x) {
      n := 0;
    } else {
      TurnsOffLowBit(x);
      n := SearchEnds(SearchStep(x));
      n := n + 1;
    }
  }

  /** The search that starts at the greater of half the elements and the minimum comes to a power of two
      after some number of rounds exactly when the minimum is positive or there are two elements. */
  lemma SearchEndsIff(elemCnt: nat, minBucketCount: nat)
    ensures var x := if elemCnt / 2 < minBucketCount then minBucketCount else elemCnt / 2;
            (exists n :: EndsAfter(x, n)) <==> minBucketCount > 0 || elemCnt >= 2
  {
    var x := if elemCnt / 2 < minBucketCount then minBucketCount else elemCnt / 2;
    if x > 0 {
      var n := SearchEnds(x);
      assert EndsAfter(x, n);
    } else {
      forall n
        ensures !EndsAfter(0, n)
      {
        ZeroIsStuck(n);
      }
    }
  }

  lemma TakenOut<T>(before: multiset<T>, after: multiset<T>, x: T)
    requires before == after + multiset{x}
    ensures x in before && after == before - multiset{x}
  {
  }

  /** The place of the first element of the row that is equal to `e`. */
  ghost predicate IsFirstEqual<T>(equal: (T, T) -> bool, row: seq<T>, e: T, k: nat) {
    k < |row| && equal(row[k], e) && forall j :: 0 <= j < k ==> !equal(row[j], e)
  }

  /** The buckets without element `k` of bucket `i`. */
  ghost function WithoutElem<T>(b: seq<seq<T>>, i: nat, k: nat): (c: seq<seq<T>>)
    requires i < |b| && k < |b[i]|
    ensures |c| == |b|
  {
    b[i := b[i][..k] + b[i][k + 1..]]
  }

  class Table<T(==, !new)> {
    const minBucketCount: nat
    const hash: T -> nat
    const equal: (T, T) -> bool
    var elemCnt: nat
    var bucketCnt: nat
    var buckets: array<seq<T>>

    ghost predicate Valid()
      reads this, buckets
    {
      && minBucketCount > 0 && bucketCnt == buckets.Length > 0
      && elemCnt == |Flat(buckets[..])| && Placed(hash, buckets[..])
    }

    ghost function Contents(): multiset<T>
      reads this, buckets
    {
      multiset(Flat(buckets[..]))
    }

    /** hash_init_size: the first bucket count need not be a power of two. */
    constructor (size: nat, hash: T -> nat, equal: (T, T) -> bool)
      requires size > 0
      ensures Valid() && Contents() == multiset{} && fresh(buckets) && this.hash == hash && this.equal == equal
      ensures minBucketCount == size && elemCnt == 0 && buckets[..] == Empties(size)
    {
      minBucketCount, bucketCnt, elemCnt := size, size, 0;
      this.hash, this.equal := hash, equal;
      buckets := new seq<T>[size](_ => []);
      new;
      FlatEmpty(buckets[..]);
    }

    /** find_bucket and hash_find_bucket_with_hash */
    function BucketOf(h: nat): (i: nat)
      requires Valid()
      reads this, buckets
      ensures i < buckets.Length
    {
      And(h, bucketCnt - 1)
    }

    /** find_elem: the place of the first element of a bucket that is equal to `e`. */
    method FindElem(i: nat, e: T) returns (k: Option<nat>)
      requires i < buckets.Length
      ensures k.None? ==> forall x :: x in buckets[i] ==> !equal(x, e)
      ensures k.Some? ==> IsFirstEqual(equal, buckets[i], e, k.value)
    {
      for j := 0 to |buckets[i]|
        invariant forall m :: 0 <= m < j ==> !equal(buckets[i][m], e)
      {
        if equal(buckets[i][j], e) {
          return Some(j);
        }
      }
      return None;
    }

    /** What a search in the bucket of `e` says of the whole table. */
    lemma NotElsewhere(e: T)
      requires Valid() && Compatible(hash, equal)
      requires forall x :: x in buckets[BucketOf(hash(e))] ==> !equal(x, e)
      ensures forall x :: x in Contents() ==> !equal(x, e)
    {
      forall x | x in Contents() && hash(x) == hash(e)
        ensures x in buckets[BucketOf(hash(e))]
      {
        InItsBucket(hash, buckets[..], x);
      }
    }

    /** What hashes to `h` is in the bucket for `h`, and what is in a bucket is in the table. */
    lemma InBucketOf(h: nat)
      requires Valid()
      ensures forall x :: x in buckets[BucketOf(h)] ==> x in Contents()
      ensures forall x :: x in Contents() && hash(x) == h ==> x in buckets[BucketOf(h)]
    {
      forall x | x in buckets[BucketOf(h)]
        ensures x in Contents()
      {
        FlatHas(buckets[..], x);
      }
      forall x | x in Contents() && hash(x) == h
        ensures x in buckets[BucketOf(h)]
      {
        InItsBucket(hash, buckets[..], x);
      }
    }

    /** hash_find */
    method Find(e: T) returns (r: Option<T>)
      requires Valid() && Compatible(hash, equal)
      ensures r.None? ==> forall x :: x in Contents() ==> !equal(x, e)
      ensures r.Some? ==> r.value in Contents() && equal(r.value, e)
    {
      var i := BucketOf(hash(e));
      var k := FindElem(i, e);
      if k.None? {
        NotElsewhere(e);
        return None;
      }
      r := Some(buckets[i][k.value]);
      FlatHas(buckets[..], r.value);
    }

    /** insert_elem */
    method InsertElem(i: nat, e: T)
      requires Valid() && i == BucketOf(hash(e))
      modifies this`elemCnt, buckets
      ensures Valid() && Contents() == old(Contents()) + multiset{e}
      ensures elemCnt == old(elemCnt) + 1 && buckets[..] == Fronted(hash, old(buckets[..]), e)
    {
      ghost var b := buckets[..];
      FlatPush(b, i, e);
      PlacedPush(hash, b, i, e);
      elemCnt := elemCnt + 1;
      buckets[i] := [e] + buckets[i];
      assert buckets[..] == b[i := [e] + b[i]];
    }

    /** remove_elem */
    method RemoveElem(i: nat, k: nat)
      requires Valid() && i < buckets.Length && k < |buckets[i]|
      modifies this`elemCnt, buckets
      ensures Valid() && old(Contents()) == Contents() + multiset{old(buckets[i][k])}
      ensures buckets == old(buckets) && buckets[..] == WithoutElem(old(buckets[..]), i, k)
    {
      ghost var b := buckets[..];
      FlatRemove(b, i, k);
      PlacedRemove(hash, b, i, k);
      elemCnt := elemCnt - 1;
      buckets[i] := buckets[i][..k] + buckets[i][k + 1..];
      assert buckets[..] == b[i := b[i][..k] + b[i][k + 1..]];
    }

    /** Puts an element in front of its bucket. */
    method PushFront(newBuckets: array<seq<T>>, elem: T)
      requires newBuckets.Length > 0 && Placed(hash, newBuckets[..])
      modifies newBuckets
      ensures Placed(hash, newBuckets[..]) && |Flat(newBuckets[..])| == |Flat(old(newBuckets[..]))| + 1
      ensures multiset(Flat(newBuckets[..])) == multiset(Flat(old(newBuckets[..]))) + multiset{elem}
      ensures newBuckets[..] == Fronted(hash, old(newBuckets[..]), elem)
    {
      ghost var b := newBuckets[..];
      var i := And(hash(elem), newBuckets.Length - 1);
      FlatPush(b, i, elem);
      PlacedPush(hash, b, i, elem);
      newBuckets[i] := [elem] + newBuckets[i];
      assert newBuckets[..] == b[i := [elem] + b[i]];
    }

    /** Moves the elements of one old bucket to the front of their new ones. */
    method MoveBucket(newBuckets: array<seq<T>>, bucket: seq<T>)
      requires newBuckets.Length > 0 && Placed(hash, newBuckets[..])
      modifies newBuckets
      ensures Placed(hash, newBuckets[..])
      ensures multiset(Flat(newBuckets[..])) == multiset(Flat(old(newBuckets[..]))) + multiset(bucket)
      ensures |Flat(newBuckets[..])| == |Flat(old(newBuckets[..]))| + |bucket|
      ensures newBuckets[..] == PushAll(hash, old(newBuckets[..]), bucket)
    {
      hide Placed, Flat, Fronted;
      for k := 0 to |bucket|
        invariant Placed(hash, newBuckets[..])
        invariant multiset(Flat(newBuckets[..])) == multiset(Flat(old(newBuckets[..]))) + multiset(bucket[..k])
        invariant |Flat(newBuckets[..])| == |Flat(old(newBuckets[..]))| + k
        invariant newBuckets[..] == PushAll(hash, old(newBuckets[..]), bucket[..k])
      {
        assert bucket[..k + 1][..k] == bucket[..k];
        PushFront(newBuckets, bucket[k]);
        assert bucket[..k + 1] == bucket[..k] + [bucket[k]];
      }
      assert bucket[..|bucket|] == bucket;
    }

    /** rehash: afterwards the bucket count is the ideal one, and everything else is as before. */
    method Rehash()
      requires Valid()
      modifies this`buckets, this`bucketCnt
      ensures Valid() && Contents() == old(Contents()) && IsPowerOf2(bucketCnt)
      ensures bucketCnt <= (if elemCnt / 2 < minBucketCount then minBucketCount else elemCnt / 2) < 2 * bucketCnt
      ensures buckets == old(buckets) || fresh(buckets)
      ensures buckets[..] == Resized(hash, old(buckets[..]), IdealCount(elemCnt, minBucketCount))
    {
      hide Placed, Flat, IsPowerOf2, PushAll, Greatest;
      var newBucketCnt := IdealBucketCount(elemCnt, minBucketCount);
      if newBucketCnt == bucketCnt {
        return;
      }
      var newBuckets := new seq<T>[newBucketCnt](_ => []);
      assert newBuckets[..] == Empties(newBucketCnt);
      EmptyPlaced(hash, newBuckets[..]);
      FlatEmpty(buckets[..0]);
      NothingPushed(hash, newBuckets[..]);
      for i := 0 to buckets.Length
        invariant Placed(hash, newBuckets[..]) && buckets == old(buckets) && buckets[..] == old(buckets[..])
        invariant multiset(Flat(newBuckets[..])) == multiset(Flat(buckets[..i]))
                  && |Flat(newBuckets[..])| == |Flat(buckets[..i])|
        invariant newBuckets[..] == PushAll(hash, Empties(newBucketCnt), Flat(buckets[..i]))
      {
        PushAllConcat(hash, Empties(newBucketCnt), Flat(buckets[..i]), buckets[i]);
        MoveBucket(newBuckets, buckets[i]);
        FlatNext(buckets[..], i);
        assert buckets[..][..i] == buckets[..i] && buckets[..][..i + 1] == buckets[..i + 1];
      }
      assert buckets[..buckets.Length] == buckets[..];
      buckets, bucketCnt := newBuckets, newBucketCnt;
    }

    /** hash_insert */
    method Insert(e: T) returns (r: Option<T>)
      requires Valid() && Compatible(hash, equal)
      modifies this, buckets
      ensures Valid() && (buckets == old(buckets) || fresh(buckets)) && IsPowerOf2(bucketCnt)
      ensures r.None? ==> Contents() == old(Contents()) + multiset{e} && forall x :: x in old(Contents()) ==>
                                                                                       !equal(x, e)
      ensures r.Some? ==> Contents() == old(Contents()) && r.value in Contents() && equal(r.value, e)
      ensures elemCnt == old(elemCnt) + if r.None? then 1 else 0
      ensures buckets[..] == Resized(hash, if r.None? then Fronted(hash, old(buckets[..]), e) else old(buckets[..]),
                                     IdealCount(elemCnt, minBucketCount))
    {
      hide Placed, Flat, Compatible, Fronted, Resized, Greatest;
      var i := BucketOf(hash(e));
      var k := FindElem(i, e);
      if k.None? {
        NotElsewhere(e);
        r := None;
        InsertElem(i, e);
      } else {
        r := Some(buckets[i][k.value]);
        FlatHas(buckets[..], r.value);
      }
      Rehash();
    }

    /** hash_replace */
    method Replace(e: T) returns (r: Option<T>, ghost k: nat)
      requires Valid() && Compatible(hash, equal)
      modifies this, buckets
      ensures Valid() && (buckets == old(buckets) || fresh(buckets)) && IsPowerOf2(bucketCnt)
      ensures r.None? ==> Contents() == old(Contents()) + multiset{e} && forall x :: x in old(Contents()) ==>
                                                                                       !equal(x, e)
      ensures r.Some? ==>
                Contents() == old(Contents()) - multiset{r.value} + multiset{e} && r.value in old(Contents())
                && equal(r.value, e)
      ensures var i, b := old(BucketOf(hash(e))), old(buckets[..]);
              && (r.Some? ==> IsFirstEqual(equal, b[i], e, k) && b[i][k] == r.value)
              && buckets[..] == Resized(hash, Fronted(hash, if r.None? then b else WithoutElem(b, i, k), e),
                                        IdealCount(elemCnt, minBucketCount))
    {
      hide Placed, Flat, Table.Contents, Compatible, Fronted, Resized, WithoutElem, Greatest, And, IdealCount;
      ghost var before := Contents();
      var i := BucketOf(hash(e));
      var found := FindElem(i, e);
      k := 0;
      if found.Some? {
        k := found.value;
        r := Some(buckets[i][found.value]);
        RemoveElem(i, found.value);
        TakenOut(before, Contents(), r.value);
      } else {
        r := None;
        NotElsewhere(e);
      }
      InsertElem(i, e);
      Rehash();
    }

    /** hash_delete */
    method Delete(e: T) returns (r: Option<T>, ghost k: nat)
      requires Valid() && Compatible(hash, equal)
      modifies this, buckets
      ensures Valid() && (buckets == old(buckets) || fresh(buckets))
      ensures r.None? ==> Contents() == old(Contents()) && forall x :: x in Contents() ==> !equal(x, e)
      ensures r.Some? ==> old(Contents()) == Contents() + multiset{r.value} && equal(r.value, e)
      ensures var i, b := old(BucketOf(hash(e))), old(buckets[..]);
              if r.None? then buckets[..] == b
              else && IsFirstEqual(equal, b[i], e, k) && b[i][k] == r.value
                   && buckets[..] == Resized(hash, WithoutElem(b, i, k), IdealCount(elemCnt, minBucketCount))
    {
      hide Placed, Flat, Resized, WithoutElem, Greatest;
      var i := BucketOf(hash(e));
      var found := FindElem(i, e);
      k := 0;
      if found.None? {
        NotElsewhere(e);
        return None, k;
      }
      k := found.value;
      r := Some(buckets[i][found.value]);
      RemoveElem(i, found.value);
      Rehash();
    }
  }

  // ---------- the table as a set ----------

  ghost predicate Equivalence<T(!new)>(equal: (T, T) -> bool) {
    && (forall x :: equal(x, x)) && (forall x, y :: equal(x, y) ==> equal(y, x))
    && (forall x, y, z :: equal(x, y) && equal(y, z) ==> equal(x, z))
  }

  lemma Shared<T(!new)>(equal: (T, T) -> bool, x: T, y: T, e: T)
    requires Equivalence(equal) && equal(x, e)
    ensures equal(y, e) ==> equal(y, x)
  {
    assert equal(e, x);
  }

  /** Adding what is equal to nothing there, and replacing or removing an element, keep elements distinct. */
  lemma StaysDistinct<T(!new)>(equal: (T, T) -> bool, s: multiset<T>, e: T, x: T)
    requires Equivalence(equal) && Distinct(equal, s)
    ensures (forall y :: y in s ==> !equal(y, e)) ==> Distinct(equal, s + multiset{e})
    ensures x in s && equal(x, e) ==> Distinct(equal, s - multiset{x} + multiset{e})
    ensures Distinct(equal, s - multiset{x})
  {
    assert e in s ==> equal(e, e);
    if x in s && equal(x, e) {
      var t := s - multiset{x};
      forall y | y in t
        ensures !equal(y, e)
      {
        Shared(equal, x, y, e);
      }
      assert e !in t by {
        assert equal(e, e);
      }
    }
  }

  /** In a distinct table at most one element is equal to a key, so hash_delete leaves none. */
  lemma AtMostOne<T(!new)>(equal: (T, T) -> bool, s: multiset<T>, e: T, x: T)
    requires Equivalence(equal) && Distinct(equal, s) && x in s && equal(x, e)
    ensures forall y :: y in s - multiset{x} ==> !equal(y, e)
  {
    forall y | y in s - multiset{x}
      ensures !equal(y, e)
    {
      Shared(equal, x, y, e);
    }
  }

  // ---------- iteration ----------

  lemma {:induction false} FlatAt<T>(b: seq<seq<T>>, i: nat, k: nat)
    requires i < |b| && k < |b[i]|
    ensures |Flat(b[..i])| + k < |Flat(b)| && Flat(b)[|Flat(b[..i])| + k] == b[i][k]
  {
    var n := |b| - 1;
    if i < n {
      FlatAt(b[..n], i, k);
      assert b[..n][..i] == b[..i];
    }
  }

  /** hash_iterator: a bucket and the place in it, -1 for the list head. */
  class HashIterator<T(==, !new)> {
    const table: Table<T>
    var bucket: nat
    var elem: int

    ghost predicate Valid()
      reads this, table, table.buckets
    {
      table.Valid() && bucket < table.buckets.Length && -1 <= elem < |table.buckets[bucket]|
    }

    /** How many elements have been returned. */
    ghost function Visited(): int
      requires Valid()
      reads this, table, table.buckets
    {
      |Flat(table.buckets[..bucket])| + elem + 1
    }

    /** hash_first */
    constructor (table: Table<T>)
      requires table.Valid()
      ensures Valid() && Visited() == 0 && this.table == table
    {
      this.table := table;
      bucket, elem := 0, -1;
      new;
      assert table.buckets[..0] == [];
    }

    /** hash_next: the elements come in the order of `Flat`, so each comes once, and then null. */
    method Next() returns (r: Option<T>)
      requires Valid()
      modifies this
      ensures r.Some? ==> Valid() && Visited() == old(Visited()) + 1 && old(Visited()) < |Flat(table.buckets[..])|
                          && r.value == Flat(table.buckets[..])[old(Visited())]
      ensures r.None? ==> old(Visited()) == |Flat(table.buckets[..])|
    {
      ghost var b := table.buckets[..];
      ghost var visited := Visited();
      assert table.buckets[..bucket] == b[..bucket];
      elem := elem + 1;
      while elem == |table.buckets[bucket]|
        invariant bucket < table.buckets.Length && 0 <= elem <= |table.buckets[bucket]|
        invariant |Flat(b[..bucket])| + elem == visited
        decreases table.buckets.Length - bucket
      {
        FlatNext(b, bucket);
        bucket := bucket + 1;
        if bucket >= table.bucketCnt {
          assert b[..bucket] == b;
          return None;
        }
        elem := 0;
      }
      FlatAt(b, bucket, elem);
      assert table.buckets[..bucket] == b[..bucket];
      r := Some(table.buckets[bucket][elem]);
    }
  }
}
