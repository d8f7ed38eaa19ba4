/**
 The red-black tree as a value: a shape, the path from a subtree up to the root, the memory
 both occupy, and the red-black invariants.  Nothing here touches the heap.
 */
module RbShape {
  import opened Common

  datatype Color = Red | Black

  /** A subtree; the elements are the nodes themselves. */
  datatype Shape<N> = Nil | Node(left: Shape<N>, elem: N, color: Color, right: Shape<N>)

  /** What surrounds a subtree, innermost step first: the subtree hangs to the left (InLeft)
      or to the right (InRight) of `elem`. */
  datatype Path<N> =
    | Root
    | InLeft(elem: N, color: Color, right: Shape<N>, up: Path<N>)
    | InRight(left: Shape<N>, elem: N, color: Color, up: Path<N>)

  /** The fields of a node, and its place in the order, a number between those of its neighbours. */
  datatype Cell<N> = Cell(left: N, right: N, parent: N, color: Color, pos: real)

  type Memory<N> = map<N, Cell<N>>

  // ---------- contents ----------

  ghost function Inorder<N>(s: Shape<N>): seq<N> {
    match s
    case Nil => []
    case Node(l, n, _, r) => Inorder(l) + [n] + Inorder(r)
  }

  /** A place in a subtree, counted in a tree that has `n` elements before the subtree. */
  function Shifted(n: nat, i: Option<nat>): (r: Option<nat>)
    ensures n == 0 ==> r == i
  {
    match i
    case None => None
    case Some(k) => Some(n + k)
  }

  /** Where an element stands to a key that is searched for. */
  datatype Side = Below | Same | Above

  /** Where the way down for a key stops, as a place in the order. */
  ghost function Way<N>(s: Shape<N>, side: N -> Side): (i: Option<nat>)
    ensures i.Some? ==> i.value < |Inorder(s)| && side(Inorder(s)[i.value]).Same?
  {
    match s
    case Nil => None
    case Node(l, n, _, r) =>
      match side(n)
      case Below => Shifted(|Inorder(l)| + 1, Way(r, side))
      case Above => Way(l, side)
      case Same => Some(|Inorder(l)|)
  }

  lemma WayOfNode<N>(t: Shape<N>, side: N -> Side)
    requires t.Node?
    ensures side(t.elem).Below? ==> Way(t, side) == Shifted(|Inorder(t.left)| + 1, Way(t.right, side))
    ensures side(t.elem).Above? ==> Way(t, side) == Way(t.left, side)
    ensures side(t.elem).Same? ==> Way(t, side) == Some(|Inorder(t.left)|)
  {
  }

  /** From the element at `i` back to the first one before which only elements below the key come. */
  ghost function WayBack<N>(s: seq<N>, i: nat, side: N -> Side): (k: nat)
    requires i < |s|
    ensures k <= i && (k == 0 || side(s[k - 1]).Below?) && forall j :: k <= j < i ==> !side(s[j]).Below?
  {
    if i == 0 || side(s[i - 1]).Below? then i else WayBack(s, i - 1, side)
  }

  /** The elements a path puts before, and after, the subtree in its hole. */
  ghost function Before<N>(p: Path<N>): seq<N> {
    match p
    case Root => []
    case InLeft(_, _, _, up) => Before(up)
    case InRight(l, n, _, up) => Before(up) + Inorder(l) + [n]
  }

  ghost function After<N>(p: Path<N>): seq<N> {
    match p
    case Root => []
    case InLeft(n, _, r, up) => [n] + Inorder(r) + After(up)
    case InRight(_, _, _, up) => After(up)
  }

  ghost function Plug<N>(p: Path<N>, s: Shape<N>): Shape<N> {
    match p
    case Root => s
    case InLeft(n, c, r, up) => Plug(up, Node(s, n, c, r))
    case InRight(l, n, c, up) => Plug(up, Node(l, n, c, s))
  }

  // ---------- memory ----------

  /** The pointer to a subtree; the sentinel stands for an empty one. */
  ghost function Top<N>(s: Shape<N>, nil: N): N {
    if s.Nil? then nil else s.elem
  }

  ghost function Parent<N>(p: Path<N>, nil: N): N {
    if p.Root? then nil else p.elem
  }

  ghost function Pos<N>(m: Memory<N>, n: N): real {
    if n in m then m[n].pos else 0.0
  }

  /** The subtree in a path's hole lies strictly between these two places. */
  ghost function Lo<N>(m: Memory<N>, p: Path<N>): real {
    match p
    case Root => 0.0
    case InLeft(_, _, _, up) => Lo(m, up)
    case InRight(_, n, _, _) => Pos(m, n)
  }

  ghost function Hi<N>(m: Memory<N>, p: Path<N>): real {
    match p
    case Root => 1.0
    case InLeft(n, _, _, _) => Pos(m, n)
    case InRight(_, _, _, up) => Hi(m, up)
  }

  /** A node's fields say what the shape says. */
  ghost predicate IsCell<N>(m: Memory<N>, n: N, left: N, right: N, parent: N, color: Color, lo: real, hi: real,
                            nil: N) {
    n in m && n != nil && m[n] == Cell(left, right, parent, color, m[n].pos) && lo < m[n].pos < hi
  }

  ghost predicate Linked<N>(m: Memory<N>, s: Shape<N>, lo: real, hi: real, parent: N, nil: N) {
    match s
    case Nil => true
    case Node(l, n, c, r) =>
      && IsCell(m, n, Top(l, nil), Top(r, nil), parent, c, lo, hi, nil)
      && Linked(m, l, lo, m[n].pos, n, nil) && Linked(m, r, m[n].pos, hi, n, nil)
  }

  ghost predicate PathLinked<N>(m: Memory<N>, p: Path<N>, hole: N, nil: N) {
    match p
    case Root => true
    case InLeft(n, c, r, up) =>
      && IsCell(m, n, hole, Top(r, nil), Parent(up, nil), c, Lo(m, up), Hi(m, up), nil)
      && Linked(m, r, m[n].pos, Hi(m, up), n, nil) && PathLinked(m, up, n, nil)
    case InRight(l, n, c, up) =>
      && IsCell(m, n, Top(l, nil), hole, Parent(up, nil), c, Lo(m, up), Hi(m, up), nil)
      && Linked(m, l, Lo(m, up), m[n].pos, n, nil) && PathLinked(m, up, n, nil)
  }

  /** Memory holds the subtree `s` in the hole of the path `p`. */
  ghost predicate Zip<N>(m: Memory<N>, p: Path<N>, s: Shape<N>, nil: N) {
    && Linked(m, s, Lo(m, p), Hi(m, p), Parent(p, nil), nil)
    && PathLinked(m, p, Top(s, nil), nil)
  }

  /** The root pointer of the tree whose hole holds the pointer `hole`. */
  ghost function RootPtr<N>(p: Path<N>, hole: N): N {
    if p.Root? then hole else RootPtr(p.up, p.elem)
  }

  // ---------- what a change of memory leaves alone ----------

  lemma {:induction false} Frame<N>(m: Memory<N>, m': Memory<N>, s: Shape<N>, lo: real, hi: real, parent: N, nil: N)
    requires Linked(m, s, lo, hi, parent, nil)
    requires forall n :: n in m && lo < m[n].pos < hi ==> n in m' && m'[n] == m[n]
    ensures Linked(m', s, lo, hi, parent, nil)
  {
    match s
    case Nil =>
    case Node(l, n, c, r) =>
      Frame(m, m', l, lo, m[n].pos, n, nil);
      Frame(m, m', r, m[n].pos, hi, n, nil);
  }

  lemma {:induction false} PathFrame<N>(m: Memory<N>, m': Memory<N>, p: Path<N>, hole: N, nil: N)
    requires PathLinked(m, p, hole, nil)
    requires forall n :: n in m && !(Lo(m, p) < m[n].pos < Hi(m, p)) ==> n in m' && m'[n] == m[n]
    ensures PathLinked(m', p, hole, nil)
    ensures Lo(m', p) == Lo(m, p) && Hi(m', p) == Hi(m, p)
  {
    match p
    case Root =>
    case InLeft(n, c, r, up) =>
      PathFrame(m, m', up, n, nil);
      Frame(m, m', r, m[n].pos, Hi(m, up), n, nil);
    case InRight(l, n, c, up) =>
      PathFrame(m, m', up, n, nil);
      Frame(m, m', l, Lo(m, up), m[n].pos, n, nil);
  }

  /** Handing a subtree to another parent. */
  lemma {:induction false} Adopt<N>(m: Memory<N>, m': Memory<N>, s: Shape<N>, lo: real, hi: real, parent: N,
                                    parent': N, nil: N)
    requires Linked(m, s, lo, hi, parent, nil)
    requires s.Node? ==> s.elem in m' && m'[s.elem] == m[s.elem].(parent := parent')
    requires forall n :: n in m && lo < m[n].pos < hi && n != Top(s, nil) ==> n in m' && m'[n] == m[n]
    ensures Linked(m', s, lo, hi, parent', nil)
  {
    match s
    case Nil =>
    case Node(l, n, c, r) =>
      Frame(m, m', l, lo, m[n].pos, n, nil);
      Frame(m, m', r, m[n].pos, hi, n, nil);
  }

  ghost function Retarget<N>(p: Path<N>, cell: Cell<N>, hole: N): Cell<N> {
    if p.InLeft? then cell.(left := hole) else cell.(right := hole)
  }

  /** Hanging something else into the hole of a path. */
  lemma {:induction false} Rehang<N>(m: Memory<N>, m': Memory<N>, p: Path<N>, hole: N, hole': N, nil: N)
    requires PathLinked(m, p, hole, nil)
    requires !p.Root? ==> p.elem in m' && m'[p.elem] == Retarget(p, m[p.elem], hole')
    requires forall n :: n in m && !(Lo(m, p) < m[n].pos < Hi(m, p)) && n != Parent(p, nil) ==> n in m' && m'[n] == m[n]
    ensures PathLinked(m', p, hole', nil)
    ensures Lo(m', p) == Lo(m, p) && Hi(m', p) == Hi(m, p)
  {
    match p
    case Root =>
    case InLeft(n, c, r, up) =>
      PathFrame(m, m', up, n, nil);
      Frame(m, m', r, m[n].pos, Hi(m, up), n, nil);
    case InRight(l, n, c, up) =>
      PathFrame(m, m', up, n, nil);
      Frame(m, m', l, Lo(m, up), m[n].pos, n, nil);
  }

  lemma NodeLinked<N>(m: Memory<N>, s: Shape<N>, lo: real, hi: real, parent: N, nil: N)
    requires s.Node? && IsCell(m, s.elem, Top(s.left, nil), Top(s.right, nil), parent, s.color, lo, hi, nil)
    requires Linked(m, s.left, lo, m[s.elem].pos, s.elem, nil) && Linked(m, s.right, m[s.elem].pos, hi, s.elem, nil)
    ensures Linked(m, s, lo, hi, parent, nil)
  {
  }

  /** Two nodes with three subtrees between them. */
  ghost predicate Pair<N>(m: Memory<N>, a: Shape<N>, x: N, b: Shape<N>, y: N, c: Shape<N>, lo: real, hi: real,
                          middle: N, nil: N) {
    && x in m && y in m && lo < m[x].pos < m[y].pos < hi
    && Linked(m, a, lo, m[x].pos, x, nil) && Linked(m, c, m[y].pos, hi, y, nil)
    && Linked(m, b, m[x].pos, m[y].pos, middle, nil)
  }

  /** The three subtrees stay as they are, but the middle one goes from one of the two nodes to the other. */
  lemma PairTurned<N>(m: Memory<N>, m': Memory<N>, a: Shape<N>, x: N, b: Shape<N>, y: N, c: Shape<N>, lo: real,
                      hi: real, p: N, middle: N, middle': N, nil: N)
    requires nil !in m && Pair(m, a, x, b, y, c, lo, hi, middle, nil) && (p in m ==> !(lo < m[p].pos < hi))
    requires m'.Keys == m.Keys && m'[x].pos == m[x].pos && m'[y].pos == m[y].pos
    requires Top(b, nil) in m ==> m'[Top(b, nil)] == m[Top(b, nil)].(parent := middle')
    requires forall n :: n in m && n != x && n != y && n != Top(b, nil) && n != p ==> m'[n] == m[n]
    ensures Pair(m', a, x, b, y, c, lo, hi, middle', nil)
  {
    var px, py := m[x].pos, m[y].pos;
    assert b.Node? ==> px < m[b.elem].pos < py;
    Frame(m, m', a, lo, px, x, nil);
    Frame(m, m', c, py, hi, y, nil);
    Adopt(m, m', b, px, py, middle, middle', nil);
  }

  /** Memory `m'` is `m` after the pointers around `x` and its right child turned left. */
  ghost predicate TurnedLeft<N>(m: Memory<N>, m': Memory<N>, x: N, nil: N) {
    && x in m && m[x].right in m && m'.Keys == m.Keys
    && var y, p := m[x].right, m[x].parent;
    var b := m[y].left;
    && m'[x] == m[x].(right := b, parent := y)
    && m'[y] == m[y].(left := x, parent := p)
    && (b in m ==> m'[b] == m[b].(parent := x))
    && (p in m ==> m'[p] == if m[p].left == x then m[p].(left := y) else m[p].(right := y))
    && forall n :: n in m && n != x && n != y && n != b && n != p ==> m'[n] == m[n]
  }

  /** What makes turning left possible: the four nodes are there and different. */
  ghost predicate CanTurnLeft<N>(m: Memory<N>, x: N, nil: N) {
    && nil !in m && x in m && m[x].right in m && m[x].right != x
    && var y, p := m[x].right, m[x].parent;
    var b := m[y].left;
    && (b == nil || (b in m && b != x && b != y && b != p))
    && (p == nil || (p in m && p != x && p != y))
  }

  lemma {:induction false} TurnLeftReady<N>(m: Memory<N>, p: Path<N>, a: Shape<N>, x: N, cx: Color,
                                            b: Shape<N>, y: N, cy: Color, c: Shape<N>, nil: N)
    requires nil !in m && Zip(m, p, Node(a, x, cx, Node(b, y, cy, c)), nil)
    ensures CanTurnLeft(m, x, nil)
    ensures m[x].right == y && m[x].parent == Parent(p, nil) && m[y].left == Top(b, nil)
    ensures !p.Root? ==> (m[p.elem].left == x <==> p.InLeft?)
    ensures Linked(m, Node(b, y, cy, c), m[x].pos, Hi(m, p), x, nil)
  {
    assert Linked(m, Node(b, y, cy, c), m[x].pos, Hi(m, p), x, nil);
    assert Linked(m, b, m[x].pos, m[y].pos, y, nil);
    assert !p.Root? ==> !(Lo(m, p) < m[p.elem].pos < Hi(m, p));
    if p.InRight? && p.left.Node? {
      assert m[p.left.elem].pos < m[p.elem].pos;
    }
  }

  lemma LeftPair<N>(m: Memory<N>, p: Path<N>, a: Shape<N>, x: N, cx: Color, b: Shape<N>, y: N, cy: Color,
                    c: Shape<N>, nil: N)
    requires nil !in m && Zip(m, p, Node(a, x, cx, Node(b, y, cy, c)), nil)
    ensures Pair(m, a, x, b, y, c, Lo(m, p), Hi(m, p), y, nil) && PathLinked(m, p, x, nil)
    ensures !p.Root? ==> p.elem in m && !(Lo(m, p) < m[p.elem].pos < Hi(m, p))
    ensures m[x].color == cx && m[y].color == cy && m[x].left == Top(a, nil) && m[y].right == Top(c, nil)
    ensures b.Node? ==> b.elem in m && m[x].pos < m[b.elem].pos < m[y].pos
    ensures x != nil && y != nil && x != y
  {
    assert Linked(m, Node(b, y, cy, c), m[x].pos, Hi(m, p), x, nil);
    assert Linked(m, b, m[x].pos, m[y].pos, y, nil);
  }

  lemma {:induction false} LeftRotated<N>(m: Memory<N>, m': Memory<N>, p: Path<N>, a: Shape<N>, x: N, cx: Color,
                                          b: Shape<N>, y: N, cy: Color, c: Shape<N>, nil: N)
    requires nil !in m && Zip(m, p, Node(a, x, cx, Node(b, y, cy, c)), nil)
    requires TurnedLeft(m, m', x, nil)
    ensures Zip(m', p, Node(Node(a, x, cx, b), y, cy, c), nil)
  {
    hide Linked, PathLinked;
    TurnLeftReady(m, p, a, x, cx, b, y, cy, c, nil);
    LeftPair(m, p, a, x, cx, b, y, cy, c, nil);
    var lo, hi := Lo(m, p), Hi(m, p);
    PairTurned(m, m', a, x, b, y, c, lo, hi, Parent(p, nil), y, x, nil);
    NodeLinked(m', Node(a, x, cx, b), lo, m'[y].pos, y, nil);
    NodeLinked(m', Node(Node(a, x, cx, b), y, cy, c), lo, hi, Parent(p, nil), nil);
    Rehang(m, m', p, x, y, nil);
  }

  // The mirror image: turning right around `y` and its left child `x`.

  ghost predicate TurnedRight<N>(m: Memory<N>, m': Memory<N>, y: N, nil: N) {
    && y in m && m[y].left in m && m'.Keys == m.Keys
    && var x, p := m[y].left, m[y].parent;
    var b := m[x].right;
    && m'[y] == m[y].(left := b, parent := x)
    && m'[x] == m[x].(right := y, parent := p)
    && (b in m ==> m'[b] == m[b].(parent := y))
    && (p in m ==> m'[p] == if m[p].left == y then m[p].(left := x) else m[p].(right := x))
    && forall n :: n in m && n != x && n != y && n != b && n != p ==> m'[n] == m[n]
  }

  ghost predicate CanTurnRight<N>(m: Memory<N>, y: N, nil: N) {
    && nil !in m && y in m && m[y].left in m && m[y].left != y
    && var x, p := m[y].left, m[y].parent;
    var b := m[x].right;
    && (b == nil || (b in m && b != x && b != y && b != p))
    && (p == nil || (p in m && p != x && p != y))
  }

  lemma {:induction false} TurnRightReady<N>(m: Memory<N>, p: Path<N>, a: Shape<N>, x: N, cx: Color,
                                             b: Shape<N>, y: N, cy: Color, c: Shape<N>, nil: N)
    requires nil !in m && Zip(m, p, Node(Node(a, x, cx, b), y, cy, c), nil)
    ensures CanTurnRight(m, y, nil)
    ensures m[y].left == x && m[y].parent == Parent(p, nil) && m[x].right == Top(b, nil)
    ensures !p.Root? ==> (m[p.elem].left == y <==> p.InLeft?)
    ensures Linked(m, Node(a, x, cx, b), Lo(m, p), m[y].pos, y, nil)
  {
    assert Linked(m, Node(a, x, cx, b), Lo(m, p), m[y].pos, y, nil);
    assert Linked(m, b, m[x].pos, m[y].pos, x, nil);
    assert !p.Root? ==> !(Lo(m, p) < m[p.elem].pos < Hi(m, p));
    if p.InRight? && p.left.Node? {
      assert m[p.left.elem].pos < m[p.elem].pos;
    }
  }

  lemma RightPair<N>(m: Memory<N>, p: Path<N>, a: Shape<N>, x: N, cx: Color, b: Shape<N>, y: N, cy: Color,
                     c: Shape<N>, nil: N)
    requires nil !in m && Zip(m, p, Node(Node(a, x, cx, b), y, cy, c), nil)
    ensures Pair(m, a, x, b, y, c, Lo(m, p), Hi(m, p), x, nil) && PathLinked(m, p, y, nil)
    ensures !p.Root? ==> p.elem in m && !(Lo(m, p) < m[p.elem].pos < Hi(m, p))
    ensures m[x].color == cx && m[y].color == cy && m[x].left == Top(a, nil) && m[y].right == Top(c, nil)
    ensures b.Node? ==> b.elem in m && m[x].pos < m[b.elem].pos < m[y].pos
    ensures x != nil && y != nil && x != y
  {
    assert Linked(m, Node(a, x, cx, b), Lo(m, p), m[y].pos, y, nil);
    assert Linked(m, b, m[x].pos, m[y].pos, x, nil);
  }

  lemma {:induction false} RightRotated<N>(m: Memory<N>, m': Memory<N>, p: Path<N>, a: Shape<N>, x: N, cx: Color,
                                           b: Shape<N>, y: N, cy: Color, c: Shape<N>, nil: N)
    requires nil !in m && Zip(m, p, Node(Node(a, x, cx, b), y, cy, c), nil)
    requires TurnedRight(m, m', y, nil)
    ensures Zip(m', p, Node(a, x, cx, Node(b, y, cy, c)), nil)
  {
    hide Linked, PathLinked;
    TurnRightReady(m, p, a, x, cx, b, y, cy, c, nil);
    RightPair(m, p, a, x, cx, b, y, cy, c, nil);
    var lo, hi := Lo(m, p), Hi(m, p);
    PairTurned(m, m', a, x, b, y, c, lo, hi, Parent(p, nil), x, y, nil);
    NodeLinked(m', Node(b, y, cy, c), m'[x].pos, hi, x, nil);
    NodeLinked(m', Node(a, x, cx, Node(b, y, cy, c)), lo, hi, Parent(p, nil), nil);
    Rehang(m, m', p, y, x, nil);
  }

  // ---------- recolouring, adding a leaf, removing, replacing ----------

  ghost predicate Painted<N>(m: Memory<N>, m': Memory<N>, n: N, c: Color) {
    n in m && m' == m[n := m[n].(color := c)]
  }

  lemma {:induction false} PaintedZip<N>(m: Memory<N>, m': Memory<N>, p: Path<N>, s: Shape<N>, c: Color, nil: N)
    requires nil !in m && Zip(m, p, s, nil) && s.Node? && Painted(m, m', s.elem, c)
    ensures Zip(m', p, s.(color := c), nil)
  {
    var lo, hi, q := Lo(m, p), Hi(m, p), m[s.elem].pos;
    Frame(m, m', s.left, lo, q, s.elem, nil);
    Frame(m, m', s.right, q, hi, s.elem, nil);
    PathFrame(m, m', p, s.elem, nil);
  }

  /** A new leaf `n` hung into the empty hole of a path. */
  ghost predicate Grown<N>(m: Memory<N>, m': Memory<N>, p: Path<N>, n: N, nil: N) {
    && n !in m && m'.Keys == m.Keys + {n}
    && m'[n] == Cell(nil, nil, Parent(p, nil), Red, (Lo(m, p) + Hi(m, p)) / 2.0)
    && (!p.Root? ==> p.elem in m && m'[p.elem] == Retarget(p, m[p.elem], n))
    && forall k :: k in m && k != Parent(p, nil) ==> m'[k] == m[k]
  }

  lemma {:induction false} GrownZip<N>(m: Memory<N>, m': Memory<N>, p: Path<N>, n: N, nil: N)
    requires nil !in m && n != nil && Zip(m, p, Nil, nil) && Grown(m, m', p, n, nil)
    requires Lo(m, p) < Hi(m, p)
    ensures Zip(m', p, Node(Nil, n, Red, Nil), nil)
  {
    assert !p.Root? ==> !(Lo(m, p) < m[p.elem].pos < Hi(m, p));
    Rehang(m, m', p, nil, n, nil);
  }

  /** The hole of a path is never empty of places. */
  lemma {:induction false} HoleIsOpen<N>(m: Memory<N>, p: Path<N>, hole: N, nil: N)
    requires PathLinked(m, p, hole, nil)
    ensures Lo(m, p) < Hi(m, p)
  {
  }

  /** The only child of a node that has at most one, or the sentinel. */
  ghost function OnlyChild<N>(m: Memory<N>, d: N, nil: N): N
    requires d in m
  {
    if m[d].left != nil then m[d].left else m[d].right
  }

  /** Node `d`, which has at most one child, is taken out and the child takes its place. */
  ghost predicate Removed<N>(m: Memory<N>, m': Memory<N>, d: N, nil: N) {
    && d in m && m'.Keys == m.Keys - {d}
    && var x, p := OnlyChild(m, d, nil), m[d].parent;
    && (x in m' ==> m'[x] == m[x].(parent := p))
    && (p in m' ==> m'[p] == if m[p].left == d then m[p].(left := x) else m[p].(right := x))
    && forall k :: k in m' && k != p && k != x ==> m'[k] == m[k]
  }

  ghost predicate CanRemove<N>(m: Memory<N>, d: N, nil: N) {
    && nil !in m && d in m
    && var x, p := OnlyChild(m, d, nil), m[d].parent;
    && (x == nil || (x in m && x != d && x != p))
    && (p == nil || (p in m && p != d))
  }

  /** A subtree may be given wider bounds. */
  lemma {:induction false} Widen<N>(m: Memory<N>, s: Shape<N>, lo: real, hi: real, lo': real, hi': real, parent: N,
                                    nil: N)
    requires Linked(m, s, lo, hi, parent, nil) && lo' <= lo && hi <= hi'
    ensures Linked(m, s, lo', hi', parent, nil)
  {
    match s
    case Nil =>
    case Node(l, n, c, r) =>
      Widen(m, l, lo, m[n].pos, lo', m[n].pos, n, nil);
      Widen(m, r, m[n].pos, hi, m[n].pos, hi', n, nil);
  }

  lemma {:induction false} RemovedZip<N>(m: Memory<N>, m': Memory<N>, p: Path<N>, d: N, c: Color, x: Shape<N>,
                                         onLeft: bool, nil: N)
    requires nil !in m
    requires Zip(m, p, if onLeft then Node(x, d, c, Nil) else Node(Nil, d, c, x), nil)
    requires Removed(m, m', d, nil)
    ensures Zip(m', p, x, nil)
  {
    RemovalReady(m, p, d, c, x, onLeft, nil);
    var lo, hi, q := Lo(m, p), Hi(m, p), m[d].pos;
    assert !p.Root? ==> !(lo < m[p.elem].pos < hi);
    if onLeft {
      assert Linked(m, x, lo, q, d, nil);
      assert x.Node? ==> lo < m[x.elem].pos < q;
      Adopt(m, m', x, lo, q, d, Parent(p, nil), nil);
      Widen(m', x, lo, q, lo, hi, Parent(p, nil), nil);
    } else {
      assert Linked(m, x, q, hi, d, nil);
      assert x.Node? ==> q < m[x.elem].pos < hi;
      Adopt(m, m', x, q, hi, d, Parent(p, nil), nil);
      Widen(m', x, q, hi, lo, hi, Parent(p, nil), nil);
    }
    Rehang(m, m', p, d, Top(x, nil), nil);
  }

  /** The pointers around a node about to be removed. */
  lemma {:induction false} RemovalReady<N>(m: Memory<N>, p: Path<N>, d: N, c: Color, x: Shape<N>, onLeft: bool, nil: N)
    requires nil !in m
    requires Zip(m, p, if onLeft then Node(x, d, c, Nil) else Node(Nil, d, c, x), nil)
    ensures CanRemove(m, d, nil) && d != nil && m[d].parent == Parent(p, nil) && OnlyChild(m, d, nil) == Top(x, nil)
    ensures !p.Root? ==> (m[p.elem].left == d <==> p.InLeft?)
  {
    var s := if onLeft then Node(x, d, c, Nil) else Node(Nil, d, c, x);
    if onLeft {
      assert Linked(m, x, Lo(m, p), m[d].pos, d, nil);
    } else {
      assert Linked(m, x, m[d].pos, Hi(m, p), d, nil);
    }
    assert !p.Root? ==> !(Lo(m, p) < m[p.elem].pos < Hi(m, p));
    if !p.Root? {
      ParentSide(m, p, s, nil);
    }
  }

  /** The pointers around a node about to be replaced. */
  lemma {:induction false} ReplaceReady<N>(m: Memory<N>, p: Path<N>, l: Shape<N>, a: N, b: N, c: Color, r: Shape<N>,
                                           nil: N)
    requires nil !in m && b !in m && b != nil && Zip(m, p, Node(l, a, c, r), nil)
    ensures CanReplace(m, a, b, nil) && a != nil
    ensures m[a].left == Top(l, nil) && m[a].right == Top(r, nil) && m[a].parent == Parent(p, nil)
    ensures !p.Root? ==> (m[p.elem].left == a <==> p.InLeft?)
    ensures RootPtr(p, a) == a <==> p.Root?
  {
    assert Linked(m, l, Lo(m, p), m[a].pos, a, nil) && Linked(m, r, m[a].pos, Hi(m, p), a, nil);
    assert !p.Root? ==> !(Lo(m, p) < m[p.elem].pos < Hi(m, p));
    if !p.Root? {
      ParentSide(m, p, Node(l, a, c, r), nil);
      RootIsAbove(m, p, Node(l, a, c, r), nil);
    }
  }

  /** Node `b`, from outside, takes over the fields and the neighbours of `a`. */
  ghost predicate Replaced<N>(m: Memory<N>, m': Memory<N>, a: N, b: N) {
    && a in m && b !in m && m'.Keys == m.Keys - {a} + {b}
    && var l, r, p := m[a].left, m[a].right, m[a].parent;
    && m'[b] == m[a]
    && (l in m && l in m' ==> m'[l] == m[l].(parent := b))
    && (r in m && r in m' ==> m'[r] == m[r].(parent := b))
    && (p in m && p in m' ==> m'[p] == if m[p].left == a then m[p].(left := b) else m[p].(right := b))
    && forall k :: k in m' && k != b && k != l && k != r && k != p ==> k in m && m'[k] == m[k]
  }

  ghost predicate CanReplace<N>(m: Memory<N>, a: N, b: N, nil: N) {
    && nil !in m && a in m && b !in m && b != nil
    && var l, r, p := m[a].left, m[a].right, m[a].parent;
    && (l == nil || (l in m && l != a && l != r && l != p))
    && (r == nil || (r in m && r != a && r != p))
    && (p == nil || (p in m && p != a && (m[p].left == a <==> m[p].right != a)))
  }

  lemma NodeParts<N>(m: Memory<N>, p: Path<N>, s: Shape<N>, nil: N)
    requires nil !in m && Zip(m, p, s, nil) && s.Node?
    ensures IsCell(m, s.elem, Top(s.left, nil), Top(s.right, nil), Parent(p, nil), s.color, Lo(m, p), Hi(m, p), nil)
    ensures Linked(m, s.left, Lo(m, p), m[s.elem].pos, s.elem, nil)
    ensures Linked(m, s.right, m[s.elem].pos, Hi(m, p), s.elem, nil)
    ensures PathLinked(m, p, s.elem, nil) && (!p.Root? ==> p.elem in m && !(Lo(m, p) < m[p.elem].pos < Hi(m, p)))
    ensures s.left.Node? ==> s.left.elem in m && Lo(m, p) < m[s.left.elem].pos < m[s.elem].pos
    ensures s.right.Node? ==> s.right.elem in m && m[s.elem].pos < m[s.right.elem].pos < Hi(m, p)
  {
  }

  lemma ReplacedZip<N>(m: Memory<N>, m': Memory<N>, p: Path<N>, l: Shape<N>, a: N, b: N, c: Color, r: Shape<N>, nil: N)
    requires nil !in m && b != nil && Zip(m, p, Node(l, a, c, r), nil)
    requires Replaced(m, m', a, b)
    ensures Zip(m', p, Node(l, b, c, r), nil)
  {
    hide Linked, PathLinked;
    ReplaceReady(m, p, l, a, b, c, r, nil);
    NodeParts(m, p, Node(l, a, c, r), nil);
    var lo, hi, q := Lo(m, p), Hi(m, p), m[a].pos;
    Adopt(m, m', l, lo, q, a, b, nil);
    Adopt(m, m', r, q, hi, a, b, nil);
    NodeLinked(m', Node(l, b, c, r), lo, hi, Parent(p, nil), nil);
    Rehang(m, m', p, a, b, nil);
  }

  // ---------- moving the focus ----------

  /** The subtree at the parent of the focus. */
  ghost function Filled<N>(p: Path<N>, s: Shape<N>): (t: Shape<N>)
    requires !p.Root?
    ensures t.Node?
  {
    if p.InLeft? then Node(s, p.elem, p.color, p.right) else Node(p.left, p.elem, p.color, s)
  }

  ghost function Depth<N>(p: Path<N>): nat {
    if p.Root? then 0 else 1 + Depth(p.up)
  }

  lemma Regroup<N>(a: seq<N>, b: seq<N>, c: seq<N>, d: seq<N>, e: seq<N>)
    ensures a + (b + c + d) + e == a + b + (c + d + e) == (a + b + c) + d + e
  {
  }

  lemma {:induction false} PlugInorder<N>(p: Path<N>, s: Shape<N>)
    ensures Inorder(Plug(p, s)) == Before(p) + Inorder(s) + After(p)
  {
    match p
    case Root =>
    case InLeft(n, c, r, up) =>
      PlugInorder(up, Node(s, n, c, r));
      Regroup(Before(up), Inorder(s), [n], Inorder(r), After(up));
    case InRight(l, n, c, up) =>
      PlugInorder(up, Node(l, n, c, s));
      Regroup(Before(up), Inorder(l), [n], Inorder(s), After(up));
  }

  lemma {:induction false} LeafInorder<N>(p: Path<N>, n: N)
    ensures Inorder(Plug(p, Nil)) == Before(p) + After(p)
    ensures Inorder(Plug(p, Node(Nil, n, Red, Nil))) == Before(p) + [n] + After(p)
    ensures (set k | k in Before(p) + [n] + After(p)) == (set k | k in Before(p) + After(p)) + {n}
  {
    PlugInorder(p, Nil);
    PlugInorder(p, Node(Nil, n, Red, Nil));
  }

  lemma Flatten<N>(b: seq<N>, l: seq<N>, n: N, r: seq<N>, a: seq<N>)
    ensures b + (l + [n] + r) + a == (b + l) + [n] + (r + a)
  {
  }

  lemma Cut<N>(u: seq<N>, n: N, v: seq<N>)
    ensures (u + [n] + v)[|u|] == n && (u + [n] + v)[..|u|] == u && (u + [n] + v)[|u| + 1..] == v
  {
  }

  /** The order around a subtree's own element. */
  lemma {:induction false} InorderAround<N>(p: Path<N>, s: Shape<N>)
    requires s.Node?
    ensures Inorder(Plug(p, s)) == (Before(p) + Inorder(s.left)) + [s.elem] + (Inorder(s.right) + After(p))
  {
    PlugInorder(p, s);
    Flatten(Before(p), Inorder(s.left), s.elem, Inorder(s.right), After(p));
  }

  /** `after` is `before` without the element at `k`. */
  ghost predicate WithoutAt<N>(before: seq<N>, after: seq<N>, k: nat) {
    && k < |before| && |after| == |before| - 1
    && (forall j :: 0 <= j < k ==> after[j] == before[j])
    && forall j :: k <= j < |after| ==> after[j] == before[j + 1]
  }

  lemma WithoutAtConcat<N>(before: seq<N>, after: seq<N>, k: nat)
    ensures WithoutAt(before, after, k) <==> k < |before| && after == before[..k] + before[k + 1..]
  {
  }

  lemma WithoutMiddle<N>(u: seq<N>, n: N, v: seq<N>)
    ensures WithoutAt(u + [n] + v, u + v, |u|)
  {
  }

  lemma WithoutAtSet<N>(before: seq<N>, after: seq<N>, k: nat)
    requires NoDup(before) && WithoutAt(before, after, k)
    ensures (set e | e in after) == (set e | e in before) - {before[k]}
  {
    WithoutAtConcat(before, after, k);
    assert before == before[..k] + [before[k]] + before[k + 1..];
  }

  /** Taking out the next element and then putting it in the place of this one takes out this one. */
  lemma WithoutNext<N>(before: seq<N>, after: seq<N>, i: nat)
    requires WithoutAt(before, after, i + 1)
    ensures i < |after| && after[i] == before[i] && WithoutAt(before, after[i := before[i + 1]], i)
  {
  }

  /** Taking out a node with a single subtree takes out its place in the order. */
  lemma {:induction false} RemovedInorder<N>(p: Path<N>, s: Shape<N>, x: Shape<N>)
    requires s.Node? && ((s.right.Nil? && x == s.left) || (s.left.Nil? && x == s.right))
    ensures WithoutAt(Inorder(Plug(p, s)), Inorder(Plug(p, x)), |Before(p)| + |Inorder(s.left)|)
  {
    hide Plug, WithoutAt;
    var u, v := Before(p) + Inorder(s.left), Inorder(s.right) + After(p);
    InorderAround(p, s);
    PlugInorder(p, x);
    assert Inorder(Plug(p, x)) == u + v;
    WithoutMiddle(u, s.elem, v);
  }

  /** Another node in the place of one takes its place in the order. */
  lemma {:induction false} ReplacedInorder<N>(p: Path<N>, s: Shape<N>, b: N)
    requires s.Node?
    ensures |Before(p)| + |Inorder(s.left)| < |Inorder(Plug(p, s))|
    ensures Inorder(Plug(p, Node(s.left, b, s.color, s.right)))
         == Inorder(Plug(p, s))[|Before(p)| + |Inorder(s.left)| := b]
  {
    InorderAround(p, s);
    InorderAround(p, Node(s.left, b, s.color, s.right));
    Swap(Before(p) + Inorder(s.left), s.elem, b, Inorder(s.right) + After(p));
  }

  lemma Swap<N>(u: seq<N>, n: N, b: N, v: seq<N>)
    ensures (u + [n] + v)[|u| := b] == u + [b] + v
  {
  }

  lemma {:induction false} RotateInorder<N>(p: Path<N>, a: Shape<N>, x: N, cx: Color, b: Shape<N>, y: N, cy: Color,
                                            c: Shape<N>)
    ensures Inorder(Plug(p, Node(Node(a, x, cx, b), y, cy, c))) == Inorder(Plug(p, Node(a, x, cx, Node(b, y, cy, c))))
  {
    var s, t := Node(Node(a, x, cx, b), y, cy, c), Node(a, x, cx, Node(b, y, cy, c));
    Reassociate(Inorder(a), [x], Inorder(b), [y], Inorder(c));
    assert Inorder(s) == Inorder(t);
    PlugInorder(p, s);
    PlugInorder(p, t);
  }

  lemma Reassociate<N>(a: seq<N>, x: seq<N>, b: seq<N>, y: seq<N>, c: seq<N>)
    ensures (a + x + b) + y + c == a + x + (b + y + c)
  {
  }

  lemma {:induction false} PlugZip<N>(m: Memory<N>, p: Path<N>, s: Shape<N>, nil: N)
    requires Zip(m, p, s, nil)
    ensures Zip(m, Root, Plug(p, s), nil) && RootPtr(p, Top(s, nil)) == Top(Plug(p, s), nil)
    ensures s.Node? ==> Plug(p, s).Node?
  {
    if !p.Root? {
      PlugZip(m, p.up, Filled(p, s), nil);
    }
  }

  lemma {:induction false} RootPtrMoves<N>(p: Path<N>, hole: N, hole': N)
    ensures !p.Root? ==> RootPtr(p, hole) == RootPtr(p, hole')
  {
  }

  /** A child pointer is the sentinel exactly when there is no child. */
  lemma {:induction false} ChildPointers<N>(m: Memory<N>, p: Path<N>, s: Shape<N>, nil: N)
    requires nil !in m && Zip(m, p, s, nil) && s.Node?
    ensures s.elem in m && (m[s.elem].left == nil <==> s.left.Nil?) && (m[s.elem].right == nil <==> s.right.Nil?)
  {
    var q := m[s.elem].pos;
    assert Linked(m, s.left, Lo(m, p), q, s.elem, nil) && Linked(m, s.right, q, Hi(m, p), s.elem, nil);
  }

  /** The parent pointer of the focus, and on which side of its parent it hangs. */
  lemma {:induction false} ParentSide<N>(m: Memory<N>, p: Path<N>, s: Shape<N>, nil: N)
    requires nil !in m && Zip(m, p, s, nil) && !p.Root? && s.Node?
    ensures s.elem in m && m[s.elem].parent == p.elem && p.elem in m && m[p.elem].color == p.color
    ensures m[p.elem].left == s.elem <==> p.InLeft?
    ensures m[p.elem].right == s.elem <==> p.InRight?
  {
    if p.InRight? && p.left.Node? {
      assert m[p.left.elem].pos < m[p.elem].pos < m[s.elem].pos;
    }
    if p.InLeft? && p.right.Node? {
      assert m[s.elem].pos < m[p.elem].pos < m[p.right.elem].pos;
    }
  }

  /** Only the whole tree's own top is the root pointer. */
  lemma {:induction false} RootIsAbove<N>(m: Memory<N>, p: Path<N>, s: Shape<N>, nil: N)
    requires nil !in m && Zip(m, p, s, nil) && !p.Root?
    ensures RootPtr(p, Top(s, nil)) in m && RootPtr(p, Top(s, nil)) != Top(s, nil)
  {
    var q := RootPtr(p.up, p.elem);
    RootIsOutside(m, p, Top(s, nil), nil);
  }

  lemma {:induction false} RootIsOutside<N>(m: Memory<N>, p: Path<N>, hole: N, nil: N)
    requires PathLinked(m, p, hole, nil) && !p.Root?
    ensures RootPtr(p, hole) in m && !(Lo(m, p) < m[RootPtr(p, hole)].pos < Hi(m, p))
  {
    if !p.up.Root? {
      RootIsOutside(m, p.up, p.elem, nil);
    }
  }

  /** The places of the nodes increase along the in-order sequence. */
  lemma {:induction false} Increasing<N>(m: Memory<N>, s: Shape<N>, lo: real, hi: real, parent: N, nil: N)
    requires Linked(m, s, lo, hi, parent, nil)
    ensures forall i :: 0 <= i < |Inorder(s)| ==> Inorder(s)[i] in m && lo < m[Inorder(s)[i]].pos < hi
    ensures forall i, j :: 0 <= i < j < |Inorder(s)| ==> m[Inorder(s)[i]].pos < m[Inorder(s)[j]].pos
    ensures NoDup(Inorder(s))
  {
    match s
    case Nil =>
    case Node(l, n, c, r) =>
      Increasing(m, l, lo, m[n].pos, n, nil);
      Increasing(m, r, m[n].pos, hi, n, nil);
  }

  /** Every element of a subtree can be brought into focus. */
  lemma {:induction false} Locate<N>(p: Path<N>, s: Shape<N>, i: nat) returns (p': Path<N>, s': Shape<N>)
    requires i < |Inorder(s)|
    ensures s'.Node? && s'.elem == Inorder(s)[i] && Plug(p', s') == Plug(p, s)
    ensures |Before(p')| + |Inorder(s'.left)| == |Before(p)| + i
    decreases s
  {
    var k := |Inorder(s.left)|;
    if i == k {
      p', s' := p, s;
    } else if i < k {
      p', s' := Locate(InLeft(s.elem, s.color, s.right, p), s.left, i);
    } else {
      p', s' := Locate(InRight(s.left, s.elem, s.color, p), s.right, i - k - 1);
    }
  }

  /** What holds of the whole tree holds at every focus. */
  lemma {:induction false} FocusZip<N>(m: Memory<N>, p: Path<N>, s: Shape<N>, nil: N)
    requires Zip(m, Root, Plug(p, s), nil)
    ensures Zip(m, p, s, nil) && RootPtr(p, Top(s, nil)) == Top(Plug(p, s), nil)
  {
    if !p.Root? {
      FocusZip(m, p.up, Filled(p, s), nil);
    }
  }

  // ---------- the red-black invariants ----------

  ghost predicate IsBlack<N>(s: Shape<N>) {
    s.Nil? || s.color.Black?
  }

  ghost function Weight(c: Color): nat {
    if c.Black? then 1 else 0
  }

  /** The number of black nodes on the leftmost way down. */
  ghost function BlackHeight<N>(s: Shape<N>): nat {
    if s.Nil? then 0 else BlackHeight(s.left) + Weight(s.color)
  }

  /** No red node has a red child, and all ways down pass the same number of black nodes. */
  ghost predicate Balanced<N>(s: Shape<N>) {
    match s
    case Nil => true
    case Node(l, _, c, r) =>
      && Balanced(l) && Balanced(r) && BlackHeight(l) == BlackHeight(r)
      && (c.Red? ==> IsBlack(l) && IsBlack(r))
  }

  ghost predicate RedBlack<N>(s: Shape<N>) {
    Balanced(s) && IsBlack(s)
  }

  /** A red subtree may hang here. */
  ghost predicate RedFits<N>(p: Path<N>) {
    !p.Root? && p.color.Black?
  }

  /** The path is balanced around a subtree of black height `h`. */
  ghost predicate PathBalanced<N>(p: Path<N>, h: nat) {
    match p
    case Root => true
    case InLeft(_, c, r, up) =>
      && Balanced(r) && BlackHeight(r) == h && (c.Red? ==> IsBlack(r) && RedFits(up))
      && PathBalanced(up, h + Weight(c))
    case InRight(l, _, c, up) =>
      && Balanced(l) && BlackHeight(l) == h && (c.Red? ==> IsBlack(l) && RedFits(up))
      && PathBalanced(up, h + Weight(c))
  }

  /** The subtree in its place is part of a red-black tree. */
  ghost predicate Fits<N>(p: Path<N>, s: Shape<N>) {
    Balanced(s) && PathBalanced(p, BlackHeight(s)) && (!IsBlack(s) ==> RedFits(p))
  }

  lemma {:induction false} PlugBalanced<N>(p: Path<N>, s: Shape<N>)
    ensures Fits(p, s) <==> RedBlack(Plug(p, s))
  {
    if !p.Root? {
      PlugBalanced(p.up, Filled(p, s));
      assert Fits(p, s) <==> Fits(p.up, Filled(p, s));
    }
  }

  ghost function Blacken<N>(s: Shape<N>): Shape<N> {
    if s.Nil? then s else Node(s.left, s.elem, Black, s.right)
  }

  /** A red subtree whose only possible fault is a red parent, or being the root. */
  ghost predicate RedFault<N>(p: Path<N>, s: Shape<N>) {
    s.Node? && s.color == Red && Balanced(s) && PathBalanced(p, BlackHeight(s))
  }

  /** The fault moves two levels up when parent and uncle are red. */
  lemma {:induction false} FaultMovesUp<N>(p: Path<N>, s: Shape<N>)
    requires RedFault(p, s) && !p.Root? && p.color == Red
    ensures RedFits(p.up)
    ensures p.up.InLeft? && !IsBlack(p.up.right) ==>
              RedFault(p.up.up, Node(Blacken(Filled(p, s)), p.up.elem, Red, Blacken(p.up.right)))
    ensures p.up.InRight? && !IsBlack(p.up.left) ==>
              RedFault(p.up.up, Node(Blacken(p.up.left), p.up.elem, Red, Blacken(Filled(p, s))))
  {
    assert PathBalanced(p.up, BlackHeight(s));
  }

  /** With a black uncle the parent, or the node itself, takes the grandparent's place, and the fault is gone. */
  lemma {:induction false} FaultEndsLeft<N>(p: Path<N>, s: Shape<N>)
    requires RedFault(p, s) && !p.Root? && p.color == Red && p.up.InLeft? && IsBlack(p.up.right)
    ensures p.InLeft? ==> RedFault(InLeft(p.elem, Black, Node(p.right, p.up.elem, Red, p.up.right), p.up.up), s)
    ensures p.InRight? ==> RedFault(InLeft(s.elem, Black, Node(s.right, p.up.elem, Red, p.up.right), p.up.up),
                                    Node(p.left, p.elem, Red, s.left))
  {
    assert PathBalanced(p.up, BlackHeight(s));
  }

  lemma {:induction false} FaultEndsRight<N>(p: Path<N>, s: Shape<N>)
    requires RedFault(p, s) && !p.Root? && p.color == Red && p.up.InRight? && IsBlack(p.up.left)
    ensures p.InRight? ==> RedFault(InRight(Node(p.up.left, p.up.elem, Red, p.left), p.elem, Black, p.up.up), s)
    ensures p.InLeft? ==> RedFault(InRight(Node(p.up.left, p.up.elem, Red, s.left), s.elem, Black, p.up.up),
                                   Node(s.right, p.elem, Red, p.right))
  {
    assert PathBalanced(p.up, BlackHeight(s));
  }

  /** Without a red parent, blackening the root is all that is left to do. */
  lemma {:induction false} FaultOver<N>(p: Path<N>, s: Shape<N>)
    requires RedFault(p, s) && (p.Root? || RedFits(p))
    ensures Plug(p, s).Node? && RedBlack(Blacken(Plug(p, s)))
  {
    if RedFits(p) {
      PlugBalanced(p, s);
      PlugInorder(p, s);
    }
  }

  // ---------- one black node too few ----------

  /** The subtree is one black node short for its place; a red root may also have red children. */
  ghost predicate Deficit<N>(p: Path<N>, x: Shape<N>) {
    Balanced(Blacken(x)) && PathBalanced(p, BlackHeight(x) + 1)
  }

  /** Taking out a node with a single subtree leaves a deficit exactly when the node is black. */
  lemma {:induction false} RemovalDeficit<N>(p: Path<N>, d: N, c: Color, x: Shape<N>, onLeft: bool)
    requires Fits(p, if onLeft then Node(x, d, c, Nil) else Node(Nil, d, c, x))
    ensures c.Black? ==> Deficit(p, x)
    ensures c.Red? ==> RedBlack(Plug(p, x))
  {
    assert Balanced(x);
    if c.Red? {
      assert Fits(p, x);
      PlugBalanced(p, x);
    }
  }

  /** Blackening is all that is left to do once the deficit is gone, or sits at the root or in a red node. */
  lemma {:induction false} BlackenEnds<N>(p: Path<N>, x: Shape<N>)
    requires (Fits(p, x) && IsBlack(x)) || (Deficit(p, x) && (p.Root? || !IsBlack(x)))
    ensures RedBlack(Plug(p, Blacken(x))) && Inorder(Plug(p, Blacken(x))) == Inorder(Plug(p, x))
  {
    PlugBalanced(p, Blacken(x));
    PlugInorder(p, x);
    PlugInorder(p, Blacken(x));
  }

  /** A node short of a black one has a sibling, so its parent tells which side it is on. */
  lemma {:induction false} DeficitSide<N>(m: Memory<N>, p: Path<N>, x: Shape<N>, nil: N)
    requires nil !in m && Zip(m, p, x, nil) && Deficit(p, x) && !p.Root?
    ensures p.elem in m && (m[p.elem].left == Top(x, nil) <==> p.InLeft?)
  {
    if x.Node? {
      ParentSide(m, p, x, nil);
    } else if p.InRight? {
      assert p.left.Node?;
    }
  }

  /** A red sibling can be turned into a black one. */
  lemma {:induction false} DeficitRedSiblingLeft<N>(x: Shape<N>, n: N, c: Color, a: Shape<N>, w: N, b: Shape<N>,
                                                    up: Path<N>)
    requires Deficit(InLeft(n, c, Node(a, w, Red, b), up), x)
    ensures c == Black && a.Node? && a.color == Black
    ensures Deficit(InLeft(n, Red, a, InLeft(w, Black, b, up)), x)
  {
  }

  lemma {:induction false} DeficitRedSiblingRight<N>(a: Shape<N>, w: N, b: Shape<N>, n: N, c: Color, x: Shape<N>,
                                                     up: Path<N>)
    requires Deficit(InRight(Node(a, w, Red, b), n, c, up), x)
    ensures c == Black && b.Node? && b.color == Black
    ensures Deficit(InRight(b, n, Red, InRight(a, w, Black, up)), x)
  {
  }

  /** Reddening a black sibling with black children passes the deficit on to the parent. */
  lemma {:induction false} DeficitMovesUp<N>(x: Shape<N>, n: N, c: Color, a: Shape<N>, w: N, b: Shape<N>, up: Path<N>)
    requires IsBlack(x) && IsBlack(a) && IsBlack(b)
    ensures Deficit(InLeft(n, c, Node(a, w, Black, b), up), x) ==> Deficit(up, Node(x, n, c, Node(a, w, Red, b)))
    ensures Deficit(InRight(Node(a, w, Black, b), n, c, up), x) ==> Deficit(up, Node(Node(a, w, Red, b), n, c, x))
  {
  }

  /** A red inner child of the sibling can be turned into a red outer one. */
  lemma {:induction false} DeficitInnerLeft<N>(x: Shape<N>, n: N, c: Color, a: Shape<N>, v: N, b: Shape<N>, w: N,
                                               d: Shape<N>, up: Path<N>)
    requires Deficit(InLeft(n, c, Node(Node(a, v, Red, b), w, Black, d), up), x) && IsBlack(d)
    ensures Deficit(InLeft(n, c, Node(a, v, Black, Node(b, w, Red, d)), up), x)
  {
    assert Balanced(Node(a, v, Red, b));
  }

  lemma {:induction false} DeficitInnerRight<N>(d: Shape<N>, w: N, a: Shape<N>, v: N, b: Shape<N>, n: N, c: Color,
                                                x: Shape<N>, up: Path<N>)
    requires Deficit(InRight(Node(d, w, Black, Node(a, v, Red, b)), n, c, up), x) && IsBlack(d)
    ensures Deficit(InRight(Node(Node(d, w, Red, a), v, Black, b), n, c, up), x)
  {
    assert Balanced(Node(a, v, Red, b));
  }

  /** With a red outer child of the sibling the deficit ends. */
  lemma {:induction false} DeficitEndsLeft<N>(x: Shape<N>, n: N, c: Color, a: Shape<N>, w: N, b: Shape<N>, v: N,
                                              d: Shape<N>, up: Path<N>)
    requires Deficit(InLeft(n, c, Node(a, w, Black, Node(b, v, Red, d)), up), x) && IsBlack(x)
    ensures Fits(up, Node(Node(x, n, Black, a), w, c, Node(b, v, Black, d)))
    ensures Fits(InLeft(w, c, Node(b, v, Black, d), up), Node(x, n, Black, a))
  {
    assert Balanced(Node(b, v, Red, d));
  }

  lemma {:induction false} DeficitEndsRight<N>(b: Shape<N>, v: N, d: Shape<N>, w: N, a: Shape<N>, n: N, c: Color,
                                               x: Shape<N>, up: Path<N>)
    requires Deficit(InRight(Node(Node(b, v, Red, d), w, Black, a), n, c, up), x) && IsBlack(x)
    ensures Fits(up, Node(Node(b, v, Black, d), w, c, Node(a, n, Black, x)))
    ensures Fits(InRight(Node(b, v, Black, d), w, c, up), Node(a, n, Black, x))
  {
    assert Balanced(Node(b, v, Red, d));
  }

  // ---------- height ----------

  ghost function Max(a: nat, b: nat): nat {
    if a > b then a else b
  }

  ghost function Height<N>(s: Shape<N>): nat {
    if s.Nil? then 0 else 1 + Max(Height(s.left), Height(s.right))
  }

  ghost function Pow2(n: nat): (r: nat)
    ensures r > 0
  {
    if n == 0 then 1 else 2 * Pow2(n - 1)
  }

  lemma {:induction false} Pow2Adds(a: nat, b: nat)
    ensures Pow2(a + b) == Pow2(a) * Pow2(b)
  {
    if a > 0 {
      Pow2Adds(a - 1, b);
    }
  }

  lemma {:induction false} Pow2Grows(a: nat, b: nat)
    requires a <= b
    ensures Pow2(a) <= Pow2(b)
  {
    if a < b {
      Pow2Grows(a, b - 1);
    }
  }

  /** A balanced subtree is at most twice its black height high, and full up to its black height. */
  lemma {:induction false} BlackHeightBounds<N>(s: Shape<N>)
    requires Balanced(s)
    ensures Height(s) <= 2 * BlackHeight(s) + (if IsBlack(s) then 0 else 1)
    ensures Pow2(BlackHeight(s)) <= |Inorder(s)| + 1
  {
    if s.Node? {
      BlackHeightBounds(s.left);
      BlackHeightBounds(s.right);
    }
  }

  lemma {:induction false} SquareGrows(a: nat, b: nat)
    requires a <= b
    ensures a * a <= b * b
  {
    if a < b {
      SquareGrows(a, b - 1);
    }
  }

  /** The height is at most twice the binary logarithm of one more than the number of elements. */
  lemma {:induction false} HeightIsLogarithmic<N>(s: Shape<N>)
    requires RedBlack(s)
    ensures Pow2(Height(s)) <= (|Inorder(s)| + 1) * (|Inorder(s)| + 1)
  {
    BlackHeightBounds(s);
    var b, n := Pow2(BlackHeight(s)), |Inorder(s)| + 1;
    Pow2Grows(Height(s), BlackHeight(s) + BlackHeight(s));
    Pow2Adds(BlackHeight(s), BlackHeight(s));
    SquareGrows(b, n);
  }
}
