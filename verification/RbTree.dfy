/**
 The parent-pointer red-black tree with a shared sentinel (lib/rbtree.c): nodes in the heap,
 rotations, insertion and deletion with their fix-up loops, searching and walking.
 */
module RbTree {
  import opened Common
  import opened RbShape

  /** A node embedded in the structure `entry`; `pos` is its place in the order, for the proofs only. */
  class RbNode<T> {
    const entry: T
    var left: RbNode<T>
    var right: RbNode<T>
    var parent: RbNode<T>
    var color: Color
    ghost var pos: real

    constructor (entry: T)
      ensures this.entry == entry
    {
      this.entry := entry;
      left, right, parent, color := this, this, this, Black;
      pos := 0.0;
    }
  }

  class RbTree<T> {
    const nil: RbNode<T>
    const less: (T, T) -> bool
    var root: RbNode<T>
    ghost var nodes: set<RbNode<T>>
    ghost var shape: Shape<RbNode<T>>

    // ---------- state ----------

    ghost function Mem(): (m: Memory<RbNode<T>>)
      reads this`nodes, nodes
      ensures m.Keys == nodes
    {
      map n | n in nodes :: Cell(n.left, n.right, n.parent, n.color, n.pos)
    }

    /** The heap holds the subtree `s` in the hole of the path `p`, and `root` is their common root. */
    ghost predicate Holds(p: Path<RbNode<T>>, s: Shape<RbNode<T>>)
      reads this`root, this`nodes, nodes
    {
      nil !in nodes && Zip(Mem(), p, s, nil) && root == RootPtr(p, Top(s, nil))
    }

    ghost predicate Valid()
      reads this, nil`left, nil`right, nil`color, nodes
    {
      && nil.left == nil && nil.right == nil && nil.color == Black
      && Holds(Root, shape) && RedBlack(shape)
      && nodes == set n | n in Inorder(shape)
    }

    /** The nodes of the tree in order. */
    ghost function Elems(): seq<RbNode<T>>
      reads this`shape
    {
      Inorder(shape)
    }

    constructor (nil: RbNode<T>, less: (T, T) -> bool)
      modifies nil
      ensures Valid() && Elems() == [] && this.nil == nil && this.less == less
      ensures nodes == {}
    {
      this.nil := nil;
      this.less := less;
      root := nil;
      shape := Nil;
      nodes := {};
      new;
      nil.color := Black;
      nil.left, nil.right, nil.parent := nil, nil, nil;
    }

    ghost method SetShape(whole: Shape<RbNode<T>>)
      requires nil.left == nil && nil.right == nil && nil.color == Black
      requires Holds(Root, whole) && RedBlack(whole) && nodes == set n | n in Inorder(whole)
      modifies this`shape
      ensures Valid() && shape == whole
    {
      shape := whole;
    }

    // ---------- order ----------

    ghost predicate AllLess(s: seq<RbNode<T>>, e: T) {
      forall i :: 0 <= i < |s| ==> less(s[i].entry, e)
    }

    ghost predicate NoneLess(s: seq<RbNode<T>>, e: T) {
      forall i :: 0 <= i < |s| ==> !less(s[i].entry, e)
    }

    /** The elements less than `e` come before the others. */
    ghost predicate Splits(s: seq<RbNode<T>>, e: T) {
      forall i, j :: 0 <= i < j < |s| && less(s[j].entry, e) ==> less(s[i].entry, e)
    }

    lemma SplitAt(s: seq<RbNode<T>>, b: seq<RbNode<T>>, l: seq<RbNode<T>>, n: RbNode<T>, r: seq<RbNode<T>>,
                  a: seq<RbNode<T>>, e: T)
      requires s == b + (l + [n] + r) + a && Splits(s, e)
      ensures less(n.entry, e) ==> AllLess(b + l + [n], e)
      ensures !less(n.entry, e) ==> NoneLess([n] + r + a, e)
    {
      var k := |b| + |l|;
      assert s[k] == n;
      assert b + l + [n] == s[..k + 1] && [n] + r + a == s[k..];
    }

    // ---------- rotations and recolouring ----------

    method LeftRotate(node: RbNode<T>)
      requires CanTurnLeft(Mem(), node, nil)
      requires node.parent == nil ==> root == node
      modifies this`root, nodes`left, nodes`right, nodes`parent
      ensures TurnedLeft(old(Mem()), Mem(), node, nil)
      ensures root == if old(node.parent) == nil then old(node.right) else old(root)
    {
      var rchild := node.right;
      var parent := node.parent;
      node.right := rchild.left;
      if rchild.left != nil {
        rchild.left.parent := node;
      }
      rchild.parent := parent;
      if parent == nil {
        root := rchild;
      } else if node == parent.left {
        parent.left := rchild;
      } else {
        parent.right := rchild;
      }
      rchild.left := node;
      node.parent := rchild;
    }

    method RightRotate(node: RbNode<T>)
      requires CanTurnRight(Mem(), node, nil)
      requires node.parent == nil ==> root == node
      modifies this`root, nodes`left, nodes`right, nodes`parent
      ensures TurnedRight(old(Mem()), Mem(), node, nil)
      ensures root == if old(node.parent) == nil then old(node.left) else old(root)
    {
      var lchild := node.left;
      var parent := node.parent;
      node.left := lchild.right;
      if lchild.right != nil {
        lchild.right.parent := node;
      }
      lchild.parent := parent;
      if parent == nil {
        root := lchild;
      } else if node == parent.left {
        parent.left := lchild;
      } else {
        parent.right := lchild;
      }
      lchild.right := node;
      node.parent := lchild;
    }

    /** LeftRotate at a subtree whose shape is known. */
    method LeftRotateAt(node: RbNode<T>, ghost p: Path<RbNode<T>>, ghost a: Shape<RbNode<T>>, ghost cx: Color,
                        ghost b: Shape<RbNode<T>>, ghost y: RbNode<T>, ghost cy: Color, ghost c: Shape<RbNode<T>>)
      requires Holds(p, Node(a, node, cx, Node(b, y, cy, c)))
      modifies this`root, nodes`left, nodes`right, nodes`parent
      ensures !p.Root? ==> root == old(root)
      ensures Holds(p, Node(Node(a, node, cx, b), y, cy, c))
      ensures Inorder(Plug(p, Node(Node(a, node, cx, b), y, cy, c)))
           == Inorder(Plug(p, Node(a, node, cx, Node(b, y, cy, c))))
    {
      ghost var m := Mem();
      TurnLeftReady(m, p, a, node, cx, b, y, cy, c, nil);
      LeftRotate(node);
      LeftRotated(m, Mem(), p, a, node, cx, b, y, cy, c, nil);
      RotateInorder(p, a, node, cx, b, y, cy, c);
    }

    method RightRotateAt(node: RbNode<T>, ghost p: Path<RbNode<T>>, ghost a: Shape<RbNode<T>>, ghost x: RbNode<T>,
                         ghost cx: Color,
                         ghost b: Shape<RbNode<T>>, ghost cy: Color, ghost c: Shape<RbNode<T>>)
      requires Holds(p, Node(Node(a, x, cx, b), node, cy, c))
      modifies this`root, nodes`left, nodes`right, nodes`parent
      ensures !p.Root? ==> root == old(root)
      ensures Holds(p, Node(a, x, cx, Node(b, node, cy, c)))
      ensures Inorder(Plug(p, Node(a, x, cx, Node(b, node, cy, c))))
           == Inorder(Plug(p, Node(Node(a, x, cx, b), node, cy, c)))
    {
      ghost var m := Mem();
      TurnRightReady(m, p, a, x, cx, b, node, cy, c, nil);
      RightRotate(node);
      RightRotated(m, Mem(), p, a, x, cx, b, node, cy, c, nil);
      RotateInorder(p, a, x, cx, b, node, cy, c);
    }

    method Paint(n: RbNode<T>, c: Color, ghost p: Path<RbNode<T>>, ghost s: Shape<RbNode<T>>)
      requires Holds(p, s) && s.Node? && s.elem == n
      modifies n`color
      ensures Holds(p, s.(color := c))
      ensures Inorder(Plug(p, s.(color := c))) == Inorder(Plug(p, s))
    {
      ghost var m := Mem();
      n.color := c;
      assert Painted(m, Mem(), n, c);
      PaintedZip(m, Mem(), p, s, c, nil);
      PlugInorder(p, s);
      PlugInorder(p, s.(color := c));
    }

    // ---------- moving the focus ----------

    lemma Up(p: Path<RbNode<T>>, s: Shape<RbNode<T>>)
      requires Holds(p, s) && !p.Root?
      ensures Holds(p.up, Filled(p, s)) && Plug(p.up, Filled(p, s)) == Plug(p, s)
    {
    }

    lemma DownLeft(p: Path<RbNode<T>>, s: Shape<RbNode<T>>)
      requires Holds(p, s) && s.Node?
      ensures Holds(InLeft(s.elem, s.color, s.right, p), s.left)
      ensures Plug(InLeft(s.elem, s.color, s.right, p), s.left) == Plug(p, s)
    {
    }

    lemma DownRight(p: Path<RbNode<T>>, s: Shape<RbNode<T>>)
      requires Holds(p, s) && s.Node?
      ensures Holds(InRight(s.left, s.elem, s.color, p), s.right)
      ensures Plug(InRight(s.left, s.elem, s.color, p), s.right) == Plug(p, s)
    {
    }

    // ---------- insertion ----------

    /** Two red children turn black and their black parent red. */
    method RecolorFamily(l: RbNode<T>, r: RbNode<T>, top: RbNode<T>,
                         ghost p: Path<RbNode<T>>, ghost a: Shape<RbNode<T>>, ghost b: Shape<RbNode<T>>)
      requires a.Node? && a.elem == l && b.Node? && b.elem == r
      requires Holds(p, Node(a, top, Black, b))
      modifies l`color, r`color, top`color
      ensures Holds(p, Node(a.(color := Black), top, Red, b.(color := Black)))
      ensures Inorder(Plug(p, Node(a.(color := Black), top, Red, b.(color := Black))))
           == Inorder(Plug(p, Node(a, top, Black, b)))
    {
      ghost var a', b' := a.(color := Black), b.(color := Black);
      DownLeft(p, Node(a, top, Black, b));
      Paint(l, Black, InLeft(top, Black, b, p), a);
      Up(InLeft(top, Black, b, p), a');
      DownRight(p, Node(a', top, Black, b));
      Paint(r, Black, InRight(a', top, Black, p), b);
      Up(InRight(a', top, Black, p), b');
      Paint(top, Red, p, Node(a', top, Black, b'));
    }

    /** The red left child `l` of the black `top` takes its place and its colour. */
    method LiftLeft(l: RbNode<T>, top: RbNode<T>, ghost p: Path<RbNode<T>>,
                    ghost a: Shape<RbNode<T>>, ghost b: Shape<RbNode<T>>, ghost c: Shape<RbNode<T>>)
      requires Holds(p, Node(Node(a, l, Red, b), top, Black, c))
      modifies this`root, nodes`left, nodes`right, nodes`parent, l`color, top`color
      ensures !p.Root? ==> root == old(root)
      ensures Holds(p, Node(a, l, Black, Node(b, top, Red, c)))
      ensures Inorder(Plug(p, Node(a, l, Black, Node(b, top, Red, c))))
           == Inorder(Plug(p, Node(Node(a, l, Red, b), top, Black, c)))
    {
      DownLeft(p, Node(Node(a, l, Red, b), top, Black, c));
      Paint(l, Black, InLeft(top, Black, c, p), Node(a, l, Red, b));
      Up(InLeft(top, Black, c, p), Node(a, l, Black, b));
      Paint(top, Red, p, Node(Node(a, l, Black, b), top, Black, c));
      RightRotateAt(top, p, a, l, Black, b, Red, c);
    }

    /** The arm of the insertion loop for a parent that is a left child. */
    method InsertFixupLeft(node: RbNode<T>, ghost p: Path<RbNode<T>>, ghost s: Shape<RbNode<T>>)
      returns (next: RbNode<T>, ghost q: Path<RbNode<T>>, ghost t: Shape<RbNode<T>>)
      requires Holds(p, s) && RedFault(p, s) && s.elem == node && nil.color == Black
      requires !p.Root? && p.color == Red && p.up.InLeft?
      modifies this`root, nodes`left, nodes`right, nodes`parent, nodes`color
      ensures Holds(q, t) && RedFault(q, t) && t.elem == next && Inorder(Plug(q, t)) == Inorder(Plug(p, s))
      ensures RedFits(q) || (root == old(root) && Depth(q) < Depth(p))
    {
      next := node;
      ghost var g := p.up;
      ghost var u := g.right;
      FaultMovesUp(p, s);
      Up(p, s);
      Up(g, Filled(p, s));
      var parent := next.parent;
      var uncle := parent.parent.right;
      if uncle != nil && uncle.color == Red {
        RecolorFamily(parent, uncle, parent.parent, g.up, Filled(p, s), u);
        next := parent.parent;
        q, t := g.up, Node(Filled(p, s).(color := Black), g.elem, Red, u.(color := Black));
      } else {
        FaultEndsLeft(p, s);
        ghost var a, e, b := s, p.elem, if p.InLeft? then p.right else s.right;
        if next == parent.right {
          a, e := Node(p.left, p.elem, Red, s.left), node;
          next := parent;
          LeftRotateAt(next, g, p.left, Red, s.left, node, Red, s.right);
          DownLeft(g, Node(a, e, Red, b));
          parent := next.parent;
          Up(g, Node(a, e, Red, b));
        }
        LiftLeft(parent, parent.parent, g.up, a, b, u);
        DownLeft(g.up, Node(a, e, Black, Node(b, g.elem, Red, u)));
        q, t := InLeft(e, Black, Node(b, g.elem, Red, u), g.up), a;
      }
    }

    /** The red right child `r` of the black `top` takes its place and its colour. */
    method LiftRight(r: RbNode<T>, top: RbNode<T>, ghost p: Path<RbNode<T>>,
                     ghost a: Shape<RbNode<T>>, ghost b: Shape<RbNode<T>>, ghost c: Shape<RbNode<T>>)
      requires Holds(p, Node(a, top, Black, Node(b, r, Red, c)))
      modifies this`root, nodes`left, nodes`right, nodes`parent, r`color, top`color
      ensures !p.Root? ==> root == old(root)
      ensures Holds(p, Node(Node(a, top, Red, b), r, Black, c))
      ensures Inorder(Plug(p, Node(Node(a, top, Red, b), r, Black, c)))
           == Inorder(Plug(p, Node(a, top, Black, Node(b, r, Red, c))))
    {
      DownRight(p, Node(a, top, Black, Node(b, r, Red, c)));
      Paint(r, Black, InRight(a, top, Black, p), Node(b, r, Red, c));
      Up(InRight(a, top, Black, p), Node(b, r, Black, c));
      Paint(top, Red, p, Node(a, top, Black, Node(b, r, Black, c)));
      LeftRotateAt(top, p, a, Red, b, r, Black, c);
    }

    /** The arm of the insertion loop for a parent that is a right child. */
    method InsertFixupRight(node: RbNode<T>, ghost p: Path<RbNode<T>>, ghost s: Shape<RbNode<T>>)
      returns (next: RbNode<T>, ghost q: Path<RbNode<T>>, ghost t: Shape<RbNode<T>>)
      requires Holds(p, s) && RedFault(p, s) && s.elem == node && nil.color == Black
      requires !p.Root? && p.color == Red && p.up.InRight?
      modifies this`root, nodes`left, nodes`right, nodes`parent, nodes`color
      ensures Holds(q, t) && RedFault(q, t) && t.elem == next && Inorder(Plug(q, t)) == Inorder(Plug(p, s))
      ensures RedFits(q) || (root == old(root) && Depth(q) < Depth(p))
    {
      next := node;
      ghost var g := p.up;
      ghost var u := g.left;
      FaultMovesUp(p, s);
      Up(p, s);
      Up(g, Filled(p, s));
      var parent := next.parent;
      var uncle := parent.parent.left;
      if uncle != nil && uncle.color == Red {
        RecolorFamily(uncle, parent, parent.parent, g.up, u, Filled(p, s));
        next := parent.parent;
        q, t := g.up, Node(u.(color := Black), g.elem, Red, Filled(p, s).(color := Black));
      } else {
        FaultEndsRight(p, s);
        ghost var b, e, a := if p.InRight? then p.left else s.left, p.elem, s;
        if next == parent.left {
          e, a := node, Node(s.right, p.elem, Red, p.right);
          next := parent;
          RightRotateAt(next, g, s.left, node, Red, s.right, Red, p.right);
          DownRight(g, Node(b, e, Red, a));
          parent := next.parent;
          Up(g, Node(b, e, Red, a));
        }
        LiftRight(parent, parent.parent, g.up, u, b, a);
        DownRight(g.up, Node(Node(u, g.elem, Red, b), e, Black, a));
        q, t := InRight(Node(u, g.elem, Red, b), e, Black, g.up), a;
      }
    }

    /** One turn of the insertion loop. */
    method InsertFixupStep(node: RbNode<T>, ghost p: Path<RbNode<T>>, ghost s: Shape<RbNode<T>>)
      returns (next: RbNode<T>, ghost q: Path<RbNode<T>>, ghost t: Shape<RbNode<T>>)
      requires Holds(p, s) && RedFault(p, s) && s.elem == node && nil.color == Black
      requires !p.Root? && p.color == Red
      modifies this`root, nodes`left, nodes`right, nodes`parent, nodes`color
      ensures Holds(q, t) && RedFault(q, t) && t.elem == next && Inorder(Plug(q, t)) == Inorder(Plug(p, s))
      ensures RedFits(q) || (root == old(root) && Depth(q) < Depth(p))
    {
      ParentSide(Mem(), p, s, nil);
      Up(p, s);
      ParentSide(Mem(), p.up, Filled(p, s), nil);
      var parent := node.parent;
      if parent == parent.parent.left {
        next, q, t := InsertFixupLeft(node, p, s);
      } else {
        next, q, t := InsertFixupRight(node, p, s);
      }
    }

    /** The insertion loop; `root` is read once, before any rotation. */
    method InsertFixupLoop(elem: RbNode<T>, ghost p0: Path<RbNode<T>>, ghost s0: Shape<RbNode<T>>)
      returns (ghost p: Path<RbNode<T>>, ghost s: Shape<RbNode<T>>)
      requires Holds(p0, s0) && RedFault(p0, s0) && s0.elem == elem && nil.color == Black
      modifies this`root, nodes
      ensures Holds(p, s) && RedFault(p, s) && (p.Root? || RedFits(p))
      ensures Inorder(Plug(p, s)) == Inorder(Plug(p0, s0))
    {
      var oldRoot := root;
      var node := elem;
      p, s := p0, s0;
      Paint(node, Red, p, s);
      while node != oldRoot && node.parent.color == Red
        invariant Holds(p, s) && RedFault(p, s) && s.elem == node
        invariant Inorder(Plug(p, s)) == Inorder(Plug(p0, s0))
        invariant oldRoot == root || RedFits(p)
        decreases if RedFits(p) then 0 else 1 + Depth(p)
      {
        assert !p.Root? && p.color == Red by {
          if !p.Root? { ParentSide(Mem(), p, s, nil); }
        }
        node, p, s := InsertFixupStep(node, p, s);
      }
      if !p.Root? {
        RootIsAbove(Mem(), p, s, nil);
      }
    }

    /** Restores the red-black invariants above a red node. */
    method RbInsert(elem: RbNode<T>, ghost p0: Path<RbNode<T>>,
                    ghost s0: Shape<RbNode<T>>) returns (ghost whole: Shape<RbNode<T>>)
      requires Holds(p0, s0) && RedFault(p0, s0) && s0.elem == elem && nil.color == Black
      modifies this`root, nodes
      ensures Holds(Root, whole) && RedBlack(whole) && Inorder(whole) == Inorder(Plug(p0, s0))
    {
      ghost var p, s := InsertFixupLoop(elem, p0, s0);
      FaultOver(p, s);
      PlugZip(Mem(), p, s, nil);
      Paint(root, Black, Root, Plug(p, s));
      whole := Blacken(Plug(p, s));
    }

    /** The pointer writes that put a leaf below `parent`, or at the root. */
    method LinkUnder(elem: RbNode<T>, parent: RbNode<T>, onLeft: bool, ghost pos: real)
      requires elem !in nodes && elem != nil && nil !in nodes && (parent == nil || parent in nodes)
      requires elem.left == nil && elem.right == nil && elem.parent == nil && elem.color == Red
      modifies this`root, this`nodes, nodes`left, nodes`right, elem`parent, elem`pos
      ensures nodes == old(nodes) + {elem} && root == if parent == nil then elem else old(root)
      ensures Mem()[elem] == Cell(nil, nil, parent, Red, pos)
      ensures forall k :: k in old(nodes) && k != parent ==> Mem()[k] == old(Mem())[k]
      ensures parent != nil ==>
                Mem()[parent] ==
                if onLeft then old(Mem())[parent].(left := elem) else old(Mem())[parent].(right := elem)
    {
      if parent == nil {
        root := elem;
      } else if onLeft {
        parent.left := elem;
        elem.parent := parent;
      } else {
        parent.right := elem;
        elem.parent := parent;
      }
      elem.pos := pos;
      nodes := nodes + {elem};
    }

    /** Hangs a new red leaf into the empty hole of `p`, below `parent`. */
    method Hang(elem: RbNode<T>, parent: RbNode<T>, onLeft: bool, ghost p: Path<RbNode<T>>)
      requires Holds(p, Nil) && elem !in nodes && elem != nil && parent == Parent(p, nil)
      requires elem.left == nil && elem.right == nil && elem.parent == nil && elem.color == Red
      requires onLeft <==> p.InLeft?
      modifies this`root, this`nodes, nodes`left, nodes`right, elem`parent, elem`pos
      ensures nodes == old(nodes) + {elem}
      ensures Holds(p, Node(Nil, elem, Red, Nil))
    {
      ghost var m := Mem();
      HoleIsOpen(m, p, nil, nil);
      assert parent != nil ==> parent in nodes;
      LinkUnder(elem, parent, onLeft, (Lo(m, p) + Hi(m, p)) / 2.0);
      assert Grown(m, Mem(), p, elem, nil);
      GrownZip(m, Mem(), p, elem, nil);
      RootPtrMoves(p, nil, elem);
    }

    /** The descent of an insertion: links `elem` below the node where the search falls off the tree. */
    method LinkLeaf(elem: RbNode<T>) returns (ghost p: Path<RbNode<T>>)
      requires Valid() && elem !in nodes && elem != nil
      requires elem.left == nil && elem.right == nil && elem.parent == nil && elem.color == Red
      modifies this`root, this`nodes, nodes`left, nodes`right, elem`parent, elem`pos
      ensures nodes == old(nodes) + {elem}
      ensures Holds(p, Node(Nil, elem, Red, Nil)) && Plug(p, Nil) == shape
      ensures Splits(Elems(), elem.entry) ==> AllLess(Before(p), elem.entry) && NoneLess(After(p), elem.entry)
    {
      hide RedBlack, Balanced;
      var cur := root;
      ghost var s := shape;
      p := Root;
      if cur == nil {
        assert s.Nil?;
        Hang(elem, nil, false, p);
      } else {
        var inserted := false;
        while !inserted
          invariant !inserted ==> nodes == old(nodes) && Holds(p, s) && s.Node? && s.elem == cur && Plug(p, s) == shape
          invariant inserted ==>
                      nodes == old(nodes) + {elem} && Holds(p, Node(Nil, elem, Red, Nil)) && Plug(p, Nil) == shape
          invariant elem.left == nil && elem.right == nil && (!inserted ==> elem.parent == nil) && elem.color == Red
          invariant Splits(Elems(), elem.entry) ==> AllLess(Before(p), elem.entry) && NoneLess(After(p), elem.entry)
          decreases !inserted, s
        {
          Descend(p, s, elem.entry);
          if less(cur.entry, elem.entry) {
            DownRight(p, s);
            p, s := InRight(s.left, s.elem, s.color, p), s.right;
            if cur.right == nil {
              Hang(elem, cur, false, p);
              inserted := true;
            } else {
              cur := cur.right;
            }
          } else {
            DownLeft(p, s);
            p, s := InLeft(s.elem, s.color, s.right, p), s.left;
            if cur.left == nil {
              Hang(elem, cur, true, p);
              inserted := true;
            } else {
              cur := cur.left;
            }
          }
        }
      }
    }

    lemma Descend(p: Path<RbNode<T>>, s: Shape<RbNode<T>>, e: T)
      requires s.Node?
      ensures Splits(Inorder(Plug(p, s)), e) && less(s.elem.entry, e) ==>
                AllLess(Before(InRight(s.left, s.elem, s.color, p)), e)
      ensures Splits(Inorder(Plug(p, s)), e) && !less(s.elem.entry, e) ==>
                NoneLess(After(InLeft(s.elem, s.color, s.right, p)), e)
    {
      PlugInorder(p, s);
      if Splits(Inorder(Plug(p, s)), e) {
        SplitAt(Inorder(Plug(p, s)), Before(p), Inorder(s.left), s.elem, Inorder(s.right), After(p), e);
      }
    }

    /** `after` is `before` with `n` put in at place `k`: after the elements less than it, before the others. */
    ghost predicate InsertedAt(before: seq<RbNode<T>>, after: seq<RbNode<T>>, n: RbNode<T>, k: nat) {
      && k <= |before| && after == before[..k] + [n] + before[k..]
      && (Splits(before, n.entry) ==> AllLess(before[..k], n.entry) && NoneLess(before[k..], n.entry))
    }

    lemma LeafInserted(p: Path<RbNode<T>>, n: RbNode<T>)
      requires RedBlack(Plug(p, Nil))
      requires Splits(Inorder(Plug(p, Nil)), n.entry) ==> AllLess(Before(p), n.entry) && NoneLess(After(p), n.entry)
      ensures RedFault(p, Node(Nil, n, Red, Nil))
      ensures InsertedAt(Inorder(Plug(p, Nil)), Inorder(Plug(p, Node(Nil, n, Red, Nil))), n, |Before(p)|)
    {
      PlugBalanced(p, Nil);
      LeafInorder(p, n);
      assert (Before(p) + After(p))[..|Before(p)|] == Before(p) && (Before(p) + After(p))[|Before(p)|..] == After(p);
    }

    method AddLeaf(elem: RbNode<T>) returns (ghost k: nat, ghost p: Path<RbNode<T>>)
      requires Valid() && elem !in nodes && elem != nil
      requires elem.left == nil && elem.right == nil && elem.parent == nil && elem.color == Red
      modifies this`root, this`nodes, nodes, elem
      ensures nodes == old(nodes) + {elem}
      ensures Holds(p, Node(Nil, elem, Red, Nil)) && RedFault(p, Node(Nil, elem, Red, Nil))
      ensures InsertedAt(Elems(), Inorder(Plug(p, Node(Nil, elem, Red, Nil))), elem, k)
    {
      p := LinkLeaf(elem);
      k := |Before(p)|;
      LeafInserted(p, elem);
    }

    /** Links `elem` and repairs the colours. */
    method NodeInsert(elem: RbNode<T>) returns (ghost k: nat, ghost whole: Shape<RbNode<T>>)
      requires Valid() && elem !in nodes && elem != nil
      requires elem.left == nil && elem.right == nil && elem.parent == nil && elem.color == Red
      modifies this`root, this`nodes, nodes, elem
      ensures nodes == old(nodes) + {elem}
      ensures Holds(Root, whole) && RedBlack(whole)
      ensures InsertedAt(Elems(), Inorder(whole), elem, k)
    {
      hide RbTree.Holds, RedBlack, RedFault, Inorder, Plug, RbTree.InsertedAt;
      ghost var p;
      k, p := AddLeaf(elem);
      whole := RbInsert(elem, p, Node(Nil, elem, Red, Nil));
    }

    lemma InsertedSet(before: seq<RbNode<T>>, after: seq<RbNode<T>>, n: RbNode<T>, k: nat)
      requires InsertedAt(before, after, n, k)
      ensures (set e | e in after) == (set e | e in before) + {n}
    {
      assert before == before[..k] + before[k..];
    }

    /** Inserts `elem`; among the elements equivalent to it, it comes first. */
    method Insert(elem: RbNode<T>) returns (ghost k: nat)
      requires Valid() && elem !in nodes && elem != nil
      modifies this`root, this`shape, this`nodes, nodes, elem
      ensures Valid() && nodes == old(nodes) + {elem}
      ensures InsertedAt(old(Elems()), Elems(), elem, k)
    {
      elem.left, elem.right, elem.parent := nil, nil, nil;
      elem.color := Red;
      ghost var whole;
      k, whole := NodeInsert(elem);
      InsertedSet(Elems(), Inorder(whole), elem, k);
      SetShape(whole);
    }

    // ---------- deletion ----------

    /** Takes the sibling's red inner child, or the sibling itself, over the parent: the end of the left arm. */
    method CloseLeft(parent: RbNode<T>, sibling: RbNode<T>, ghost p: Path<RbNode<T>>, ghost x: Shape<RbNode<T>>,
                     ghost c: Color,
                     ghost a: Shape<RbNode<T>>, ghost b: Shape<RbNode<T>>, ghost v: RbNode<T>,
                     ghost d: Shape<RbNode<T>>)
      requires Holds(p, Node(x, parent, c, Node(a, sibling, Black, Node(b, v, Red, d))))
      modifies this`root, nodes
      ensures !p.Root? ==> root == old(root)
      ensures Holds(p, Node(Node(x, parent, Black, a), sibling, c, Node(b, v, Black, d)))
      ensures Inorder(Plug(p, Node(Node(x, parent, Black, a), sibling, c, Node(b, v, Black, d)))) ==
              Inorder(Plug(p, Node(x, parent, c, Node(a, sibling, Black, Node(b, v, Red, d)))))
    {
      hide RbTree.Holds, Inorder, Plug;
      ghost var w := Node(a, sibling, Black, Node(b, v, Red, d));
      Focus(p, Node(x, parent, c, w));
      DownRight(p, Node(x, parent, c, w));
      Paint(sibling, parent.color, InRight(x, parent, c, p), w);
      Up(InRight(x, parent, c, p), w.(color := c));
      Paint(parent, Black, p, Node(x, parent, c, w.(color := c)));
      DownRight(p, Node(x, parent, Black, w.(color := c)));
      Focus(InRight(x, parent, Black, p), w.(color := c));
      DownRight(InRight(x, parent, Black, p), w.(color := c));
      Paint(sibling.right, Black, InRight(a, sibling, c, InRight(x, parent, Black, p)), Node(b, v, Red, d));
      Up(InRight(a, sibling, c, InRight(x, parent, Black, p)), Node(b, v, Black, d));
      Up(InRight(x, parent, Black, p), Node(a, sibling, c, Node(b, v, Black, d)));
      LeftRotateAt(parent, p, x, Black, a, sibling, c, Node(b, v, Black, d));
    }

    lemma NilOutside(p: Path<RbNode<T>>, s: Shape<RbNode<T>>)
      requires Holds(p, s)
      ensures nil !in nodes
    {
    }

    /** The fields of the node in focus and the colours of its children. */
    lemma Focus(p: Path<RbNode<T>>, s: Shape<RbNode<T>>)
      requires Holds(p, s) && s.Node?
      ensures nil !in nodes && s.elem in nodes && s.elem.parent == Parent(p, nil) && (p.Root? ==> root == s.elem)
      ensures s.elem.color == s.color && s.elem.left == Top(s.left, nil) && s.elem.right == Top(s.right, nil)
      ensures s.left.Node? ==> s.left.elem in nodes && s.left.elem.color == s.left.color
      ensures s.right.Node? ==> s.right.elem in nodes && s.right.elem.color == s.right.color
    {
      DownLeft(p, s);
      DownRight(p, s);
    }

    /** What the colours of a node's children say about the two subtrees. */
    lemma ChildColors(p: Path<RbNode<T>>, s: Shape<RbNode<T>>)
      requires Holds(p, s) && s.Node? && nil.color == Black
      ensures s.elem in nodes && s.elem.color == s.color && s.elem.left == Top(s.left, nil)
              && s.elem.right == Top(s.right, nil)
      ensures s.elem.left == nil || s.elem.left in nodes
      ensures s.elem.right == nil || s.elem.right in nodes
      ensures s.elem.left.color == Black <==> IsBlack(s.left)
      ensures s.elem.right.color == Black <==> IsBlack(s.right)
    {
      hide RbTree.Holds;
      Focus(p, s);
    }

    /** Turns a red inner child of the sibling into a red outer one, unless the outer one is red already. */
    method OuterRedLeft(parent: RbNode<T>, ghost p: Path<RbNode<T>>, ghost x: Shape<RbNode<T>>, ghost c: Color,
                        ghost w: Shape<RbNode<T>>)
      returns (ghost v: Shape<RbNode<T>>)
      requires w.Node? && w.color == Black && !(IsBlack(w.left) && IsBlack(w.right)) && nil.color == Black
      requires Holds(p, Node(x, parent, c, w)) && Deficit(InLeft(parent, c, w, p), x)
      modifies this`root, nodes
      ensures root == old(root)
      ensures v.Node? && v.color == Black && !IsBlack(v.right)
      ensures Holds(p, Node(x, parent, c, v)) && Deficit(InLeft(parent, c, v, p), x)
      ensures Inorder(Plug(p, Node(x, parent, c, v))) == Inorder(Plug(p, Node(x, parent, c, w)))
    {
      hide RbTree.Holds, Deficit, Fits, Inorder, Plug;
      Focus(p, Node(x, parent, c, w));
      var sibling := parent.right;
      DownRight(p, Node(x, parent, c, w));
      ChildColors(InRight(x, parent, c, p), w);
      v := w;
      if sibling.right.color == Black {
        ghost var i := w.left;
        DeficitInnerLeft(x, parent, c, i.left, i.elem, i.right, sibling, w.right, p);
        LiftLeft(sibling.left, sibling, InRight(x, parent, c, p), i.left, i.right, w.right);
        v := Node(i.left, i.elem, Black, Node(i.right, sibling, Red, w.right));
        Up(InRight(x, parent, c, p), v);
      }
    }

    /** The left arm of the deletion loop once the sibling `w` is black; true if the deficit is gone. */
    method BlackSiblingLeft(node: RbNode<T>, ghost p: Path<RbNode<T>>, ghost x: Shape<RbNode<T>>, ghost c: Color,
                            ghost w: Shape<RbNode<T>>)
      returns (done: bool, ghost q: Path<RbNode<T>>, ghost y: Shape<RbNode<T>>)
      requires w.Node? && w.color == Black && IsBlack(x) && node == Top(x, nil) && nil.color == Black
      requires Holds(p, Node(x, node.parent, c, w)) && Deficit(InLeft(node.parent, c, w, p), x)
      modifies this`root, nodes
      ensures !p.Root? ==> root == old(root)
      ensures Holds(q, y) && Inorder(Plug(q, y)) == Inorder(Plug(p, Node(x, old(node.parent), c, w)))
      ensures !done ==> q == p && y == Node(x, old(node.parent), c, Node(w.left, w.elem, Red, w.right)) && Deficit(q, y)
      ensures done ==> q.InLeft? && q.up == p && y.Node? && y.elem == old(node.parent) && y.color == Black && Fits(q, y)
    {
      hide RbTree.Holds, Deficit, Fits, Inorder, Plug;
      var parent := node.parent;
      Focus(p, Node(x, parent, c, w));
      var sibling := parent.right;
      DownRight(p, Node(x, parent, c, w));
      ChildColors(InRight(x, parent, c, p), w);
      if sibling.left.color == Black && sibling.right.color == Black {
        Paint(sibling, Red, InRight(x, parent, c, p), w);
        Up(InRight(x, parent, c, p), w.(color := Red));
        DeficitMovesUp(x, parent, c, w.left, sibling, w.right, p);
        q, y := p, Node(x, parent, c, Node(w.left, w.elem, Red, w.right));
        done := false;
      } else {
        ghost var v := OuterRedLeft(parent, p, x, c, w);
        Focus(p, Node(x, parent, c, v));
        DownRight(p, Node(x, parent, c, v));
        sibling := parent.right;
        Up(InRight(x, parent, c, p), v);
        CloseLeft(parent, sibling, p, x, c, v.left, v.right.left, v.right.elem, v.right.right);
        DeficitEndsLeft(x, parent, c, v.left, sibling, v.right.left, v.right.elem, v.right.right, p);
        q, y := InLeft(sibling, c, Node(v.right.left, v.right.elem, Black, v.right.right), p),
                Node(x, parent, Black, v.left);
        DownLeft(p, Filled(q, y));
        done := true;
      }
    }

    /** A red-black tree seen from its root. */
    lemma AtRoot(p: Path<RbNode<T>>, s: Shape<RbNode<T>>)
      requires Holds(p, s) && s.Node? && Fits(p, s)
      ensures Holds(Root, Plug(p, s)) && Plug(p, s).Node? && Plug(p, s).elem == root
      ensures Fits(Root, Plug(p, s)) && Plug(p, s).color == Black
    {
      PlugZip(Mem(), p, s, nil);
      PlugBalanced(p, s);
    }

    /** Where the black height is one too low on the left there is a sibling. */
    lemma LeftFocus(p: Path<RbNode<T>>, x: Shape<RbNode<T>>)
      requires Holds(p, x) && Deficit(p, x) && p.InLeft? && IsBlack(x)
      ensures p.right.Node? && Holds(p.up, Node(x, p.elem, p.color, p.right))
      ensures Plug(p, x) == Plug(p.up, Node(x, p.elem, p.color, p.right))
      ensures p.right.color == Red ==> p.color == Black
    {
      Up(p, x);
    }

    /** The arm of the deletion loop for a node that is a left child; `oldRoot` is the root read before the loop. */
    method DeleteFixupLeft(node: RbNode<T>, oldRoot: RbNode<T>, ghost p: Path<RbNode<T>>, ghost x: Shape<RbNode<T>>)
      returns (next: RbNode<T>, ghost done: bool, ghost q: Path<RbNode<T>>, ghost y: Shape<RbNode<T>>)
      requires Holds(p, x) && Deficit(p, x) && p.InLeft? && IsBlack(x) && nil.color == Black
      requires node == Top(x, nil) && node.parent == p.elem && oldRoot == root
      modifies this`root, nodes
      ensures Holds(q, y) && y.Node? && next == y.elem && Inorder(Plug(q, y)) == Inorder(Plug(p, x))
      ensures oldRoot == root || oldRoot == next
      ensures done ==> next == oldRoot && y.color == Black && Fits(q, y)
      ensures !done ==> Deficit(q, y) && (y.color == Red || (Depth(q) < Depth(p) && oldRoot == root))
    {
      hide RbTree.Holds, Deficit, Fits, Inorder, Plug;
      var parent := node.parent;
      var sibling := parent.right;
      ghost var up, c, w := p.up, p.color, p.right;
      LeftFocus(p, x);
      Focus(up, Node(x, parent, c, w));
      if sibling.color == Red {
        DeficitRedSiblingLeft(x, parent, c, w.left, sibling, w.right, up);
        LiftRight(sibling, parent, up, x, w.left, w.right);
        DownLeft(up, Node(Node(x, parent, Red, w.left), sibling, Black, w.right));
        up, c, w := InLeft(sibling, Black, w.right, up), Red, w.left;
      }
      DownLeft(up, Node(x, parent, c, w));
      if x.Node? {
        Focus(InLeft(parent, c, w, up), x);
      }
      var closed;
      closed, q, y := BlackSiblingLeft(node, up, x, c, w);
      done := closed;
      if closed {
        next := oldRoot;
        if oldRoot == root {
          AtRoot(q, y);
          q, y := Root, Plug(q, y);
          PlugRoot(y);
        }
      } else {
        Focus(q, y);
        next := parent;
      }
    }

    lemma PlugRoot(s: Shape<RbNode<T>>)
      ensures Plug(Root, s) == s
    {
    }

    // The same for a node that is a right child.

    method CloseRight(parent: RbNode<T>, sibling: RbNode<T>, ghost p: Path<RbNode<T>>, ghost b: Shape<RbNode<T>>,
                      ghost v: RbNode<T>,
                      ghost d: Shape<RbNode<T>>, ghost a: Shape<RbNode<T>>, ghost c: Color, ghost x: Shape<RbNode<T>>)
      requires Holds(p, Node(Node(Node(b, v, Red, d), sibling, Black, a), parent, c, x))
      modifies this`root, nodes
      ensures !p.Root? ==> root == old(root)
      ensures Holds(p, Node(Node(b, v, Black, d), sibling, c, Node(a, parent, Black, x)))
      ensures Inorder(Plug(p, Node(Node(b, v, Black, d), sibling, c, Node(a, parent, Black, x)))) ==
              Inorder(Plug(p, Node(Node(Node(b, v, Red, d), sibling, Black, a), parent, c, x)))
    {
      hide RbTree.Holds, Inorder, Plug;
      ghost var w := Node(Node(b, v, Red, d), sibling, Black, a);
      Focus(p, Node(w, parent, c, x));
      DownLeft(p, Node(w, parent, c, x));
      Paint(sibling, parent.color, InLeft(parent, c, x, p), w);
      Up(InLeft(parent, c, x, p), w.(color := c));
      Paint(parent, Black, p, Node(w.(color := c), parent, c, x));
      DownLeft(p, Node(w.(color := c), parent, Black, x));
      Focus(InLeft(parent, Black, x, p), w.(color := c));
      DownLeft(InLeft(parent, Black, x, p), w.(color := c));
      Paint(sibling.left, Black, InLeft(sibling, c, a, InLeft(parent, Black, x, p)), Node(b, v, Red, d));
      Up(InLeft(sibling, c, a, InLeft(parent, Black, x, p)), Node(b, v, Black, d));
      Up(InLeft(parent, Black, x, p), Node(Node(b, v, Black, d), sibling, c, a));
      RightRotateAt(parent, p, Node(b, v, Black, d), sibling, c, a, Black, x);
    }

    method OuterRedRight(parent: RbNode<T>, ghost p: Path<RbNode<T>>, ghost x: Shape<RbNode<T>>, ghost c: Color,
                         ghost w: Shape<RbNode<T>>)
      returns (ghost v: Shape<RbNode<T>>)
      requires w.Node? && w.color == Black && !(IsBlack(w.left) && IsBlack(w.right)) && nil.color == Black
      requires Holds(p, Node(w, parent, c, x)) && Deficit(InRight(w, parent, c, p), x)
      modifies this`root, nodes
      ensures root == old(root)
      ensures v.Node? && v.color == Black && !IsBlack(v.left)
      ensures Holds(p, Node(v, parent, c, x)) && Deficit(InRight(v, parent, c, p), x)
      ensures Inorder(Plug(p, Node(v, parent, c, x))) == Inorder(Plug(p, Node(w, parent, c, x)))
    {
      hide RbTree.Holds, Deficit, Fits, Inorder, Plug;
      Focus(p, Node(w, parent, c, x));
      var sibling := parent.left;
      DownLeft(p, Node(w, parent, c, x));
      ChildColors(InLeft(parent, c, x, p), w);
      v := w;
      if sibling.left.color == Black {
        ghost var i := w.right;
        DeficitInnerRight(w.left, sibling, i.left, i.elem, i.right, parent, c, x, p);
        LiftRight(sibling.right, sibling, InLeft(parent, c, x, p), w.left, i.left, i.right);
        v := Node(Node(w.left, sibling, Red, i.left), i.elem, Black, i.right);
        Up(InLeft(parent, c, x, p), v);
      }
    }

    method BlackSiblingRight(node: RbNode<T>, ghost p: Path<RbNode<T>>, ghost x: Shape<RbNode<T>>, ghost c: Color,
                             ghost w: Shape<RbNode<T>>)
      returns (done: bool, ghost q: Path<RbNode<T>>, ghost y: Shape<RbNode<T>>)
      requires w.Node? && w.color == Black && IsBlack(x) && node == Top(x, nil) && nil.color == Black
      requires Holds(p, Node(w, node.parent, c, x)) && Deficit(InRight(w, node.parent, c, p), x)
      modifies this`root, nodes
      ensures !p.Root? ==> root == old(root)
      ensures Holds(q, y) && Inorder(Plug(q, y)) == Inorder(Plug(p, Node(w, old(node.parent), c, x)))
      ensures !done ==> q == p && y == Node(Node(w.left, w.elem, Red, w.right), old(node.parent), c, x) && Deficit(q, y)
      ensures done ==>
                q.InRight? && q.up == p && y.Node? && y.elem == old(node.parent) && y.color == Black && Fits(q, y)
    {
      hide RbTree.Holds, Deficit, Fits, Inorder, Plug;
      var parent := node.parent;
      Focus(p, Node(w, parent, c, x));
      var sibling := parent.left;
      DownLeft(p, Node(w, parent, c, x));
      ChildColors(InLeft(parent, c, x, p), w);
      if sibling.left.color == Black && sibling.right.color == Black {
        Paint(sibling, Red, InLeft(parent, c, x, p), w);
        Up(InLeft(parent, c, x, p), w.(color := Red));
        DeficitMovesUp(x, parent, c, w.left, sibling, w.right, p);
        q, y := p, Node(Node(w.left, w.elem, Red, w.right), parent, c, x);
        done := false;
      } else {
        ghost var v := OuterRedRight(parent, p, x, c, w);
        Focus(p, Node(v, parent, c, x));
        DownLeft(p, Node(v, parent, c, x));
        sibling := parent.left;
        Up(InLeft(parent, c, x, p), v);
        CloseRight(parent, sibling, p, v.left.left, v.left.elem, v.left.right, v.right, c, x);
        DeficitEndsRight(v.left.left, v.left.elem, v.left.right, sibling, v.right, parent, c, x, p);
        q, y := InRight(Node(v.left.left, v.left.elem, Black, v.left.right), sibling, c, p),
                Node(v.right, parent, Black, x);
        DownRight(p, Filled(q, y));
        done := true;
      }
    }

    lemma RightFocus(p: Path<RbNode<T>>, x: Shape<RbNode<T>>)
      requires Holds(p, x) && Deficit(p, x) && p.InRight? && IsBlack(x)
      ensures p.left.Node? && Holds(p.up, Node(p.left, p.elem, p.color, x))
      ensures Plug(p, x) == Plug(p.up, Node(p.left, p.elem, p.color, x))
      ensures p.left.color == Red ==> p.color == Black
    {
      Up(p, x);
    }

    method DeleteFixupRight(node: RbNode<T>, oldRoot: RbNode<T>, ghost p: Path<RbNode<T>>, ghost x: Shape<RbNode<T>>)
      returns (next: RbNode<T>, ghost done: bool, ghost q: Path<RbNode<T>>, ghost y: Shape<RbNode<T>>)
      requires Holds(p, x) && Deficit(p, x) && p.InRight? && IsBlack(x) && nil.color == Black
      requires node == Top(x, nil) && node.parent == p.elem && oldRoot == root
      modifies this`root, nodes
      ensures Holds(q, y) && y.Node? && next == y.elem && Inorder(Plug(q, y)) == Inorder(Plug(p, x))
      ensures oldRoot == root || oldRoot == next
      ensures done ==> next == oldRoot && y.color == Black && Fits(q, y)
      ensures !done ==> Deficit(q, y) && (y.color == Red || (Depth(q) < Depth(p) && oldRoot == root))
    {
      hide RbTree.Holds, Deficit, Fits, Inorder, Plug;
      var parent := node.parent;
      var sibling := parent.left;
      ghost var up, c, w := p.up, p.color, p.left;
      RightFocus(p, x);
      Focus(up, Node(w, parent, c, x));
      if sibling.color == Red {
        DeficitRedSiblingRight(w.left, sibling, w.right, parent, c, x, up);
        LiftLeft(sibling, parent, up, w.left, w.right, x);
        DownRight(up, Node(w.left, sibling, Black, Node(w.right, parent, Red, x)));
        up, c, w := InRight(w.left, sibling, Black, up), Red, w.right;
      }
      DownRight(up, Node(w, parent, c, x));
      if x.Node? {
        Focus(InRight(w, parent, c, up), x);
      }
      var closed;
      closed, q, y := BlackSiblingRight(node, up, x, c, w);
      done := closed;
      if closed {
        next := oldRoot;
        if oldRoot == root {
          AtRoot(q, y);
          q, y := Root, Plug(q, y);
          PlugRoot(y);
        }
      } else {
        Focus(q, y);
        next := parent;
      }
    }

    /** One turn of the deletion loop. */
    method DeleteFixupStep(node: RbNode<T>, oldRoot: RbNode<T>, ghost p: Path<RbNode<T>>, ghost x: Shape<RbNode<T>>)
      returns (next: RbNode<T>, ghost done: bool, ghost q: Path<RbNode<T>>, ghost y: Shape<RbNode<T>>)
      requires Holds(p, x) && Deficit(p, x) && !p.Root? && IsBlack(x) && nil.color == Black
      requires node == Top(x, nil) && node.parent == p.elem && oldRoot == root
      modifies this`root, nodes
      ensures Holds(q, y) && y.Node? && next == y.elem && next.parent == Parent(q, nil)
              && Inorder(Plug(q, y)) == Inorder(Plug(p, x))
      ensures oldRoot == root || oldRoot == next
      ensures done ==> next == oldRoot && y.color == Black && Fits(q, y)
      ensures !done ==> Deficit(q, y) && (y.color == Red || (Depth(q) < Depth(p) && oldRoot == root))
    {
      DeficitFocus(p, x);
      var parent := node.parent;
      if node == parent.left {
        next, done, q, y := DeleteFixupLeft(node, oldRoot, p, x);
      } else {
        next, done, q, y := DeleteFixupRight(node, oldRoot, p, x);
      }
      ParentOfFocus(q, y);
    }

    lemma RootAbove(p: Path<RbNode<T>>, x: Shape<RbNode<T>>)
      requires Holds(p, x) && !p.Root?
      ensures root != Top(x, nil)
    {
      RootIsAbove(Mem(), p, x, nil);
    }

    /** The deletion loop.  `root` is read once: when the loop ends by setting the node to it,
        it may no longer be the root, but it is black. */
    method DeleteFixupLoop(child: RbNode<T>, ghost p0: Path<RbNode<T>>, ghost x0: Shape<RbNode<T>>)
      returns (node: RbNode<T>, ghost p: Path<RbNode<T>>, ghost x: Shape<RbNode<T>>)
      requires Holds(p0, x0) && Deficit(p0, x0) && child == Top(x0, nil) && child.parent == Parent(p0, nil)
               && nil.color == Black
      modifies this`root, nodes
      ensures Holds(p, x) && node == Top(x, nil) && Inorder(Plug(p, x)) == Inorder(Plug(p0, x0))
      ensures (Fits(p, x) && IsBlack(x)) || (Deficit(p, x) && (p.Root? || !IsBlack(x)))
    {
      hide RbTree.Holds, Deficit, Fits, Inorder, Plug;
      var oldRoot := root;
      ghost var done := false;
      node, p, x := child, p0, x0;
      NilOutside(p, x);
      while node != oldRoot && node.color == Black
        invariant Holds(p, x) && node == Top(x, nil) && nil !in nodes && nil.color == Black
        invariant Inorder(Plug(p, x)) == Inorder(Plug(p0, x0))
        invariant done ==> node == oldRoot && IsBlack(x) && Fits(p, x)
        invariant !done ==> Deficit(p, x) && node.parent == Parent(p, nil)
        invariant !done ==> oldRoot == root || (oldRoot == node && !IsBlack(x))
        decreases if done || !IsBlack(x) then 0 else 1 + Depth(p)
      {
        DeficitFocus(p, x);
        if x.Node? {
          Focus(p, x);
        }
        node, done, p, x := DeleteFixupStep(node, oldRoot, p, x);
      }
      if !done && !p.Root? {
        RootAbove(p, x);
      }
      if x.Node? {
        Focus(p, x);
      }
    }

    /** Repays a deficit at `child`. */
    method RbDeleteFixup(child: RbNode<T>, ghost p0: Path<RbNode<T>>,
                         ghost x0: Shape<RbNode<T>>) returns (ghost whole: Shape<RbNode<T>>)
      requires Holds(p0, x0) && Deficit(p0, x0) && child == Top(x0, nil) && child.parent == Parent(p0, nil)
               && nil.color == Black
      modifies this`root, nodes, nil`color
      ensures Holds(Root, whole) && RedBlack(whole) && Inorder(whole) == Inorder(Plug(p0, x0)) && nil.color == Black
    {
      var node;
      ghost var p, x;
      node, p, x := DeleteFixupLoop(child, p0, x0);
      BlackenEnds(p, x);
      whole := LastColor(node, p, x);
    }

    /** The assignment after the loop. */
    method LastColor(node: RbNode<T>, ghost p: Path<RbNode<T>>,
                     ghost x: Shape<RbNode<T>>) returns (ghost whole: Shape<RbNode<T>>)
      requires Holds(p, x) && node == Top(x, nil)
      modifies nodes`color, nil`color
      ensures whole == Plug(p, Blacken(x)) && Holds(Root, whole)
      ensures nil.color == if node == nil then Black else old(nil.color)
    {
      whole := Plug(p, Blacken(x));
      if node == nil {
        node.color := Black;
      } else {
        Paint(node, Black, p, x);
      }
      PlugZip(Mem(), p, Blacken(x), nil);
    }

    lemma ParentOfFocus(p: Path<RbNode<T>>, x: Shape<RbNode<T>>)
      requires Holds(p, x) && x.Node?
      ensures x.elem.parent == Parent(p, nil)
    {
    }

    lemma DeficitFocus(p: Path<RbNode<T>>, x: Shape<RbNode<T>>)
      requires Holds(p, x) && Deficit(p, x)
      ensures p.Root? ==> root == Top(x, nil)
      ensures !p.Root? ==> p.elem in nodes && (p.elem.left == Top(x, nil) <==> p.InLeft?)
    {
      if !p.Root? {
        DeficitSide(Mem(), p, x, nil);
      }
    }

    // ---------- neighbours in the order ----------

    method Minimum(node: RbNode<T>, ghost p: Path<RbNode<T>>, ghost s: Shape<RbNode<T>>)
      returns (r: RbNode<T>, ghost q: Path<RbNode<T>>, ghost t: Shape<RbNode<T>>)
      requires Holds(p, s) && node == Top(s, nil) && (s.Nil? ==> nil.left == nil)
      ensures s.Nil? ==> r == nil
      ensures s.Node? ==> Holds(q, t) && t.Node? && t.elem == r && t.left.Nil?
      ensures Plug(q, t) == Plug(p, s) && Before(q) == Before(p)
    {
      r, q, t := node, p, s;
      while r.left != nil
        invariant Holds(q, t) && r == Top(t, nil) && (s.Node? <==> t.Node?)
        invariant Plug(q, t) == Plug(p, s) && Before(q) == Before(p)
        decreases t
      {
        DownLeft(q, t);
        ChildPointers(Mem(), q, t, nil);
        r, q, t := r.left, InLeft(t.elem, t.color, t.right, q), t.left;
      }
      if s.Node? {
        ChildPointers(Mem(), q, t, nil);
      }
    }

    method Maximum(node: RbNode<T>, ghost p: Path<RbNode<T>>, ghost s: Shape<RbNode<T>>)
      returns (r: RbNode<T>, ghost q: Path<RbNode<T>>, ghost t: Shape<RbNode<T>>)
      requires Holds(p, s) && node == Top(s, nil) && (s.Nil? ==> nil.right == nil)
      ensures s.Nil? ==> r == nil
      ensures s.Node? ==> Holds(q, t) && t.Node? && t.elem == r && t.right.Nil?
      ensures Plug(q, t) == Plug(p, s) && After(q) == After(p)
    {
      r, q, t := node, p, s;
      while r.right != nil
        invariant Holds(q, t) && r == Top(t, nil) && (s.Node? <==> t.Node?)
        invariant Plug(q, t) == Plug(p, s) && After(q) == After(p)
        decreases t
      {
        DownRight(q, t);
        ChildPointers(Mem(), q, t, nil);
        r, q, t := r.right, InRight(t.left, t.elem, t.color, q), t.right;
      }
      if s.Node? {
        ChildPointers(Mem(), q, t, nil);
      }
    }

    /** The next node in the order, or the sentinel after the last one. */
    method Successor(node: RbNode<T>, ghost p: Path<RbNode<T>>, ghost s: Shape<RbNode<T>>)
      returns (r: RbNode<T>, ghost q: Path<RbNode<T>>, ghost t: Shape<RbNode<T>>)
      requires Holds(p, s) && s.Node? && s.elem == node
      ensures r == nil ==> s.right.Nil? && After(p) == []
      ensures r != nil ==> Holds(q, t) && t.Node? && t.elem == r && Plug(q, t) == Plug(p, s)
      ensures r != nil ==> Before(q) + Inorder(t.left) == Before(p) + Inorder(s.left) + [node]
      ensures s.right.Node? ==> r != nil && t.left.Nil?
    {
      ChildPointers(Mem(), p, s, nil);
      var right := node.right;
      if right != nil {
        DownRight(p, s);
        r, q, t := Minimum(right, InRight(s.left, s.elem, s.color, p), s.right);
        return;
      }
      r, q, t := ClimbFromRight(node, p, s);
    }

    /** Up to the first ancestor of which `node` is in the left subtree. */
    method ClimbFromRight(node: RbNode<T>, ghost p: Path<RbNode<T>>, ghost s: Shape<RbNode<T>>)
      returns (r: RbNode<T>, ghost q: Path<RbNode<T>>, ghost t: Shape<RbNode<T>>)
      requires Holds(p, s) && s.Node? && s.elem == node
      ensures r == nil ==> After(p) == []
      ensures r != nil ==> Holds(q, t) && t.Node? && t.elem == r && Plug(q, t) == Plug(p, s)
      ensures r != nil ==> Before(q) + Inorder(t.left) == Before(p) + Inorder(s)
    {
      var cur, parent := node, node.parent;
      q, t := p, s;
      while parent != nil && cur == parent.right
        invariant Holds(q, t) && t.Node? && t.elem == cur && parent == Parent(q, nil) && Plug(q, t) == Plug(p, s)
        invariant After(q) == After(p) && Before(q) + Inorder(t) == Before(p) + Inorder(s)
        decreases q
      {
        ParentSide(Mem(), q, t, nil);
        Up(q, t);
        cur, parent, q, t := parent, parent.parent, q.up, Filled(q, t);
      }
      r := parent;
      if parent != nil {
        ParentSide(Mem(), q, t, nil);
        Up(q, t);
        q, t := q.up, Filled(q, t);
      }
    }

    /** The previous node in the order, or the sentinel before the first one. */
    method Predecessor(node: RbNode<T>, ghost p: Path<RbNode<T>>, ghost s: Shape<RbNode<T>>)
      returns (r: RbNode<T>, ghost q: Path<RbNode<T>>, ghost t: Shape<RbNode<T>>)
      requires Holds(p, s) && s.Node? && s.elem == node
      ensures r == nil ==> s.left.Nil? && Before(p) == []
      ensures r != nil ==> Holds(q, t) && t.Node? && t.elem == r && Plug(q, t) == Plug(p, s)
      ensures r != nil ==> Inorder(t.right) + After(q) == [node] + Inorder(s.right) + After(p)
    {
      ChildPointers(Mem(), p, s, nil);
      var left := node.left;
      if left != nil {
        DownLeft(p, s);
        r, q, t := Maximum(left, InLeft(s.elem, s.color, s.right, p), s.left);
        return;
      }
      r, q, t := ClimbFromLeft(node, p, s);
    }

    /** Up to the first ancestor of which `node` is in the right subtree. */
    method ClimbFromLeft(node: RbNode<T>, ghost p: Path<RbNode<T>>, ghost s: Shape<RbNode<T>>)
      returns (r: RbNode<T>, ghost q: Path<RbNode<T>>, ghost t: Shape<RbNode<T>>)
      requires Holds(p, s) && s.Node? && s.elem == node
      ensures r == nil ==> Before(p) == []
      ensures r != nil ==> Holds(q, t) && t.Node? && t.elem == r && Plug(q, t) == Plug(p, s)
      ensures r != nil ==> Inorder(t.right) + After(q) == Inorder(s) + After(p)
    {
      var cur, parent := node, node.parent;
      q, t := p, s;
      while parent != nil && cur == parent.left
        invariant Holds(q, t) && t.Node? && t.elem == cur && parent == Parent(q, nil) && Plug(q, t) == Plug(p, s)
        invariant Before(q) == Before(p) && Inorder(t) + After(q) == Inorder(s) + After(p)
        decreases q
      {
        ParentSide(Mem(), q, t, nil);
        Up(q, t);
        cur, parent, q, t := parent, parent.parent, q.up, Filled(q, t);
      }
      r := parent;
      if parent != nil {
        ParentSide(Mem(), q, t, nil);
        Up(q, t);
        q, t := q.up, Filled(q, t);
      }
    }

    // ---------- removing a node ----------

    /** Takes `delnode`, which has at most one child, out of the tree; dirties the sentinel's parent if there is no
        child. */
    method Unlink(delnode: RbNode<T>) returns (child: RbNode<T>)
      requires CanRemove(Mem(), delnode, nil)
      modifies this`root, this`nodes, nodes`left, nodes`right, nodes`parent, nil`parent
      ensures nodes == old(nodes) - {delnode} && Removed(old(Mem()), Mem(), delnode, nil)
      ensures child == OnlyChild(old(Mem()), delnode, nil) && child.parent == old(delnode.parent)
      ensures root == if old(delnode.parent) == nil then child else old(root)
      ensures SameLinks(delnode)
    {
      if delnode.left != nil {
        child := delnode.left;
      } else {
        child := delnode.right;
      }
      var parent := delnode.parent;
      child.parent := parent;
      if parent == nil {
        root := child;
      } else if delnode == parent.left {
        parent.left := child;
      } else {
        parent.right := child;
      }
      nodes := nodes - {delnode};
    }

    twostate predicate SameLinks(n: RbNode<T>)
      reads n
    {
      n.left == old(n.left) && n.right == old(n.right) && n.parent == old(n.parent)
    }

    method UnlinkAt(delnode: RbNode<T>, ghost p: Path<RbNode<T>>, ghost x: Shape<RbNode<T>>, ghost c: Color,
                    ghost onLeft: bool)
      returns (child: RbNode<T>)
      requires Holds(p, if onLeft then Node(x, delnode, c, Nil) else Node(Nil, delnode, c, x))
      modifies this`root, this`nodes, nodes`left, nodes`right, nodes`parent, nil`parent
      ensures nodes == old(nodes) - {delnode}
      ensures Holds(p, x) && child == Top(x, nil) && child.parent == Parent(p, nil) && SameLinks(delnode)
    {
      ghost var m := Mem();
      RemovalReady(m, p, delnode, c, x, onLeft, nil);
      child := Unlink(delnode);
      RemovedZip(m, Mem(), p, delnode, c, x, onLeft, nil);
      RootPtrMoves(p, delnode, child);
    }

    method RedirectParent(b: RbNode<T>, a: RbNode<T>)
      requires b.parent == a.parent
      modifies a.parent`left, a.parent`right
      ensures a.parent.left == if old(a.parent.left) == a then b else old(a.parent.left)
      ensures a.parent.right == if old(a.parent.right) == a then b else old(a.parent.right)
    {
      if a.parent.left == a {
        b.parent.left := b;
      }
      if a.parent.right == a {
        b.parent.right := b;
      }
    }

    /** The fields of `n` are as before, but for those named. */
    twostate predicate OnlyChildren(n: RbNode<T>)
      reads n
    {
      n.parent == old(n.parent) && n.color == old(n.color) && n.pos == old(n.pos)
    }

    twostate predicate OnlyParent(n: RbNode<T>)
      reads n
    {
      n.left == old(n.left) && n.right == old(n.right) && n.color == old(n.color) && n.pos == old(n.pos)
    }

    /** The pointer writes that put `b` in the place of `a`. */
    method ReplaceLinks(b: RbNode<T>, a: RbNode<T>)
      requires CanReplace(Mem(), a, b, nil)
      modifies nodes`left, nodes`right, nodes`parent, b
      ensures b.left == old(a.left) && b.right == old(a.right) && b.parent == old(a.parent) && b.color == a.color
              && b.pos == a.pos
      ensures a.left == old(a.left) && a.right == old(a.right) && a.parent == old(a.parent)
      ensures a.left != nil ==> a.left.parent == b && OnlyParent(a.left)
      ensures a.right != nil ==> a.right.parent == b && OnlyParent(a.right)
      ensures a.parent != nil ==> OnlyChildren(a.parent)
                                  && a.parent.left == (if old(a.parent.left) == a then b else old(a.parent.left))
                                  && a.parent.right == (if old(a.parent.right) == a then b else old(a.parent.right))
      ensures forall k :: k in nodes && k != a.left && k != a.right && k != a.parent ==>
                            OnlyParent(k) && OnlyChildren(k)
    {
      b.left := a.left;
      b.right := a.right;
      b.parent := a.parent;
      b.color := a.color;
      b.pos := a.pos;
      if a.parent != nil {
        RedirectParent(b, a);
      }
      if a.left != nil {
        b.left.parent := b;
      }
      if a.right != nil {
        b.right.parent := b;
      }
    }

    /** Puts `b`, which is outside the tree, in the place of `a`. */
    method ElemReplace(b: RbNode<T>, a: RbNode<T>)
      requires CanReplace(Mem(), a, b, nil)
      modifies this`root, this`nodes, nodes`left, nodes`right, nodes`parent, b
      ensures nodes == old(nodes) - {a} + {b} && Replaced(old(Mem()), Mem(), a, b)
      ensures root == if old(root) == a then b else old(root)
    {
      ReplaceLinks(b, a);
      if root == a {
        root := b;
      }
      nodes := nodes - {a} + {b};
    }

    method ElemReplaceAt(b: RbNode<T>, a: RbNode<T>, ghost p: Path<RbNode<T>>, ghost l: Shape<RbNode<T>>,
                         ghost c: Color, ghost r: Shape<RbNode<T>>)
      requires Holds(p, Node(l, a, c, r)) && b !in nodes && b != nil
      modifies this`root, this`nodes, nodes`left, nodes`right, nodes`parent, b
      ensures nodes == old(nodes) - {a} + {b}
      ensures Holds(p, Node(l, b, c, r))
    {
      ghost var m := Mem();
      ReplaceReady(m, p, l, a, b, c, r, nil);
      ElemReplace(b, a);
      ReplacedZip(m, Mem(), p, l, a, b, c, r, nil);
      RootPtrMoves(p, a, b);
    }

    /** After a node of the given colour went, repairs the colours if that is needed. */
    method Repair(child: RbNode<T>, color: Color, ghost p: Path<RbNode<T>>, ghost x: Shape<RbNode<T>>,
                  ghost order: seq<RbNode<T>>)
      returns (ghost whole: Shape<RbNode<T>>)
      requires Inorder(Plug(p, x)) == order
      requires Holds(p, x) && child == Top(x, nil) && child.parent == Parent(p, nil) && nil.color == Black
      requires if color.Black? then Deficit(p, x) else RedBlack(Plug(p, x))
      modifies this`root, nodes, nil`color
      ensures nil.left == old(nil.left) && nil.right == old(nil.right)
      ensures Holds(Root, whole) && RedBlack(whole) && Inorder(whole) == order && nil.color == Black
    {
      if color == Black {
        whole := RbDeleteFixup(child, p, x);
      } else {
        PlugZip(Mem(), p, x, nil);
        whole := Plug(p, x);
      }
    }

    /** Takes a node with at most one child out of the tree and repairs the colours. */
    method RemoveAt(delnode: RbNode<T>, ghost p: Path<RbNode<T>>, ghost s: Shape<RbNode<T>>)
      returns (ghost whole: Shape<RbNode<T>>, ghost order: seq<RbNode<T>>)
      requires Holds(p, s) && Fits(p, s) && s.Node? && s.elem == delnode && (s.left.Nil? || s.right.Nil?)
               && nil.color == Black
      modifies this`root, this`nodes, nodes, nil`parent, nil`color
      ensures nil.left == old(nil.left) && nil.right == old(nil.right)
      ensures nodes == old(nodes) - {delnode} && nil.color == Black
      ensures Holds(Root, whole) && RedBlack(whole)
      ensures Inorder(whole) == order && WithoutAt(Inorder(Plug(p, s)), order, |Before(p)| + |Inorder(s.left)|)
      ensures SameLinks(delnode)
    {
      hide RbTree.Holds, Fits, Deficit, RedBlack, Inorder, Plug, WithoutAt;
      Focus(p, s);
      ghost var onLeft := s.right.Nil?;
      ghost var x := if onLeft then s.left else s.right;
      RemovedInorder(p, s, x);
      RemovalDeficit(p, delnode, s.color, x, onLeft);
      order := Inorder(Plug(p, x));
      assert WithoutAt(Inorder(Plug(p, s)), order, |Before(p)| + |Inorder(s.left)|);
      var color := delnode.color;
      var child := UnlinkAt(delnode, p, x, s.color, onLeft);
      whole := Repair(child, color, p, x, order);
    }

    /** The node to be unlinked: `node` itself if it lacks a child, else its successor; `d` places further on. */
    method PickDelnode(node: RbNode<T>, ghost p: Path<RbNode<T>>, ghost s: Shape<RbNode<T>>)
      returns (delnode: RbNode<T>, ghost q: Path<RbNode<T>>, ghost t: Shape<RbNode<T>>)
      requires Holds(p, s) && s.Node? && s.elem == node
      ensures Holds(q, t) && t.Node? && t.elem == delnode && (t.left.Nil? || t.right.Nil?) && Plug(q, t) == Plug(p, s)
      ensures |Before(q)| + |Inorder(t.left)| == |Before(p)| + |Inorder(s.left)| + (if delnode == node then 0 else 1)
      ensures delnode in nodes && IsAt(Inorder(Plug(p, s)), |Before(q)| + |Inorder(t.left)|, delnode)
      ensures delnode == node <==> node.left == nil || node.right == nil
    {
      ChildPointers(Mem(), p, s, nil);
      if node.left == nil || node.right == nil {
        delnode, q, t := node, p, s;
      } else {
        delnode, q, t := Successor(node, p, s);
        DifferentPlaces(p, s, q, t);
      }
      InorderAround(q, t);
      Cut(Before(q) + Inorder(t.left), t.elem, Inorder(t.right) + After(q));
    }

    ghost predicate IsAt(s: seq<RbNode<T>>, i: nat, n: RbNode<T>) {
      i < |s| && s[i] == n
    }

    /** No node is twice in the order. */
    lemma OrderNoDup(p: Path<RbNode<T>>, s: Shape<RbNode<T>>)
      requires Holds(p, s)
      ensures NoDup(Inorder(Plug(p, s)))
    {
      PlugZip(Mem(), p, s, nil);
      Increasing(Mem(), Plug(p, s), 0.0, 1.0, nil, nil);
    }

    /** Nodes at different places of the order are different. */
    lemma DifferentPlaces(p: Path<RbNode<T>>, s: Shape<RbNode<T>>, q: Path<RbNode<T>>, t: Shape<RbNode<T>>)
      requires Holds(p, s) && s.Node? && t.Node? && Plug(q, t) == Plug(p, s)
      requires |Before(q)| + |Inorder(t.left)| != |Before(p)| + |Inorder(s.left)|
      ensures t.elem != s.elem
    {
      hide RbTree.Holds, Inorder, Plug, Before;
      FocusAt(p, s);
      FocusAt(q, t);
      OrderNoDup(p, s);
    }

    /** Puts `b` in the place of `a`, the element at `i` of the tree `w`. */
    method TakePlace(b: RbNode<T>, a: RbNode<T>, ghost w: Shape<RbNode<T>>, ghost i: nat)
      returns (ghost whole: Shape<RbNode<T>>, ghost order: seq<RbNode<T>>)
      requires Holds(Root, w) && RedBlack(w) && i < |Inorder(w)| && Inorder(w)[i] == a && b !in nodes && b != nil
      modifies this`root, this`nodes, nodes`left, nodes`right, nodes`parent, b
      ensures nodes == old(nodes) - {a} + {b}
      ensures Holds(Root, whole) && RedBlack(whole) && Inorder(whole) == order && order == Inorder(w)[i := b]
    {
      ghost var p, s := Locate(Root, w, i);
      FocusZip(Mem(), p, s, nil);
      ghost var t := Node(s.left, b, s.color, s.right);
      ReplacedInorder(p, s, b);
      order := Inorder(Plug(p, t));
      assert order == Inorder(w)[i := b];
      assert RedBlack(Plug(p, t)) by {
        PlugBalanced(p, s);
        PlugBalanced(p, t);
      }
      ElemReplaceAt(b, a, p, s.left, s.color, s.right);
      PlugZip(Mem(), p, t, nil);
      whole := Plug(p, t);
    }

    method FindDelnode(node: RbNode<T>, ghost i: nat)
      returns (delnode: RbNode<T>, ghost q: Path<RbNode<T>>, ghost t: Shape<RbNode<T>>)
      requires Valid() && IsAt(Elems(), i, node)
      ensures Plug(q, t) == shape && Holds(q, t) && Fits(q, t)
      ensures t.Node? && t.elem == delnode && (t.left.Nil? || t.right.Nil?) && delnode in nodes && node in nodes
      ensures IsAt(Elems(), if delnode == node then i else i + 1, delnode)
      ensures |Before(q)| + |Inorder(t.left)| == if delnode == node then i else i + 1
      ensures delnode == node <==> node.left == nil || node.right == nil
    {
      ghost var p, s := Locate(Root, shape, i);
      FocusZip(Mem(), p, s, nil);
      delnode, q, t := PickDelnode(node, p, s);
      PlugBalanced(q, t);
    }

    /** Deletes `node`, the element at `i`: unlinks it or its successor, which then takes its place. */
    method NodeDelete(node: RbNode<T>, ghost i: nat)
      returns (ghost whole: Shape<RbNode<T>>, ghost order: seq<RbNode<T>>)
      requires Valid() && IsAt(Elems(), i, node)
      modifies this`root, this`nodes, nodes, nil`parent, nil`color
      ensures nil.left == old(nil.left) && nil.right == old(nil.right)
      ensures nodes == old(nodes) - {node} && nil.color == Black
      ensures Holds(Root, whole) && RedBlack(whole)
      ensures Inorder(whole) == order && WithoutAt(Elems(), order, i)
      ensures if old(node.left == nil || node.right == nil) then SameLinks(node) else Loose(node)
    {
      hide RbTree.Holds, Fits, RedBlack, Inorder, Plug, WithoutAt;
      var delnode;
      ghost var q, t;
      delnode, q, t := FindDelnode(node, i);
      whole, order := Excise(delnode, q, t);
      if delnode != node {
        SwapOut(old(nodes), delnode, node);
        assert WithoutAt(Elems(), order, i + 1);
        whole, order := Restore(delnode, node, whole, order, i);
      }
    }

    /** A node without links. */
    ghost predicate Loose(n: RbNode<T>)
      reads n
    {
      n.left == nil && n.right == nil && n.parent == nil
    }

    lemma SwapOut(s: set<RbNode<T>>, d: RbNode<T>, n: RbNode<T>)
      requires d in s && d != n
      ensures s - {d} - {n} + {d} == s - {n}
    {
    }

    method Excise(delnode: RbNode<T>, ghost q: Path<RbNode<T>>, ghost t: Shape<RbNode<T>>)
      returns (ghost whole: Shape<RbNode<T>>, ghost order: seq<RbNode<T>>)
      requires Plug(q, t) == shape && nil.color == Black
      requires Holds(q, t) && Fits(q, t) && t.Node? && t.elem == delnode && (t.left.Nil? || t.right.Nil?)
      modifies this`root, this`nodes, nodes, nil`parent, nil`color
      ensures nil.left == old(nil.left) && nil.right == old(nil.right)
      ensures nodes == old(nodes) - {delnode} && nil.color == Black
      ensures Holds(Root, whole) && RedBlack(whole)
      ensures Inorder(whole) == order && WithoutAt(Elems(), order, |Before(q)| + |Inorder(t.left)|)
      ensures SameLinks(delnode)
    {
      hide RbTree.Holds, RedBlack, Inorder, WithoutAt, Plug, Fits;
      assert Inorder(Plug(q, t)) == Elems();
      whole, order := RemoveAt(delnode, q, t);
    }

    /** The successor, unlinked from its own place, takes that of `node`. */
    method Restore(delnode: RbNode<T>, node: RbNode<T>, ghost w: Shape<RbNode<T>>, ghost without: seq<RbNode<T>>,
                   ghost i: nat)
      returns (ghost whole: Shape<RbNode<T>>, ghost order: seq<RbNode<T>>)
      requires Holds(Root, w) && RedBlack(w) && Inorder(w) == without && WithoutAt(Elems(), without, i + 1)
      requires Elems()[i] == node && Elems()[i + 1] == delnode && delnode !in nodes && delnode != nil && node in nodes
      modifies this`root, this`nodes, nodes, delnode
      ensures nil.left == old(nil.left) && nil.right == old(nil.right)
      ensures nodes == old(nodes) - {node} + {delnode} && nil.color == old(nil.color)
      ensures Holds(Root, whole) && RedBlack(whole)
      ensures Inorder(whole) == order && WithoutAt(Elems(), order, i) && Loose(node)
    {
      hide RbTree.Holds, RedBlack, Inorder, WithoutAt;
      NilOutside(Root, w);
      WithoutNext(Elems(), without, i);
      assert WithoutAt(Elems(), without[i := delnode], i);
      whole, order := TakePlace(delnode, node, w, i);
      node.parent, node.left, node.right := nil, nil, nil;
    }

    /** Deletes `elem`; `i` is its place in the order.  A node that lacked a child keeps its old links. */
    method Delete(elem: RbNode<T>) returns (ghost i: nat)
      requires Valid() && elem in nodes
      modifies this`root, this`shape, this`nodes, nodes, nil`parent, nil`color
      ensures Valid() && nodes == old(nodes) - {elem}
      ensures i < |old(Elems())| && old(Elems())[i] == elem && Elems() == old(Elems())[..i] + old(Elems())[i + 1..]
      ensures if old(elem.left == nil || elem.right == nil) then SameLinks(elem) else Loose(elem)
    {
      i := PlaceOf(elem);
      ghost var whole, order := NodeDelete(elem, i);
      WithoutAtSet(Elems(), order, i);
      WithoutAtConcat(Elems(), order, i);
      SetShape(whole);
    }

    lemma PlaceOf(elem: RbNode<T>) returns (i: nat)
      requires Valid() && elem in nodes
      ensures IsAt(Elems(), i, elem) && NoDup(Elems())
    {
      i :| i < |Elems()| && Elems()[i] == elem;
      Increasing(Mem(), shape, 0.0, 1.0, nil, nil);
    }

    // ---------- searching and walking ----------

    ghost predicate Equivalent(x: T, e: T) {
      !less(x, e) && !less(e, x)
    }

    /** The elements less than `e` come first and the elements `e` is less than come last. */
    ghost predicate Partitioned(s: seq<RbNode<T>>, e: T) {
      Splits(s, e) && forall i, j :: 0 <= i < j < |s| && less(e, s[i].entry) ==> less(e, s[j].entry)
    }

    ghost predicate AllGreater(s: seq<RbNode<T>>, e: T) {
      forall i :: 0 <= i < |s| ==> less(e, s[i].entry)
    }

    lemma SearchStep(p: Path<RbNode<T>>, s: Shape<RbNode<T>>, e: T)
      requires s.Node? && Partitioned(Inorder(Plug(p, s)), e)
      ensures less(s.elem.entry, e) ==> AllLess(Before(InRight(s.left, s.elem, s.color, p)), e)
      ensures less(e, s.elem.entry) ==> AllGreater(After(InLeft(s.elem, s.color, s.right, p)), e)
      ensures IsAt(Inorder(Plug(p, s)), |Before(p)| + |Inorder(s.left)|, s.elem)
    {
      var u, v := Before(p) + Inorder(s.left), Inorder(s.right) + After(p);
      InorderAround(p, s);
      Cut(u, s.elem, v);
      PartitionPoint(u, s.elem, v, e);
      AppendFront([s.elem], Inorder(s.right), After(p));
    }

    lemma AppendFront(a: seq<RbNode<T>>, b: seq<RbNode<T>>, c: seq<RbNode<T>>)
      ensures a + b + c == a + (b + c)
    {
    }

    lemma PartitionPoint(u: seq<RbNode<T>>, n: RbNode<T>, v: seq<RbNode<T>>, e: T)
      requires Partitioned(u + [n] + v, e)
      ensures less(n.entry, e) ==> AllLess(u + [n], e)
      ensures less(e, n.entry) ==> AllGreater([n] + v, e)
    {
      var w := u + [n] + v;
      assert w[|u|] == n;
      assert u + [n] == w[..|u| + 1] && [n] + v == w[|u|..];
    }

    /** The node before the one at place `i`, or the sentinel. */
    method PredecessorOf(node: RbNode<T>, ghost i: nat) returns (r: RbNode<T>)
      requires Valid() && IsAt(Elems(), i, node)
      ensures if i == 0 then r == nil else IsAt(Elems(), i - 1, r) && r != nil
    {
      ghost var p, s := Locate(Root, shape, i);
      FocusZip(Mem(), p, s, nil);
      ghost var q, t;
      r, q, t := Predecessor(node, p, s);
      BeforeNeighbour(p, s, q, t, r == nil);
    }

    lemma BeforeNeighbour(p: Path<RbNode<T>>, s: Shape<RbNode<T>>, q: Path<RbNode<T>>, t: Shape<RbNode<T>>, none: bool)
      requires s.Node?
      requires none ==> s.left.Nil? && Before(p) == []
      requires !none ==>
                 t.Node? && Plug(q, t) == Plug(p, s)
                 && Inorder(t.right) + After(q) == [s.elem] + Inorder(s.right) + After(p)
      ensures none ==> |Before(p)| + |Inorder(s.left)| == 0
      ensures !none ==>
                |Before(p)| + |Inorder(s.left)| > 0
                && IsAt(Inorder(Plug(p, s)), |Before(p)| + |Inorder(s.left)| - 1, t.elem)
    {
      if !none {
        InorderAround(p, s);
        InorderAround(q, t);
        assert |Inorder(t.right) + After(q)| == 1 + |Inorder(s.right)| + |After(p)|;
        assert |Before(q) + Inorder(t.left)| + 1 == |Before(p)| + |Inorder(s.left)|;
      }
    }

    method SuccessorOf(node: RbNode<T>, ghost i: nat) returns (r: RbNode<T>)
      requires Valid() && IsAt(Elems(), i, node)
      ensures if i + 1 == |Elems()| then r == nil else IsAt(Elems(), i + 1, r) && r != nil
    {
      ghost var p, s := Locate(Root, shape, i);
      FocusZip(Mem(), p, s, nil);
      ghost var q, t;
      r, q, t := Successor(node, p, s);
      AfterNeighbour(p, s, q, t, r == nil);
    }

    lemma AfterNeighbour(p: Path<RbNode<T>>, s: Shape<RbNode<T>>, q: Path<RbNode<T>>, t: Shape<RbNode<T>>, none: bool)
      requires s.Node?
      requires none ==> s.right.Nil? && After(p) == []
      requires !none ==>
                 t.Node? && Plug(q, t) == Plug(p, s)
                 && Before(q) + Inorder(t.left) == Before(p) + Inorder(s.left) + [s.elem]
      ensures none ==> |Before(p)| + |Inorder(s.left)| + 1 == |Inorder(Plug(p, s))|
      ensures !none ==> IsAt(Inorder(Plug(p, s)), |Before(p)| + |Inorder(s.left)| + 1, t.elem)
    {
      InorderAround(p, s);
      if !none {
        InorderAround(q, t);
        assert |Before(q) + Inorder(t.left)| == |Before(p)| + |Inorder(s.left)| + 1;
      }
    }

    /** Where an element stands to `e`. */
    ghost function SideOf(e: T): RbNode<T> -> Side {
      (n: RbNode<T>) => if less(n.entry, e) then Below else if less(e, n.entry) then Above else Same
    }

    /** One step of the way back. */
    lemma BackStep(s: seq<RbNode<T>>, i: nat, e: T)
      requires i < |s|
      ensures i == 0 || less(s[i - 1].entry, e) ==> WayBack(s, i, SideOf(e)) == i
      ensures i > 0 && !less(s[i - 1].entry, e) ==> WayBack(s, i, SideOf(e)) == WayBack(s, i - 1, SideOf(e))
    {
    }

    /** Before an equivalent element comes another one, or only lesser ones. */
    lemma FirstStep(s: seq<RbNode<T>>, i: nat, e: T)
      requires i < |s|
      ensures Partitioned(s, e) && Equivalent(s[i].entry, e) ==>
                if i == 0 || less(s[i - 1].entry, e) then AllLess(s[..i], e) else Equivalent(s[i - 1].entry, e)
    {
    }

    /** From an element equivalent to `e` back to the first one. */
    method FindFirstEqualEntry(e: T, node: RbNode<T>, ghost i0: nat) returns (r: RbNode<T>, ghost i: nat)
      requires Valid() && IsAt(Elems(), i0, node) && Equivalent(node.entry, e)
      ensures IsAt(Elems(), i, r) && i == WayBack(Elems(), i0, SideOf(e))
      ensures Partitioned(Elems(), e) ==> Equivalent(r.entry, e) && AllLess(Elems()[..i], e)
    {
      hide WayBack, RbTree.SideOf, RbTree.Valid, RbTree.Partitioned, RbTree.AllLess;
      r, i := node, i0;
      while true
        invariant IsAt(Elems(), i, r) && WayBack(Elems(), i0, SideOf(e)) == WayBack(Elems(), i, SideOf(e))
        invariant Partitioned(Elems(), e) ==> Equivalent(r.entry, e)
        decreases i
      {
        var pred := PredecessorOf(r, i);
        BackStep(Elems(), i, e);
        FirstStep(Elems(), i, e);
        if pred == nil || less(pred.entry, e) {
          break;
        }
        r, i := pred, i - 1;
      }
    }

    lemma FocusAt(p: Path<RbNode<T>>, s: Shape<RbNode<T>>)
      requires s.Node?
      ensures IsAt(Inorder(Plug(p, s)), |Before(p)| + |Inorder(s.left)|, s.elem)
    {
      InorderAround(p, s);
      Cut(Before(p) + Inorder(s.left), s.elem, Inorder(s.right) + After(p));
    }

    /** The way down for `e` goes on in the subtree. */
    ghost predicate OnWay(p: Path<RbNode<T>>, s: Shape<RbNode<T>>, e: T) {
      Way(Plug(p, s), SideOf(e)) == Shifted(|Before(p)|, Way(s, SideOf(e)))
    }

    /** If `e` partitions the tree, what the way down passed by is on the right side of `e`. */
    ghost predicate Passed(p: Path<RbNode<T>>, s: Shape<RbNode<T>>, e: T) {
      Partitioned(Inorder(Plug(p, s)), e) ==> AllLess(Before(p), e) && AllGreater(After(p), e)
    }

    lemma WayStarts(s: Shape<RbNode<T>>, e: T)
      ensures OnWay(Root, s, e) && Passed(Root, s, e)
    {
    }

    /** One step of the way down. */
    lemma WayDown(p: Path<RbNode<T>>, s: Shape<RbNode<T>>, e: T)
      requires s.Node? && OnWay(p, s, e)
      ensures less(s.elem.entry, e) ==> OnWay(InRight(s.left, s.elem, s.color, p), s.right, e)
      ensures !less(s.elem.entry, e) && less(e, s.elem.entry) ==> OnWay(InLeft(s.elem, s.color, s.right, p), s.left, e)
    {
    }

    lemma PassDown(p: Path<RbNode<T>>, s: Shape<RbNode<T>>, e: T)
      requires s.Node? && Passed(p, s, e)
      ensures less(s.elem.entry, e) ==> Passed(InRight(s.left, s.elem, s.color, p), s.right, e)
      ensures !less(s.elem.entry, e) && less(e, s.elem.entry) ==> Passed(InLeft(s.elem, s.color, s.right, p), s.left, e)
    {
      hide RbTree.Partitioned, RbTree.AllLess, RbTree.AllGreater, Inorder;
      if Partitioned(Inorder(Plug(p, s)), e) {
        SearchStep(p, s, e);
      }
    }

    lemma WayStops(p: Path<RbNode<T>>, s: Shape<RbNode<T>>, e: T)
      requires s.Node? && OnWay(p, s, e) && Equivalent(s.elem.entry, e)
      ensures Way(Plug(p, s), SideOf(e)) == Some(|Before(p)| + |Inorder(s.left)|)
      ensures IsAt(Inorder(Plug(p, s)), |Before(p)| + |Inorder(s.left)|, s.elem)
    {
      hide Way, Inorder, Plug, Before, RbTree.IsAt, RbTree.SideOf;
      SideOfEquivalent(s.elem, e);
      WayOfNode(s, SideOf(e));
      FocusAt(p, s);
    }

    lemma SideOfEquivalent(n: RbNode<T>, e: T)
      requires Equivalent(n.entry, e)
      ensures SideOf(e)(n).Same?
    {
    }

    lemma WayEnds(p: Path<RbNode<T>>, s: Shape<RbNode<T>>, e: T)
      requires s.Nil? && OnWay(p, s, e) && Passed(p, s, e)
      ensures Way(Plug(p, s), SideOf(e)).None?
      ensures Partitioned(Inorder(Plug(p, s)), e) ==> forall n :: n in Inorder(Plug(p, s)) ==> !Equivalent(n.entry, e)
    {
      PlugInorder(p, s);
    }

    /** The first element equivalent to `e`, or null if there is none.  In a tree that `e` does not
        partition it is what the way down and the way back from there make it. */
    method Find(e: T) returns (r: RbNode?<T>, ghost i: nat)
      requires Valid()
      ensures r == null <==> Way(shape, SideOf(e)).None?
      ensures r != null ==> IsAt(Elems(), i, r) && i == WayBack(Elems(), Way(shape, SideOf(e)).value, SideOf(e))
      ensures Partitioned(Elems(), e) ==>
                if r == null then forall n :: n in Elems() ==> !Equivalent(n.entry, e)
                else Equivalent(r.entry, e) && AllLess(Elems()[..i], e)
    {
      hide RedBlack, Balanced, Way, WayBack, RbTree.SideOf, RbTree.OnWay, RbTree.Passed, RbTree.IsAt,
        RbTree.Partitioned, PathLinked;
      var cur := root;
      ghost var p: Path<RbNode<T>>, s := Root, shape;
      WayStarts(s, e);
      while cur != nil
        invariant Holds(p, s) && cur == Top(s, nil) && Plug(p, s) == shape
        invariant OnWay(p, s, e) && Passed(p, s, e)
        decreases s
      {
        if less(cur.entry, e) {
          WayDown(p, s, e);
          PassDown(p, s, e);
          DownRight(p, s);
          p, s := InRight(s.left, s.elem, s.color, p), s.right;
          cur := cur.right;
        } else if less(e, cur.entry) {
          WayDown(p, s, e);
          PassDown(p, s, e);
          DownLeft(p, s);
          p, s := InLeft(s.elem, s.color, s.right, p), s.left;
          cur := cur.left;
        } else {
          WayStops(p, s, e);
          r, i := FindFirstEqualEntry(e, cur, |Before(p)| + |Inorder(s.left)|);
          return;
        }
      }
      WayEnds(p, s, e);
      r, i := null, 0;
    }

    /** The first element that is not less than `e`, or null if all are less. */
    method FindFirst(e: T) returns (r: RbNode?<T>, ghost i: nat)
      requires Valid() && Partitioned(Elems(), e)
      ensures r == null ==> AllLess(Elems(), e)
      ensures r != null ==> IsAt(Elems(), i, r) && !less(r.entry, e) && AllLess(Elems()[..i], e)
    {
      hide RedBlack, Balanced;
      var cur := root;
      r := null;
      ghost var p: Path<RbNode<T>>, s := Root, shape;
      while cur != nil
        invariant Holds(p, s) && cur == Top(s, nil) && Plug(p, s) == shape
        invariant AllLess(Before(p), e) && AllGreater(After(p), e)
        invariant if r == null then After(p) == [] else After(p) != [] && r == After(p)[0] && !less(r.entry, e)
        decreases s
      {
        SearchStep(p, s, e);
        if less(cur.entry, e) {
          DownRight(p, s);
          p, s := InRight(s.left, s.elem, s.color, p), s.right;
          cur := cur.right;
        } else {
          r := cur;
          if less(e, cur.entry) {
            DownLeft(p, s);
            p, s := InLeft(s.elem, s.color, s.right, p), s.left;
            cur := cur.left;
          } else {
            r, i := FindFirstEqualEntry(e, cur, |Before(p)| + |Inorder(s.left)|);
            return;
          }
        }
      }
      i := |Before(p)|;
      FallOff(p, s);
    }

    lemma FallOff(p: Path<RbNode<T>>, s: Shape<RbNode<T>>)
      requires s.Nil?
      ensures var w := Inorder(Plug(p, s));
              |Before(p)| + |After(p)| == |w| && w[..|Before(p)|] == Before(p) && w[|Before(p)|..] == After(p)
      ensures After(p) == [] ==> Inorder(Plug(p, s)) == Before(p)
      ensures After(p) != [] ==> IsAt(Inorder(Plug(p, s)), |Before(p)|, After(p)[0])
    {
      PlugInorder(p, s);
      assert Inorder(Plug(p, s)) == Before(p) + After(p);
    }

    /** The first element in order, or null if the tree is empty. */
    method Begin() returns (r: RbNode?<T>)
      requires Valid()
      ensures if Elems() == [] then r == null else r == Elems()[0]
    {
      var min;
      ghost var q, t;
      min, q, t := Minimum(root, Root, shape);
      if min == nil {
        r := null;
      } else {
        r := min;
        InorderAround(q, t);
      }
    }

    /** The element after the one at place `i`, or null. */
    method Next(elem: RbNode<T>, ghost i: nat) returns (r: RbNode?<T>)
      requires Valid() && IsAt(Elems(), i, elem)
      ensures if i + 1 == |Elems()| then r == null else r != null && IsAt(Elems(), i + 1, r)
    {
      var next := SuccessorOf(elem, i);
      r := if next == nil then null else next;
    }

    /** A walk from rbtree_begin with rbtree_next visits every element once, in order. */
    method Walk() returns (s: seq<RbNode<T>>)
      requires Valid()
      ensures s == Elems()
    {
      hide RbTree.Valid;
      s := [];
      var e := Begin();
      while e != null
        invariant Valid() && |s| <= |Elems()| && s == Elems()[..|s|]
        invariant if |s| == |Elems()| then e == null else e == Elems()[|s|]
        decreases |Elems()| - |s|
      {
        ghost var i := |s|;
        s := s + [e];
        e := Next(e, i);
      }
    }

    /** The length of the longest way down from a subtree's top. */
    method HeightOf(node: RbNode<T>, ghost p: Path<RbNode<T>>, ghost s: Shape<RbNode<T>>) returns (h: nat)
      requires Holds(p, s) && node == Top(s, nil)
      ensures h == Height(s)
      decreases s
    {
      if node == nil {
        return 0;
      }
      DownLeft(p, s);
      DownRight(p, s);
      var l := HeightOf(node.left, InLeft(s.elem, s.color, s.right, p), s.left);
      var r := HeightOf(node.right, InRight(s.left, s.elem, s.color, p), s.right);
      h := (if l > r then l else r) + 1;
    }

    method TreeHeight() returns (h: nat)
      requires Valid()
      ensures h == Height(shape) && Pow2(h) <= (|Elems()| + 1) * (|Elems()| + 1)
    {
      HeightIsLogarithmic(shape);
      h := HeightOf(root, Root, shape);
    }
  }

  // ---------- two trees ----------

  /** A deletion dirties the sentinel, which all trees share, in its parent field only: another tree
      stays as it is. */
  method DeleteBeside<T>(t: RbTree<T>, other: RbTree<T>, elem: RbNode<T>) returns (ghost i: nat)
    requires t.Valid() && other.Valid() && t != other && t.nil == other.nil && elem in t.nodes
    requires forall n :: n in t.nodes ==> n !in other.nodes
    modifies t`root, t`shape, t`nodes, t.nodes, t.nil`parent, t.nil`color
    ensures t.Valid() && t.nodes == old(t.nodes) - {elem}
    ensures i < |old(t.Elems())| && t.Elems() == old(t.Elems())[..i] + old(t.Elems())[i + 1..]
    ensures other.Valid() && other.Elems() == old(other.Elems()) && other.nodes == old(other.nodes)
  {
    hide Zip, RedBlack, Inorder, RootPtr, Top;
    ghost var m := other.Mem();
    i := t.Delete(elem);
    assert t.nil.color == Black && t.nil.left == t.nil && t.nil.right == t.nil;
    assert other.Mem() == m;
  }

  // ---------- sorted trees ----------

  ghost predicate Sorted<T>(less: (T, T) -> bool, s: seq<RbNode<T>>) {
    forall i, j :: 0 <= i < j < |s| ==> !less(s[j].entry, s[i].entry)
  }

  /** In a tree sorted by a strict weak order, every probe partitions the elements. */
  lemma SortedIsPartitioned<T(!new)>(t: RbTree<T>, s: seq<RbNode<T>>, e: T)
    requires StrictWeakOrder(t.less) && Sorted(t.less, s)
    ensures t.Partitioned(s, e)
  {
    forall i, j | 0 <= i < j < |s|
      ensures t.less(s[j].entry, e) ==> t.less(s[i].entry, e)
      ensures t.less(e, s[i].entry) ==> t.less(e, s[j].entry)
    {
      assert !t.less(s[j].entry, s[i].entry);
    }
  }

  /** Insertion keeps a tree sorted. */
  lemma InsertedIsSorted<T(!new)>(t: RbTree<T>, before: seq<RbNode<T>>, after: seq<RbNode<T>>, n: RbNode<T>, k: nat)
    requires StrictWeakOrder(t.less) && Sorted(t.less, before) && t.InsertedAt(before, after, n, k)
    ensures Sorted(t.less, after)
  {
    SortedIsPartitioned(t, before, n.entry);
    forall i, j | 0 <= i < j < |after|
      ensures !t.less(after[j].entry, after[i].entry)
    {
      if i == k {
        assert after[j] == before[k..][j - k - 1];
      } else if j == k {
        assert after[i] == before[..k][i];
      }
    }
  }
}
