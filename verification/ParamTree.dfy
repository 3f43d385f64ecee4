/**
  The red-black tree in memory: nodes linked through `left` and `right`, rewired
  in place.  Each method is tied to its counterpart on tree values: if the nodes
  under the given root spell out a tree, then the nodes under the returned root
  spell out the tree that the value operation makes of it.  Subtrees that an
  operation does not touch are framed by the set of their nodes.
  */
module ParamTree {
  import opened RbTree

  ghost function Nodes(t: Tree): set<Node> { set n | n in Ino(t) }

  /** The nodes under `root` spell out `t`. */
  ghost predicate Holds(t: Tree, root: Node?)
    reads Nodes(t)`left, Nodes(t)`right, Nodes(t)`color
  {
    match t
    case Leaf => root == null
    case Branch(n, c, l, r) =>
      var holds := root == n && n.color == c && Holds(l, n.left) && Holds(r, n.right);
      holds
  }

  ghost predicate Distinct(s: seq<Node>) { forall i, j :: 0 <= i < j < |s| ==> s[i] != s[j] }

  /** No node occurs twice in `t`. */
  ghost predicate Apart(t: Tree) { Distinct(Ino(t)) }

  lemma DistinctParts(a: seq<Node>, n: Node, b: seq<Node>)
    requires Distinct(a + [n] + b)
    ensures Distinct(a) && Distinct(b) && n !in a && n !in b
    ensures forall x :: x in a ==> x !in b
  {
    var whole := a + [n] + b;
    assert whole[|a|] == n;
    assert forall i :: 0 <= i < |a| ==> a[i] == whole[i];
    assert forall i :: 0 <= i < |b| ==> b[i] == whole[|a| + 1 + i];
  }

  lemma ApartParts(s: Side, t: Tree)
    requires t.Branch? && Apart(t)
    ensures Apart(Child(t, s)) && Apart(Child(t, Other(s)))
    ensures t.node !in Nodes(Child(t, s)) && t.node !in Nodes(Child(t, Other(s)))
    ensures Nodes(Child(t, s)) !! Nodes(Child(t, Other(s)))
    ensures Nodes(t) == Nodes(Child(t, s)) + {t.node} + Nodes(Child(t, Other(s)))
  {
    DistinctParts(Ino(t.left), t.node, Ino(t.right));
    hide Distinct;
    assert Nodes(t) == Nodes(t.left) + {t.node} + Nodes(t.right);
  }

  /** What a held tree says of its root and its two sides. */
  lemma Opened(s: Side, t: Tree, root: Node)
    requires t.Branch? && Holds(t, root) && Apart(t)
    ensures root == t.node && root.color == t.color && t.node in Nodes(t)
    ensures Holds(Child(t, s), root.Kid(s)) && Holds(Child(t, Other(s)), root.Kid(Other(s)))
    ensures root.Kid(s) == Root(Child(t, s)) && root.Kid(Other(s)) == Root(Child(t, Other(s)))
    ensures Apart(Child(t, s)) && Apart(Child(t, Other(s)))
    ensures t.node !in Nodes(Child(t, s)) && t.node !in Nodes(Child(t, Other(s)))
    ensures Nodes(Child(t, s)) !! Nodes(Child(t, Other(s)))
    ensures Nodes(t) == Nodes(Child(t, s)) + {t.node} + Nodes(Child(t, Other(s)))
    ensures allocated(Nodes(t)) && allocated(Nodes(Child(t, s))) && allocated(Nodes(Child(t, Other(s))))
  {
    ApartParts(s, t);
  }

  lemma Closed(s: Side, n: Node, c: Color, near: Tree, far: Tree)
    requires n.color == c && Holds(near, n.Kid(s)) && Holds(far, n.Kid(Other(s)))
    ensures Holds(Mk(s, n, c, near, far), n)
  {
  }

  // The three rewirings; the trees `bl`, `br`, ... hang below the nodes involved and stay as they are.

  /** `b` comes up in place of its parent `a`. */
  method RotateOnce(s: Side, a: Node, b: Node, ca: Color, cb: Color, ghost bl: Tree, ghost br: Tree, ghost n: Tree)
    requires a != b && a.Kid(s) == b
    requires Holds(bl, b.Kid(s)) && Holds(br, b.Kid(Other(s))) && Holds(n, a.Kid(Other(s)))
    requires a !in Nodes(bl) && b !in Nodes(bl)
    requires a !in Nodes(br) && b !in Nodes(br)
    requires a !in Nodes(n) && b !in Nodes(n)
    modifies a, b
    ensures Holds(Mk(s, b, cb, bl, Mk(s, a, ca, br, n)), b)
  {
    assert allocated(Nodes(bl)) && allocated(Nodes(br)) && allocated(Nodes(n));
    hide Nodes, Holds, Mk;
    var br' := b.Kid(Other(s));
    a.Set(s, br', a.Kid(Other(s)), ca);
    b.Set(s, b.Kid(s), a, cb);
    Closed(s, a, ca, br, n);
    Closed(s, b, cb, bl, Mk(s, a, ca, br, n));
  }

  /** `c`, the inner child of `b`, comes up in place of the grandparent `a`. */
  method RotateTwice(s: Side, a: Node, b: Node, c: Node, ca: Color, cc: Color,
                     ghost bl: Tree, ghost cl: Tree, ghost cr: Tree, ghost n: Tree)
    requires a != b && a != c && b != c && a.Kid(s) == b && b.Kid(Other(s)) == c
    requires Holds(bl, b.Kid(s)) && Holds(cl, c.Kid(s)) && Holds(cr, c.Kid(Other(s))) && Holds(n, a.Kid(Other(s)))
    requires a !in Nodes(bl) && b !in Nodes(bl) && c !in Nodes(bl)
    requires a !in Nodes(cl) && b !in Nodes(cl) && c !in Nodes(cl)
    requires a !in Nodes(cr) && b !in Nodes(cr) && c !in Nodes(cr)
    requires a !in Nodes(n) && b !in Nodes(n) && c !in Nodes(n)
    modifies a, b, c
    ensures b.color == old(b.color)
    ensures Holds(Mk(s, c, cc, Mk(s, b, b.color, bl, cl), Mk(s, a, ca, cr, n)), c)
  {
    assert allocated(Nodes(bl)) && allocated(Nodes(cl)) && allocated(Nodes(cr)) && allocated(Nodes(n));
    hide Nodes, Holds, Mk;
    b.Set(s, b.Kid(s), c.Kid(s), b.color);
    Closed(s, b, b.color, bl, cl);
    MkApart(s, b, b.color, bl, cl, a);
    MkApart(s, b, b.color, bl, cl, c);
    Crown(s, a, b, c, ca, cc, Mk(s, b, b.color, bl, cl), cr, n);
  }

  /** `d` becomes the parent of `b` and of its old grandparent `a`. */
  method Crown(s: Side, a: Node, b: Node, d: Node, ca: Color, cd: Color, ghost low: Tree, ghost dr: Tree, ghost n: Tree)
    requires a != d && Holds(low, b) && Holds(dr, d.Kid(Other(s))) && Holds(n, a.Kid(Other(s)))
    requires a !in Nodes(low) && d !in Nodes(low)
    requires a !in Nodes(dr) && d !in Nodes(dr)
    requires a !in Nodes(n) && d !in Nodes(n)
    modifies a, d
    ensures Holds(Mk(s, d, cd, low, Mk(s, a, ca, dr, n)), d) && a.color == ca
  {
    assert allocated(Nodes(low)) && allocated(Nodes(dr)) && allocated(Nodes(n));
    hide Nodes, Holds, Mk;
    var o := Other(s);
    a.Set(s, d.Kid(o), a.Kid(o), ca);
    d.Set(s, b, a, cd);
    Closed(s, a, ca, dr, n);
    Closed(s, d, cd, low, Mk(s, a, ca, dr, n));
  }

  lemma MkApart(s: Side, n: Node, c: Color, near: Tree, far: Tree, x: Node)
    requires x != n && x !in Nodes(near) && x !in Nodes(far)
    ensures x !in Nodes(Mk(s, n, c, near, far))
  {
  }

  /** `d`, the inner child of the inner child `c` of `b`, comes up in place of `a`. */
  method RotateDeep(s: Side, a: Node, b: Node, c: Node, d: Node,
                    ghost bl: Tree, ghost cl: Tree, ghost dl: Tree, ghost dr: Tree, ghost n: Tree)
    requires a != b && a != c && a != d && b != c && b != d && c != d
    requires a.Kid(s) == b && b.Kid(Other(s)) == c && c.Kid(Other(s)) == d
    requires Holds(bl, b.Kid(s)) && Holds(cl, c.Kid(s)) && Holds(n, a.Kid(Other(s)))
    requires Holds(dl, d.Kid(s)) && Holds(dr, d.Kid(Other(s)))
    requires a !in Nodes(bl) && b !in Nodes(bl) && c !in Nodes(bl) && d !in Nodes(bl)
    requires a !in Nodes(cl) && b !in Nodes(cl) && c !in Nodes(cl) && d !in Nodes(cl)
    requires a !in Nodes(dl) && b !in Nodes(dl) && c !in Nodes(dl) && d !in Nodes(dl)
    requires a !in Nodes(dr) && b !in Nodes(dr) && c !in Nodes(dr) && d !in Nodes(dr)
    requires a !in Nodes(n) && b !in Nodes(n) && c !in Nodes(n) && d !in Nodes(n)
    modifies a, c, d
    ensures a.color == old(a.color) && b.color == old(b.color) && c.color == old(c.color)
    ensures Holds(Mk(s, d, Black, Mk(s, b, b.color, bl, Mk(s, c, c.color, cl, dl)), Mk(s, a, a.color, dr, n)), d)
  {
    assert allocated(Nodes(bl)) && allocated(Nodes(cl)) && allocated(Nodes(n));
    assert allocated(Nodes(dl)) && allocated(Nodes(dr));
    hide Nodes, Holds, Mk;
    TakeInner(s, b, c, d, bl, cl, dl);
    ghost var low := Mk(s, c, c.color, cl, dl);
    MkApart(s, c, c.color, cl, dl, a);
    MkApart(s, c, c.color, cl, dl, d);
    MkApart(s, b, b.color, bl, low, a);
    MkApart(s, b, b.color, bl, low, d);
    Crown(s, a, b, d, a.color, Black, Mk(s, b, b.color, bl, low), dr, n);
  }

  /** `c`, below `b`, takes over the tree on the near side of `d` in place of `d`. */
  method TakeInner(s: Side, b: Node, c: Node, d: Node, ghost bl: Tree, ghost cl: Tree, ghost dl: Tree)
    requires b != c && b != d && c != d && b.Kid(Other(s)) == c
    requires Holds(bl, b.Kid(s)) && Holds(cl, c.Kid(s)) && Holds(dl, d.Kid(s))
    requires c !in Nodes(bl) && c !in Nodes(cl) && c !in Nodes(dl)
    modifies c
    ensures c.color == old(c.color)
    ensures Holds(Mk(s, b, b.color, bl, Mk(s, c, c.color, cl, dl)), b)
  {
    assert allocated(Nodes(bl)) && allocated(Nodes(cl)) && allocated(Nodes(dl));
    hide Nodes, Holds, Mk;
    c.Set(s, c.Kid(s), d.Kid(s), c.color);
    Closed(s, c, c.color, cl, dl);
    Closed(s, b, b.color, bl, Mk(s, c, c.color, cl, dl));
  }

  method Recolour(t: Node, ghost tt: Tree, c: Color)
    requires tt.Branch? && Holds(tt, t) && Apart(tt)
    modifies t`color
    ensures Holds(Paint(tt, c), t) && Nodes(Paint(tt, c)) == Nodes(tt)
  {
    Opened(L, tt, t);
    t.color := c;
    Closed(L, t, c, tt.left, tt.right);
  }

  method FixInsertion(s: Side, tree: Node, ghost tt: Tree) returns (root: Node)
    requires tt.Branch? && Child(tt, s).Branch? && Holds(tt, tree) && Apart(tt)
    modifies Nodes(tt)
    ensures Holds(RbTree.FixInsertion(s, tt), root)
  {
    hide Ino, Nodes, Apart, Holds;
    var o := Other(s);
    root := tree;
    var t := tree;
    var tl := t.Kid(s);
    ghost var tlt, far := Child(tt, s), Child(tt, o);
    Opened(s, tt, t);
    Opened(s, tlt, tl);
    if t.Kid(o) != null && t.Kid(o).color == Red {
      if tl.color == Red {
        if (tl.Kid(s) != null && tl.Kid(s).color == Red) || (tl.Kid(o) != null && tl.Kid(o).color == Red) {
          Opened(s, far, t.Kid(o));
          Recolour(t.Kid(s), tlt, Black);
          Recolour(t.Kid(o), far, Black);
          t.color := Red;
          Closed(s, t, Red, Paint(tlt, Black), Paint(far, Black));
        }
      }
    } else if tl.color == Red {
      if tl.Kid(s) != null && tl.Kid(s).color == Red {
        RotateOnce(s, t, tl, Red, Black, Child(tlt, s), Child(tlt, o), far);
        root := tl;
      } else if tl.Kid(o) != null && tl.Kid(o).color == Red {
        ghost var c := Child(tlt, o);
        root := tl.Kid(o);
        Opened(s, c, root);
        RotateTwice(s, t, tl, root, Red, Black, Child(tlt, s), Child(c, s), Child(c, o), far);
      }
    }
  }

  /** Stores a pointer returned for the subtree on side `s`. */
  method Attach(s: Side, t: Node, child: Node?, ghost near: Tree, ghost far: Tree)
    requires Holds(near, child) && Holds(far, t.Kid(Other(s)))
    requires t !in Nodes(near) && t !in Nodes(far)
    modifies t`left, t`right
    ensures Holds(Mk(s, t, t.color, near, far), t)
  {
    assert allocated(Nodes(near)) && allocated(Nodes(far));
    hide Nodes, Holds;
    if s == L { t.left := child; } else { t.right := child; }
    Closed(s, t, t.color, near, far);
  }

  // ---------- insertion ----------

  lemma SortedApart(t: Tree)
    requires Sorted(Ino(t))
    ensures Apart(t)
  {
    var s := Ino(t);
    forall i, j | 0 <= i < j < |s| ensures s[i] != s[j] { LessIsTotal(s[i].elem, s[j].elem); }
  }

  /** The tree before the fix-up at its root: `x` has gone into side `s`. */
  ghost function AddBelow(s: Side, t: Tree, x: Node): Tree
    requires t.Branch?
  {
    if s == L then t.(left := AddRec(t.left, x)) else t.(right := AddRec(t.right, x))
  }

  lemma PutHas(s: seq<Node>, x: Node, i: nat, r: seq<Node>)
    requires PutAt(s, x, i, r)
    ensures forall n :: n in r <==> n in s || n == x
  {
    assert s == s[..i] + s[i..];
  }

  lemma AddBelowSorted(s: Side, t: Tree, x: Node)
    requires t.Branch? && Sorted(Ino(t)) && Absent(Ino(t), x.elem)
    requires s == if Less(x.elem, t.node.elem) then L else R
    ensures Absent(Ino(Child(t, s)), x.elem) && Sorted(Ino(Child(t, s)))
    ensures Apart(AddBelow(s, t, x)) && Nodes(AddBelow(s, t, x)) == Nodes(t) + {x}
    ensures t.node !in Nodes(AddRec(Child(t, s), x))
  {
    hide Less, Sorted, Absent, Before, After, PutAt, RbTree.FixInsertion, Nodes, Apart;
    SortedParts(t);
    AbsentParts(Ino(t.left), t.node, Ino(t.right), x.elem);
    var i := AddRecPuts(t, x);
    var t' := AddBelow(s, t, x);
    AddBelowIno(s, t, x);
    PutStaysSorted(Ino(t), x, i, Ino(t'));
    SortedApart(t');
    ApartParts(s, t');
    PutHas(Ino(t), x, i, Ino(t'));
    NodesPut(t, t', x);
  }

  lemma AddBelowIno(s: Side, t: Tree, x: Node)
    requires t.Branch? && s == if Less(x.elem, t.node.elem) then L else R
    ensures Ino(AddBelow(s, t, x)) == Ino(AddRec(t, x))
  {
    hide Less, RbTree.FixInsertion;
    FixInsertionKeeps(s, AddBelow(s, t, x));
  }

  lemma NodesPut(t: Tree, t': Tree, x: Node)
    requires forall n: Node :: n in Ino(t') <==> (n in Ino(t) || n == x)
    ensures Nodes(t') == Nodes(t) + {x}
  {
    hide Ino, Nodes;
    forall n ensures n in Nodes(t') <==> n in Nodes(t) || n == x { InNodes(t, n); InNodes(t', n); }
    OneMore(Nodes(t), Nodes(t'), x);
  }

  lemma InNodes(t: Tree, n: Node)
    ensures n in Nodes(t) <==> n in Ino(t)
  {
  }

  lemma OneMore(a: set<Node>, b: set<Node>, x: Node)
    requires forall n :: n in b <==> n in a || n == x
    ensures b == a + {x}
  {
  }

  method AddRecursive(tree: Node?, elem: Node, ghost tt: Tree) returns (root: Node)
    requires Holds(tt, tree) && Sorted(Ino(tt)) && Absent(Ino(tt), elem.elem)
    requires elem !in Nodes(tt) && elem.left == null && elem.right == null
    modifies Nodes(tt), elem
    decreases tt
    ensures Holds(AddRec(tt, elem), root)
  {
    if tree == null {
      elem.color := Red;
      return elem;
    }
    var t := tree;
    root := t;
    SortedApart(tt);
    Opened(L, tt, t);
    AddBelowSorted(if Less(elem.elem, t.elem) then L else R, tt, elem);
    var cmp := Compare(elem.elem.key, t.elem.key);
    assert elem !in Nodes(tt.left) && elem !in Nodes(tt.right) && t != elem;
    hide Ino, Nodes, Apart, Sorted, Absent, Holds, RbTree.FixInsertion;
    if cmp < 0 || (cmp == 0 && elem.elem.addr < t.elem.addr) {
      var child := AddRecursive(t.left, elem, tt.left);
      Attach(L, t, child, AddRec(tt.left, elem), tt.right);
      if t.color == Black { root := FixInsertion(L, t, AddBelow(L, tt, elem)); }
    } else {
      var child := AddRecursive(t.right, elem, tt.right);
      Attach(R, t, child, AddRec(tt.right, elem), tt.left);
      if t.color == Black { root := FixInsertion(R, t, AddBelow(R, tt, elem)); }
    }
  }

  // ---------- deletion ----------

  /** None of the assertions of the fix-up can fail when the other side has just lost a black level. */
  method FixDeletion(s: Side, tree: Node, ghost tt: Tree) returns (root: Node, decreased: bool)
    requires tt.Branch? && Holds(tt, tree) && Apart(tt) && Lopsided(s, tt)
    modifies Nodes(tt)
    ensures Holds(RbTree.FixDeletion(s, tt).tree, root)
    ensures decreased == RbTree.FixDeletion(s, tt).decreased
  {
    SiblingIsThere(s, tt);
    hide Ino, Nodes, Apart, Holds, Lopsided;
    var a := tree;
    Opened(s, tt, a);
    var b := a.Kid(s);
    assert b != null;
    if b.color == Red {
      root, decreased := FixRedSibling(s, a, b, tt);
    } else {
      root, decreased := FixBlackSibling(s, a, b, tt);
    }
  }

  method FixRedSibling(s: Side, a: Node, b: Node, ghost tt: Tree) returns (root: Node, decreased: bool)
    requires tt.Branch? && Holds(tt, a) && Apart(tt) && a.Kid(s) == b && IsRed(Child(tt, s))
    requires Child(Child(tt, s), Other(s)).Branch? && !IsRed(Child(Child(tt, s), Other(s)))
    modifies Nodes(tt)
    ensures Holds(RbTree.FixDeletion(s, tt).tree, root)
    ensures decreased == RbTree.FixDeletion(s, tt).decreased
  {
    hide Ino, Nodes, Apart, Holds;
    var o := Other(s);
    ghost var bt, n := Child(tt, s), Child(tt, o);
    ghost var bl, ct := Child(bt, s), Child(bt, o);
    ghost var cl', cr' := Child(ct, s), Child(ct, o);
    Opened(s, tt, a);
    Opened(s, bt, b);
    var c := b.Kid(o);
    assert c != null && c.color == Black;
    Opened(s, ct, c);
    var cl, cr := c.Kid(s), c.Kid(o);
    if cr'.Branch? { Opened(s, cr', cr); }
    if cl'.Branch? { Opened(s, cl', cl); }
    decreased := false;
    if (cl == null || cl.color == Black) && (cr == null || cr.color == Black) {
      root := b;
      Recolour(c, ct, Red);
      RotateOnce(s, a, b, a.color, Black, bl, Paint(ct, Red), n);
    } else if cr != null && cr.color == Red {
      root := cr;
      RotateDeep(s, a, b, c, cr, bl, cl', Child(cr', s), Child(cr', o), n);
    } else {
      assert cl != null && cl.color == Red;
      root := c;
      Recolour(cl, cl', Black);
      RotateTwice(s, a, b, c, a.color, c.color, bl, Paint(cl', Black), cr', n);
    }
  }

  method FixBlackSibling(s: Side, a: Node, b: Node, ghost tt: Tree) returns (root: Node, decreased: bool)
    requires tt.Branch? && Holds(tt, a) && Apart(tt) && a.Kid(s) == b && Child(tt, s).Branch? && !IsRed(Child(tt, s))
    modifies Nodes(tt)
    ensures Holds(RbTree.FixDeletion(s, tt).tree, root)
    ensures decreased == RbTree.FixDeletion(s, tt).decreased
  {
    hide Ino, Nodes, Apart, Holds;
    var o := Other(s);
    ghost var bt, n := Child(tt, s), Child(tt, o);
    ghost var bl', br' := Child(bt, s), Child(bt, o);
    Opened(s, tt, a);
    Opened(s, bt, b);
    var bl, br := b.Kid(s), b.Kid(o);
    if bl'.Branch? { Opened(s, bl', bl); }
    if br'.Branch? { Opened(s, br', br); }
    decreased := false;
    if (bl == null || bl.color == Black) && (br == null || br.color == Black) {
      root := a;
      decreased := a.color == Black;
      Recolour(b, bt, Red);
      a.color := Black;
      Closed(s, a, Black, Paint(bt, Red), n);
    } else if bl != null && bl.color == Red && (br == null || br.color == Black) {
      root := b;
      Recolour(bl, bl', Black);
      RotateOnce(s, a, b, Black, a.color, Paint(bl', Black), br', n);
    } else {
      assert br != null && br.color == Red;
      root := br;
      RotateTwice(s, a, b, br, Black, a.color, bl', Child(br', s), Child(br', o), n);
    }
  }

  lemma DistinctPrefix(s: seq<Node>, x: Node, r: seq<Node>)
    requires Distinct(s) && s == r + [x]
    ensures Distinct(r) && x !in r && (forall n :: n in s <==> n in r || n == x)
  {
    assert s[|r|] == x;
    assert forall i :: 0 <= i < |r| ==> r[i] == s[i];
  }

  /** The tree before the fix-up at its root, when the rightmost node has gone from the right side. */
  lemma RightmostBelow(t: Tree)
    requires t.Branch? && t.right.Branch? && Apart(t) && Balanced(t)
    ensures var p := DeleteRightmost(t.right); var t' := t.(right := p.tree);
            && Apart(t') && Nodes(t') <= Nodes(t) && t.node !in Nodes(p.tree)
            && (p.decreased ==> Lopsided(L, t'))
  {
    hide Distinct, DeleteRightmost;
    var p := DeleteRightmost(t.right);
    var t' := t.(right := p.tree);
    RightmostLopsided(t);
    RightmostIno(t);
    DistinctPrefix(Ino(t), p.leaf, Ino(t'));
    ApartParts(L, t');
  }

  lemma RightmostIno(t: Tree)
    requires t.Branch? && t.right.Branch?
    ensures var p := DeleteRightmost(t.right); Ino(t) == Ino(t.(right := p.tree)) + [p.leaf]
  {
    hide DeleteRightmost;
    DeleteRightmostTakesLast(t.right);
  }

  lemma RightmostLopsided(t: Tree)
    requires t.Branch? && t.right.Branch? && Balanced(t)
    ensures var p := DeleteRightmost(t.right); p.decreased ==> Lopsided(L, t.(right := p.tree))
  {
    hide DeleteRightmost;
    DeleteRightmostBalances(t.right);
  }

  method DeleteRightmostLeaf(tree: Node, ghost tt: Tree) returns (root: Node?, leaf: Node, decreased: bool)
    requires tt.Branch? && Holds(tt, tree) && Apart(tt) && Balanced(tt)
    modifies Nodes(tt)
    decreases tt
    ensures var p := DeleteRightmost(tt); Holds(p.tree, root) && leaf == p.leaf && decreased == p.decreased
  {
    var t := tree;
    Opened(L, tt, t);
    if tt.right.Branch? { RightmostBelow(tt); }
    hide Ino, Nodes, Apart, Holds, RbTree.FixDeletion, Lopsided;
    if t.right == null {
      leaf := t;
      root := t.left;
      if t.left != null {
        decreased := t.color == Black && t.left.color == Black;
        Opened(L, tt.left, t.left);
        Recolour(t.left, tt.left, Black);
      } else {
        decreased := t.color == Black;
      }
    } else {
      var child, deep;
      child, leaf, deep := DeleteRightmostLeaf(t.right, tt.right);
      ghost var p := DeleteRightmost(tt.right);
      Attach(R, t, child, p.tree, tt.left);
      root, decreased := t, false;
      if deep { root, decreased := FixDeletion(L, t, tt.(right := p.tree)); }
    }
  }

  /** The tree before the fix-up at its root: `x` has gone from side `s`. */
  ghost function DeleteBelow(s: Side, t: Tree, x: Node): Tree
    requires t.Branch?
  {
    if s == L then t.(left := DeleteRec(t.left, x).tree) else t.(right := DeleteRec(t.right, x).tree)
  }

  lemma DeleteBelowSorted(s: Side, t: Tree, x: Node)
    requires Sorted(Ino(t)) && Balanced(t) && x in Ino(t) && x != t.node
    requires s == if Less(x.elem, t.node.elem) then L else R
    ensures x in Ino(Child(t, s)) && Sorted(Ino(Child(t, s))) && Balanced(Child(t, s))
    ensures Apart(DeleteBelow(s, t, x)) && Nodes(DeleteBelow(s, t, x)) <= Nodes(t)
    ensures t.node !in Nodes(DeleteRec(Child(t, s), x).tree)
    ensures DeleteRec(Child(t, s), x).decreased ==> Lopsided(Other(s), DeleteBelow(s, t, x))
  {
    hide Less, Sorted, Before, After, TakenAt, RbTree.FixDeletion, Nodes, Apart, Balanced;
    Placed(t, x);
    SortedParts(t);
    BalancedParts(t);
    var i := DeleteRecTakes(t, x);
    var t' := DeleteBelow(s, t, x);
    DeleteBelowIno(s, t, x);
    TakeStaysSorted(Ino(t), x, i, Ino(t'));
    SortedApart(t');
    ApartParts(s, t');
    TakenHas(t, t', x, i);
    DeleteBelowLopsided(s, t, x);
  }

  lemma BalancedParts(t: Tree)
    requires Balanced(t) && t.Branch?
    ensures Balanced(t.left) && Balanced(t.right)
  {
  }

  lemma DeleteBelowIno(s: Side, t: Tree, x: Node)
    requires t.Branch? && x != t.node && s == if Less(x.elem, t.node.elem) then L else R
    requires s == R ==> Less(t.node.elem, x.elem)
    ensures Ino(DeleteBelow(s, t, x)) == Ino(DeleteRec(t, x).tree)
  {
    hide Less, RbTree.FixDeletion;
    FixDeletionKeeps(Other(s), DeleteBelow(s, t, x));
  }

  lemma DeleteBelowLopsided(s: Side, t: Tree, x: Node)
    requires t.Branch? && Balanced(t) && Sorted(Ino(Child(t, s))) && x in Ino(Child(t, s)) && x != t.node
    ensures DeleteRec(Child(t, s), x).decreased ==> Lopsided(Other(s), DeleteBelow(s, t, x))
  {
    hide DeleteRec, Ino, Sorted;
    DeleteRecBalances(Child(t, s), x);
  }

  lemma TakenHas(t: Tree, t': Tree, x: Node, i: nat)
    requires TakenAt(Ino(t), x, i, Ino(t'))
    ensures Nodes(t') <= Nodes(t)
  {
  }

  /** The tree before the fix-up at its root, when the rightmost node of the left side has replaced the root. */
  lemma RootBelow(t: Tree)
    requires t.Branch? && t.left.Branch? && Apart(t) && Balanced(t)
    ensures var p := DeleteRightmost(t.left); var t' := Branch(p.leaf, t.color, p.tree, t.right);
            && Apart(t') && Nodes(t') <= Nodes(t) && p.leaf in Nodes(t.left) && p.leaf !in Nodes(p.tree)
            && p.leaf !in Nodes(t.right) && t.node !in Nodes(p.tree) && t.node != p.leaf
            && (p.decreased ==> Lopsided(R, t'))
  {
    DeleteRightmostBalances(t.left);
    DeleteRightmostTakesLast(t.left);
    var p := DeleteRightmost(t.left);
    var t' := Branch(p.leaf, t.color, p.tree, t.right);
    ApartParts(L, t);
    DistinctPrefix(Ino(t.left), p.leaf, Ino(p.tree));
    DistinctDrop(Ino(t.left), t.node, Ino(t.right));
  }

  lemma DistinctDrop(a: seq<Node>, n: Node, b: seq<Node>)
    requires Distinct(a + [n] + b)
    ensures Distinct(a + b)
  {
    var whole := a + [n] + b;
    assert forall i :: 0 <= i < |a + b| ==> (a + b)[i] == whole[if i < |a| then i else i + 1];
  }

  /** An element of the tree is found, and the assertion that the found node is the given one holds. */
  method DeleteRecursive(tree: Node?, elem: Node, ghost tt: Tree) returns (root: Node?, decreased: bool)
    requires Holds(tt, tree) && Sorted(Ino(tt)) && Balanced(tt) && elem in Ino(tt)
    modifies Nodes(tt)
    decreases tt
    ensures Holds(DeleteRec(tt, elem).tree, root) && decreased == DeleteRec(tt, elem).decreased
  {
    var t := tree;
    SortedApart(tt);
    Opened(L, tt, t);
    Placed(tt, elem);
    CompareIsTotal(elem.elem.key, t.elem.key);
    if elem != t { DeleteBelowSorted(if Less(elem.elem, t.elem) then L else R, tt, elem); }
    hide Ino, Nodes, Apart, Holds, Sorted, RbTree.FixDeletion, Lopsided;
    var cmp := Compare(elem.elem.key, t.elem.key);
    if cmp < 0 || (cmp == 0 && elem.elem.addr < t.elem.addr) {
      var child, deep := DeleteRecursive(t.left, elem, tt.left);
      Attach(L, t, child, DeleteRec(tt.left, elem).tree, tt.right);
      root, decreased := t, false;
      if deep { root, decreased := FixDeletion(R, t, DeleteBelow(L, tt, elem)); }
    } else if cmp > 0 || (cmp == 0 && elem.elem.addr > t.elem.addr) {
      var child, deep := DeleteRecursive(t.right, elem, tt.right);
      Attach(R, t, child, DeleteRec(tt.right, elem).tree, tt.left);
      root, decreased := t, false;
      if deep { root, decreased := FixDeletion(L, t, DeleteBelow(R, tt, elem)); }
    } else {
      assert elem == t;
      root, decreased := DeleteRoot(t, tt);
    }
  }

  /** `theLeaf` takes the place of `t`, whose left subtree is now under `child`. */
  method TakeOver(t: Node, theLeaf: Node, child: Node?, ghost left: Tree, ghost right: Tree)
    requires Holds(left, child) && Holds(right, t.right)
    requires t != theLeaf && t !in Nodes(left) && t !in Nodes(right) && theLeaf !in Nodes(left)
      && theLeaf !in Nodes(right)
    modifies t, theLeaf
    ensures Holds(Branch(theLeaf, old(t.color), left, right), theLeaf)
  {
    assert allocated(Nodes(left)) && allocated(Nodes(right));
    hide Nodes, Holds;
    t.left := child;
    theLeaf.left := t.left;
    theLeaf.right := t.right;
    theLeaf.color := t.color;
    Closed(L, theLeaf, t.color, left, right);
  }

  method DeleteRoot(t: Node, ghost tt: Tree) returns (root: Node?, decreased: bool)
    requires tt.Branch? && Holds(tt, t) && Apart(tt) && Balanced(tt) && !Less(t.elem, t.elem)
    modifies Nodes(tt)
    ensures Holds(DeleteRec(tt, t).tree, root) && decreased == DeleteRec(tt, t).decreased
  {
    Opened(L, tt, t);
    if tt.left.Branch? { RootBelow(tt); }
    hide Ino, Nodes, Apart, Holds, RbTree.FixDeletion, Lopsided;
    if t.left == null {
      root := t.right;
      decreased := t.color == Black;
      if t.right != null {
        decreased := t.color == Black && t.right.color == Black;
        Opened(L, tt.right, t.right);
        Recolour(t.right, tt.right, Black);
      }
    } else {
      var child, theLeaf, deep := DeleteRightmostLeaf(t.left, tt.left);
      ghost var p := DeleteRightmost(tt.left);
      TakeOver(t, theLeaf, child, p.tree, tt.right);
      root, decreased := theLeaf, false;
      if deep { root, decreased := FixDeletion(R, theLeaf, Branch(theLeaf, tt.color, p.tree, tt.right)); }
    }
  }
}
