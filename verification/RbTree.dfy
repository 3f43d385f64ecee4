/** The red-black tree of the parameter lists, as a value. */
module RbTree {
  // The tree is taken as it hangs together through the `left` and `right` pointers of
  // its nodes, with the colour bits.  Insertion and deletion have no parent pointers;
  // a fix-up repairs the subtree below the current node on the way back up.

  datatype Color = Red | Black

  /** What the comparator and the pointer order see of a node. */
  datatype Elem = Elem(key: string, addr: nat)

  // The fix-ups are written once for both sides.
  datatype Side = L | R

  function Other(s: Side): Side { if s == L then R else L }

  class Node {
    const elem: Elem
    const value: string
    var left: Node?
    var right: Node?
    var color: Color
    var stripped: bool      // the memory of key and value has been released

    constructor (elem: Elem, value: string)
      ensures this.elem == elem && this.value == value && left == null && right == null && !stripped
    {
      this.elem, this.value, left, right, color, stripped := elem, value, null, null, Black, false;
    }

    function Kid(s: Side): Node?
      reads `left, `right
    {
      if s == L then left else right
    }

    method Set(s: Side, near: Node?, far: Node?, c: Color)
      modifies `left, `right, `color
      ensures Kid(s) == near && Kid(Other(s)) == far && color == c
    {
      if s == L { left, right := near, far; } else { left, right := far, near; }
      color := c;
    }
  }

  datatype Tree = Leaf | Branch(node: Node, color: Color, left: Tree, right: Tree)

  /** The sign of `strcmp`. */
  function Compare(a: string, b: string): int {
    if a == [] && b == [] then 0
    else if a == [] then -1
    else if b == [] then 1
    else if a[0] == b[0] then Compare(a[1..], b[1..])
    else if a[0] < b[0] then -1 else 1
  }

  /** The first difference decides, and a proper beginning comes first. */
  lemma {:induction false} CompareIs(common: string, a: string, b: string)
    requires a == [] || b == [] || a[0] != b[0]
    ensures Compare(common + a, common + b) ==
      if a == [] && b == [] then 0 else if a == [] || (b != [] && a[0] < b[0]) then -1 else 1
  {
    if common == [] {
      assert common + a == a && common + b == b;
    } else {
      assert (common + a)[1..] == common[1..] + a && (common + b)[1..] == common[1..] + b;
      CompareIs(common[1..], a, b);
    }
  }

  /** Comparator first, pointers second. */
  predicate Less(a: Elem, b: Elem) {
    var c := Compare(a.key, b.key);
    c < 0 || (c == 0 && a.addr < b.addr)
  }

  lemma {:induction false} CompareIsTotal(a: string, b: string)
    ensures Compare(a, b) == 0 <==> a == b
    ensures Compare(a, b) == -Compare(b, a)
  {
    if a != [] && b != [] {
      CompareIsTotal(a[1..], b[1..]);
      assert a == [a[0]] + a[1..] && b == [b[0]] + b[1..];
    }
  }

  lemma {:induction false} CompareIsTransitive(a: string, b: string, c: string)
    requires Compare(a, b) < 0 && Compare(b, c) < 0
    ensures Compare(a, c) < 0
  {
    if a != [] && b != [] && c != [] && a[0] == b[0] == c[0] { CompareIsTransitive(a[1..], b[1..], c[1..]); }
  }

  lemma LessIsTotal(a: Elem, b: Elem)
    ensures Less(a, b) || Less(b, a) || a == b
    ensures !(Less(a, b) && Less(b, a)) && !Less(a, a)
  {
    CompareIsTotal(a.key, b.key);
    CompareIsTotal(a.key, a.key);
  }

  lemma LessIsTransitive(a: Elem, b: Elem, c: Elem)
    requires Less(a, b) && Less(b, c)
    ensures Less(a, c)
  {
    CompareIsTotal(a.key, b.key);
    CompareIsTotal(b.key, c.key);
    if Compare(a.key, b.key) < 0 && Compare(b.key, c.key) < 0 { CompareIsTransitive(a.key, b.key, c.key); }
  }

  function Child(t: Tree, s: Side): Tree
    requires t.Branch?
  {
    if s == L then t.left else t.right
  }

  /** A node whose child on side `s` is `near` and whose other child is `far`. */
  function Mk(s: Side, node: Node, color: Color, near: Tree, far: Tree): Tree {
    if s == L then Branch(node, color, near, far) else Branch(node, color, far, near)
  }

  predicate IsRed(t: Tree) { t.Branch? && t.color == Red }

  function Paint(t: Tree, c: Color): Tree
    requires t.Branch?
  {
    t.(color := c)
  }

  function Root(t: Tree): Node? { if t.Leaf? then null else t.node }

  function Ino(t: Tree): seq<Node> {
    match t
    case Leaf => []
    case Branch(n, _, l, r) => Ino(l) + [n] + Ino(r)
  }

  // ---------- insertion ----------

  /** Repairs a black node whose subtree on side `s` has just grown. */
  function FixInsertion(s: Side, t: Tree): Tree
    requires t.Branch? && Child(t, s).Branch?
  {
    var tl, far := Child(t, s), Child(t, Other(s));
    if IsRed(far) then
      if IsRed(tl) && (IsRed(Child(tl, s)) || IsRed(Child(tl, Other(s))))
      then Mk(s, t.node, Red, Paint(tl, Black), Paint(far, Black)) else t
    else if !IsRed(tl) then t
    else if IsRed(Child(tl, s)) then
      Mk(s, tl.node, Black, Child(tl, s), Mk(s, t.node, Red, Child(tl, Other(s)), far))
    else if IsRed(Child(tl, Other(s))) then
      var c := Child(tl, Other(s));
      Mk(s, c.node, Black,
         Mk(s, tl.node, tl.color, Child(tl, s), Child(c, s)),
         Mk(s, t.node, Red, Child(c, Other(s)), far))
    else t
  }

  function AddRec(t: Tree, x: Node): (r: Tree)
    ensures r.Branch?
  {
    if t.Leaf? then Branch(x, Red, Leaf, Leaf)
    else if Less(x.elem, t.node.elem) then
      var t' := t.(left := AddRec(t.left, x));
      if t.color == Black then FixInsertion(L, t') else t'
    else
      var t' := t.(right := AddRec(t.right, x));
      if t.color == Black then FixInsertion(R, t') else t'
  }

  function Add(t: Tree, x: Node): Tree { Paint(AddRec(t, x), Black) }

  // ---------- deletion ----------

  /** A subtree after a deletion, and whether its black height has dropped. */
  datatype Cut = Cut(tree: Tree, decreased: bool)

  /** Repairs a node whose subtree opposite to side `s` has lost a black level. */
  function FixDeletion(s: Side, t: Tree): Cut
    requires t.Branch?
  {
    var b, n := Child(t, s), Child(t, Other(s));
    if b.Leaf? then Cut(Paint(t, Black), false)
    else
      var bl, br := Child(b, s), Child(b, Other(s));
      if b.color == Red then
        if br.Leaf? then Cut(Mk(s, b.node, Black, bl, Mk(s, t.node, t.color, br, n)), false)
        else
          var c := br;
          var cl, cr := Child(c, s), Child(c, Other(s));
          if !IsRed(cl) && !IsRed(cr) then
            Cut(Mk(s, b.node, Black, bl, Mk(s, t.node, t.color, Paint(c, Red), n)), false)
          else if IsRed(cr) then
            var dl, dr := Child(cr, s), Child(cr, Other(s));
            Cut(Mk(s, cr.node, Black,
                   Mk(s, b.node, b.color, bl, Mk(s, c.node, c.color, cl, dl)),
                   Mk(s, t.node, t.color, dr, n)), false)
          else
            Cut(Mk(s, c.node, c.color,
                   Mk(s, b.node, b.color, bl, Paint(cl, Black)),
                   Mk(s, t.node, t.color, cr, n)), false)
      else if !IsRed(bl) && !IsRed(br) then
        Cut(Mk(s, t.node, Black, Paint(b, Red), n), t.color == Black)
      else if IsRed(bl) && !IsRed(br) then
        Cut(Mk(s, b.node, t.color, Paint(bl, Black), Mk(s, t.node, Black, br, n)), false)
      else
        var cl, cr := Child(br, s), Child(br, Other(s));
        Cut(Mk(s, br.node, t.color, Mk(s, b.node, b.color, bl, cl), Mk(s, t.node, Black, cr, n)), false)
  }

  datatype Pluck = Pluck(tree: Tree, leaf: Node, decreased: bool)

  /** Takes the rightmost node out. */
  function DeleteRightmost(t: Tree): Pluck
    requires t.Branch?
  {
    if t.right.Leaf? then
      if t.left.Branch? then Pluck(Paint(t.left, Black), t.node, t.color == Black && t.left.color == Black)
      else Pluck(Leaf, t.node, t.color == Black)
    else
      var p := DeleteRightmost(t.right);
      var t' := t.(right := p.tree);
      if p.decreased then
        var fixed := FixDeletion(L, t');
        Pluck(fixed.tree, p.leaf, fixed.decreased)
      else Pluck(t', p.leaf, false)
  }

  function DeleteRec(t: Tree, x: Node): Cut {
    if t.Leaf? then Cut(t, false)
    else if Less(x.elem, t.node.elem) then
      var d := DeleteRec(t.left, x);
      var t' := t.(left := d.tree);
      if d.decreased then FixDeletion(R, t') else Cut(t', false)
    else if Less(t.node.elem, x.elem) then
      var d := DeleteRec(t.right, x);
      var t' := t.(right := d.tree);
      if d.decreased then FixDeletion(L, t') else Cut(t', false)
    else if t.left.Leaf? then
      if t.right.Leaf? then Cut(Leaf, t.color == Black)
      else Cut(Paint(t.right, Black), t.color == Black && t.right.color == Black)
    else
      var p := DeleteRightmost(t.left);
      var t' := Branch(p.leaf, t.color, p.tree, t.right);
      if p.decreased then FixDeletion(R, t') else Cut(t', false)
  }

  function Delete(t: Tree, x: Node): Tree {
    var d := DeleteRec(t, x).tree;
    if d.Leaf? then d else Paint(d, Black)
  }

  // ---------- balance ----------

  function Blacks(t: Tree): nat {
    match t
    case Leaf => 0
    case Branch(_, c, l, _) => Blacks(l) + if c == Black then 1 else 0
  }

  /** All paths down carry the same number of black nodes. */
  predicate Even(t: Tree) {
    t.Branch? ==> Even(t.left) && Even(t.right) && Blacks(t.left) == Blacks(t.right)
  }

  /** No red node has a red child. */
  predicate NoRedRed(t: Tree) {
    t.Branch? ==> NoRedRed(t.left) && NoRedRed(t.right) && (t.color == Red ==> !IsRed(t.left) && !IsRed(t.right))
  }

  predicate Balanced(t: Tree) { Even(t) && NoRedRed(t) }

  /** Balanced, except that a red root may have one red child. */
  predicate Nearly(t: Tree) {
    t.Branch? ==>
      && Balanced(t.left) && Balanced(t.right) && Blacks(t.left) == Blacks(t.right)
      && !(t.color == Red && IsRed(t.left) && IsRed(t.right))
  }

  lemma FixInsertionBalances(s: Side, t: Tree)
    requires t.Branch? && t.color == Black && Child(t, s).Branch?
    requires Nearly(Child(t, s)) && Balanced(Child(t, Other(s))) && Blacks(t.left) == Blacks(t.right)
    ensures Balanced(FixInsertion(s, t)) && Blacks(FixInsertion(s, t)) == Blacks(t)
  {
  }

  lemma {:induction false} AddRecBalances(t: Tree, x: Node)
    requires Balanced(t)
    ensures Nearly(AddRec(t, x)) && Blacks(AddRec(t, x)) == Blacks(t)
    ensures !IsRed(t) ==> Balanced(AddRec(t, x))
  {
    if t.Branch? {
      var s := if Less(x.elem, t.node.elem) then L else R;
      AddRecBalances(Child(t, s), x);
      if t.color == Black {
        FixInsertionBalances(s, if s == L then t.(left := AddRec(t.left, x)) else t.(right := AddRec(t.right, x)));
      }
    }
  }

  /** A black root stays balanced, in particular the root of the whole tree. */
  lemma AddBalances(t: Tree, x: Node)
    requires Balanced(t) && !IsRed(t)
    ensures Balanced(Add(t, x)) && !IsRed(Add(t, x))
  {
    AddRecBalances(t, x);
  }

  /** Side `s` of a node is one black level higher than its other side, which has just lost it. */
  ghost predicate Lopsided(s: Side, t: Tree) {
    && t.Branch? && Balanced(t.left) && Balanced(t.right)
    && Blacks(Child(t, s)) == Blacks(Child(t, Other(s))) + 1
    && !IsRed(Child(t, Other(s)))
    && (t.color == Red ==> !IsRed(Child(t, s)))
  }

  /** The black height that a lopsided node had before its lower side lost a level. */
  function FullHeight(s: Side, t: Tree): nat
    requires t.Branch?
  {
    Blacks(Child(t, s)) + if t.color == Black then 1 else 0
  }

  /** What a deletion leaves of a subtree that had height `was`, and was black if `black`. */
  ghost predicate Trimmed(d: Cut, was: nat, black: bool) {
    && Balanced(d.tree)
    && Blacks(d.tree) + (if d.decreased then 1 else 0) == was
    && (d.decreased || black ==> !IsRed(d.tree))
  }

  /** The branches of the fix-up that assert are not reached: the sibling is there, and a red one has an inner child. */
  lemma SiblingIsThere(s: Side, t: Tree)
    requires Lopsided(s, t)
    ensures Child(t, s).Branch?
    ensures var b := Child(t, s);
            b.color == Red ==> t.color == Black && Child(b, Other(s)).Branch? && Child(b, Other(s)).color == Black
    ensures var b := Child(t, s);
            b.color == Black && !IsRed(Child(b, s)) && IsRed(Child(b, Other(s))) ==> Child(b, Other(s)).Branch?
  {
  }

  lemma FixDeletionBalances(s: Side, t: Tree)
    requires Lopsided(s, t)
    ensures Trimmed(FixDeletion(s, t), FullHeight(s, t), t.color == Black)
  {
    SiblingIsThere(s, t);
    var b := Child(t, s);
    if b.color == Red { RedSibling(s, t); } else { BlackSibling(s, t); }
  }

  lemma RedSibling(s: Side, t: Tree)
    requires Lopsided(s, t) && IsRed(Child(t, s)) && Child(Child(t, s), Other(s)).Branch?
    ensures Trimmed(FixDeletion(s, t), FullHeight(s, t), t.color == Black)
  {
    var b, n := Child(t, s), Child(t, Other(s));
    var bl, c := Child(b, s), Child(b, Other(s));
    var cl, cr := Child(c, s), Child(c, Other(s));
    Below(s, b);
    Below(s, c);
    if IsRed(cr) {
      var dl, dr := Child(cr, s), Child(cr, Other(s));
      Below(s, cr);
      Joins(s, c.node, c.color, cl, dl);
      Joins(s, t.node, t.color, dr, n);
    } else if IsRed(cl) {
      Below(s, cl);
      Joins(s, t.node, t.color, cr, n);
    } else {
      Joins(s, c.node, Red, cl, cr);
      Joins(s, t.node, t.color, Paint(c, Red), n);
    }
  }

  lemma BlackSibling(s: Side, t: Tree)
    requires Lopsided(s, t) && Child(t, s).Branch? && !IsRed(Child(t, s))
    ensures Trimmed(FixDeletion(s, t), FullHeight(s, t), t.color == Black)
  {
    var b, n := Child(t, s), Child(t, Other(s));
    var bl, br := Child(b, s), Child(b, Other(s));
    Below(s, b);
    if IsRed(bl) && !IsRed(br) {
      Below(s, bl);
      Joins(s, t.node, Black, br, n);
    } else if IsRed(br) {
      var cl, cr := Child(br, s), Child(br, Other(s));
      Below(s, br);
      Joins(s, b.node, b.color, bl, cl);
      Joins(s, t.node, Black, cr, n);
    } else {
      Joins(s, b.node, Red, bl, br);
    }
  }

  /** What balance says of the children. */
  lemma Below(s: Side, t: Tree)
    requires t.Branch? && Balanced(t)
    ensures var near, far := Child(t, s), Child(t, Other(s));
            && Balanced(near) && Balanced(far) && Blacks(near) == Blacks(far)
            && (t.color == Red ==> !IsRed(near) && !IsRed(far))
            && Blacks(t) == Blacks(near) + if t.color == Black then 1 else 0
  {
  }

  lemma Joins(s: Side, node: Node, color: Color, near: Tree, far: Tree)
    requires Balanced(near) && Balanced(far) && Blacks(near) == Blacks(far)
    requires color == Red ==> !IsRed(near) && !IsRed(far)
    ensures Balanced(Mk(s, node, color, near, far))
    ensures Blacks(Mk(s, node, color, near, far)) == Blacks(near) + if color == Black then 1 else 0
  {
  }

  lemma {:induction false} DeleteRightmostBalances(t: Tree)
    requires t.Branch? && Balanced(t)
    ensures var p := DeleteRightmost(t); Trimmed(Cut(p.tree, p.decreased), Blacks(t), t.color == Black)
  {
    if t.right.Branch? {
      DeleteRightmostBalances(t.right);
      var p := DeleteRightmost(t.right);
      if p.decreased { FixDeletionBalances(L, t.(right := p.tree)); }
    } else if t.left.Branch? {
      Below(L, t.left);
    }
  }

  /** Deletion keeps the balance, and its flag is true exactly when the black height dropped by one. */
  lemma {:induction false} DeleteRecBalances(t: Tree, x: Node)
    requires Balanced(t)
    ensures Trimmed(DeleteRec(t, x), Blacks(t), !IsRed(t))
  {
    if t.Branch? {
      if Less(x.elem, t.node.elem) {
        DeleteRecBalances(t.left, x);
        var d := DeleteRec(t.left, x);
        if d.decreased { FixDeletionBalances(R, t.(left := d.tree)); }
      } else if Less(t.node.elem, x.elem) {
        DeleteRecBalances(t.right, x);
        var d := DeleteRec(t.right, x);
        if d.decreased { FixDeletionBalances(L, t.(right := d.tree)); }
      } else if t.left.Branch? {
        DeleteRightmostBalances(t.left);
        var p := DeleteRightmost(t.left);
        if p.decreased { FixDeletionBalances(R, Branch(p.leaf, t.color, p.tree, t.right)); }
      } else if t.right.Branch? {
        Below(L, t.right);
      }
    }
  }

  lemma DeleteBalances(t: Tree, x: Node)
    requires Balanced(t) && !IsRed(t)
    ensures Balanced(Delete(t, x)) && !IsRed(Delete(t, x))
  {
    DeleteRecBalances(t, x);
  }

  // ---------- elements ----------

  /** The inorder of a node with the sides exchanged when `s` is `R`. */
  ghost function Spell(s: Side, near: seq<Node>, n: Node, far: seq<Node>): seq<Node> {
    if s == L then near + [n] + far else far + [n] + near
  }

  lemma InoMk(s: Side)
    ensures forall n, c, near, far :: Ino(Mk(s, n, c, near, far)) == Spell(s, Ino(near), n, Ino(far))
  {
  }

  /** A rotation only moves the brackets. */
  lemma Rotation(s: Side, x: seq<Node>, b: Node, y: seq<Node>, a: Node, z: seq<Node>)
    ensures Spell(s, x, b, Spell(s, y, a, z)) == Spell(s, Spell(s, x, b, y), a, z)
  {
    if s == L {
      assert x + [b] + (y + [a] + z) == (x + [b] + y) + [a] + z;
    } else {
      assert (z + [a] + y) + [b] + x == z + [a] + (y + [b] + x);
    }
  }

  lemma DoubleRotation(s: Side, bl: seq<Node>, b: Node, cl: seq<Node>, c: Node, cr: seq<Node>, a: Node, n: seq<Node>)
    ensures Spell(s, Spell(s, bl, b, cl), c, Spell(s, cr, a, n)) == Spell(s, Spell(s, bl, b, Spell(s, cl, c, cr)), a, n)
  {
    Rotation(s, Spell(s, bl, b, cl), c, cr, a, n);
    Rotation(s, bl, b, cl, c, cr);
  }

  lemma PaintKeeps(t: Tree, c: Color)
    requires t.Branch?
    ensures Ino(Paint(t, c)) == Ino(t)
  {
  }

  lemma Rebuilt(s: Side, t: Tree)
    requires t.Branch?
    ensures t == Mk(s, t.node, t.color, Child(t, s), Child(t, Other(s)))
  {
  }

  lemma FixInsertionKeeps(s: Side, t: Tree)
    requires t.Branch? && Child(t, s).Branch?
    ensures Ino(FixInsertion(s, t)) == Ino(t)
  {
    var tl, far := Child(t, s), Child(t, Other(s));
    var tll, c := Child(tl, s), Child(tl, Other(s));
    InoMk(s);
    Rebuilt(s, t);
    Rebuilt(s, tl);
    if IsRed(far) {
      PaintKeeps(tl, Black);
      PaintKeeps(far, Black);
    } else if IsRed(tll) {
      Rotation(s, Ino(tll), tl.node, Ino(c), t.node, Ino(far));
    } else if IsRed(c) {
      Rebuilt(s, c);
      DoubleRotation(s, Ino(tll), tl.node, Ino(Child(c, s)), c.node, Ino(Child(c, Other(s))), t.node, Ino(far));
    }
  }

  lemma FixDeletionKeeps(s: Side, t: Tree)
    requires t.Branch?
    ensures Ino(FixDeletion(s, t).tree) == Ino(t)
  {
    var b, n := Child(t, s), Child(t, Other(s));
    InoMk(s);
    Rebuilt(s, t);
    if b.Branch? {
      Rebuilt(s, b);
      if b.color == Red { RedSiblingKeeps(s, t); } else { BlackSiblingKeeps(s, t); }
    } else {
      PaintKeeps(t, Black);
    }
  }

  lemma RedSiblingKeeps(s: Side, t: Tree)
    requires t.Branch? && IsRed(Child(t, s))
    ensures Ino(FixDeletion(s, t).tree) == Ino(t)
  {
    var b, n := Child(t, s), Child(t, Other(s));
    var bl, c := Child(b, s), Child(b, Other(s));
    InoMk(s);
    Rebuilt(s, t);
    Rebuilt(s, b);
    Rotation(s, Ino(bl), b.node, Ino(c), t.node, Ino(n));
    if c.Branch? {
      var cl, cr := Child(c, s), Child(c, Other(s));
      Rebuilt(s, c);
      if !IsRed(cl) && !IsRed(cr) {
        PaintKeeps(c, Red);
      } else if IsRed(cr) {
        Rebuilt(s, cr);
        var dl, dr := Child(cr, s), Child(cr, Other(s));
        DoubleRotation(s, Ino(bl), b.node, Spell(s, Ino(cl), c.node, Ino(dl)), cr.node, Ino(dr), t.node, Ino(n));
        Rotation(s, Ino(cl), c.node, Ino(dl), cr.node, Ino(dr));
      } else {
        PaintKeeps(cl, Black);
        DoubleRotation(s, Ino(bl), b.node, Ino(cl), c.node, Ino(cr), t.node, Ino(n));
      }
    }
  }

  lemma BlackSiblingKeeps(s: Side, t: Tree)
    requires t.Branch? && Child(t, s).Branch? && !IsRed(Child(t, s))
    ensures Ino(FixDeletion(s, t).tree) == Ino(t)
  {
    var b, n := Child(t, s), Child(t, Other(s));
    var bl, c := Child(b, s), Child(b, Other(s));
    InoMk(s);
    Rebuilt(s, t);
    Rebuilt(s, b);
    if !IsRed(bl) && !IsRed(c) {
      PaintKeeps(b, Red);
    } else if IsRed(bl) && !IsRed(c) {
      PaintKeeps(bl, Black);
      Rotation(s, Ino(bl), b.node, Ino(c), t.node, Ino(n));
    } else {
      Rebuilt(s, c);
      DoubleRotation(s, Ino(bl), b.node, Ino(Child(c, s)), c.node, Ino(Child(c, Other(s))), t.node, Ino(n));
    }
  }

  ghost predicate Sorted(s: seq<Node>) {
    forall i, j :: 0 <= i < j < |s| ==> Less(s[i].elem, s[j].elem)
  }

  ghost predicate Before(s: seq<Node>, x: Elem) { forall i :: 0 <= i < |s| ==> Less(s[i].elem, x) }

  ghost predicate After(s: seq<Node>, x: Elem) { forall i :: 0 <= i < |s| ==> Less(x, s[i].elem) }

  lemma SortedParts(t: Tree)
    requires t.Branch? && Sorted(Ino(t))
    ensures Sorted(Ino(t.left)) && Sorted(Ino(t.right)) && Before(Ino(t.left), t.node.elem)
      && After(Ino(t.right), t.node.elem)
  {
    SortedSplit(Ino(t.left), t.node, Ino(t.right));
  }

  lemma SortedSplit(a: seq<Node>, m: Node, b: seq<Node>)
    requires Sorted(a + [m] + b)
    ensures Sorted(a) && Sorted(b) && Before(a, m.elem) && After(b, m.elem)
  {
    hide Less;
    var s := a + [m] + b;
    assert s[|a|] == m;
    assert forall i :: 0 <= i < |a| ==> a[i] == s[i];
    assert forall i :: 0 <= i < |b| ==> b[i] == s[|a| + 1 + i];
  }

  lemma BeforeTrans(s: seq<Node>, x: Elem, y: Elem)
    requires Before(s, x) && (Less(x, y) || x == y)
    ensures Before(s, y)
  {
    forall i | 0 <= i < |s| ensures Less(s[i].elem, y) { if x != y { LessIsTransitive(s[i].elem, x, y); } }
  }

  lemma AfterTrans(s: seq<Node>, x: Elem, y: Elem)
    requires After(s, y) && (Less(x, y) || x == y)
    ensures After(s, x)
  {
    forall i | 0 <= i < |s| ensures Less(x, s[i].elem) { if x != y { LessIsTransitive(x, y, s[i].elem); } }
  }

  /** `r` is `s` with `x` put at its place `i` in the order. */
  ghost predicate PutAt(s: seq<Node>, x: Node, i: nat, r: seq<Node>) {
    i <= |s| && r == s[..i] + [x] + s[i..] && Before(s[..i], x.elem) && After(s[i..], x.elem)
  }

  ghost predicate Absent(s: seq<Node>, x: Elem) { forall i :: 0 <= i < |s| ==> s[i].elem != x }

  lemma AbsentParts(a: seq<Node>, m: Node, b: seq<Node>, x: Elem)
    requires Absent(a + [m] + b, x)
    ensures Absent(a, x) && m.elem != x && Absent(b, x)
  {
    var s := a + [m] + b;
    assert s[|a|] == m;
    assert forall i :: 0 <= i < |a| ==> a[i] == s[i];
    assert forall i :: 0 <= i < |b| ==> b[i] == s[|a| + 1 + i];
  }

  lemma PutFirst(x: Node)
    ensures PutAt([], x, 0, [x])
  {
  }

  lemma PutLeft(a: seq<Node>, m: Node, b: seq<Node>, x: Node, i: nat, a': seq<Node>)
    requires PutAt(a, x, i, a') && Less(x.elem, m.elem) && After(b, m.elem)
    ensures PutAt(a + [m] + b, x, i, a' + [m] + b)
  {
    var s := a + [m] + b;
    assert s[..i] == a[..i] && s[i..] == a[i..] + [m] + b;
    AfterTrans(b, x.elem, m.elem);
  }

  lemma PutRight(a: seq<Node>, m: Node, b: seq<Node>, x: Node, i: nat, b': seq<Node>)
    requires PutAt(b, x, i, b') && Less(m.elem, x.elem) && Before(a, m.elem)
    ensures PutAt(a + [m] + b, x, |a| + 1 + i, a + [m] + b')
  {
    var s := a + [m] + b;
    assert s[..|a| + 1 + i] == a + [m] + b[..i] && s[|a| + 1 + i..] == b[i..];
    BeforeTrans(a, m.elem, x.elem);
  }

  /** Insertion puts the new node at its place and moves nothing else. */
  lemma {:induction false} AddRecPuts(t: Tree, x: Node) returns (i: nat)
    requires Sorted(Ino(t)) && Absent(Ino(t), x.elem)
    ensures PutAt(Ino(t), x, i, Ino(AddRec(t, x)))
  {
    hide Less, Sorted, Before, After, PutAt, Absent, FixInsertion;
    if t.Leaf? {
      PutFirst(x);
      return 0;
    }
    SortedParts(t);
    var a, b := Ino(t.left), Ino(t.right);
    AbsentParts(a, t.node, b, x.elem);
    LessIsTotal(x.elem, t.node.elem);
    if Less(x.elem, t.node.elem) {
      i := AddRecPuts(t.left, x);
      var a' := AddRec(t.left, x);
      PutLeft(a, t.node, b, x, i, Ino(a'));
      FixInsertionKeeps(L, t.(left := a'));
    } else {
      var j := AddRecPuts(t.right, x);
      i := |a| + 1 + j;
      var b' := AddRec(t.right, x);
      PutRight(a, t.node, b, x, j, Ino(b'));
      FixInsertionKeeps(R, t.(right := b'));
    }
  }

  lemma PutStaysSorted(s: seq<Node>, x: Node, i: nat, r: seq<Node>)
    requires Sorted(s) && PutAt(s, x, i, r)
    ensures Sorted(r)
  {
    forall j, k | 0 <= j < k < |r| ensures Less(r[j].elem, r[k].elem) {
      assert j < i ==> r[j] == s[..i][j];
      assert k > i ==> r[k] == s[i..][k - i - 1];
      if j < i < k {
        assert s[i..][k - i - 1] == s[k - 1];
      }
    }
  }

  lemma {:induction false} DeleteRightmostTakesLast(t: Tree)
    requires t.Branch?
    ensures var p := DeleteRightmost(t); Ino(t) == Ino(p.tree) + [p.leaf]
  {
    if t.right.Branch? {
      DeleteRightmostTakesLast(t.right);
      var p := DeleteRightmost(t.right);
      var t' := t.(right := p.tree);
      FixDeletionKeeps(L, t');
      assert Ino(t.left) + [t.node] + (Ino(p.tree) + [p.leaf]) == Ino(t') + [p.leaf];
    } else if t.left.Branch? {
      PaintKeeps(t.left, Black);
    }
  }

  /** `r` is `s` without its entry `i`, which is `x`. */
  ghost predicate TakenAt(s: seq<Node>, x: Node, i: nat, r: seq<Node>) {
    i < |s| && s[i] == x && r == s[..i] + s[i + 1..]
  }

  lemma TakeLeft(a: seq<Node>, m: Node, b: seq<Node>, x: Node, i: nat, a': seq<Node>)
    requires TakenAt(a, x, i, a')
    ensures TakenAt(a + [m] + b, x, i, a' + [m] + b)
  {
    var s := a + [m] + b;
    assert s[..i] == a[..i] && s[i + 1..] == a[i + 1..] + [m] + b;
  }

  lemma TakeRight(a: seq<Node>, m: Node, b: seq<Node>, x: Node, i: nat, b': seq<Node>)
    requires TakenAt(b, x, i, b')
    ensures TakenAt(a + [m] + b, x, |a| + 1 + i, a + [m] + b')
  {
    var s, j := a + [m] + b, |a| + 1 + i;
    assert s[..j] == a + [m] + b[..i] && s[j + 1..] == b[i + 1..];
  }

  /** Deletion takes out exactly the given node. */
  lemma {:induction false} DeleteRecTakes(t: Tree, x: Node) returns (i: nat)
    requires Sorted(Ino(t)) && x in Ino(t)
    ensures TakenAt(Ino(t), x, i, Ino(DeleteRec(t, x).tree))
  {
    hide Less, Sorted, Before, After, DeleteRec, TakenAt;
    SortedParts(t);
    Placed(t, x);
    hide Ino;
    if Less(x.elem, t.node.elem) {
      i := DeleteRecTakes(t.left, x);
      LeftTaken(t, x, i);
    } else if Less(t.node.elem, x.elem) {
      var j := DeleteRecTakes(t.right, x);
      i := |Ino(t.left)| + 1 + j;
      RightTaken(t, x, j);
    } else {
      i := |Ino(t.left)|;
      RootTaken(t, x);
    }
  }

  lemma LeftTaken(t: Tree, x: Node, i: nat)
    requires t.Branch? && Less(x.elem, t.node.elem)
    requires TakenAt(Ino(t.left), x, i, Ino(DeleteRec(t.left, x).tree))
    ensures TakenAt(Ino(t), x, i, Ino(DeleteRec(t, x).tree))
  {
    hide Less, TakenAt, FixDeletion;
    var a' := DeleteRec(t.left, x).tree;
    TakeLeft(Ino(t.left), t.node, Ino(t.right), x, i, Ino(a'));
    FixDeletionKeeps(R, t.(left := a'));
  }

  lemma RightTaken(t: Tree, x: Node, j: nat)
    requires t.Branch? && !Less(x.elem, t.node.elem) && Less(t.node.elem, x.elem)
    requires TakenAt(Ino(t.right), x, j, Ino(DeleteRec(t.right, x).tree))
    ensures TakenAt(Ino(t), x, |Ino(t.left)| + 1 + j, Ino(DeleteRec(t, x).tree))
  {
    hide Less, TakenAt, FixDeletion;
    var b' := DeleteRec(t.right, x).tree;
    TakeRight(Ino(t.left), t.node, Ino(t.right), x, j, Ino(b'));
    FixDeletionKeeps(L, t.(right := b'));
  }

  lemma RootTaken(t: Tree, x: Node)
    requires t.Branch? && x == t.node && !Less(x.elem, x.elem)
    ensures TakenAt(Ino(t), x, |Ino(t.left)|, Ino(DeleteRec(t, x).tree))
  {
    var a, b := Ino(t.left), Ino(t.right);
    assert Ino(t)[..|a|] == a && Ino(t)[|a| + 1..] == b;
    if t.left.Branch? {
      DeleteRightmostTakesLast(t.left);
      var p := DeleteRightmost(t.left);
      FixDeletionKeeps(R, Branch(p.leaf, t.color, p.tree, t.right));
    } else if t.right.Branch? {
      PaintKeeps(t.right, Black);
    }
  }

  /** The comparison with the root says where a member is; in particular a tie is the member itself. */
  lemma Placed(t: Tree, x: Node)
    requires t.Branch? && Sorted(Ino(t)) && x in Ino(t)
    ensures x in Ino(t.left) <==> Less(x.elem, t.node.elem)
    ensures x in Ino(t.right) <==> Less(t.node.elem, x.elem)
    ensures x == t.node <==> !Less(x.elem, t.node.elem) && !Less(t.node.elem, x.elem)
  {
    SortedParts(t);
    LessIsTotal(x.elem, t.node.elem);
    LessIsTotal(t.node.elem, t.node.elem);
  }

  lemma TakeStaysSorted(s: seq<Node>, x: Node, i: nat, r: seq<Node>)
    requires Sorted(s) && TakenAt(s, x, i, r)
    ensures Sorted(r)
    ensures forall n :: n in r <==> n in s && n != x
  {
    assert forall j :: 0 <= j < |r| ==> r[j] == s[if j < i then j else j + 1];
    forall n ensures n in r ==> n in s && n != x {
      if n in r {
        var j :| 0 <= j < |r| && r[j] == n;
        LessIsTotal(x.elem, x.elem);
      }
    }
    assert forall j :: 0 <= j < |s| && j != i ==> s[j] == r[if j < i then j else j - 1];
  }
}
