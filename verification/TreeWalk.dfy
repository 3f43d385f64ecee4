/**
  The tree iterator.  It keeps the path from the root to the current node in a
  fixed array, with the number of subtrees of each node that it has entered.
  */
module TreeWalk {
  import opened RbTree
  import opened ParamTree

  const MAX_TREE_DEEP: nat := 128

  const PREORDER: nat := 0
  const INORDER: nat := 1
  const POSTORDER: nat := 2

  /** The nodes of `t` in the given order. */
  function Walk(order: nat, t: Tree): seq<Node> {
    if t.Leaf? then []
    else if order == PREORDER then [t.node] + Walk(order, t.left) + Walk(order, t.right)
    else if order == INORDER then Walk(order, t.left) + [t.node] + Walk(order, t.right)
    else Walk(order, t.left) + Walk(order, t.right) + [t.node]
  }

  lemma {:induction false} InorderIsIno(t: Tree)
    ensures Walk(INORDER, t) == Ino(t)
  {
    if t.Branch? {
      InorderIsIno(t.left);
      InorderIsIno(t.right);
    }
  }

  /** Every order visits each node as often as it occurs in the tree. */
  lemma {:induction false} WalkVisitsAll(order: nat, t: Tree)
    ensures multiset(Walk(order, t)) == multiset(Ino(t))
  {
    if t.Branch? {
      WalkVisitsAll(order, t.left);
      WalkVisitsAll(order, t.right);
    }
  }

  ghost predicate Within(sub: Tree, t: Tree) {
    sub == t || (t.Branch? && (Within(sub, t.left) || Within(sub, t.right)))
  }

  ghost predicate Precedes(s: seq<Node>, a: Node, b: Node) { exists i, j :: 0 <= i < j < |s| && s[i] == a && s[j] == b }

  ghost predicate AllPrecede(s: seq<Node>, a: seq<Node>, b: seq<Node>) {
    forall x, y :: x in a && y in b ==> Precedes(s, x, y)
  }

  lemma SplitPrecedes(u: seq<Node>, a: seq<Node>, v: seq<Node>, b: seq<Node>, w: seq<Node>)
    ensures AllPrecede(u + a + v + b + w, a, b)
  {
    var s := u + a + v + b + w;
    forall x, y | x in a && y in b ensures Precedes(s, x, y) {
      var i :| 0 <= i < |a| && a[i] == x;
      var j :| 0 <= j < |b| && b[j] == y;
      assert s[|u| + i] == x && s[|u + a + v| + j] == y;
    }
  }

  lemma InLonger(u: seq<Node>, s: seq<Node>, w: seq<Node>, a: seq<Node>, b: seq<Node>)
    requires AllPrecede(s, a, b)
    ensures AllPrecede(u + s + w, a, b)
  {
    var all := u + s + w;
    forall x, y | x in a && y in b ensures Precedes(all, x, y) {
      assert Precedes(s, x, y);
      var i, j :| 0 <= i < j < |s| && s[i] == x && s[j] == y;
      assert all[|u| + i] == x && all[|u| + j] == y;
    }
  }

  /** Each side of a tree is walked in one piece. */
  lemma SideOfWalk(order: nat, t: Tree, left: bool) returns (u: seq<Node>, w: seq<Node>)
    requires t.Branch?
    ensures Walk(order, t) == u + Walk(order, if left then t.left else t.right) + w
  {
    var l, r, n := Walk(order, t.left), Walk(order, t.right), [t.node];
    if left {
      u := if order == PREORDER then n else [];
      w := if order == PREORDER then r else if order == INORDER then n + r else r + n;
    } else {
      u := if order == PREORDER then n + l else if order == INORDER then l + n else l;
      w := if order == PREORDER || order == INORDER then [] else n;
    }
  }

  /** The walk of a subtree is a part of the walk. */
  lemma {:induction false} PartOfWalk(order: nat, t: Tree, sub: Tree) returns (u: seq<Node>, w: seq<Node>)
    requires Within(sub, t)
    ensures Walk(order, t) == u + Walk(order, sub) + w
  {
    hide Walk;
    if sub == t {
      return [], [];
    }
    var left := Within(sub, t.left);
    var u0, w0 := SideOfWalk(order, t, left);
    u, w := PartOfWalk(order, if left then t.left else t.right, sub);
    u, w := u0 + u, w + w0;
  }

  /**
    Left before right everywhere in the tree; a node comes before both sides in preorder,
    between them in inorder, and behind both in postorder.
    */
  lemma WalkOrder(order: nat, t: Tree, sub: Tree)
    requires Within(sub, t) && sub.Branch?
    ensures var w, l, r, n := Walk(order, t), Walk(order, sub.left), Walk(order, sub.right), [sub.node];
      && AllPrecede(w, l, r)
      && (order == 0 ==> AllPrecede(w, n, l) && AllPrecede(w, n, r))
      && (order == 1 ==> AllPrecede(w, l, n) && AllPrecede(w, n, r))
      && (order == 2 ==> AllPrecede(w, l, n) && AllPrecede(w, r, n))
  {
    hide AllPrecede;
    var u, w := PartOfWalk(order, t, sub);
    var l, r, n := Walk(order, sub.left), Walk(order, sub.right), [sub.node];
    if order == PREORDER {
      Three(u, n, l, r, w);
    } else if order == INORDER {
      Three(u, l, n, r, w);
    } else {
      Three(u, l, r, n, w);
    }
  }

  lemma Three(u: seq<Node>, a: seq<Node>, b: seq<Node>, c: seq<Node>, w: seq<Node>)
    ensures var s := u + (a + b + c) + w; AllPrecede(s, a, b) && AllPrecede(s, a, c) && AllPrecede(s, b, c)
  {
    hide AllPrecede;
    var s := a + b + c;
    assert s == [] + a + [] + b + c && s == [] + a + b + c + [] && s == a + b + [] + c + [];
    SplitPrecedes([], a, [], b, c);
    SplitPrecedes([], a, b, c, []);
    SplitPrecedes(a, b, [], c, []);
    InLonger(u, s, w, a, b);
    InLonger(u, s, w, a, c);
    InLonger(u, s, w, b, c);
  }

  // ---------- depth ----------

  function Max(a: nat, b: nat): nat { if a < b then b else a }

  function Height(t: Tree): nat {
    if t.Leaf? then 0 else 1 + Max(Height(t.left), Height(t.right))
  }

  function Pow2(n: nat): nat { if n == 0 then 1 else 2 * Pow2(n - 1) }

  lemma {:induction false} HeightBound(t: Tree)
    requires Balanced(t)
    ensures Height(t) <= 2 * Blacks(t) + if IsRed(t) then 1 else 0
    ensures Pow2(Blacks(t)) <= |Ino(t)| + 1
  {
    if t.Branch? {
      HeightBound(t.left);
      HeightBound(t.right);
    }
  }

  lemma {:induction false} Pow2Monotone(a: nat, b: nat)
    requires a <= b
    ensures Pow2(a) <= Pow2(b)
  {
    if a < b { Pow2Monotone(a, b - 1); }
  }

  /** A tree with fewer than 2^63 nodes is at most 126 deep: the fixed stacks are large enough. */
  lemma DepthFits(t: Tree)
    requires Balanced(t) && !IsRed(t) && |Ino(t)| < Pow2(63)
    ensures Height(t) < MAX_TREE_DEEP - 1
  {
    HeightBound(t);
    if Blacks(t) >= 64 { Pow2Monotone(64, Blacks(t)); }
  }

  // ---------- positions ----------

  /** A node on the path, and how many of its subtrees have been entered. */
  datatype Frame = Frame(tree: Tree, pass: nat)

  predicate Proper(f: Frame) { f.tree.Branch? && f.pass <= 2 }

  function When(b: bool, n: Node): seq<Node> { if b then [n] else [] }

  /** What is still to be visited in the subtree of a frame, once its own current position is dealt with. */
  ghost function Rest(order: nat, f: Frame): seq<Node>
    requires Proper(f)
  {
    var t := f.tree;
    if f.pass == 0 then Walk(order, t.left) + When(order == 1, t.node) + Walk(order, t.right) + When(order == 2, t.node)
    else if f.pass == 1 then Walk(order, t.right) + When(order == 2, t.node)
    else []
  }

  /** The same for a frame below the top: its current position is still to come. */
  ghost function Pending(order: nat, f: Frame): seq<Node>
    requires Proper(f)
  {
    When(order == f.pass, f.tree.node) + Rest(order, f)
  }

  ghost predicate AllProper(fs: seq<Frame>) { forall i :: 0 <= i < |fs| ==> Proper(fs[i]) }

  ghost function Pendings(order: nat, fs: seq<Frame>): seq<Node>
    requires AllProper(fs)
  {
    if fs == [] then [] else Pending(order, fs[|fs| - 1]) + Pendings(order, fs[..|fs| - 1])
  }

  /** The nodes that the iterator has yet to yield. */
  ghost function Todo(order: nat, fs: seq<Frame>): seq<Node>
    requires AllProper(fs)
  {
    if fs == [] then [] else Rest(order, fs[|fs| - 1]) + Pendings(order, fs[..|fs| - 1])
  }

  ghost function NextTree(f: Frame): Tree
    requires Proper(f)
  {
    if f.pass == 0 then f.tree.left else f.tree.right
  }

  /** One turn of the loop: leave the top node, or enter its next subtree if there is one. */
  ghost function Turn(fs: seq<Frame>): seq<Frame>
    requires fs != [] && AllProper(fs)
  {
    var init, top := fs[..|fs| - 1], fs[|fs| - 1];
    if top.pass == 2 then init
    else
      var on := init + [top.(pass := top.pass + 1)];
      if NextTree(top).Leaf? then on else on + [Frame(NextTree(top), 0)]
  }

  /** The node that a position yields, if any. */
  ghost function Yield(order: nat, fs: seq<Frame>): seq<Node>
    requires AllProper(fs)
  {
    if fs == [] then [] else When(order == fs[|fs| - 1].pass, fs[|fs| - 1].tree.node)
  }

  lemma WalkSplit(order: nat, t: Tree)
    requires t.Branch? && order <= 2
    ensures Walk(order, t) == When(order == 0, t.node) + Rest(order, Frame(t, 0))
  {
  }

  lemma FrameYields(order: nat, f: Frame)
    requires Proper(f) && f.pass < 2 && order <= 2
    ensures Proper(f.(pass := f.pass + 1))
    ensures var on, next := f.(pass := f.pass + 1), NextTree(f);
            Rest(order, f) == if next.Leaf? then Pending(order, on)
                              else When(order == 0, next.node) + Rest(order, Frame(next, 0)) + Pending(order, on)
  {
    if NextTree(f).Branch? { WalkSplit(order, NextTree(f)); }
  }

  lemma PendingIs(order: nat, f: Frame)
    requires Proper(f)
    ensures Pending(order, f) == When(order == f.pass, f.tree.node) + Rest(order, f)
  {
  }

  lemma OnTop(order: nat, init: seq<Frame>, f: Frame)
    requires AllProper(init) && Proper(f)
    ensures AllProper(init + [f])
    ensures Todo(order, init + [f]) == Rest(order, f) + Pendings(order, init)
    ensures Pendings(order, init + [f]) == Pending(order, f) + Pendings(order, init)
    ensures Yield(order, init + [f]) == When(order == f.pass, f.tree.node)
  {
    var fs := init + [f];
    assert fs[..|fs| - 1] == init && fs[|fs| - 1] == f;
  }

  /** A turn visits nothing but what it yields. */
  lemma TurnYields(order: nat, fs: seq<Frame>)
    requires fs != [] && AllProper(fs) && order <= 2
    ensures AllProper(Turn(fs))
    ensures Todo(order, fs) == Yield(order, Turn(fs)) + Todo(order, Turn(fs))
  {
    hide Walk, Rest, When, Pending, Todo, Pendings, Yield;
    var init, top := fs[..|fs| - 1], fs[|fs| - 1];
    OnTop(order, init, top);
    assert fs == init + [top];
    if top.pass < 2 {
      var on := top.(pass := top.pass + 1);
      FrameYields(order, top);
      OnTop(order, init, on);
      if NextTree(top).Branch? {
        OnTop(order, init + [on], Frame(NextTree(top), 0));
      } else {
        PendingIs(order, on);
      }
    } else {
      RestAtTop(order, init, top);
    }
  }

  lemma RestAtTop(order: nat, init: seq<Frame>, top: Frame)
    requires AllProper(init) && Proper(top) && top.pass == 2
    ensures AllProper(init + [top])
    ensures Todo(order, init + [top]) == Yield(order, init) + Todo(order, init)
  {
    hide Walk, Rest, When, Pending, Todo, Pendings, Yield;
    OnTop(order, init, top);
    RestDone(order, top);
    if init == [] {
      Nothing(order);
    } else {
      var before, f := init[..|init| - 1], init[|init| - 1];
      assert init == before + [f];
      assert AllProper(before);
      OnTop(order, before, f);
      PendingIs(order, f);
    }
  }

  lemma RestDone(order: nat, f: Frame)
    requires Proper(f) && f.pass == 2
    ensures Rest(order, f) == []
  {
  }

  lemma Nothing(order: nat)
    ensures AllProper([])
    ensures Pendings(order, []) == [] && Todo(order, []) == [] && Yield(order, []) == []
  {
  }

  function Steps(t: Tree): nat {
    if t.Leaf? then 0 else 3 + Steps(t.left) + Steps(t.right)
  }

  ghost function Effort(fs: seq<Frame>): nat
    requires AllProper(fs)
  {
    if fs == [] then 0
    else
      var f := fs[|fs| - 1];
      Effort(fs[..|fs| - 1]) + 3 - f.pass
      + (if f.pass == 0 then Steps(f.tree.left) else 0) + (if f.pass <= 1 then Steps(f.tree.right) else 0)
  }

  lemma TurnEnds(fs: seq<Frame>)
    requires fs != [] && AllProper(fs)
    ensures AllProper(Turn(fs)) && Effort(Turn(fs)) < Effort(fs)
  {
    var init, top := fs[..|fs| - 1], fs[|fs| - 1];
    if top.pass < 2 {
      var on := init + [top.(pass := top.pass + 1)];
      assert on[..|on| - 1] == init;
      if NextTree(top).Branch? { assert Turn(fs)[..|Turn(fs)| - 1] == on; }
    }
  }

  /** The path fits into `room` places. */
  ghost predicate Fits(fs: seq<Frame>, room: nat) {
    forall i :: 0 <= i < |fs| ==> i + Height(fs[i].tree) <= room
  }

  lemma TurnFits(fs: seq<Frame>, room: nat)
    requires fs != [] && AllProper(fs) && Fits(fs, room)
    ensures AllProper(Turn(fs)) && Fits(Turn(fs), room)
    ensures |Turn(fs)| <= room
  {
    var fs' := Turn(fs);
    if fs' != [] { assert |fs'| - 1 + Height(fs'[|fs'| - 1].tree) <= room; }
  }

  // ---------- in memory ----------

  /** The nodes below a frame that the iterator may still look into. */
  ghost function NeedsOf(f: Frame): set<Node>
    requires Proper(f)
  {
    if f.pass == 0 then Nodes(f.tree) else if f.pass == 1 then {f.tree.node} + Nodes(f.tree.right) else {}
  }

  ghost function Needs(fs: seq<Frame>): set<Node>
    requires AllProper(fs)
  {
    set i: nat, n | i < |fs| && n in NeedsOf(fs[i]) :: n
  }

  /** The pointers that the iterator may still follow are the ones of the tree. */
  ghost predicate Intact(f: Frame)
    requires Proper(f)
    reads NeedsOf(f)`left, NeedsOf(f)`right, NeedsOf(f)`color
  {
    var n := f.tree.node;
    && (f.pass == 0 ==> Holds(f.tree.left, n.left))
    && (f.pass <= 1 ==> Holds(f.tree.right, n.right))
  }

  ghost predicate AllIntact(fs: seq<Frame>)
    requires AllProper(fs)
    reads Needs(fs)`left, Needs(fs)`right, Needs(fs)`color
  {
    forall i :: 0 <= i < |fs| ==> Intact(fs[i])
  }

  lemma Entered(f: Frame)
    requires Proper(f) && f.pass < 2 && Intact(f)
    ensures f.tree.node in NeedsOf(f)
    ensures Root(NextTree(f)) == if f.pass == 0 then f.tree.node.left else f.tree.node.right
    ensures Proper(f.(pass := f.pass + 1)) && Intact(f.(pass := f.pass + 1))
    ensures NeedsOf(f.(pass := f.pass + 1)) <= NeedsOf(f)
    ensures NextTree(f).Branch? ==>
              && Proper(Frame(NextTree(f), 0)) && Intact(Frame(NextTree(f), 0))
              && NeedsOf(Frame(NextTree(f), 0)) <= NeedsOf(f)
  {
  }

  lemma TurnIntact(fs: seq<Frame>)
    requires fs != [] && AllProper(fs) && AllIntact(fs)
    ensures AllProper(Turn(fs)) && AllIntact(Turn(fs)) && Needs(Turn(fs)) <= Needs(fs)
  {
    var init, top := fs[..|fs| - 1], fs[|fs| - 1];
    if top.pass < 2 { Entered(top); }
    hide Intact, NeedsOf;
    var fs' := Turn(fs);
    forall i | 0 <= i < |fs'|
      ensures Proper(fs'[i]) && Intact(fs'[i])
      ensures exists j :: 0 <= j < |fs| && NeedsOf(fs'[i]) <= NeedsOf(fs[j])
    {
      if i < |init| {
        assert fs'[i] == fs[i];
        assert NeedsOf(fs'[i]) <= NeedsOf(fs[i]);
      } else {
        assert NeedsOf(fs'[i]) <= NeedsOf(fs[|init|]);
      }
    }
  }

  /** In postorder, whatever may still be looked into has not been yielded. */
  lemma {:induction false} PendingsCoverNeeds(fs: seq<Frame>)
    requires AllProper(fs)
    ensures forall n :: n in Needs(fs) ==> n in Pendings(POSTORDER, fs)
  {
    if fs != [] {
      var init, top := fs[..|fs| - 1], fs[|fs| - 1];
      PendingsCoverNeeds(init);
      RestCoversNeeds(top);
      forall n | n in Needs(fs) ensures n in Pendings(POSTORDER, fs) {
        if n !in NeedsOf(top) {
          var i: nat :| i < |fs| && n in NeedsOf(fs[i]);
          assert init[i] == fs[i];
          assert n in Needs(init);
        }
      }
    }
  }

  lemma WalkHas(order: nat, t: Tree, n: Node)
    ensures n in Ino(t) <==> n in Walk(order, t)
  {
    WalkVisitsAll(order, t);
    assert n in multiset(Ino(t)) <==> n in multiset(Walk(order, t));
  }

  lemma RestCoversNeeds(f: Frame)
    requires Proper(f)
    ensures forall n :: n in NeedsOf(f) ==> n in Rest(POSTORDER, f)
  {
    forall n | n in NeedsOf(f) ensures n in Rest(POSTORDER, f) {
      if f.pass == 0 {
        WalkHas(POSTORDER, f.tree, n);
        assert Rest(POSTORDER, f) == Walk(POSTORDER, f.tree);
      } else {
        WalkHas(POSTORDER, f.tree.right, n);
        var w := Walk(POSTORDER, f.tree.right);
        assert Rest(POSTORDER, f) == w + [f.tree.node];
        assert (w + [f.tree.node])[|w|] == f.tree.node;
      }
    }
  }

  lemma TodoCoversNeeds(fs: seq<Frame>)
    requires AllProper(fs)
    ensures forall n :: n in Needs(fs) ==> n in Todo(POSTORDER, fs)
  {
    if fs != [] {
      var init, top := fs[..|fs| - 1], fs[|fs| - 1];
      PendingsCoverNeeds(init);
      RestCoversNeeds(top);
      forall n | n in Needs(fs) ensures n in Todo(POSTORDER, fs) {
        if n !in NeedsOf(top) {
          var i: nat :| i < |fs| && n in NeedsOf(fs[i]);
          assert init[i] == fs[i];
          assert n in Needs(init);
        }
      }
    }
  }

  lemma Started(order: nat, tt: Tree, tree: Node)
    requires Holds(tt, tree) && Height(tt) <= MAX_TREE_DEEP
    ensures var fs := [Frame(tt, 0)];
            && AllProper(fs) && Fits(fs, MAX_TREE_DEEP) && AllIntact(fs) && Needs(fs) <= Nodes(tt)
            && Todo(order, fs) == Rest(order, Frame(tt, 0))
  {
    var fs := [Frame(tt, 0)];
    assert fs == [] + [Frame(tt, 0)];
    Nothing(order);
    OnTop(order, [], Frame(tt, 0));
  }

  lemma NoTree(order: nat, tt: Tree)
    requires Holds(tt, null)
    ensures AllProper([]) && Fits([], MAX_TREE_DEEP) && AllIntact([]) && Needs([]) == {} && Walk(order, tt) == []
  {
  }

  lemma RootOf(tt: Tree, tree: Node)
    requires Holds(tt, tree)
    ensures tt.Branch? && tt.node == tree
  {
  }

  class TreeIterator {
    const path: array<Node?>
    const pass: array<nat>
    var pathi: nat
    var order: nat
    var currentelem: Node?
    ghost var frames: seq<Frame>

    ghost predicate Aligned()
      reads this, path, pass
    {
      var aligned :=
        && path.Length == MAX_TREE_DEEP && pass.Length == MAX_TREE_DEEP && order <= 2
        && pathi == |frames| <= MAX_TREE_DEEP && AllProper(frames) && Fits(frames, MAX_TREE_DEEP)
        && (forall i :: 0 <= i < pathi ==> path[i] == frames[i].tree.node && pass[i] == frames[i].pass);
      aligned
    }

    ghost predicate Valid()
      reads this, path, pass
      reads (if AllProper(frames) then Needs(frames) else {})`left
      reads (if AllProper(frames) then Needs(frames) else {})`right
      reads (if AllProper(frames) then Needs(frames) else {})`color
    {
      var valid := Aligned() && AllIntact(frames);
      valid
    }

    /** The current node and the ones to come. */
    ghost function Ahead(): seq<Node>
      requires AllProper(frames)
      reads this
    {
      if currentelem == null then [] else [currentelem] + Todo(order, frames)
    }

    constructor ()
      ensures fresh(path) && fresh(pass) && path.Length == MAX_TREE_DEEP && pass.Length == MAX_TREE_DEEP
    {
      path := new Node?[MAX_TREE_DEEP](_ => null);
      pass := new nat[MAX_TREE_DEEP](_ => 0);
      pathi, order, currentelem, frames := 0, 0, null, [];
    }

    /** One turn of the loop.  It looks into no node that has been freed. */
    method Advance(ghost freed: set<Node>)
      requires Valid() && pathi > 0 && freed !! Needs(frames)
      modifies this`pathi, this`frames, path, pass
      ensures Valid() && frames == Turn(old(frames)) && Needs(frames) <= old(Needs(frames))
    {
      TurnFits(frames, MAX_TREE_DEEP);
      TurnIntact(frames);
      assert allocated(Needs(Turn(frames)));
      ghost var top := frames[pathi - 1];
      if top.pass < 2 {
        Entered(top);
        assert top.tree.node in Needs(frames);
      }
      hide Intact, NeedsOf, Needs, AllIntact, Fits;
      if pass[pathi - 1] >= 2 {
        pathi := pathi - 1;
        frames := Turn(frames);
      } else {
        Enter(freed);
      }
    }

    method Enter(ghost freed: set<Node>)
      requires Aligned() && pathi > 0 && frames[pathi - 1].pass < 2 && Fits(Turn(frames), MAX_TREE_DEEP)
      requires frames[pathi - 1].tree.node !in freed && |Turn(frames)| <= MAX_TREE_DEEP
      requires var f := frames[pathi - 1];
               Root(NextTree(f)) == if f.pass == 0 then f.tree.node.left else f.tree.node.right
      modifies this`pathi, this`frames, path, pass
      ensures Aligned() && frames == Turn(old(frames))
    {
      hide Fits;
      var i := pathi - 1;
      assert path[i] !in freed;
      var s := if pass[i] == 0 then path[i].left else path[i].right;
      if s != null {
        var j := i + 1;
        path[j] := s;
        pass[j] := 0;
        pathi := pathi + 1;
      }
      pass[i] := pass[i] + 1;
      frames := Turn(frames);
    }

    method ComputeCurrentElem(ghost freed: set<Node>)
      requires Valid() && freed !! Needs(frames)
      modifies this`pathi, this`frames, this`currentelem, path, pass
      ensures Valid() && freed !! Needs(frames) && Needs(frames) <= old(Needs(frames))
      ensures currentelem == null ==> old(Todo(order, frames)) == [] && frames == []
      ensures currentelem != null ==> old(Todo(order, frames)) == [currentelem] + Todo(order, frames)
    {
      hide Intact, NeedsOf, Needs, AllIntact, Fits, Todo, Turn, Walk, Rest;
      currentelem := null;
      while pathi > 0 && currentelem == null
        invariant Valid() && freed !! Needs(frames) && Needs(frames) <= old(Needs(frames))
        invariant currentelem == null ==> old(Todo(order, frames)) == Todo(order, frames)
        invariant currentelem != null ==> old(Todo(order, frames)) == [currentelem] + Todo(order, frames)
        decreases Effort(frames)
      {
        TurnYields(order, frames);
        TurnEnds(frames);
        Advance(freed);
        if pathi > 0 && order == pass[pathi - 1] {
          currentelem := path[pathi - 1];
        }
      }
      if pathi == 0 { Nothing(order); }
    }

    method Init(tree: Node?, order: nat, ghost tt: Tree)
      requires path.Length == MAX_TREE_DEEP && pass.Length == MAX_TREE_DEEP && order <= 2
      requires Holds(tt, tree) && Height(tt) <= MAX_TREE_DEEP
      modifies this, path, pass
      ensures Valid() && this.order == order && Needs(frames) <= Nodes(tt)
      ensures Ahead() == Walk(order, tt)
    {
      assert allocated(Nodes(tt));
      hide Holds, Nodes, Todo, Rest, Walk, Intact, NeedsOf, Needs, AllIntact, Fits;
      this.order := order;
      if tree == null {
        NoTree(order, tt);
        pathi, currentelem, frames := 0, null, [];
      } else {
        Begin(tree, tt);
      }
    }

    /** Starts at the root of a tree that is not empty. */
    method Begin(tree: Node, ghost tt: Tree)
      requires path.Length == MAX_TREE_DEEP && pass.Length == MAX_TREE_DEEP && order <= 2
      requires Holds(tt, tree) && Height(tt) <= MAX_TREE_DEEP
      modifies this`pathi, this`frames, this`currentelem, path, pass
      ensures Valid() && Needs(frames) <= Nodes(tt) && Ahead() == Walk(order, tt)
    {
      hide Holds, Nodes, Todo, Rest, Walk, Intact, NeedsOf, Needs, AllIntact, Fits;
      RootOf(tt, tree);
      WalkSplit(order, tt);
      Start(tree, tt);
      if order == 0 {
        currentelem := tree;
      } else {
        ComputeCurrentElem({});
      }
    }

    /** Puts the root on the path. */
    method Start(tree: Node, ghost tt: Tree)
      requires path.Length == MAX_TREE_DEEP && pass.Length == MAX_TREE_DEEP && order <= 2
      requires Holds(tt, tree) && Height(tt) <= MAX_TREE_DEEP
      modifies this`pathi, this`frames, path, pass
      ensures Valid() && frames == [Frame(tt, 0)] && Needs(frames) <= Nodes(tt)
      ensures Todo(order, frames) == Rest(order, Frame(tt, 0))
    {
      assert allocated(Nodes(tt));
      hide Nodes, Todo, Rest, Intact, NeedsOf, Needs, AllIntact, Fits;
      pathi, pass[0], path[0] := 1, 0, tree;
      frames := [Frame(tt, 0)];
      Started(order, tt, tree);
    }

    method Next(ghost freed: set<Node>)
      requires Valid() && freed !! Needs(frames) && currentelem != null
      modifies this`pathi, this`frames, this`currentelem, path, pass
      ensures Valid() && Needs(frames) <= old(Needs(frames))
      ensures old(Ahead()) == [old(currentelem)] + Ahead()
    {
      hide Todo, Needs;
      ComputeCurrentElem(freed);
    }
  }
}
