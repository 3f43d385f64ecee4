/**
  Parameter lists: a red-black tree of named values.  The list of a request is
  built by adding entries whose keys are new, counted by a traversal with an
  explicit path, read by the iterator, and released in two passes: keys and values
  first, then the nodes themselves, each freed while the iterator still runs.
  */
module Params {
  import opened RbTree
  import opened ParamTree
  import opened TreeWalk

  datatype Status = Ok | Exists | OutOfMemory

  /** The named values. */
  ghost function Entries(s: seq<Node>): set<(string, string)> { set n | n in s :: (n.elem.key, n.value) }

  ghost predicate HasKey(s: seq<Node>, k: string) { exists i :: 0 <= i < |s| && s[i].elem.key == k }

  /** Keys are distinct. */
  ghost predicate Keyed(s: seq<Node>) {
    forall i, j :: 0 <= i < j < |s| ==> s[i].elem.key != s[j].elem.key
  }

  lemma PutKeyed(s: seq<Node>, x: Node, i: nat, r: seq<Node>)
    requires Keyed(s) && PutAt(s, x, i, r) && !HasKey(s, x.elem.key)
    ensures Keyed(r) && Entries(r) == Entries(s) + {(x.elem.key, x.value)}
  {
    assert forall j :: 0 <= j < |r| && j != i ==> r[j] == s[if j < i then j else j - 1];
    assert r[i] == x;
    PutHas(s, x, i, r);
  }

  /** A lookup may go on in the subtree that the comparison chooses. */
  lemma KeyBelow(t: Tree, k: string)
    requires t.Branch? && Sorted(Ino(t))
    ensures Sorted(Ino(t.left)) && Sorted(Ino(t.right))
    ensures Compare(k, t.node.elem.key) < 0 ==> (HasKey(Ino(t), k) <==> HasKey(Ino(t.left), k))
    ensures Compare(k, t.node.elem.key) > 0 ==> (HasKey(Ino(t), k) <==> HasKey(Ino(t.right), k))
    ensures Compare(k, t.node.elem.key) == 0 <==> k == t.node.elem.key
  {
    SortedParts(t);
    var a, b := Ino(t.left), Ino(t.right);
    CompareIsTotal(k, t.node.elem.key);
    HasKeyParts(a, t.node, b, k);
  }

  lemma HasKeyParts(a: seq<Node>, m: Node, b: seq<Node>, k: string)
    ensures HasKey(a + [m] + b, k) <==> HasKey(a, k) || m.elem.key == k || HasKey(b, k)
  {
    var s := a + [m] + b;
    assert s[|a|] == m;
    assert forall i :: 0 <= i < |a| ==> a[i] == s[i];
    assert forall i :: 0 <= i < |b| ==> b[i] == s[|a| + 1 + i];
  }

  /** Finds a node with the given key if and only if there is one. */
  method FindMember(root: Node?, k: string, ghost tt: Tree) returns (r: Node?)
    requires Holds(tt, root) && Sorted(Ino(tt))
    ensures r == null <==> !HasKey(Ino(tt), k)
    ensures r != null ==> r in Ino(tt) && r.elem.key == k
  {
    r := root;
    ghost var st := tt;
    while r != null
      invariant Holds(st, r) && Sorted(Ino(st))
      invariant HasKey(Ino(tt), k) <==> HasKey(Ino(st), k)
      invariant forall n :: n in Ino(st) ==> n in Ino(tt)
      decreases st
    {
      KeyBelow(st, k);
      var c := Compare(k, r.elem.key);
      if c < 0 { r, st := r.left, st.left; }
      else if c > 0 { r, st := r.right, st.right; }
      else {
        HasKeyParts(Ino(st.left), r, Ino(st.right), k);
        return;
      }
    }
  }

  /** Tells whether the node itself is in the tree; no two nodes share an address. */
  method IsMember(root: Node?, elem: Node, ghost tt: Tree) returns (b: bool)
    requires Holds(tt, root) && Sorted(Ino(tt))
    requires forall n :: n in Ino(tt) && n.elem == elem.elem ==> n == elem
    ensures b <==> elem in Ino(tt)
  {
    var t := root;
    ghost var st := tt;
    while t != null
      invariant Holds(st, t) && Sorted(Ino(st))
      invariant elem in Ino(tt) <==> elem in Ino(st)
      invariant forall n :: n in Ino(st) ==> n in Ino(tt)
      decreases st
    {
      if elem in Ino(st) { Placed(st, elem); }
      SortedParts(st);
      CompareIsTotal(elem.elem.key, t.elem.key);
      assert t in Ino(st);
      var cmp := Compare(elem.elem.key, t.elem.key);
      if cmp < 0 || (cmp == 0 && elem.elem.addr < t.elem.addr) {
        t, st := t.left, st.left;
      } else if cmp > 0 || (cmp == 0 && elem.elem.addr > t.elem.addr) {
        t, st := t.right, st.right;
      } else {
        assert t == elem;
        return true;
      }
    }
    b := false;
  }

  // ---------- counting ----------

  /** A node on the path of the count; `open` while it and its right subtree are still to be counted. */
  datatype Spot = Spot(tree: Tree, open: bool)

  ghost predicate AllSpots(ss: seq<Spot>) { forall i :: 0 <= i < |ss| ==> ss[i].tree.Branch? }

  /** How many nodes the path still stands for. */
  ghost function Uncounted(ss: seq<Spot>): nat
    requires AllSpots(ss)
  {
    if ss == [] then 0
    else Uncounted(ss[..|ss| - 1]) + if ss[|ss| - 1].open then 1 + |Ino(ss[|ss| - 1].tree.right)| else 0
  }

  lemma Uncover(ss: seq<Spot>, x: Spot)
    requires AllSpots(ss) && x.tree.Branch?
    ensures AllSpots(ss + [x])
    ensures Uncounted(ss + [x]) == Uncounted(ss) + if x.open then 1 + |Ino(x.tree.right)| else 0
  {
    assert (ss + [x])[..|ss|] == ss;
  }

  class ParamList {
    var root: Node?
    ghost var tree: Tree

    ghost predicate Valid()
      reads this, Nodes(tree)
    {
      Holds(tree, root) && Sorted(Ino(tree)) && Balanced(tree) && !IsRed(tree)
    }

    constructor ()
      ensures Valid() && Ino(tree) == []
    {
      root, tree := null, Leaf;
    }

    /** Puts `elem` at its place among the entries. */
    method Add(elem: Node) returns (ghost i: nat)
      requires Valid() && elem !in Nodes(tree) && Absent(Ino(tree), elem.elem)
      modifies this, Nodes(tree), elem
      ensures Valid() && PutAt(old(Ino(tree)), elem, i, Ino(tree))
    {
      assert allocated(Nodes(tree));
      ghost var t, t' := tree, AddRec(tree, elem);
      i := Added(t, elem);
      hide Sorted, PutAt, Balanced, AddRec, Holds, Nodes, Apart, Absent, Ino;
      elem.left, elem.right := null, null;
      root := AddRecursive(root, elem, t);
      RootIs(t', root);
      Recolour(root, t', Black);
      tree := RbTree.Add(t, elem);
    }

    method Delete(elem: Node) returns (ghost i: nat)
      requires Valid() && elem in Ino(tree)
      modifies this, Nodes(tree)
      ensures Valid() && TakenAt(old(Ino(tree)), elem, i, Ino(tree))
    {
      assert allocated(Nodes(tree));
      ghost var t, t' := tree, DeleteRec(tree, elem).tree;
      i := Deleted(t, elem);
      hide Sorted, TakenAt, Balanced, DeleteRec, Holds, Nodes, Apart, Ino;
      var decreased;
      root, decreased := DeleteRecursive(root, elem, t);
      RootIs(t', root);
      if root != null { Recolour(root, t', Black); }
      tree := RbTree.Delete(t, elem);
    }
  }

  /**
    Adds a named value unless the key is taken; `addr` is the address of the new node, `memory`
    whether there was enough.
    */
  method ParamsAdd(params: ParamList, key: string, value: string, addr: nat, memory: bool) returns (rc: Status)
    requires params.Valid() && Keyed(Ino(params.tree))
    requires forall n :: n in Ino(params.tree) ==> n.elem.addr != addr
    modifies params, Nodes(params.tree)
    ensures params.Valid() && Keyed(Ino(params.tree))
    ensures rc == Exists <==> old(HasKey(Ino(params.tree), key))
    ensures rc == OutOfMemory ==> !memory
    ensures rc == Ok ==> memory && Entries(Ino(params.tree)) == old(Entries(Ino(params.tree))) + {(key, value)}
    ensures rc != Ok ==> params.tree == old(params.tree)
  {
    assert allocated(Nodes(params.tree));
    var found := FindMember(params.root, key, params.tree);
    if found != null {
      return Exists;
    }
    if !memory {
      return OutOfMemory;
    }
    ghost var s := Ino(params.tree);
    var elem := new Node(Elem(key, addr), value);
    assert forall i :: 0 <= i < |s| ==> s[i] in s;
    var i := params.Add(elem);
    PutKeyed(s, elem, i, Ino(params.tree));
    rc := Ok;
  }

  ghost function SpotNodes(ss: seq<Spot>): set<Node>
    requires AllSpots(ss)
  {
    set i: nat, n | i < |ss| && n in Nodes(ss[i].tree.right) :: n
  }

  ghost predicate SpotsHeld(ss: seq<Spot>)
    requires AllSpots(ss)
    reads SpotNodes(ss)
  {
    forall i :: 0 <= i < |ss| && ss[i].open ==> Holds(ss[i].tree.right, Root(ss[i].tree.right))
  }

  ghost predicate Shallow(ss: seq<Spot>) { forall i :: 0 <= i < |ss| ==> i + Height(ss[i].tree) < MAX_TREE_DEEP }

  /** The state of the inorder traversal that counts the nodes. */
  class Counter {
    const path: array<Node?>
    const right: array<Node?>
    const pass: array<nat>
    var pathi: nat
    var n: nat
    ghost var spots: seq<Spot>

    ghost predicate Tracked()
      reads this, path, right, pass
    {
      var tracked :=
        && path.Length == right.Length == pass.Length == MAX_TREE_DEEP && path != right
        && pathi == |spots| < MAX_TREE_DEEP && AllSpots(spots) && Shallow(spots)
        && (forall i :: 0 <= i < |spots| ==> path[i] == spots[i].tree.node && (spots[i].open <==> pass[i] == 0))
        && (forall i :: 0 <= i < |spots| ==> right[i] == if spots[i].open then Root(spots[i].tree.right) else null);
      tracked
    }

    constructor ()
      ensures fresh(path) && fresh(right) && fresh(pass)
      ensures Tracked() && spots == [] && n == 0
    {
      path := new Node?[MAX_TREE_DEEP](_ => null);
      right := new Node?[MAX_TREE_DEEP](_ => null);
      pass := new nat[MAX_TREE_DEEP](_ => 0);
      pathi, n, spots := 0, 0, [];
    }

    /** Puts a node on the path. */
    method Push(cn: Node, ghost ct: Tree)
      requires Tracked() && SpotsHeld(spots) && ct.Branch? && Holds(ct, cn) && |spots| + Height(ct) < MAX_TREE_DEEP
      modifies this`pathi, this`spots, path, right, pass
      ensures Tracked() && spots == old(spots) + [Spot(ct, true)] && SpotsHeld(spots)
    {
      ghost var ss := spots + [Spot(ct, true)];
      SpotAdded(spots, ct, cn);
      assert allocated(SpotNodes(ss));
      hide SpotsHeld, SpotNodes, Holds, Shallow;
      path[pathi] := cn;
      right[pathi] := cn.right;
      pass[pathi] := 0;
      pathi := pathi + 1;
      assert pathi < MAX_TREE_DEEP;
      spots := ss;
    }

    /** Goes down to the leftmost node below `cn`. */
    method PushDown(cn: Node, ghost ct: Tree)
      requires Tracked() && SpotsHeld(spots) && Holds(ct, cn) && |spots| + Height(ct) < MAX_TREE_DEEP
      modifies this`pathi, this`spots, path, right, pass
      ensures Tracked() && SpotsHeld(spots) && spots != []
      ensures Uncounted(spots) == old(Uncounted(spots)) + |Ino(ct)|
    {
      var c: Node? := cn;
      ghost var t := ct;
      ghost var total := Uncounted(spots) + |Ino(ct)|;
      while c != null
        invariant Tracked() && SpotsHeld(spots) && Holds(t, c) && |spots| + Height(t) < MAX_TREE_DEEP
        invariant Uncounted(spots) + |Ino(t)| == total
        invariant c == null ==> spots != []
        decreases t
      {
        assert allocated(Nodes(t.left));
        RootIs(t, c);
        Uncover(spots, Spot(t, true));
        var next := c.left;
        Push(c, t);
        c, t := next, t.left;
      }
    }

    /** The node just taken off the path, with its right subtree noted beside it. */
    ghost predicate JustOff(x: Spot)
      reads this, path, right, pass
    {
      && Tracked() && x.tree.Branch? && pathi + Height(x.tree) < MAX_TREE_DEEP
      && path[pathi] == x.tree.node && pass[pathi] > 0
      && right[pathi] == if x.open then Root(x.tree.right) else null
    }

    /** Takes a node off the path, counting it on the first visit. */
    method Pop() returns (ghost x: Spot)
      requires Tracked() && spots != [] && SpotsHeld(spots)
      modifies this`pathi, this`spots, this`n, pass
      ensures JustOff(x) && old(spots) == spots + [x] && SpotsHeld(spots)
      ensures x.open ==> Holds(x.tree.right, right[pathi])
      ensures n == old(n) + if x.open then 1 else 0
    {
      ghost var ss := spots[..pathi - 1];
      x := spots[pathi - 1];
      assert AllSpots(ss) && SpotsHeld(ss) && Shallow(ss);
      assert allocated(SpotNodes(ss)) && allocated(Nodes(x.tree.right));
      assert x.open ==> Holds(x.tree.right, Root(x.tree.right));
      hide SpotsHeld, SpotNodes, Shallow, Holds;
      pathi := pathi - 1;
      if pass[pathi] == 0 { n := n + 1; }
      pass[pathi] := pass[pathi] + 1;
      spots := ss;
    }

    method PopOne(ghost total: nat) returns (ghost x: Spot)
      requires Tracked() && spots != [] && SpotsHeld(spots) && n + Uncounted(spots) == total
      modifies this`pathi, this`spots, this`n, pass
      ensures JustOff(x) && SpotsHeld(spots) && pathi < old(pathi) && n >= old(n)
      ensures x.open ==> Holds(x.tree.right, right[pathi]) && n > old(n)
      ensures n + Uncounted(spots) + (if x.open then |Ino(x.tree.right)| else 0) == total
    {
      hide SpotsHeld, SpotNodes, Shallow, Holds;
      ghost var was := spots;
      x := Pop();
      assert AllSpots(spots);
      Uncover(spots, x);
    }

    /** Enters the right subtree of the node just taken off, which stays on the path. */
    method Enter(ghost x: Spot) returns (cn: Node?)
      requires JustOff(x) && SpotsHeld(spots)
      modifies this`pathi, this`spots, right
      ensures cn == old(right[pathi])
      ensures Tracked() && spots == old(spots) + [Spot(x.tree, false)] && SpotsHeld(spots)
    {
      ghost var ss := spots + [Spot(x.tree, false)];
      SpotClosed(spots, x.tree);
      assert allocated(SpotNodes(ss));
      hide SpotsHeld, SpotNodes, Shallow, Holds;
      cn := right[pathi];
      right[pathi] := null;
      pathi := pathi + 1;
      spots := ss;
    }

    /** Goes back up to the next right subtree, or to the root. */
    method PopUp() returns (cn: Node?, ghost ct: Tree)
      requires Tracked() && spots != [] && SpotsHeld(spots)
      modifies this`pathi, this`spots, this`n, pass, right
      ensures Tracked() && SpotsHeld(spots) && Holds(ct, cn) && |spots| + Height(ct) < MAX_TREE_DEEP
      ensures n + |Ino(ct)| + Uncounted(spots) == old(n + Uncounted(spots))
      ensures cn == null ==> Uncounted(spots) == 0
      ensures n > old(n) || cn == null
    {
      hide SpotsHeld, SpotNodes, Shallow, Holds, Ino, Uncounted;
      ghost var total := n + Uncounted(spots);
      ghost var x := PopMany(total);
      assert AllSpots(spots);
      ct := if x.open then x.tree.right else Leaf;
      assert allocated(Nodes(ct));
      LeafHeld();
      Uncover(spots, Spot(x.tree, false));
      cn := Enter(x);
    }

    method PopMany(ghost total: nat) returns (ghost x: Spot)
      requires Tracked() && spots != [] && SpotsHeld(spots) && n + Uncounted(spots) == total
      modifies this`pathi, this`spots, this`n, pass
      ensures JustOff(x) && SpotsHeld(spots) && (right[pathi] == null ==> spots == [])
      ensures x.open ==> Holds(x.tree.right, right[pathi]) && n > old(n)
      ensures n + Uncounted(spots) + (if x.open then |Ino(x.tree.right)| else 0) == total
    {
      hide SpotsHeld, SpotNodes, Shallow, Holds, Ino, Uncounted;
      x := PopOne(total);
      while pathi > 0 && right[pathi] == null
        invariant JustOff(x) && SpotsHeld(spots)
        invariant x.open ==> Holds(x.tree.right, right[pathi])
        invariant n + Uncounted(spots) + (if x.open then |Ino(x.tree.right)| else 0) == total
        invariant n >= old(n) && (x.open ==> n > old(n))
        decreases pathi
      {
        LeafHeld();
        if x.open { RootIs(x.tree.right, null); }
        x := PopOne(total);
      }
    }
  }

  lemma LeafHeld()
    ensures Holds(Leaf, null) && Ino(Leaf) == [] && AllSpots([]) && Uncounted([]) == 0
  {
  }

  lemma SpotClosed(ss: seq<Spot>, t: Tree)
    requires AllSpots(ss) && SpotsHeld(ss) && t.Branch? && Shallow(ss) && |ss| + Height(t) < MAX_TREE_DEEP
    ensures var ss' := ss + [Spot(t, false)];
            AllSpots(ss') && SpotsHeld(ss') && Shallow(ss') && |ss'| < MAX_TREE_DEEP
  {
    var ss' := ss + [Spot(t, false)];
    forall i | 0 <= i < |ss'| && ss'[i].open ensures Holds(ss'[i].tree.right, Root(ss'[i].tree.right)) {
      if i < |ss| { assert ss'[i] == ss[i]; }
    }
  }

  /** Counts the nodes; the path never outgrows its fixed arrays. */
  method Length(root: Node?, ghost tt: Tree) returns (n: nat)
    requires Holds(tt, root) && Height(tt) < MAX_TREE_DEEP
    ensures n == |Ino(tt)|
  {
    assert allocated(Nodes(tt));
    RootIs(tt, root);
    hide SpotsHeld, Holds;
    var it := new Counter();
    var cn := root;
    ghost var ct := tt;
    while cn != null
      invariant fresh(it) && fresh(it.path) && fresh(it.right) && fresh(it.pass)
      invariant it.Tracked() && SpotsHeld(it.spots) && Holds(ct, cn) && |it.spots| + Height(ct) < MAX_TREE_DEEP
      invariant it.n + |Ino(ct)| + Uncounted(it.spots) == |Ino(tt)|
      invariant cn == null ==> Uncounted(it.spots) == 0 && ct.Leaf?
      decreases cn != null, |Ino(tt)| - it.n
    {
      it.PushDown(cn, ct);
      cn, ct := it.PopUp();
      RootIs(ct, cn);
    }
    n := it.n;
  }

  lemma SpotAdded(ss: seq<Spot>, ct: Tree, cn: Node)
    requires AllSpots(ss) && SpotsHeld(ss) && ct.Branch? && Holds(ct, cn)
    requires Shallow(ss) && |ss| + Height(ct) < MAX_TREE_DEEP
    ensures var ss' := ss + [Spot(ct, true)];
            AllSpots(ss') && SpotsHeld(ss') && Shallow(ss') && |ss'| < MAX_TREE_DEEP
    ensures cn == ct.node && cn.right == Root(ct.right)
  {
    RootIs(ct.right, cn.right);
    var ss' := ss + [Spot(ct, true)];
    forall i | 0 <= i < |ss'| && ss'[i].open ensures Holds(ss'[i].tree.right, Root(ss'[i].tree.right)) {
      if i < |ss| { assert ss'[i] == ss[i]; }
    }
  }

  lemma RootIs(t: Tree, root: Node?)
    requires Holds(t, root)
    ensures root == Root(t) && (t.Branch? ==> t.node in Nodes(t))
  {
  }

  lemma Added(t: Tree, x: Node) returns (i: nat)
    requires Sorted(Ino(t)) && Balanced(t) && !IsRed(t) && Absent(Ino(t), x.elem)
    ensures var t' := AddRec(t, x);
            && Apart(t') && Nodes(t') == Nodes(t) + {x}
            && PutAt(Ino(t), x, i, Ino(RbTree.Add(t, x))) && Sorted(Ino(RbTree.Add(t, x)))
            && Balanced(RbTree.Add(t, x)) && !IsRed(RbTree.Add(t, x))
  {
    var t' := AddRec(t, x);
    i := AddRecPuts(t, x);
    AddBalances(t, x);
    PutStaysSorted(Ino(t), x, i, Ino(t'));
    SortedApart(t');
    PaintKeeps(t', Black);
    PutHas(Ino(t), x, i, Ino(t'));
  }

  lemma Deleted(t: Tree, x: Node) returns (i: nat)
    requires Sorted(Ino(t)) && Balanced(t) && !IsRed(t) && x in Ino(t)
    ensures var t' := DeleteRec(t, x).tree;
            && Apart(t') && Nodes(t') <= Nodes(t)
            && TakenAt(Ino(t), x, i, Ino(RbTree.Delete(t, x))) && Sorted(Ino(RbTree.Delete(t, x)))
            && Balanced(RbTree.Delete(t, x)) && !IsRed(RbTree.Delete(t, x))
  {
    var t' := DeleteRec(t, x).tree;
    i := DeleteRecTakes(t, x);
    DeleteBalances(t, x);
    TakeStaysSorted(Ino(t), x, i, Ino(t'));
    SortedApart(t');
    if t'.Branch? { PaintKeeps(t', Black); }
  }

  // ---------- release ----------

  lemma DistinctLast(init: seq<Node>, last: Node)
    ensures Distinct(init + [last]) <==> Distinct(init) && last !in init
  {
    var s := init + [last];
    assert s[|init|] == last;
    assert forall i :: 0 <= i < |init| ==> s[i] == init[i];
  }

  lemma {:induction false} DistinctCounts(s: seq<Node>)
    ensures Distinct(s) <==> forall x :: multiset(s)[x] <= 1
  {
    if s != [] {
      var init, last := s[..|s| - 1], s[|s| - 1];
      DistinctCounts(init);
      assert s == init + [last];
      DistinctLast(init, last);
      assert forall x :: multiset(s)[x] == multiset(init)[x] + if x == last then 1 else 0;
      assert multiset(s)[last] == multiset(init)[last] + 1;
    }
  }

  ghost function SetOf(s: seq<Node>): set<Node> { set n | n in s }

  /** Every order visits each node exactly once. */
  lemma WalkOnce(order: nat, t: Tree)
    requires Apart(t)
    ensures Distinct(Walk(order, t)) && SetOf(Walk(order, t)) == Nodes(t)
  {
    WalkSet(order, t);
    WalkVisitsAll(order, t);
    DistinctCounts(Ino(t));
    DistinctCounts(Walk(order, t));
  }

  lemma WalkSet(order: nat, t: Tree)
    ensures SetOf(Walk(order, t)) == Nodes(t)
  {
    var a, b := SetOf(Walk(order, t)), Nodes(t);
    forall n | n in a ensures n in b { WalkHas(order, t, n); }
    forall n | n in b ensures n in a { WalkHas(order, t, n); }
  }

  /** A walk `all`, of which `done` has been yielded and `ahead` is to come. */
  ghost predicate Halfway(done: seq<Node>, ahead: seq<Node>, all: seq<Node>) { done + ahead == all }

  lemma Ends(all: seq<Node>)
    ensures Halfway([], all, all)
  {
  }

  lemma AllDone(done: seq<Node>, all: seq<Node>)
    requires Halfway(done, [], all)
    ensures done == all
  {
  }

  lemma OneOn(done: seq<Node>, n: Node, ahead: seq<Node>, all: seq<Node>)
    requires Halfway(done, [n] + ahead, all)
    ensures Halfway(done + [n], ahead, all)
    ensures |done| < |all|
  {
    assert done + [n] + ahead == done + ([n] + ahead);
  }

  /** No node of `s` keeps its key and value. */
  ghost predicate Stripped(s: set<Node>)
    reads s`stripped
  {
    forall n :: n in s ==> n.stripped
  }

  /**
    Both loops of the release: the keys and values of all nodes in key order, then the
    nodes themselves, each freed as it is yielded and none before its key and value are.
    */
  method ParamsFree(root: Node?, ghost tt: Tree) returns (ghost cleared: seq<Node>, ghost freed: seq<Node>)
    requires Holds(tt, root) && Apart(tt) && Height(tt) <= MAX_TREE_DEEP
    modifies Nodes(tt)
    ensures cleared == Ino(tt)
    ensures freed == Walk(POSTORDER, tt) && Distinct(freed) && SetOf(freed) == Nodes(tt)
  {
    assert allocated(Nodes(tt));
    InorderIsIno(tt);
    WalkOnce(POSTORDER, tt);
    cleared := Clear(root, tt);
    freed := FreeNodes(root, tt);
  }

  /** Releases key and value, unless that has been done. */
  method Strip(n: Node)
    modifies n`stripped
    ensures n.stripped
  {
    if !n.stripped { n.stripped := true; }
  }

  method Clear(root: Node?, ghost tt: Tree) returns (ghost cleared: seq<Node>)
    requires Holds(tt, root) && Height(tt) <= MAX_TREE_DEEP
    modifies Nodes(tt)`stripped
    ensures cleared == Walk(INORDER, tt) && Stripped(Nodes(tt))
  {
    cleared := [];
    assert allocated(Nodes(tt));
    WalkSet(INORDER, tt);
    ghost var all := Walk(INORDER, tt);
    hide Walk, Intact, AllIntact, Fits, Holds, Todo, Needs, NeedsOf, Nodes, SetOf, Halfway, Stripped;
    Ends(all);
    NoneStripped();
    var it := new TreeIterator();
    it.Init(root, INORDER, tt);
    while it.currentelem != null
      invariant fresh(it) && fresh(it.path) && fresh(it.pass)
      invariant it.Valid() && Halfway(cleared, it.Ahead(), all) && |cleared| <= |all|
      invariant Stripped(SetOf(cleared))
      decreases |all| - |cleared|
    {
      var dp: Node := it.currentelem;
      InAll(cleared, dp, Todo(it.order, it.frames), all);
      ClearCurrent(it, SetOf(cleared));
      OneOn(cleared, dp, it.Ahead(), all);
      SetOfMore(cleared, dp);
      cleared := cleared + [dp];
    }
    AllDone(cleared, all);
  }

  /** Releases the key and value of the current node and goes on. */
  method ClearCurrent(it: TreeIterator, ghost done: set<Node>)
    requires it.Valid() && it.currentelem != null && Stripped(done)
    modifies it`pathi, it`frames, it`currentelem, it.path, it.pass, it.currentelem`stripped
    ensures it.Valid() && old(it.Ahead()) == [old(it.currentelem)] + it.Ahead()
    ensures Stripped(done + {old(it.currentelem)})
  {
    hide Intact, AllIntact, Fits, Todo, Needs, NeedsOf;
    assert allocated(done) && allocated(Needs(it.frames));
    Strip(it.currentelem);
    it.Next({});
  }

  lemma NoneStripped()
    ensures SetOf([]) == {} && Stripped({})
  {
  }

  lemma SetOfMore(s: seq<Node>, n: Node)
    ensures SetOf(s + [n]) == SetOf(s) + {n}
  {
  }

  method FreeNodes(root: Node?, ghost tt: Tree) returns (ghost freed: seq<Node>)
    requires Holds(tt, root) && Apart(tt) && Height(tt) <= MAX_TREE_DEEP && Stripped(Nodes(tt))
    modifies Nodes(tt)
    ensures freed == Walk(POSTORDER, tt)
  {
    freed := [];
    assert allocated(Nodes(tt));
    WalkOnce(POSTORDER, tt);
    ghost var all := Walk(POSTORDER, tt);
    hide Walk, Intact, AllIntact, Fits, Holds, Apart, Todo, Needs, NeedsOf, Distinct, Nodes, SetOf, Halfway, Stripped;
    Ends(all);
    var it := new TreeIterator();
    it.Init(root, POSTORDER, tt);
    while it.currentelem != null
      invariant fresh(it) && fresh(it.path) && fresh(it.pass)
      invariant it.Valid() && it.order == POSTORDER && Halfway(freed, it.Ahead(), all) && |freed| <= |all|
      invariant Stripped(SetOf(it.Ahead()))
      decreases |all| - |freed|
    {
      ghost var n: Node := it.currentelem;
      InAll(freed, n, Todo(POSTORDER, it.frames), all);
      FreeCurrent(it, freed, all);
      OneOn(freed, n, it.Ahead(), all);
      freed := freed + [n];
    }
    AllDone(freed, all);
  }

  lemma NotBehind(done: seq<Node>, n: Node, ahead: seq<Node>, all: seq<Node>)
    requires Distinct(all) && Halfway(done, [n] + ahead, all)
    ensures n !in SetOf(ahead) && n in SetOf([n] + ahead) && SetOf(ahead) <= SetOf([n] + ahead)
  {
    assert all[|done|] == n;
    assert forall i :: 0 <= i < |ahead| ==> all[|done| + 1 + i] == ahead[i] == ([n] + ahead)[i + 1];
  }

  lemma InAll(done: seq<Node>, n: Node, ahead: seq<Node>, all: seq<Node>)
    requires Halfway(done, [n] + ahead, all)
    ensures n in SetOf(all) && |done| < |all|
  {
    assert all[|done|] == n;
  }

  /** Frees the current node and goes on; nothing freed so far is looked into. */
  method FreeCurrent(it: TreeIterator, ghost freed: seq<Node>, ghost all: seq<Node>)
    requires it.Valid() && it.currentelem != null && it.order == POSTORDER && Stripped(SetOf(it.Ahead()))
    requires Distinct(all) && Halfway(freed, it.Ahead(), all)
    modifies it`pathi, it`frames, it`currentelem, it.path, it.pass, it.currentelem
    ensures it.Valid() && old(it.Ahead()) == [old(it.currentelem)] + it.Ahead()
    ensures Stripped(SetOf(it.Ahead()))
  {
    hide Intact, AllIntact, Fits, Todo, Needs, NeedsOf, Distinct, SetOf, Halfway;
    var dp: Node := it.currentelem;
    ghost var ahead := Todo(POSTORDER, it.frames);
    OutOfReach(freed, dp, all, it.frames);
    NotBehind(freed, dp, ahead, all);
    assert allocated(Needs(it.frames)) && allocated(SetOf([dp] + ahead));
    Release(dp);
    it.Next(SetOf(freed + [dp]));
    assert it.Ahead() == ahead by { TailOf(dp, it.Ahead(), ahead); }
  }

  lemma TailOf(n: Node, a: seq<Node>, b: seq<Node>)
    requires [n] + a == [n] + b
    ensures a == b
  {
    assert a == ([n] + a)[1..] && b == ([n] + b)[1..];
  }

  /** Freed memory may hold anything afterwards. */
  method Release(n: Node)
    requires n.stripped
    modifies n
  {
    n.left, n.right, n.color, n.stripped := *, *, *, *;
  }

  /** What has been yielded is out of the iterator's reach. */
  lemma OutOfReach(freed: seq<Node>, n: Node, all: seq<Node>, fs: seq<Frame>)
    requires AllProper(fs) && Distinct(all) && Halfway(freed, [n] + Todo(POSTORDER, fs), all)
    ensures n in SetOf(all) && n in SetOf(freed + [n]) && SetOf(freed + [n]) !! Needs(fs)
  {
    TodoCoversNeeds(fs);
    var todo := Todo(POSTORDER, fs);
    hide Todo, Needs;
    assert forall i :: 0 <= i < |freed + [n]| ==> (freed + [n])[i] == all[i];
    assert forall j :: 0 <= j < |todo| ==> todo[j] == all[|freed| + 1 + j];
    assert forall x :: x in freed + [n] ==> x !in todo;
  }
}
