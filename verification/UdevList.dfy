/**
  Lists of named entries: a ring of nodes around the list head, and for lists with
  unique names a sorted array of the same entries.  The ring is stated through the
  sequence of its entries: following `next` from the head gives the sequence, and
  following `prev` gives it backwards.  Where there is an array it is that sequence.
  */
module UdevList {
  import opened RbTree

  datatype Option<T> = None | Some(value: T)

  class ListNode {
    const name: string
    var value: Option<string>
    var next: ListNode?
    var prev: ListNode?

    constructor (name: string, value: Option<string>)
      ensures this.name == name && this.value == value && next == null && prev == null
    {
      this.name, this.value, next, prev := name, value, null, null;
    }
  }

  /** The node at place `i` of the ring; the head is before the first and behind the last entry. */
  ghost function Place(head: ListNode, order: seq<ListNode>, i: int): ListNode
    requires -1 <= i <= |order|
  {
    if i == -1 || i == |order| then head else order[i]
  }

  /** The nodes are different from each other and from the head. */
  ghost predicate Distinct(head: ListNode, order: seq<ListNode>) {
    head !in order && forall i, j :: 0 <= i < j < |order| ==> order[i] != order[j]
  }

  /** Following the pointers goes round the ring in both directions. */
  ghost predicate Ring(head: ListNode, order: seq<ListNode>)
    reads {head}, set n | n in order
  {
    forall i :: -1 <= i < |order| ==>
      Place(head, order, i).next == Place(head, order, i + 1) && Place(head, order, i + 1).prev == Place(head, order, i)
  }

  function Inserted(order: seq<ListNode>, k: nat, n: ListNode): seq<ListNode>
    requires k <= |order|
  {
    order[..k] + [n] + order[k..]
  }

  function Removed(order: seq<ListNode>, k: nat): seq<ListNode>
    requires k < |order|
  {
    order[..k] + order[k + 1..]
  }

  lemma PlaceInserted(head: ListNode, order: seq<ListNode>, k: nat, n: ListNode, i: int)
    requires k <= |order| && -1 <= i <= |order| + 1
    ensures Place(head, Inserted(order, k, n), i) ==
      if i < k then Place(head, order, i) else if i == k then n else Place(head, order, i - 1)
  {
  }

  lemma PlaceDiffers(head: ListNode, order: seq<ListNode>, i: int, j: int)
    requires Distinct(head, order) && -1 <= i < j <= |order|
    ensures Place(head, order, i) == Place(head, order, j) <==> i == -1 && j == |order|
  {
  }

  method InsertBetween(n: ListNode, prev: ListNode, next: ListNode, head: ListNode, ghost order: seq<ListNode>,
                       ghost k: nat)
    requires Distinct(head, order) && n != head && n !in order && Ring(head, order) && k <= |order|
    requires prev == Place(head, order, k - 1) && next == Place(head, order, k)
    modifies n`next, n`prev, prev`next, next`prev
    ensures Ring(head, Inserted(order, k, n)) && Distinct(head, Inserted(order, k, n))
  {
    next.prev := n;
    n.next := next;
    n.prev := prev;
    prev.next := n;
    ghost var r := Inserted(order, k, n);
    forall i | -1 <= i < |r|
      ensures Place(head, r, i).next == Place(head, r, i + 1) && Place(head, r, i + 1).prev == Place(head, r, i)
    {
      PlaceInserted(head, order, k, n, i);
      PlaceInserted(head, order, k, n, i + 1);
      var j := if i < k then i else i - 1;
      if i != k - 1 && i != k {
        if j < k - 1 { PlaceDiffers(head, order, j, k - 1); } else { PlaceDiffers(head, order, k - 1, j); }
        if j + 1 < k { PlaceDiffers(head, order, j + 1, k); } else if k < j + 1 { PlaceDiffers(head, order, k, j + 1); }
      }
    }
  }

  lemma PlaceRemoved(head: ListNode, order: seq<ListNode>, k: nat, i: int)
    requires k < |order| && -1 <= i < |order|
    ensures Place(head, Removed(order, k), i) == if i < k then Place(head, order, i) else Place(head, order, i + 1)
  {
  }

  method NodeRemove(entry: ListNode, head: ListNode, ghost order: seq<ListNode>, ghost k: nat)
    requires Distinct(head, order) && Ring(head, order) && k < |order| && order[k] == entry
    requires entry.prev == Place(head, order, k - 1) && entry.next == Place(head, order, k + 1)
    modifies entry`next, entry`prev, entry.prev`next, entry.next`prev
    ensures Ring(head, Removed(order, k)) && Distinct(head, Removed(order, k)) && entry !in Removed(order, k)
  {
    var prev, next := entry.prev, entry.next;
    next.prev := prev;
    prev.next := next;
    entry.prev := null;
    entry.next := null;
    ghost var r := Removed(order, k);
    forall i | -1 <= i < |r|
      ensures Place(head, r, i).next == Place(head, r, i + 1) && Place(head, r, i + 1).prev == Place(head, r, i)
    {
      PlaceRemoved(head, order, k, i);
      PlaceRemoved(head, order, k, i + 1);
      var j := if i < k then i else i + 1;
      if i != k - 1 {
        if j < k - 1 { PlaceDiffers(head, order, j, k - 1); } else { PlaceDiffers(head, order, k - 1, j); }
        if j < k { PlaceDiffers(head, order, j + 1, k + 1); }
        if k < j { PlaceDiffers(head, order, k + 1, j + 1); }
        if j < k { PlaceDiffers(head, order, j, k); } else if j > k { PlaceDiffers(head, order, k, j); }
        if j + 1 < k { PlaceDiffers(head, order, j + 1, k); } else if j + 1 > k { PlaceDiffers(head, order, k, j + 1); }
      }
    }
  }

  // ---------- sorted names ----------

  ghost predicate ByName(s: seq<ListNode>) { forall i, j :: 0 <= i < j < |s| ==> Compare(s[i].name, s[j].name) < 0 }

  /** Binary search: the index of the name, or -1 less the place where it would go. */
  method ListSearch(entries: seq<ListNode>, name: string) returns (r: int)
    requires ByName(entries)
    ensures r >= 0 ==> r < |entries| && entries[r].name == name
    ensures r < 0 ==>
      && -(r + 1) <= |entries|
      && (forall i :: 0 <= i < -(r + 1) ==> Compare(entries[i].name, name) < 0)
      && (forall i :: -(r + 1) <= i < |entries| ==> Compare(name, entries[i].name) < 0)
  {
    hide Compare;
    var first, last := 0, |entries|;
    while first < last
      invariant 0 <= first <= last <= |entries|
      invariant forall i :: 0 <= i < first ==> Compare(entries[i].name, name) < 0
      invariant forall i :: last <= i < |entries| ==> Compare(name, entries[i].name) < 0
    {
      var i := (first + last) / 2;
      var cmp := Compare(name, entries[i].name);
      CompareIsTotal(name, entries[i].name);
      if cmp < 0 {
        forall j | i <= j < |entries| ensures Compare(name, entries[j].name) < 0 {
          if j > i { CompareIsTransitive(name, entries[i].name, entries[j].name); }
        }
        last := i;
      } else if cmp > 0 {
        forall j | 0 <= j <= i ensures Compare(entries[j].name, name) < 0 {
          if j < i { CompareIsTransitive(entries[j].name, entries[i].name, name); }
        }
        first := i + 1;
      } else {
        return i;
      }
    }
    r := -(first + 1);
  }

  lemma InsertedSorted(s: seq<ListNode>, k: nat, n: ListNode)
    requires ByName(s) && k <= |s|
    requires forall i :: 0 <= i < k ==> Compare(s[i].name, n.name) < 0
    requires forall i :: k <= i < |s| ==> Compare(n.name, s[i].name) < 0
    ensures ByName(Inserted(s, k, n))
  {
    hide Compare;
    var r := Inserted(s, k, n);
    assert r[k] == n;
    assert forall i :: 0 <= i < |r| && i != k ==> r[i] == s[if i < k then i else i - 1];
  }

  lemma RemovedSorted(s: seq<ListNode>, k: nat)
    requires ByName(s) && k < |s|
    ensures ByName(Removed(s, k))
  {
    hide Compare;
    assert forall i :: 0 <= i < |s| - 1 ==> Removed(s, k)[i] == s[if i < k then i else i + 1];
  }

  lemma SortedNames(s: seq<ListNode>, i: nat, j: nat)
    requires ByName(s) && i < |s| && j < |s| && s[i].name == s[j].name
    ensures i == j
  {
    CompareIsTotal(s[i].name, s[j].name);
  }

  // ---------- the list ----------

  class List {
    const head: ListNode
    const unique: bool
    var entries: seq<ListNode>
    var hasArray: bool
    ghost var order: seq<ListNode>

    ghost predicate Valid()
      reads this, head, set n | n in order
    {
      && Distinct(head, order) && Ring(head, order)
      && (unique ==> ByName(order) && entries == order && (entries != [] ==> hasArray))
      && (!unique ==> !hasArray && entries == [])
    }

    /** Names and values; in a list with unique names this is a map. */
    ghost function Bindings(): set<(string, Option<string>)>
      reads this, set n | n in order
    {
      set n | n in order :: (n.name, n.value)
    }

    lemma NamesAreKeys(n: ListNode, m: ListNode)
      requires Valid() && unique && n in order && m in order && n.name == m.name
      ensures n == m
    {
      var i :| 0 <= i < |order| && order[i] == n;
      var j :| 0 <= j < |order| && order[j] == m;
      SortedNames(order, i, j);
    }

    constructor (unique: bool)
      ensures Valid() && this.unique == unique && order == [] && fresh(head)
    {
      var h := new ListNode("", None);
      this.head, this.unique, entries, hasArray, order := h, unique, [], false, [];
      new;
      head.next := head;
      head.prev := head;
    }

    /** In a list with unique names, adding updates the map. */
    method AddBinding(name: string, value: Option<string>) returns (entry: ListNode)
      requires Valid() && unique
      modifies this`entries, this`hasArray, this`order, head, set n | n in order
      ensures Valid()
      ensures Bindings() == (set b | b in old(Bindings()) && b.0 != name) + {(name, value)}
    {
      ghost var k;
      ghost var was := order;
      entry, k := EntryAdd(name, value);
      forall n | n in order && n.name == name ensures n == entry { NamesAreKeys(n, entry); }
      if fresh(entry) { InsertedHas(was, k, entry); }
      hide Inserted;
      assert forall n :: n in order <==> n in was || n == entry;
    }

    /** Adds an entry, or gives the entry of that name a new value. */
    method EntryAdd(name: string, value: Option<string>) returns (entry: ListNode, ghost k: nat)
      requires Valid()
      modifies this`entries, this`hasArray, this`order, head, set n | n in order
      ensures Valid() && entry.name == name && entry.value == value && k < |order| && order[k] == entry
      ensures fresh(entry) ==>
                && k <= |old(order)| && order == Inserted(old(order), k, entry)
                && (!unique ==> k == |old(order)|)
      ensures !fresh(entry) ==> unique && order == old(order)
      ensures forall n :: n in old(order) && n != entry ==> n.value == old(n.value)
    {
      hide Compare, Ring, Distinct, ByName, Inserted;
      assert allocated(set n | n in order);
      var i := -1;
      if unique {
        i := ListSearch(entries, name);
        if i >= 0 {
          entry, k := entries[i], i;
          SetValue(entry, value);
          return;
        }
        i := -i - 1;
      }
      k := if unique then i else |order|;
      entry := AddNew(name, value, i, k);
      InsertedAt(old(order), k, entry);
    }

    method SetValue(entry: ListNode, value: Option<string>)
      requires Valid()
      modifies entry`value
      ensures Valid() && entry.value == value
    {
      entry.value := value;
    }

    /** Adds an entry of a new name, at place `i` of the array if there is one. */
    method AddNew(name: string, value: Option<string>, i: int, ghost k: nat) returns (entry: ListNode)
      requires Valid() && k <= |order| && if unique then i == k else k == |order|
      requires unique ==> forall j :: 0 <= j < k ==> Compare(order[j].name, name) < 0
      requires unique ==> forall j :: k <= j < |order| ==> Compare(name, order[j].name) < 0
      modifies this`entries, this`hasArray, this`order, head`next, head`prev, (set n | n in order)`next,
        (set n | n in order)`prev
      ensures Valid() && fresh(entry) && entry.name == name && entry.value == value
      ensures order == Inserted(old(order), k, entry)
    {
      hide Compare;
      assert allocated(set n | n in order);
      entry := new ListNode(name, value);
      if unique {
        InsertedSorted(order, k, entry);
        var next := if i < |entries| then entries[i] else head;
        Link(entry, next, k);
        entries := entries[..i] + [entry] + entries[i..];
        hasArray := true;
      } else {
        Link(entry, head, k);
      }
      order := Inserted(order, k, entry);
    }

    /** Puts a new node in front of `next`. */
    method Link(n: ListNode, next: ListNode, ghost k: nat)
      requires Distinct(head, order) && Ring(head, order) && k <= |order| && next == Place(head, order, k)
      requires n != head && n !in order
      modifies n`next, n`prev, head`next, head`prev, (set m | m in order)`next, (set m | m in order)`prev
      ensures Ring(head, Inserted(order, k, n)) && Distinct(head, Inserted(order, k, n))
    {
      assert Place(head, order, k).prev == Place(head, order, k - 1) by {
        assert Place(head, order, (k - 1) + 1) == Place(head, order, k);
      }
      InsertBetween(n, next.prev, next, head, order, k);
    }

    /** Takes an entry out of the array, if there is one, and out of the ring. */
    method EntryDelete(entry: ListNode, ghost k: nat)
      requires Valid() && k < |order| && order[k] == entry
      modifies this`entries, this`order, head`next, head`prev, (set n | n in order)`next, (set n | n in order)`prev
      ensures Valid() && order == Removed(old(order), k)
      ensures unique ==> Bindings() == set b | b in old(Bindings()) && b.0 != entry.name
    {
      ghost var was := order;
      if unique { forall n | n in order && n.name == entry.name ensures n == entry { NamesAreKeys(n, entry); } }
      RemovedHas(order, k, head);
      if hasArray {
        var i := ListSearch(entries, entry.name);
        assert i >= 0 ==> i == k by { if i >= 0 { SortedNames(order, i, k); } }
        assert i >= 0 by { NotMissing(order, k, i); }
        entries := entries[..i] + entries[i + 1..];
      }
      if unique { RemovedSorted(order, k); }
      Unlink(entry, k);
      order := Removed(order, k);
    }

    method Unlink(entry: ListNode, ghost k: nat)
      requires Distinct(head, order) && Ring(head, order) && k < |order| && order[k] == entry
      modifies head`next, head`prev, (set m | m in order)`next, (set m | m in order)`prev
      ensures Ring(head, Removed(order, k)) && Distinct(head, Removed(order, k))
    {
      assert Place(head, order, k) == entry;
      assert entry.next == Place(head, order, k + 1);
      assert entry.prev == Place(head, order, k - 1) by { assert Place(head, order, (k - 1) + 1) == entry; }
      NodeRemove(entry, head, order, k);
    }

    /** The first entry. */
    method GetEntry() returns (r: ListNode?)
      requires Valid()
      ensures r == if order == [] then null else order[0]
    {
      assert Place(head, order, -1).next == Place(head, order, 0);
      if head.next == head {
        return null;
      }
      r := head.next;
    }

    method GetNext(entry: ListNode, ghost k: nat) returns (r: ListNode?)
      requires Valid() && k < |order| && order[k] == entry
      ensures r == if k + 1 == |order| then null else order[k + 1]
    {
      assert Place(head, order, k).next == Place(head, order, k + 1);
      if entry.next == head {
        return null;
      }
      r := entry.next;
    }

    /** Finds the entry of a name, in a list with unique names. */
    method GetByName(name: string) returns (r: ListNode?)
      requires Valid()
      ensures r != null ==> unique && r in order && r.name == name
      ensures r == null && unique ==> forall n :: n in order ==> n.name != name
    {
      if !unique {
        return null;
      }
      var i := ListSearch(entries, name);
      if i < 0 {
        MissingName(entries, name, -(i + 1));
        return null;
      }
      r := entries[i];
    }

    /** Deletes all entries. */
    method Cleanup()
      requires Valid()
      modifies this, head, set n | n in order
      ensures Valid() && order == []
    {
      entries := [];
      hasArray := false;
      ghost var nodes := set n | n in order;
      assert Place(head, order, -1).next == Place(head, order, 0);
      var loop := head.next;
      while loop != head
        invariant Distinct(head, order) && Ring(head, order) && loop == Place(head, order, 0)
        invariant entries == [] && !hasArray && (forall n :: n in order ==> n in nodes)
        decreases |order|
      {
        assert Place(head, order, 0).next == Place(head, order, 1);
        var tmp := loop.next;
        Unlink(loop, 0);
        order := Removed(order, 0);
        loop := tmp;
      }
    }
  }

  lemma InsertedHas(s: seq<ListNode>, k: nat, n: ListNode)
    requires k <= |s|
    ensures forall m :: m in Inserted(s, k, n) <==> m in s || m == n
  {
    assert s == s[..k] + s[k..];
  }

  lemma RemovedHas(s: seq<ListNode>, k: nat, head: ListNode)
    requires k < |s| && Distinct(head, s)
    ensures forall m :: m in Removed(s, k) <==> m in s && m != s[k]
  {
    var r := Removed(s, k);
    assert s == s[..k] + [s[k]] + s[k + 1..];
    assert forall i :: 0 <= i < |r| ==> r[i] == s[if i < k then i else i + 1];
  }

  lemma InsertedAt(s: seq<ListNode>, k: nat, n: ListNode)
    requires k <= |s|
    ensures |Inserted(s, k, n)| == |s| + 1 && Inserted(s, k, n)[k] == n
  {
  }

  lemma NotMissing(s: seq<ListNode>, k: nat, r: int)
    requires ByName(s) && k < |s|
    requires r < 0 ==> -(r + 1) <= |s| && (forall i :: 0 <= i < -(r + 1) ==> Compare(s[i].name, s[k].name) < 0)
    requires r < 0 ==> forall i :: -(r + 1) <= i < |s| ==> Compare(s[k].name, s[i].name) < 0
    ensures r >= 0
  {
    CompareIsTotal(s[k].name, s[k].name);
  }

  lemma MissingName(s: seq<ListNode>, name: string, k: nat)
    requires k <= |s| && (forall i :: 0 <= i < k ==> Compare(s[i].name, name) < 0)
    requires forall i :: k <= i < |s| ==> Compare(name, s[i].name) < 0
    ensures forall n :: n in s ==> n.name != name
  {
    CompareIsTotal(name, name);
  }
}
