/** Three places where priorityqueue.h does not do what its comments and its
    other operations evidently intend, each shown on the code as written and
    set beside a corrected definition with the intended property proved. */
module Findings {
  import opened Trees
  import opened Insertion
  import opened Removal
  import opened Copying
  import opened Equality

  // ----- `_equal` never compares tree-resident priorities (line 182) -----

  /** Two one-node queues holding the same value under different priorities
      are reported equal by `operator==`, though they list different
      entries. */
  lemma KeyIgnoresPriority<T>(v: T)
    ensures Key(Build([Entry(1, v)])) == Key(Build([Entry(2, v)]))
    ensures Elements(Build([Entry(1, v)])) != Elements(Build([Entry(2, v)]))
  {
    assert [Entry(1, v)][..0] == [];
    assert [Entry(2, v)][..0] == [];
    assert Elements(Build([Entry(1, v)]))[0].priority == 1;
  }

  /** What `_equal` evidently means to compare: `Key` with the priority of
      every tree-resident node. */
  datatype FullShape<T> = Leaf | Branch(priority: int, value: T, dup: bool, links: seq<Entry<T>>, left: FullShape<T>, right: FullShape<T>)

  function FixedKey<T>(t: Tree<T>): (r: FullShape<T>)
    ensures r.Leaf? <==> t.Empty?
    ensures r.Branch? ==> r.priority == t.item.priority
  {
    if t.Empty? then Leaf
    else Branch(t.item.priority, t.item.value, t.item.dup, Entries(t.chain), FixedKey(t.left), FixedKey(t.right))
  }

  /** With priorities compared, queues reported equal list the same
      entries. */
  lemma {:induction false} FixedKeyElements<T>(a: Tree<T>, b: Tree<T>)
    requires FixedKey(a) == FixedKey(b)
    ensures Elements(a) == Elements(b)
  {
    if a.Node? {
      FixedKeyElements(a.left, b.left);
      FixedKeyElements(a.right, b.right);
      assert Group(a) == Group(b) by {
        assert Group(a)[1..] == Group(b)[1..];
      }
    }
  }

  // ----- chain-head promotion keeps `dup` and a stale `parent` (lines 340-345) -----

  /** The promotion as evidently intended: the chain head becomes a
      tree-resident node (`dup` false) and the right subtree now hangs from
      it, so its `parent` stays a live link. Like the removal as written, it
      drops exactly the first entry. */
  function ReplacementFixed<T>(m: Tree<T>): (r: Tree<T>)
    requires m.Node? && m.left.Empty?
    ensures Elements(r) == Elements(m)[1..]
    ensures m.chain != [] ==> r.Node? && !r.item.dup && r.item.up == m.item.up && r.right == m.right
  {
    if m.chain != [] then
      var n := Node(m.chain[0].(dup := false, up := m.item.up), m.chain[1..], m.left, m.right);
      assert Group(n)[0] == Group(m)[1];
      assert Group(n)[1..] == Entries(m.chain[1..]);
      DropFirst(Group(m), Elements(m.right));
      n
    else Replacement(m)
  }

  /** The leftmost removal with the corrected promotion. */
  function RemoveMinFixed<T>(t: Tree<T>): (r: Tree<T>)
    requires t.Node?
    ensures Elements(r) == Elements(t)[1..]
  {
    if t.left.Empty? then ReplacementFixed(t)
    else
      var r := t.(left := RemoveMinFixed(t.left));
      assert Group(r) == Group(t);
      DropFirst3(Elements(t.left), Group(t), Elements(t.right));
      r
  }

  /** The corrected removal keeps the tree threaded in every case, so `next`
      keeps working after it. */
  lemma {:induction false} RemoveMinFixedThreaded<T>(t: Tree<T>, isRoot: bool)
    requires t.Node? && Threaded(t, isRoot)
    ensures Threaded(RemoveMinFixed(t), isRoot)
  {
    if t.left.Node? {
      RemoveMinFixedThreaded(t.left, false);
    } else if t.chain != [] {
      assert forall c <- RemoveMinFixed(t).chain :: c in t.chain;
    }
  }

  /** The smallest input that shows it: enqueue two values under one
      priority and dequeue once. The remaining node is tree-resident but
      still marked `dup`, so `next` would climb to its nullptr parent. */
  lemma PromotionExample<T>(a: T, b: T)
    ensures Threaded(Build([Entry(1, a), Entry(1, b)]), true)
    ensures !Threaded(RemoveMin(Build([Entry(1, a), Entry(1, b)])), true)
    ensures Threaded(RemoveMinFixed(Build([Entry(1, a), Entry(1, b)])), true)
  {
    var es := [Entry(1, a), Entry(1, b)];
    assert es[..1] == [Entry(1, a)] && [Entry(1, a)][..0] == [];
    var s := Build([Entry(1, a)]);
    assert s == Insert(Build([]), a, 1, NoParent);
    assert s == NewLeaf(a, 1, NoParent);
    var t := Build(es);
    assert t == Insert(s, b, 1, NoParent);
    assert t == Node(Cell(1, a, false, NoParent), [Cell(1, b, true, Owner)], Empty, Empty);
    assert RemoveMin(t).item.dup;
    RemoveMinFixedThreaded(t, true);
  }

  // ----- a copy made by `operator=` has no `parent` pointers (line 108) -----

  lemma {:induction false} CopyLeftmostDetached<T>(t: Tree<T>)
    requires t.Node?
    ensures Leftmost(CopyTree(t)).item.up == NoParent
  {
    if t.left.Node? {
      CopyLeftmostDetached(t.left);
    }
  }

  /** `dequeue` on a copy whose root has a left subtree makes the leftmost
      node's replacement the whole tree, since that node's `parent` is
      nullptr: every other node is dropped, while `size` goes down by one. */
  lemma CopyDequeueDrops<T>(t: Tree<T>)
    requires t.Node? && t.left.Node?
    ensures Count(Dequeued(CopyTree(t))) < Count(t) - 1
  {
    var c := CopyTree(t);
    CopyLeftmostDetached(t);
    assert Leftmost(c) == Leftmost(c.left);
    assert Count(c.left) == Count(t.left);
    assert Count(c) == Count(t);
  }

  /** The smallest input that shows it: enqueue priorities 2 then 1, copy,
      dequeue the copy: it is left empty instead of holding priority 2. */
  lemma CopyExample<T>(a: T, b: T)
    ensures Elements(Build([Entry(2, a), Entry(1, b)])) == [Entry(1, b), Entry(2, a)]
    ensures Elements(Dequeued(CopyTree(Build([Entry(2, a), Entry(1, b)])))) == []
  {
    var es := [Entry(2, a), Entry(1, b)];
    assert es[..1] == [Entry(2, a)] && [Entry(2, a)][..0] == [];
    var s := Build([Entry(2, a)]);
    assert s == Insert(Build([]), a, 2, NoParent);
    assert s == NewLeaf(a, 2, NoParent);
    var t := Build(es);
    assert t == Insert(s, b, 1, NoParent);
    assert !(s.item.priority < 1) && 1 < s.item.priority;
    assert t == s.(left := Insert(s.left, b, 1, Owner));
    assert Insert(Empty, b, 1, Owner) == NewLeaf(b, 1, Owner);
    assert t.left == NewLeaf(b, 1, Owner);
    var c := CopyTree(t);
    assert c.left == CopyTree(t.left);
    assert CopyLink<T>([]) == [];
    assert CopyTree(t.left) == Node(Cell(1, b, false, NoParent), [], CopyTree<T>(Empty), CopyTree<T>(Empty));
    assert c.left == Node(Cell(1, b, false, NoParent), [], Empty, Empty);
    assert Leftmost(c) == c.left;
    assert Dequeued(c) == Empty;
    assert Elements(t.left) == [Entry(1, b)];
  }

  /** The copy as evidently intended: every node points back at the node
      it hangs from and chain nodes keep `dup` set. */
  function CopyLinkFixed<T>(chain: seq<Cell<T>>): (r: seq<Cell<T>>)
    ensures |r| == |chain|
    ensures forall i :: 0 <= i < |r| ==> EntryOf(r[i]) == EntryOf(chain[i])
    ensures forall i :: 0 <= i < |r| ==> r[i].dup && r[i].up == Owner
  {
    if chain == [] then []
    else [Cell(chain[0].priority, chain[0].value, true, Owner)] + CopyLinkFixed(chain[1..])
  }

  lemma CopyLinkFixedKeeps<T>(chain: seq<Cell<T>>, k: int)
    ensures Entries(CopyLinkFixed(chain)) == Entries(chain)
    ensures forall c <- CopyLinkFixed(chain) :: c.dup && c.up == Owner
    ensures (forall c <- chain :: c.priority == k) ==> forall c <- CopyLinkFixed(chain) :: c.priority == k
  {
    var r := CopyLinkFixed(chain);
    forall c <- r ensures c.dup && c.up == Owner && ((forall x <- chain :: x.priority == k) ==> c.priority == k) {
      var i :| 0 <= i < |r| && r[i] == c;
      assert EntryOf(r[i]) == EntryOf(chain[i]);
      assert chain[i] in chain;
    }
  }

  function CopyFixed<T>(t: Tree<T>, isRoot: bool): (r: Tree<T>)
    ensures Elements(r) == Elements(t)
    ensures Threaded(r, isRoot)
  {
    if t.Empty? then Empty
    else
      var r := Node(Cell(t.item.priority, t.item.value, false, if isRoot then NoParent else Owner),
                    CopyLinkFixed(t.chain), CopyFixed(t.left, false), CopyFixed(t.right, false));
      CopyLinkFixedKeeps(t.chain, t.item.priority);
      assert Group(r) == Group(t);
      r
  }

  /** The corrected copy of an ordered tree is ordered. */
  lemma {:induction false} CopyFixedOrdered<T>(t: Tree<T>, isRoot: bool)
    requires Ordered(t)
    ensures Ordered(CopyFixed(t, isRoot))
  {
    if t.Node? {
      CopyFixedOrdered(t.left, false);
      CopyFixedOrdered(t.right, false);
      CopyLinkFixedKeeps(t.chain, t.item.priority);
    }
  }

  /** On the corrected copy `dequeue` removes exactly the first entry. */
  lemma CopyFixedDequeue<T>(t: Tree<T>)
    requires t.Node?
    ensures Elements(Dequeued(CopyFixed(t, true))) == Elements(t)[1..]
  {
    var c := CopyFixed(t, true);
    ThreadedLinked(c, true);
    LinkedDequeued(c);
  }
}
