/** What `dequeue` does to the tree (priorityqueue.h:322-395): the leftmost
    node is removed, its chain head promoted into its place if it has a chain,
    otherwise its right subtree (or nothing) spliced into its place. */
module Removal {
  import opened Trees

  /** A subtree whose root's `parent` pointed at a node that is now deleted. */
  function Orphaned<T>(t: Tree<T>): (r: Tree<T>)
    ensures Elements(r) == Elements(t)
  {
    if t.Node? && t.item.up == Owner then
      ReparentedKeeps(t, Freed);
      Reparented(t, Freed)
    else t
  }

  /** What takes the place of the leftmost node `m` once it is deleted
      (`m` is the node `_findMinimumNode` returns, so it has no left child).
      With a chain (lines 340-356) the chain head is promoted: it takes `m`'s
      parent pointer and children, but keeps its own `dup` flag (true) and
      the right child keeps pointing at `m`. Without a chain (lines 361-374)
      the right child takes `m`'s parent pointer; with no child either
      (lines 375-388) the place becomes nullptr. Whichever it is, exactly
      `m`'s own entry is gone and the parent pointer is handed on. */
  function Replacement<T>(m: Tree<T>): (r: Tree<T>)
    requires m.Node? && m.left.Empty?
    ensures Elements(r) == Elements(m)[1..]
    ensures r.Node? ==> r.item.up == m.item.up
    ensures r.Empty? <==> m.chain == [] && m.right.Empty?
  {
    if m.chain != [] then
      var n := Node(m.chain[0].(up := m.item.up), m.chain[1..], m.left, Orphaned(m.right));
      PromotedGroup(m);
      DropFirst(Group(m), Elements(m.right));
      n
    else if m.right.Node? then
      ReparentedKeeps(m.right, m.item.up);
      DropFirst(Group(m), Elements(m.right));
      Reparented(m.right, m.item.up)
    else
      Empty
  }

  /** The group of the promoted chain head is the removed node's group
      without its first entry. */
  lemma PromotedGroup<T>(m: Tree<T>)
    requires m.Node? && m.chain != []
    ensures Group(Node(m.chain[0].(up := m.item.up), m.chain[1..], m.left, Orphaned(m.right))) == Group(m)[1..]
  {
    var n := Node(m.chain[0].(up := m.item.up), m.chain[1..], m.left, Orphaned(m.right));
    assert Group(n)[0] == Group(m)[1];
    assert Group(n)[1..] == Entries(m.chain[1..]);
  }

  /** The tree with its leftmost node replaced as `dequeue` does when the
      parent pointers along the left spine are intact: the listing loses
      exactly its first entry, and the subtree's own parent pointer is
      unchanged. */
  function RemoveMin<T>(t: Tree<T>): (r: Tree<T>)
    requires t.Node?
    ensures Elements(r) == Elements(t)[1..]
    ensures r.Node? ==> r.item.up == t.item.up
  {
    if t.left.Empty? then Replacement(t)
    else
      var r := t.(left := RemoveMin(t.left));
      assert Group(r) == Group(t);
      DropFirst3(Elements(t.left), Group(t), Elements(t.right));
      r
  }

  /** What `dequeue` leaves in `root`. It reaches the leftmost node by `left`
      pointers but splices by that node's `parent` pointer: when the pointer
      is nullptr the replacement becomes the whole tree (line 355, 373, 386),
      so the tree keeps only the leftmost node's subtree without its first
      entry. Either way at least one entry is gone. */
  function Dequeued<T>(t: Tree<T>): (r: Tree<T>)
    requires t.Node?
    ensures Leftmost(t).item.up != NoParent ==> Elements(r) == Elements(t)[1..]
    ensures Leftmost(t).item.up == NoParent ==> Elements(r) == Elements(Leftmost(t))[1..]
    ensures Count(r) < Count(t)
  {
    if Leftmost(t).item.up == NoParent then Replacement(Leftmost(t)) else RemoveMin(t)
  }

  /** Replacing the leftmost node by its chain head, its right subtree or
      nothing keeps BST order. */
  lemma ReplacementOrdered<T>(m: Tree<T>)
    requires m.Node? && m.left.Empty? && Ordered(m)
    ensures Ordered(Replacement(m))
  {
    if m.chain != [] {
      assert m.chain[0] in m.chain;
      assert forall c <- m.chain[1..] :: c in m.chain;
    } else if m.right.Node? {
      ReparentedKeeps(m.right, m.item.up);
    }
  }

  /** Removing the leftmost node keeps the tree ordered: what remains of the
      left subtree is still below the node. */
  lemma {:induction false} RemoveMinOrdered<T>(t: Tree<T>)
    requires t.Node? && Ordered(t)
    ensures Ordered(RemoveMin(t))
  {
    if t.left.Empty? {
      ReplacementOrdered(t);
    } else {
      RemoveMinOrdered(t.left);
      var l, rest := Elements(t.left), RemoveMin(t.left);
      forall x <- Elements(rest) ensures x.priority < t.item.priority {
        assert x in l;
      }
    }
  }

  /** `dequeue` keeps the root detached and keeps the left children's parent
      pointers safe (and linked, when they were). */
  lemma {:induction false} RemoveMinLinks<T>(t: Tree<T>)
    requires t.Node?
    ensures RootDetached(t) ==> RootDetached(RemoveMin(t))
    ensures LeftSafe(t) ==> LeftSafe(RemoveMin(t))
    ensures LeftLinked(t) ==> LeftLinked(RemoveMin(t))
  {
    if t.left.Node? {
      RemoveMinLinks(t.left);
    } else {
      ReplacementLinks(t);
    }
  }

  lemma ReplacementLinks<T>(m: Tree<T>)
    requires m.Node? && m.left.Empty?
    ensures RootDetached(m) ==> RootDetached(Replacement(m))
    ensures LeftSafe(m) ==> LeftSafe(Replacement(m))
    ensures LeftLinked(m) ==> LeftLinked(Replacement(m))
  {
    if m.right.Node? {
      ReparentedKeeps(m.right, Freed);
      ReparentedKeeps(m.right, m.item.up);
    }
  }

  /** When the left spine's parent pointers are intact, `dequeue` splices the
      leftmost node out of its parent; the nullptr branch is then only taken
      at the root. */
  lemma {:induction false} LinkedDequeued<T>(t: Tree<T>)
    requires t.Node? && RootDetached(t) && LeftLinked(t)
    ensures Dequeued(t) == RemoveMin(t)
  {
    if t.left.Node? {
      LeftmostLinked(t.left);
    }
  }

  lemma {:induction false} LeftmostLinked<T>(t: Tree<T>)
    requires t.Node? && t.item.up == Owner && LeftLinked(t)
    ensures Leftmost(t).item.up == Owner
  {
    if t.left.Node? {
      LeftmostLinked(t.left);
    }
  }

  /** The replacement placed at the root, when the root is the leftmost node,
      has a nullptr parent pointer; so does every replacement `dequeue`
      installs as the new root. */
  lemma {:induction false} DequeuedLinks<T>(t: Tree<T>)
    requires t.Node? && RootDetached(t) && LeftSafe(t)
    ensures RootDetached(Dequeued(t)) && LeftSafe(Dequeued(t))
  {
    RemoveMinLinks(t);
    if Leftmost(t).item.up == NoParent {
      LeftmostSafe(t);
    }
  }

  lemma {:induction false} LeftmostSafe<T>(t: Tree<T>)
    requires t.Node? && LeftSafe(t)
    ensures LeftSafe(Leftmost(t))
    ensures LeftSafe(Replacement(Leftmost(t)))
  {
    if t.left.Node? {
      LeftmostSafe(t.left);
    } else {
      RemoveMinLinks(t);
    }
  }

  /** A `dequeue` that finds no chain at the leftmost node keeps every parent
      pointer and `dup` flag consistent. */
  lemma {:induction false} RemoveMinThreaded<T>(t: Tree<T>, isRoot: bool)
    requires t.Node? && Threaded(t, isRoot) && Leftmost(t).chain == []
    ensures Threaded(RemoveMin(t), isRoot)
  {
    if t.left.Node? {
      RemoveMinThreaded(t.left, false);
    }
  }

  /** A `dequeue` that promotes a chain head leaves a tree-resident node with
      `dup` still true (line 342-345 never clears it), so the tree is no
      longer threaded and `next` would climb past that node. */
  lemma {:induction false} PromotionUnthreads<T>(t: Tree<T>, isRoot: bool)
    requires t.Node? && Threaded(t, isRoot) && Leftmost(t).chain != []
    ensures !Threaded(RemoveMin(t), isRoot)
  {
    if t.left.Node? {
      PromotionUnthreads(t.left, false);
    } else {
      assert t.chain[0] in t.chain;
    }
  }

  lemma {:induction false} LeftmostKeeps<T>(t: Tree<T>)
    requires t.Node?
    ensures Ordered(t) ==> Ordered(Leftmost(t))
    ensures LeftSafe(t) ==> LeftSafe(Leftmost(t))
  {
    if t.left.Node? {
      LeftmostKeeps(t.left);
    }
  }

  /** Whatever the parent pointers, `dequeue` on a non-empty queue keeps the
      tree ordered, keeps the root detached and the left children's parent
      pointers safe. */
  lemma DequeuedKeeps<T>(t: Tree<T>)
    requires t.Node? && Ordered(t) && RootDetached(t) && LeftSafe(t)
    ensures Ordered(Dequeued(t)) && RootDetached(Dequeued(t)) && LeftSafe(Dequeued(t))
  {
    DequeuedLinks(t);
    if Leftmost(t).item.up == NoParent {
      var m := Leftmost(t);
      LeftmostKeeps(t);
      ReplacementOrdered(m);
    } else {
      RemoveMinOrdered(t);
    }
  }

  /** When the left children point back at their parents, `dequeue` removes
      exactly the first entry of the listing, keeps them pointing back, and
      keeps the tree threaded unless it had to promote a chain head. */
  lemma DequeuedSound<T>(t: Tree<T>)
    requires t.Node? && Ordered(t) && RootDetached(t) && LeftLinked(t)
    ensures Elements(Dequeued(t)) == Elements(t)[1..]
    ensures LeftLinked(Dequeued(t))
    ensures Threaded(t, true) && Leftmost(t).chain == [] ==> Threaded(Dequeued(t), true)
  {
    LinkedDequeued(t);
    RemoveMinLinks(t);
    if Threaded(t, true) && Leftmost(t).chain == [] {
      RemoveMinThreaded(t, true);
    }
  }
}
