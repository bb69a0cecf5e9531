/** The traversal cursor `curr` (priorityqueue.h:39) as a position in the
    tree, and where `dequeue` leaves it (lines 322-395). `curr` is a pointer
    to a node, so when `dequeue` moves a node up the tree the cursor moves
    with it, and when it deletes the node under the cursor, or drops it from
    the tree, the cursor is left pointing at a node no longer in the tree. */
module Cursors {
  import opened Trees
  import opened Removal
  import opened Positions

  /** Where `curr` points: nullptr, the node of group index `index` at
      `path` from the root, or a node that is no longer in the tree (deleted
      by `dequeue`, `clear` or `operator=`, or dropped from the tree and
      leaked by a `dequeue` whose leftmost node has a nullptr `parent`). */
  datatype Cursor = Null | Rests(path: seq<Dir>, index: nat) | Dangling

  /** The cursor is nullptr, dangling, or on a node of `t`. */
  ghost predicate OnNode<T>(t: Tree<T>, c: Cursor) {
    c.Rests? ==> At(t, c.path).Node? && c.index <= |At(t, c.path).chain|
  }

  /** Where the node at (`p`, `i`) is once the leftmost node has been
      removed through its parent's `left` (`RemoveMin`): a node outside the
      leftmost node's subtree keeps its place; the removed node is gone; a
      chain node promoted to tree-resident moves one place up its group
      (lines 340-356); a node of the right subtree spliced into the removed
      node's place moves one level up (lines 361-374). The rest of the
      listing from the node stays the same, and the cursor dangles only when
      it was on the first entry. */
  function Moved<T>(t: Tree<T>, p: seq<Dir>, i: nat): (r: Cursor)
    requires t.Node?
    ensures !r.Null?
    ensures r.Dangling? ==> i == 0 && AllLeft(p)
    ensures r.Rests? ==> |r.path| <= |p| <= |r.path| + 1
    decreases t
  {
    if t.left.Node? then
      if p != [] && p[0] == Left then
        var c := Moved(t.left, p[1..], i);
        if c.Rests? then Rests([Left] + c.path, c.index) else c
      else
        Rests(p, i)
    else if p == [] then
      if i == 0 then Dangling else Rests([], i - 1)
    else if t.chain != [] then
      Rests(p, i)
    else
      Rests(p[1..], i)
  }

  /** What a cursor `c` on the tree left by `RemoveMin(t)` must satisfy to
      stand for the node at (`p`, `i`) of `t`: on a node, the rest of the
      listing from it is the same; dangling, it was on the first entry. */
  ghost predicate Follows<T>(t: Tree<T>, p: seq<Dir>, i: nat, c: Cursor)
    requires t.Node? && At(t, p).Node? && i <= |At(t, p).chain|
  {
    && (c.Rests? ==> OnNode(RemoveMin(t), c) && Rest(RemoveMin(t), c.path, c.index) == Rest(t, p, i))
    && (c.Dangling? ==> Rest(t, p, i) == Elements(t))
  }

  /** A node that survives the removal keeps the rest of the listing from
      it; the cursor dangles only when it was on the first entry, the one
      removed. */
  lemma {:induction false} MovedRest<T>(t: Tree<T>, p: seq<Dir>, i: nat)
    requires t.Node? && At(t, p).Node? && i <= |At(t, p).chain|
    ensures Moved(t, p, i).Rests? ==>
              OnNode(RemoveMin(t), Moved(t, p, i)) &&
              Rest(RemoveMin(t), Moved(t, p, i).path, Moved(t, p, i).index) == Rest(t, p, i)
    ensures Moved(t, p, i).Dangling? ==> Rest(t, p, i) == Elements(t)
    decreases t
  {
    if t.left.Node? {
      if p != [] && p[0] == Left {
        MovedRest(t.left, p[1..], i);
        MovedLeft(t, p[1..], i);
        assert p == [Left] + p[1..];
      } else {
        RestOtherLeft(t, RemoveMin(t.left), p, i);
      }
    } else {
      MovedLeaf(t, p, i);
    }
  }

  /** A step into the left subtree, given where the node ends up below it. */
  lemma MovedLeft<T>(t: Tree<T>, q: seq<Dir>, i: nat)
    requires t.Node? && t.left.Node? && At(t.left, q).Node? && i <= |At(t.left, q).chain|
    requires Follows(t.left, q, i, Moved(t.left, q, i))
    ensures At(t, [Left] + q).Node?
    ensures Follows(t, [Left] + q, i, Moved(t, [Left] + q, i))
  {
    var p := [Left] + q;
    assert p[1..] == q;
    RestLeft(t, q, i);
    var c := Moved(t.left, q, i);
    if c.Rests? {
      LeftOnNode(t, q, i, c);
    } else {
      LeftFirst(t, q, i);
    }
  }

  /** A cursor on the first entry of the left subtree is on the first entry
      of the tree. */
  lemma LeftFirst<T>(t: Tree<T>, q: seq<Dir>, i: nat)
    requires t.Node? && At(t.left, q).Node? && i <= |At(t.left, q).chain|
    requires Rest(t.left, q, i) == Elements(t.left)
    ensures Rest(t, [Left] + q, i) == Elements(t)
  {
    RestLeft(t, q, i);
  }

  /** A node below the left step that stays on a node after the removal
      keeps the rest of the listing from it once the step is added back. */
  lemma LeftOnNode<T>(t: Tree<T>, q: seq<Dir>, i: nat, c: Cursor)
    requires t.Node? && t.left.Node? && At(t.left, q).Node? && i <= |At(t.left, q).chain|
    requires c.Rests? && OnNode(RemoveMin(t.left), c)
    requires Rest(RemoveMin(t.left), c.path, c.index) == Rest(t.left, q, i)
    ensures OnNode(RemoveMin(t), Rests([Left] + c.path, c.index))
    ensures Rest(RemoveMin(t), [Left] + c.path, c.index) == Rest(t, [Left] + q, i)
  {
    var t' := RemoveMin(t);
    assert t' == t.(left := RemoveMin(t.left));
    RestLeft(t, q, i);
    RestLeft(t', c.path, c.index);
  }

  /** At the removed node itself: its chain head is promoted, or its right
      subtree moves up one level. */
  lemma MovedLeaf<T>(t: Tree<T>, p: seq<Dir>, i: nat)
    requires t.Node? && t.left.Empty? && At(t, p).Node? && i <= |At(t, p).chain|
    ensures Follows(t, p, i, Moved(t, p, i))
  {
    if p == [] {
      MovedRoot(t, i);
    } else {
      assert p[0] == Right;
      assert p == [Right] + p[1..];
      MovedBelow(t, p[1..], i);
    }
  }

  /** The removed node's own group: its first node is gone and the chain
      moves one place up. */
  lemma MovedRoot<T>(t: Tree<T>, i: nat)
    requires t.Node? && t.left.Empty? && i <= |t.chain|
    ensures Follows(t, [], i, Moved(t, [], i))
  {
    if i > 0 {
      PromotedRest(t, i);
    } else {
      FirstRest(t);
    }
  }

  /** A node of the removed node's right subtree keeps its path under a
      promotion and loses the `Right` step under a splice. */
  lemma MovedBelow<T>(t: Tree<T>, q: seq<Dir>, i: nat)
    requires t.Node? && t.left.Empty? && At(t.right, q).Node? && i <= |At(t.right, q).chain|
    ensures At(t, [Right] + q).Node?
    ensures Follows(t, [Right] + q, i, Moved(t, [Right] + q, i))
  {
    RestRight(t, q, i);
    assert ([Right] + q)[1..] == q;
    if t.chain != [] {
      RestRight(RemoveMin(t), q, i);
      RestOrphaned(t.right, q, i);
    } else {
      RestReparented(t.right, t.item.up, q, i);
    }
  }

  /** Where the node at (`p`, `i`) is when the leftmost node's `parent` is
      nullptr, so that its replacement becomes the whole tree: only the
      leftmost node's subtree stays, and a node above it is dropped from the
      tree (leaked, not freed). */
  function Detached<T>(t: Tree<T>, p: seq<Dir>, i: nat): (r: Cursor)
    requires t.Node? && At(t, p).Node? && i <= |At(t, p).chain|
    ensures !r.Null?
    ensures OnNode(Replacement(Leftmost(t)), r)
    decreases t
  {
    if t.left.Node? then
      if p != [] && p[0] == Left then
        assert p == [Left] + p[1..];
        Detached(t.left, p[1..], i)
      else
        Dangling
    else
      MovedRest(t, p, i);
      Moved(t, p, i)
  }

  /** Where `dequeue` leaves the cursor: nullptr and dangling cursors stay
      as they are; a cursor on a node follows that node. It is nullptr
      exactly when it was, and otherwise dangling or on a node of the tree
      `dequeue` leaves. */
  function Relocated<T>(t: Tree<T>, c: Cursor): (r: Cursor)
    requires t.Node? && OnNode(t, c)
    ensures OnNode(Dequeued(t), r)
    ensures r.Null? <==> c.Null?
    ensures c.Dangling? ==> r.Dangling?
  {
    if !c.Rests? then c
    else if Leftmost(t).item.up == NoParent then Detached(t, c.path, c.index)
    else
      MovedRest(t, c.path, c.index);
      Moved(t, c.path, c.index)
  }

  /** On a tree whose left children point back at their parents, a cursor
      on a node keeps the rest of the listing from it, or dangles because it
      was on the entry `dequeue` removed. */
  lemma RelocatedRest<T>(t: Tree<T>, c: Cursor)
    requires t.Node? && RootDetached(t) && LeftLinked(t) && c.Rests? && OnNode(t, c)
    ensures Relocated(t, c).Rests? ==>
              Rest(Dequeued(t), Relocated(t, c).path, Relocated(t, c).index) == Rest(t, c.path, c.index)
    ensures Relocated(t, c).Dangling? ==> Rest(t, c.path, c.index) == Elements(t)
  {
    LinkedDequeued(t);
    MovedRest(t, c.path, c.index);
    if t.left.Node? {
      LeftmostLinked(t.left);
    }
  }

  /** A traversal resting on the leftmost node of a tree, as the root,
      writes the whole listing. */
  lemma FirstRest<T>(m: Tree<T>)
    requires m.Node? && m.left.Empty?
    ensures Rest(m, [], 0) == Elements(m)
  {
    var g, r := Group(m), Elements(m.right);
    assert Rest(m, [], 0) == g[0..] + r + [];
    assert Elements(m) == [] + g + r;
    assert g[0..] == g;
    EmptyEnds(g, r);
  }

  lemma EmptyEnds<X>(a: seq<X>, b: seq<X>)
    ensures a + b + [] == [] + a + b
  {
  }

  /** Below a left step: the node reached and what a traversal resting there
      still writes, followed by the parent's group and right subtree. */
  lemma RestLeft<T>(t: Tree<T>, q: seq<Dir>, j: nat)
    requires t.Node? && At(t.left, q).Node? && j <= |At(t.left, q).chain|
    ensures At(t, [Left] + q) == At(t.left, q)
    ensures Rest(t, [Left] + q, j) == Rest(t.left, q, j) + Group(t) + Elements(t.right)
  {
    var m := At(t.left, q);
    assert ([Left] + q)[1..] == q;
    Assoc4(Group(m)[j..] + Elements(m.right), Above(t.left, q), Group(t), Elements(t.right));
  }

  /** Below a right step: nothing is added after the subtree. */
  lemma RestRight<T>(t: Tree<T>, q: seq<Dir>, j: nat)
    requires t.Node? && At(t.right, q).Node? && j <= |At(t.right, q).chain|
    ensures At(t, [Right] + q) == At(t.right, q)
    ensures Rest(t, [Right] + q, j) == Rest(t.right, q, j)
  {
    assert ([Right] + q)[1..] == q;
  }

  /** A new left subtree changes neither the node at a path that does not
      enter it nor what a traversal resting there still writes. */
  lemma RestOtherLeft<T>(t: Tree<T>, x: Tree<T>, p: seq<Dir>, j: nat)
    requires t.Node? && (p == [] || p[0] == Right)
    requires At(t, p).Node? && j <= |At(t, p).chain|
    ensures OnNode(t.(left := x), Rests(p, j))
    ensures Rest(t.(left := x), p, j) == Rest(t, p, j)
  {
    var t' := t.(left := x);
    if p != [] {
      assert At(t', p) == At(t.right, p[1..]) == At(t, p);
      assert Above(t', p) == Above(t.right, p[1..]) == Above(t, p);
    }
  }

  /** The chain node promoted in the removed node's place holds group index
      one less, and the rest of the listing from it is the same. */
  lemma PromotedRest<T>(m: Tree<T>, i: nat)
    requires m.Node? && m.left.Empty? && 0 < i <= |m.chain|
    ensures OnNode(Replacement(m), Rests([], i - 1))
    ensures Rest(Replacement(m), [], i - 1) == Rest(m, [], i)
  {
    PromotedGroup(m);
    assert Group(m)[1..][i - 1..] == Group(m)[i..];
  }

  /** A node's `parent` is not part of the path to a node below it, nor of
      what a traversal resting there still writes. */
  lemma {:induction false} RestReparented<T>(x: Tree<T>, u: Up, q: seq<Dir>, j: nat)
    requires x.Node? && At(x, q).Node? && j <= |At(x, q).chain|
    ensures OnNode(Reparented(x, u), Rests(q, j))
    ensures Rest(Reparented(x, u), q, j) == Rest(x, q, j)
  {
    var y := Reparented(x, u);
    assert Group(y) == Group(x);
    if q != [] {
      if q[0] == Left {
        assert q == [Left] + q[1..];
        RestLeft(x, q[1..], j);
        RestLeft(y, q[1..], j);
      } else {
        assert q == [Right] + q[1..];
        RestRight(x, q[1..], j);
        RestRight(y, q[1..], j);
      }
    }
  }

  lemma RestOrphaned<T>(x: Tree<T>, q: seq<Dir>, j: nat)
    requires x.Node? && At(x, q).Node? && j <= |At(x, q).chain|
    ensures OnNode(Orphaned(x), Rests(q, j))
    ensures Rest(Orphaned(x), q, j) == Rest(x, q, j)
  {
    if x.item.up == Owner {
      RestReparented(x, Freed, q, j);
    }
  }

  /** Enqueue priorities 5, 2, 3, 4 (values 50, 20, 30, 40), `begin`, one
      `next`: the cursor is on node 3, the right child of node 2. `dequeue`
      splices node 3 into node 2's place, and the cursor follows it: the next
      `next` writes (3, 30), then 4 and 5. */
  lemma SpliceExample()
    ensures var t := Node(Cell(5, 50, false, NoParent), [],
                          Node(Cell(2, 20, false, Owner), [], Empty,
                               Node(Cell(3, 30, false, Owner), [], Empty,
                                    Node(Cell(4, 40, false, Owner), [], Empty, Empty))),
                          Empty);
            && OnNode(t, Rests([Left, Right], 0))
            && Relocated(t, Rests([Left, Right], 0)) == Rests([Left], 0)
            && Rest(Dequeued(t), [Left], 0) == [Entry(3, 30), Entry(4, 40), Entry(5, 50)]
  {
  }
}
