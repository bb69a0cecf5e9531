/** The class `priorityqueue<T>` (priorityqueue.h:25-548): the tree under
    `root`, the element counter `size` and the traversal cursor `curr`. */
module Queue {
  import opened Trees
  import opened Insertion
  import opened Removal
  import opened Positions
  import opened Cursors
  import opened Copying
  import opened Equality

  /** `_findMinimumNode` (lines 44-51): from the node at `from`, follow `left`
      while it is not nullptr. The traversal from the node reached covers the
      subtree at `from` and everything after it. */
  method FindMinimumNode<T>(t: Tree<T>, from: seq<Dir>) returns (path: seq<Dir>)
    requires At(t, from).Node?
    ensures At(t, path) == Leftmost(At(t, from))
    ensures |from| <= |path| && path[..|from|] == from && AllLeft(path[|from|..])
    ensures Rest(t, path, 0) == Elements(At(t, from)) + Above(t, from)
  {
    path := from;
    var node := At(t, from);
    while node.left.Node?
      invariant node == At(t, path) && node.Node?
      invariant Leftmost(node) == Leftmost(At(t, from))
      invariant |from| <= |path| && path[..|from|] == from && AllLeft(path[|from|..])
      invariant Elements(node) + Above(t, path) == Elements(At(t, from)) + Above(t, from)
      decreases node
    {
      StepLeft(t, path);
      assert (path + [Left])[..|from|] == path[..|from|];
      assert (path + [Left])[|from|..] == path[|from|..] + [Left];
      path := path + [Left];
      node := node.left;
    }
    Settle(t, path);
  }

  /** `_recursiveToStringHelper` (lines 54-76): append the left subtree, the
      node, its chain (by a walk along `link`) and the right subtree. The
      text `ostream` formatting of each pair is not modelled. */
  method ToStringHelper<T>(node: Tree<T>, output: seq<Entry<T>>) returns (out: seq<Entry<T>>)
    ensures out == output + Elements(node)
    decreases node
  {
    if node.Empty? {
      return output;
    }
    out := ToStringHelper(node.left, output);
    ghost var prefix := out;
    out := out + [EntryOf(node.item)];
    var i := 0;
    while i < |node.chain|
      invariant 0 <= i <= |node.chain|
      invariant out == prefix + Group(node)[..i + 1]
    {
      ChainStep(prefix, node, i);
      out := out + [EntryOf(node.chain[i])];
      i := i + 1;
    }
    WholeGroup(output, node);
    out := ToStringHelper(node.right, out);
  }

  lemma ChainStep<T>(prefix: seq<Entry<T>>, node: Tree<T>, i: nat)
    requires node.Node? && i < |node.chain|
    ensures prefix + Group(node)[..i + 1] + [EntryOf(node.chain[i])] == prefix + Group(node)[..i + 2]
  {
    assert Group(node)[..i + 2] == Group(node)[..i + 1] + [EntryOf(node.chain[i])];
  }

  lemma WholeGroup<T>(output: seq<Entry<T>>, node: Tree<T>)
    requires node.Node?
    ensures output + Elements(node.left) + Group(node)[..|node.chain| + 1] + Elements(node.right)
            == output + Elements(node)
  {
    var l, g, r := Elements(node.left), Group(node), Elements(node.right);
    assert g[..|node.chain| + 1] == g;
    assert Elements(node) == l + g + r;
    Assoc4(output, l, g, r);
  }

  /** What `enqueue` keeps, as facts about the tree it builds. */
  lemma EnqueueKeeps<T>(t: Tree<T>, value: T, priority: int, c: Cursor)
    ensures Count(Insert(t, value, priority, NoParent)) == Count(t) + 1
    ensures Ordered(t) ==> Ordered(Insert(t, value, priority, NoParent))
    ensures Ordered(t) ==> Elements(Insert(t, value, priority, NoParent)) == InsertSorted(Elements(t), Entry(priority, value))
    ensures RootDetached(t) ==> RootDetached(Insert(t, value, priority, NoParent))
    ensures RootDetached(t) && LeftSafe(t) ==> LeftSafe(Insert(t, value, priority, NoParent))
    ensures LeftLinked(t) ==> LeftLinked(Insert(t, value, priority, NoParent))
    ensures Threaded(t, true) ==> Threaded(Insert(t, value, priority, NoParent), true)
    ensures OnNode(t, c) ==> OnNode(Insert(t, value, priority, NoParent), c)
  {
    if Ordered(t) {
      InsertElements(t, value, priority, NoParent);
    }
    if RootDetached(t) {
      InsertLinks(t, value, priority);
    }
    if t.Node? {
      InsertKeepsLinks(t.left, value, priority);
      InsertKeepsLinks(t.right, value, priority);
    }
    if Threaded(t, true) {
      InsertThreaded(t, value, priority, true);
    }
    if c.Rests? && At(t, c.path).Node? {
      InsertKeepsPath(t, value, priority, NoParent, c.path);
    }
  }

  /** The tree surgery of `dequeue` on a non-empty tree (lines 331-391):
      descend to the leftmost node, take its value, and put its replacement
      (its chain head, else its right subtree, else nothing) in its place: in
      its parent's `left` when its `parent` pointer is set, as the new root
      when it is nullptr. */
  method RemoveLeftmost<T>(t: Tree<T>) returns (valueOut: T, rest: Tree<T>)
    requires t.Node?
    ensures valueOut == Elements(t)[0].value
    ensures rest == Dequeued(t)
  {
    var path: seq<Dir> := [];
    var current := t;
    while current.left.Node?
      invariant current == At(t, path) && current.Node? && AllLeft(path)
      invariant Leftmost(current) == Leftmost(t)
      invariant Replace(t, path, RemoveMin(current)) == RemoveMin(t)
      decreases current
    {
      RemoveMinStep(t, path);
      path := path + [Left];
      current := current.left;
    }
    LeftmostFirst(t);
    DequeuedAt(t, path);
    valueOut := current.item.value;
    var replacement := Unlink(current);
    if current.item.up != NoParent {
      // `current->parent->left == current`: the leftmost node is a left child
      rest := Replace(t, path, replacement);
    } else {
      rest := replacement;
    }
  }

  /** At the end of the descent: the tree `dequeue` leaves is the leftmost
      node's replacement, put in its place when that node has a parent. */
  lemma DequeuedAt<T>(t: Tree<T>, path: seq<Dir>)
    requires t.Node? && At(t, path).Node? && At(t, path).left.Empty?
    requires Leftmost(At(t, path)) == Leftmost(t)
    requires Replace(t, path, RemoveMin(At(t, path))) == RemoveMin(t)
    ensures At(t, path) == Leftmost(t)
    ensures Dequeued(t) == if At(t, path).item.up == NoParent then Replacement(At(t, path))
                           else Replace(t, path, Replacement(At(t, path)))
  {
  }

  /** One step of the descent to the leftmost node: removing it from the
      left child, put back in place, is removing it from the node. */
  lemma RemoveMinStep<T>(t: Tree<T>, path: seq<Dir>)
    requires At(t, path).Node? && At(t, path).left.Node?
    ensures At(t, path + [Left]) == At(t, path).left
    ensures Replace(t, path + [Left], RemoveMin(At(t, path).left)) == Replace(t, path, RemoveMin(At(t, path)))
  {
    var m := At(t, path);
    AtSnoc(t, path, Left);
    ReplaceSnoc(t, path, Left, RemoveMin(m.left));
    assert WithChild(m, Left, RemoveMin(m.left)) == RemoveMin(m);
  }

  /** The three branches of `dequeue` on the leftmost node `current`
      (lines 340-388): promote its chain head, else splice in its right
      subtree, else leave nothing. */
  method Unlink<T>(current: Tree<T>) returns (replacement: Tree<T>)
    requires current.Node? && current.left.Empty?
    ensures replacement == Replacement(current)
    ensures Elements(replacement) == Elements(current)[1..]
  {
    if current.chain != [] {
      // promote the chain head
      replacement := Node(current.chain[0].(up := current.item.up), current.chain[1..], current.left, Orphaned(current.right));
    } else if current.right.Node? {
      // splice in the right subtree
      replacement := Reparented(current.right, current.item.up);
    } else {
      replacement := Empty;
    }
  }

  /** What `dequeue` keeps, as facts about the tree it leaves. */
  lemma DequeueKeeps<T>(t: Tree<T>)
    requires t.Node? && Ordered(t) && RootDetached(t) && LeftSafe(t)
    ensures Elements(t)[0].value == Leftmost(t).item.value
    ensures Ordered(Dequeued(t)) && RootDetached(Dequeued(t)) && LeftSafe(Dequeued(t))
    ensures LeftLinked(t) ==> LeftLinked(Dequeued(t)) && Elements(Dequeued(t)) == Elements(t)[1..]
    ensures Threaded(t, true) && Leftmost(t).chain == [] ==> Threaded(Dequeued(t), true)
  {
    LeftmostFirst(t);
    DequeuedKeeps(t);
    if LeftLinked(t) {
      DequeuedSound(t);
    }
    if Threaded(t, true) {
      ThreadedLinked(t, true);
      DequeuedSound(t);
    }
  }

  /** Moving the head of what is pending onto what is written. */
  lemma Shift<X>(done: seq<X>, pending: seq<X>)
    requires pending != []
    ensures done + pending == done + [pending[0]] + pending[1..]
  {
    assert pending == [pending[0]] + pending[1..];
  }

  /** How `next` moves the cursor on from the node of group index `i` at
      `path` (lines 462-490): to the next node of the chain if there is one;
      otherwise back along the chain by `parent` while `dup` is set, then to
      the leftmost node of the right subtree, or else up by `Climb`. The
      cursor then rests on the first entry not yet written, or is nullptr
      when none is left. */
  method Advance<T>(t: Tree<T>, path: seq<Dir>, i: nat) returns (c: Cursor)
    requires Threaded(t, true) && At(t, path).Node? && i <= |At(t, path).chain|
    ensures !c.Dangling?
    ensures c.Null? ==> Rest(t, path, i)[1..] == []
    ensures c.Rests? ==> At(t, c.path).Node? && c.index <= |At(t, c.path).chain|
    ensures c.Rests? ==> Rest(t, c.path, c.index) == Rest(t, path, i)[1..]
  {
    var node := At(t, path);
    if i < |node.chain| {
      // `curr->link`
      NextInGroup(t, path, i);
      return Rests(path, i + 1);
    }
    LastOfGroup(t, path);
    var j: nat := i;
    DupIsChain(t, path, j);
    while CellAt(t, path, j).dup
      invariant j <= |node.chain|
      invariant CellAt(t, path, j).dup <==> j > 0
      decreases j
    {
      // `curr = curr->parent`: the previous node of the chain
      j := j - 1;
      DupIsChain(t, path, j);
    }
    if node.right.Node? {
      // the leftmost node of the right subtree
      AtSnoc(t, path, Right);
      AboveRight(t, path);
      var p := FindMinimumNode(t, path + [Right]);
      c := Rests(p, 0);
    } else {
      c := Climb(t, path);
    }
  }

  /** The upward walk of `next` (lines 479-490): while the node reached is
      its parent's right child, move to the parent; then move to the parent
      once more, or to nullptr when the walk has passed the root. The entries
      after the starting node are those from the node reached on. */
  method Climb<T>(t: Tree<T>, path: seq<Dir>) returns (c: Cursor)
    requires Threaded(t, true) && At(t, path).Node?
    ensures !c.Dangling?
    ensures c.Null? ==> Above(t, path) == []
    ensures c.Rests? ==> c.index == 0 && At(t, c.path).Node? && Rest(t, c.path, 0) == Above(t, path)
  {
    var q := path;
    DupIsChain(t, q, 0);
    while CellAt(t, q, 0).up != NoParent && q[|q| - 1] == Right
      invariant At(t, q).Node? && Above(t, q) == Above(t, path)
      invariant CellAt(t, q, 0).up == (if q == [] then NoParent else Owner)
      decreases |q|
    {
      var up := q[..|q| - 1];
      assert q == up + [Right];
      AtParent(t, up, Right);
      AboveRight(t, up);
      q := up;
      DupIsChain(t, q, 0);
    }
    if CellAt(t, q, 0).up == NoParent {
      return Null;
    }
    var up := q[..|q| - 1];
    assert q == up + [Left];
    AtParent(t, up, Left);
    AboveLeft(t, up);
    return Rests(up, 0);
  }

  class PriorityQueue<T(0,==)> {
    var root: Tree<T>
    var size: int
    var curr: Cursor

    /** What every operation keeps: priorities in BST order with chains of
        the owner's priority, no parent pointer on the left spines pointing at
        a deleted node, `size` at least the number of nodes, and `curr`
        nullptr, dangling or on a node of the tree. */
    ghost predicate Valid()
      reads this
    {
      Ordered(root) && RootDetached(root) && LeftSafe(root) && Count(root) <= size && OnNode(root, curr)
    }

    /** What holds of every queue built by `enqueue` and `dequeue` alone:
        left children point back at their parents and `size` counts the
        nodes exactly. */
    ghost predicate Sound()
      reads this
    {
      LeftLinked(root) && size == Count(root)
    }

    /** `curr` is nullptr or rests on a node of the tree: it does not
        dangle. */
    ghost predicate CursorOk()
      reads this
    {
      !curr.Dangling? && OnNode(root, curr)
    }

    /** The rest of the listing from the cursor's node on. `next` writes
        exactly these while `Threaded(root, true)` holds; a chain-head
        promotion in `dequeue` breaks that, and `next` then follows stale
        links instead. */
    ghost function Pending(): seq<Entry<T>>
      reads this
      requires CursorOk()
    {
      if curr.Rests? then Rest(root, curr.path, curr.index) else []
    }

    /** The default constructor (lines 196-203). */
    constructor()
      ensures root == Empty && size == 0 && curr == Null
      ensures Valid() && Sound() && Threaded(root, true)
    {
      root := Empty;
      curr := Null;
      size := 0;
    }

    /** `operator=` (lines 212-225): nothing on self-assignment; otherwise
        clear, then take a copy of the other tree and its `size`. `curr` is
        not reset, so a cursor on a node of the old tree now dangles. */
    method Assign(other: PriorityQueue<T>)
      modifies this
      ensures other == this ==> root == old(root) && size == old(size) && curr == old(curr)
      ensures other != this ==> root == CopyTree(old(other.root)) && size == old(other.size)
      ensures other != this ==> curr == (if old(curr).Null? then Null else Dangling)
      ensures other != this ==> Elements(root) == old(Elements(other.root))
      ensures other != this ==> Key(root) == old(Key(other.root))
      ensures old(other.Valid()) ==> Valid()
    {
      if this == other {
        return;
      }
      Clear();
      root := CopyTree(other.root);
      size := other.size;
      CopyIsEqual(other.root);
    }

    /** `clear` (lines 233-237). The nodes are freed and `curr` is not
        reset, so a cursor on a node now dangles. */
    method Clear()
      modifies this
      ensures root == Empty && size == 0
      ensures curr == (if old(curr).Null? then Null else Dangling)
      ensures Valid() && Sound() && Threaded(root, true)
    {
      root := Empty;
      size := 0;
      curr := if curr.Null? then Null else Dangling;
    }

    /** `enqueue` (lines 257-312): descend from the root, right on a greater
        priority and left on a smaller one, and hang a new leaf where the
        descent leaves the tree; on an equal priority walk to the end of the
        node's chain and append a `dup` node there. */
    method Enqueue(value: T, priority: int)
      modifies this
      ensures root == Insert(old(root), value, priority, NoParent)
      ensures size == old(size) + 1 && curr == old(curr)
      ensures old(Valid()) ==> Valid()
      ensures old(Valid()) ==> Elements(root) == InsertSorted(old(Elements(root)), Entry(priority, value))
      ensures old(Sound()) ==> Sound()
      ensures old(Threaded(root, true)) ==> Threaded(root, true)
      ensures old(CursorOk()) ==> CursorOk()
    {
      ghost var before := root;
      ghost var target := Insert(root, value, priority, NoParent);
      var node := NewLeaf(value, priority, NoParent);
      var grown := node;
      if root.Node? {
        var path: seq<Dir> := [];
        var current := root;
        while true
          invariant unchanged(this)
          invariant current == At(before, path) && current.Node?
          invariant Replace(before, path, Insert(current, value, priority, Owner)) == target
          decreases current
        {
          if current.item.priority < priority {
            if current.right.Node? {
              AtSnoc(before, path, Right);
              ReplaceSnoc(before, path, Right, Insert(current.right, value, priority, Owner));
              path := path + [Right];
              current := current.right;
            } else {
              // `current->right = node; node->parent = current`
              grown := Replace(root, path, current.(right := Reparented(node, Owner)));
              break;
            }
          } else if priority < current.item.priority {
            if current.left.Node? {
              AtSnoc(before, path, Left);
              ReplaceSnoc(before, path, Left, Insert(current.left, value, priority, Owner));
              path := path + [Left];
              current := current.left;
            } else {
              grown := Replace(root, path, current.(left := Reparented(node, Owner)));
              break;
            }
          } else {
            // walk the chain to its last node (`current = current->link`),
            // then link the new `dup` node after it
            var tail := current.item;
            var k := 0;
            while k < |current.chain|
              invariant unchanged(this)
              invariant 0 <= k <= |current.chain|
              invariant tail == (if k == 0 then current.item else current.chain[k - 1])
            {
              tail := current.chain[k];
              k := k + 1;
            }
            assert current.chain != [] ==> tail == current.chain[|current.chain| - 1];
            grown := Replace(root, path, current.(chain := current.chain + [node.item.(dup := true, up := Owner)]));
            break;
          }
        }
      }
      assert grown == target;
      root := grown;
      size := size + 1;
      EnqueueKeeps(before, value, priority, curr);
    }

    /** `dequeue` (lines 322-395): on an empty queue return a default value
        and change nothing; otherwise remove the leftmost node as
        `RemoveLeftmost` does, return its value and decrement `size`. `curr`
        is not touched, so it stays on the same node, which may have moved
        up the tree, or dangles when that node was deleted. */
    method Dequeue() returns (valueOut: T)
      requires Valid()
      modifies this
      ensures old(root).Empty? ==> root == old(root) && size == old(size) && curr == old(curr)
      ensures old(root).Node? ==> root == Dequeued(old(root)) && size == old(size) - 1
      ensures old(root).Node? ==> curr == Relocated(old(root), old(curr))
      ensures old(root).Node? ==> valueOut == old(Elements(root))[0].value
      ensures Valid()
      ensures old(Sound()) ==> Sound()
      ensures old(Sound()) && old(root).Node? ==> Elements(root) == old(Elements(root))[1..]
      ensures old(Sound() && CursorOk()) && curr.Rests? ==> CursorOk() && Pending() == old(Pending())
      ensures old(Sound() && CursorOk()) && curr.Dangling? ==> old(Pending()) == old(Elements(root))
      ensures old(Threaded(root, true)) && old(root).Node? && Leftmost(old(root)).chain == [] ==>
                Threaded(root, true)
    {
      var v: T := *;  // the default-constructed `valueOut`
      valueOut := v;
      if root.Empty? {
        return;
      }
      var rest;
      valueOut, rest := RemoveLeftmost(root);
      DequeueKeeps(root);
      if LeftLinked(root) && curr.Rests? {
        RelocatedRest(root, curr);
      }
      curr := Relocated(root, curr);
      root := rest;
      size := size - 1;
    }

    /** `Size` (lines 403-405). */
    method Size() returns (n: int)
      ensures n == size
      ensures Sound() ==> n == |Elements(root)|
    {
      return size;
    }

    /** `begin` (lines 423-428): put the cursor on the leftmost node. On an
        empty queue `_findMinimumNode` dereferences nullptr. */
    method Begin()
      requires root.Node?
      modifies this
      ensures root == old(root) && size == old(size)
      ensures CursorOk() && curr.Rests? && Pending() == Elements(root)
      ensures old(Valid()) ==> Valid()
    {
      var path := FindMinimumNode(root, []);
      curr := Rests(path, 0);
    }

    /** `next` (lines 451-492): with the cursor at nullptr return false and
        write nothing; otherwise write the entry under the cursor and advance:
        along the chain, else (after walking back to the tree-resident node)
        to the leftmost node of the right subtree, else up past every
        ancestor reached from its right, returning false when none is left.
        The call that writes the last entry therefore returns false. */
    method Next(value: T, priority: int) returns (more: bool, valueOut: T, priorityOut: int)
      requires CursorOk() && Threaded(root, true)
      modifies this
      ensures root == old(root) && size == old(size) && CursorOk()
      ensures old(Valid()) ==> Valid()
      ensures old(curr).Null? ==> !more && curr == Null && valueOut == value && priorityOut == priority
      ensures old(curr).Rests? ==> Entry(priorityOut, valueOut) == old(Pending())[0]
      ensures old(curr).Rests? ==> Pending() == old(Pending())[1..]
      ensures more <==> curr.Rests?
    {
      if curr.Null? {
        return false, value, priority;
      }
      var cell := CellAt(root, curr.path, curr.index);
      valueOut, priorityOut := cell.value, cell.priority;
      curr := Advance(root, curr.path, curr.index);
      return curr.Rests?, valueOut, priorityOut;
    }

    /** `toString` (lines 503-507), as the sequence of pairs it prints. */
    method ToString() returns (s: seq<Entry<T>>)
      ensures s == Elements(root)
    {
      s := ToStringHelper(root, []);
    }

    /** `peek` (lines 517-526): the value of the leftmost node, which is the
        first entry of the listing. On an empty queue `_findMinimumNode`
        dereferences nullptr. */
    method Peek() returns (valueOut: T)
      requires root.Node?
      ensures valueOut == Elements(root)[0].value
    {
      var path := FindMinimumNode(root, []);
      LeftmostFirst(root);
      valueOut := At(root, path).item.value;
    }

    /** `operator==` (lines 535-537). */
    method Equals(other: PriorityQueue<T>) returns (eq: bool)
      ensures eq <==> Key(root) == Key(other.root)
    {
      eq := Equal(root, other.root);
    }

    /** The traversal the comments at lines 417-422 and 444-449 show: `begin`,
        then `next` until it returns false, then one more use of the pair the
        last call wrote. It yields the `toString` listing. */
    method Traverse() returns (out: seq<Entry<T>>)
      requires root.Node? && Threaded(root, true)
      modifies this
      ensures out == Elements(root)
      ensures root == old(root) && size == old(size) && curr == Null
    {
      var value: T := *;
      var priority: int := *;
      Begin();
      var more;
      more, value, priority := Next(value, priority);
      out := [];
      ghost var listing := Elements(root);
      while more
        invariant root == old(root) && size == old(size) && CursorOk()
        invariant more <==> curr.Rests?
        invariant out + [Entry(priority, value)] + Pending() == listing
        decreases |Pending()|
      {
        ghost var before := Pending();
        out := out + [Entry(priority, value)];
        more, value, priority := Next(value, priority);
        Shift(out, before);
      }
      out := out + [Entry(priority, value)];
    }
  }
}
