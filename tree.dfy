/** The node storage of the priority queue: every NODE of priorityqueue.h as a
    value. A tree-resident node owns its duplicate chain (the nodes reached by
    `link`, in link order) and its two subtrees. */
module Trees {

  /** What a node's `parent` pointer holds: nullptr, the node the node hangs
      from (its tree parent, or the previous node of its chain), or a node
      that has already been deleted. */
  datatype Up = NoParent | Owner | Freed

  /** The data fields of one NODE. */
  datatype Cell<T> = Cell(priority: int, value: T, dup: bool, up: Up)

  /** One (priority, value) pair, as `toString` and `next` report it. */
  datatype Entry<T> = Entry(priority: int, value: T)

  /** A tree-resident node with its chain (`link`, `link->link`, ...) and its
      `left` and `right` subtrees; `Empty` is nullptr. */
  datatype Tree<T> = Empty | Node(item: Cell<T>, chain: seq<Cell<T>>, left: Tree<T>, right: Tree<T>)

  datatype Dir = Left | Right

  function EntryOf<T>(c: Cell<T>): Entry<T> {
    Entry(c.priority, c.value)
  }

  function Entries<T>(cells: seq<Cell<T>>): (r: seq<Entry<T>>)
    ensures |r| == |cells|
    ensures forall i :: 0 <= i < |cells| ==> r[i] == EntryOf(cells[i])
  {
    seq(|cells|, i requires 0 <= i < |cells| => EntryOf(cells[i]))
  }

  /** The entries of one priority group: the tree-resident node, then its chain. */
  function Group<T>(t: Tree<T>): (r: seq<Entry<T>>)
    requires t.Node?
    ensures |r| == 1 + |t.chain| && r[0] == EntryOf(t.item)
    ensures r[1..] == Entries(t.chain)
  {
    Entries([t.item] + t.chain)
  }

  /** Number of live nodes, tree-resident and chained. */
  function Count<T>(t: Tree<T>): nat {
    if t.Empty? then 0 else Count(t.left) + 1 + |t.chain| + Count(t.right)
  }

  /** The in-order listing: left subtree, the node, its chain, right subtree.
      This is the abstract value of the queue. */
  function Elements<T>(t: Tree<T>): (r: seq<Entry<T>>)
    ensures |r| == Count(t)
  {
    if t.Empty? then [] else Elements(t.left) + Group(t) + Elements(t.right)
  }

  ghost predicate Sorted<T>(s: seq<Entry<T>>) {
    forall i, j :: 0 <= i < j < |s| ==> s[i].priority <= s[j].priority
  }

  /** Strict BST order on tree-resident priorities; every chain node carries
      the priority of the node that owns the chain. */
  ghost predicate Ordered<T>(t: Tree<T>) {
    t.Node? ==>
      && (forall c <- t.chain :: c.priority == t.item.priority)
      && (forall e <- Elements(t.left) :: e.priority < t.item.priority)
      && (forall e <- Elements(t.right) :: t.item.priority < e.priority)
      && Ordered(t.left) && Ordered(t.right)
  }

  /** An ordered tree lists its entries by non-decreasing priority. */
  lemma {:induction false} OrderedSorted<T>(t: Tree<T>)
    requires Ordered(t)
    ensures Sorted(Elements(t))
  {
    if t.Node? {
      OrderedSorted(t.left);
      OrderedSorted(t.right);
      var l, g, r := Elements(t.left), Group(t), Elements(t.right);
      var k := t.item.priority;
      GroupPriorities(t);
      SortedJoin(l, g, k);
      SortedJoin(l + g, r, k);
      assert Elements(t) == l + g + r;
    }
  }

  /** Every entry of a node's group has the node's priority. */
  lemma GroupPriorities<T>(t: Tree<T>)
    requires t.Node? && Ordered(t)
    ensures forall x <- Group(t) :: x.priority == t.item.priority
  {
    var g := Group(t);
    forall i | 0 <= i < |g| ensures g[i].priority == t.item.priority {
      if i > 0 { assert t.chain[i - 1] in t.chain; }
    }
  }

  lemma SortedJoin<T>(a: seq<Entry<T>>, b: seq<Entry<T>>, k: int)
    requires Sorted(a) && Sorted(b)
    requires forall x <- a :: x.priority <= k
    requires forall y <- b :: k <= y.priority
    ensures Sorted(a + b)
  {
    var s := a + b;
    forall i, j | 0 <= i < j < |s| ensures s[i].priority <= s[j].priority {
      if j < |a| {
        assert s[i] == a[i] && s[j] == a[j];
      } else if i < |a| {
        assert s[i] == a[i] && a[i] in a;
        assert s[j] == b[j - |a|] && b[j - |a|] in b;
      } else {
        assert s[i] == b[i - |a|] && s[j] == b[j - |a|];
      }
    }
  }

  /** The node `_findMinimumNode` reaches: follow `left` while it is not nullptr. */
  function Leftmost<T>(t: Tree<T>): (m: Tree<T>)
    requires t.Node?
    ensures m.Node? && m.left.Empty?
    ensures Count(m) <= Count(t)
  {
    if t.left.Empty? then t else Leftmost(t.left)
  }

  /** The leftmost node holds the first entry of the listing. */
  lemma {:induction false} LeftmostFirst<T>(t: Tree<T>)
    requires t.Node?
    ensures Elements(t)[0] == EntryOf(Leftmost(t).item)
  {
    if t.left.Node? {
      LeftmostFirst(t.left);
    }
  }

  // ----- where the `parent` pointers and `dup` flags stand -----

  /** `t` with its tree-resident node's `parent` pointer set to `u`. */
  function Reparented<T>(t: Tree<T>, u: Up): (r: Tree<T>)
    requires t.Node?
    ensures r.Node? && r.item.up == u && r.left == t.left && r.right == t.right
  {
    t.(item := t.item.(up := u))
  }

  /** A `parent` pointer is not part of the queue's contents or order. */
  lemma ReparentedKeeps<T>(t: Tree<T>, u: Up)
    requires t.Node?
    ensures Elements(Reparented(t, u)) == Elements(t)
    ensures Ordered(Reparented(t, u)) == Ordered(t)
    ensures LeftSafe(Reparented(t, u)) == LeftSafe(t)
    ensures LeftLinked(Reparented(t, u)) == LeftLinked(t)
  {
    assert Group(Reparented(t, u)) == Group(t);
  }

  /** The root's `parent` is nullptr. */
  ghost predicate RootDetached<T>(t: Tree<T>) {
    t.Node? ==> t.item.up == NoParent
  }

  /** No left child's `parent` points at a deleted node. */
  ghost predicate LeftSafe<T>(t: Tree<T>) {
    t.Node? ==>
      && (t.left.Node? ==> t.left.item.up != Freed)
      && LeftSafe(t.left) && LeftSafe(t.right)
  }

  /** Every left child's `parent` points at its tree parent: what `dequeue`
      relies on to splice out the leftmost node. */
  ghost predicate LeftLinked<T>(t: Tree<T>) {
    t.Node? ==>
      && (t.left.Node? ==> t.left.item.up == Owner)
      && LeftLinked(t.left) && LeftLinked(t.right)
  }

  /** Every `parent` pointer and `dup` flag is as `enqueue` sets it: a
      tree-resident node has `dup` false and points at its tree parent (the
      root at nullptr); a chain node has `dup` true and points at the previous
      node of its chain. This is what `next` relies on to climb back. */
  ghost predicate Threaded<T>(t: Tree<T>, isRoot: bool) {
    t.Node? ==>
      && !t.item.dup
      && t.item.up == (if isRoot then NoParent else Owner)
      && (forall c <- t.chain :: c.dup && c.up == Owner)
      && Threaded(t.left, false) && Threaded(t.right, false)
  }

  lemma {:induction false} ThreadedLinked<T>(t: Tree<T>, isRoot: bool)
    requires Threaded(t, isRoot)
    ensures LeftLinked(t) && LeftSafe(t)
    ensures isRoot ==> RootDetached(t)
  {
    if t.Node? {
      ThreadedLinked(t.left, false);
      ThreadedLinked(t.right, false);
    }
  }

  lemma {:induction false} LinkedSafe<T>(t: Tree<T>)
    requires LeftLinked(t)
    ensures LeftSafe(t)
  {
    if t.Node? {
      LinkedSafe(t.left);
      LinkedSafe(t.right);
    }
  }

  // ----- positions in the tree, as paths from the root -----

  function Child<T>(t: Tree<T>, d: Dir): Tree<T>
    requires t.Node?
  {
    if d == Left then t.left else t.right
  }

  function WithChild<T>(t: Tree<T>, d: Dir, s: Tree<T>): Tree<T>
    requires t.Node?
  {
    if d == Left then t.(left := s) else t.(right := s)
  }

  /** The subtree at the end of path `p`, or Empty if the path leaves the tree. */
  function At<T>(t: Tree<T>, p: seq<Dir>): Tree<T>
    decreases |p|
  {
    if p == [] then t else if t.Empty? then Empty else At(Child(t, p[0]), p[1..])
  }

  /** `t` with the subtree at path `p` replaced by `s`. */
  function Replace<T>(t: Tree<T>, p: seq<Dir>, s: Tree<T>): Tree<T>
    decreases |p|
  {
    if p == [] then s
    else if t.Empty? then t
    else WithChild(t, p[0], Replace(Child(t, p[0]), p[1..], s))
  }

  lemma {:induction false} AtSnoc<T>(t: Tree<T>, p: seq<Dir>, d: Dir)
    requires At(t, p).Node?
    ensures At(t, p + [d]) == Child(At(t, p), d)
    decreases |p|
  {
    if p != [] {
      assert (p + [d])[1..] == p[1..] + [d];
      AtSnoc(Child(t, p[0]), p[1..], d);
    }
  }

  lemma {:induction false} ReplaceSnoc<T>(t: Tree<T>, p: seq<Dir>, d: Dir, s: Tree<T>)
    requires At(t, p).Node?
    ensures Replace(t, p + [d], s) == Replace(t, p, WithChild(At(t, p), d, s))
    decreases |p|
  {
    if p != [] {
      assert (p + [d])[1..] == p[1..] + [d];
      ReplaceSnoc(Child(t, p[0]), p[1..], d, s);
    }
  }

  // Regrouping facts about sequence concatenation, stated once for the
  // listings the other modules split and join.

  lemma Assoc<X>(a: seq<X>, b: seq<X>, c: seq<X>)
    ensures a + (b + c) == a + b + c
  {
  }

  lemma Assoc4<X>(a: seq<X>, b: seq<X>, c: seq<X>, d: seq<X>)
    ensures a + (b + c + d) == a + b + c + d
    ensures a + b + c + d == a + (b + c + d)
    ensures (a + b + c) + d == a + (b + c + d)
    ensures a + (b + c) + d == (a + b) + (c + d)
  {
  }

  lemma DropFirst<X>(a: seq<X>, b: seq<X>)
    requires a != []
    ensures (a + b)[1..] == a[1..] + b
  {
  }

  lemma DropFirst3<X>(a: seq<X>, b: seq<X>, c: seq<X>)
    requires a != []
    ensures (a + b + c)[1..] == a[1..] + b + c
  {
  }

  lemma HeadTail<X>(s: seq<X>)
    requires s != []
    ensures s == [s[0]] + s[1..]
  {
  }
}
