/** What `operator==` compares (priorityqueue.h:150-186, 535-537). */
module Equality {
  import opened Trees
  import opened Copying

  /** The parts of a tree `_equal` looks at: the shape, each tree-resident
      node's value and `dup` flag, and each chain's (priority, value) pairs.
      A tree-resident node's priority is not among them: line 182 compares
      `node1->priority` with itself. */
  datatype Shape<T> = Nil | Fork(value: T, dup: bool, links: seq<Entry<T>>, left: Shape<T>, right: Shape<T>)

  function Key<T>(t: Tree<T>): (r: Shape<T>)
    ensures r.Nil? <==> t.Empty?
  {
    if t.Empty? then Nil
    else Fork(t.item.value, t.item.dup, Entries(t.chain), Key(t.left), Key(t.right))
  }

  /** `_equal`: both empty, or both non-empty with chains of equal length and
      pairwise equal (value, priority), then the left subtrees, the values,
      the (self-compared) priority, the `dup` flags and the right subtrees,
      in that order, stopping at the first difference. */
  method Equal<T(==)>(node1: Tree<T>, node2: Tree<T>) returns (eq: bool)
    ensures eq <==> Key(node1) == Key(node2)
    decreases node1
  {
    if node1.Empty? && node2.Empty? {
      return true;
    } else if node1.Empty? || node2.Empty? {
      return false;
    }
    var i := 0;
    while i < |node1.chain| && i < |node2.chain|
      invariant 0 <= i <= |node1.chain| && i <= |node2.chain|
      invariant Entries(node1.chain)[..i] == Entries(node2.chain)[..i]
    {
      var link1, link2 := node1.chain[i], node2.chain[i];
      if link1.value != link2.value || link1.priority != link2.priority {
        assert Entries(node1.chain)[i] != Entries(node2.chain)[i];
        return false;
      }
      assert Entries(node1.chain)[..i + 1] == Entries(node1.chain)[..i] + [EntryOf(link1)];
      assert Entries(node2.chain)[..i + 1] == Entries(node2.chain)[..i] + [EntryOf(link2)];
      i := i + 1;
    }
    if i < |node1.chain| || i < |node2.chain| {
      return false;
    }
    assert Entries(node1.chain) == Entries(node1.chain)[..i];
    assert Entries(node2.chain) == Entries(node2.chain)[..i];
    var sameLeft := Equal(node1.left, node2.left);
    if sameLeft && node1.item.value == node2.item.value
      && node1.item.priority == node1.item.priority && node1.item.dup == node2.item.dup
    {
      eq := Equal(node1.right, node2.right);
    } else {
      eq := false;
    }
  }

  /** `operator=` yields a queue that `operator==` reports equal to the
      original. */
  lemma {:induction false} CopyIsEqual<T>(t: Tree<T>)
    ensures Key(CopyTree(t)) == Key(t)
  {
    if t.Node? {
      CopyIsEqual(t.left);
      CopyIsEqual(t.right);
      var c := CopyTree(t);
      assert Entries(c.chain) == Entries(t.chain);
    }
  }

  /** Queues that `operator==` reports equal hold equally many entries:
      the shapes agree and so do the chain lengths. */
  lemma {:induction false} KeyCount<T>(a: Tree<T>, b: Tree<T>)
    requires Key(a) == Key(b)
    ensures Count(a) == Count(b)
  {
    if a.Node? {
      KeyCount(a.left, b.left);
      KeyCount(a.right, b.right);
      assert |Entries(a.chain)| == |Entries(b.chain)|;
    }
  }
}
