/** The deep copy `operator=` makes (priorityqueue.h:79-118). */
module Copying {
  import opened Trees

  /** `_recursiveCopyLink` (lines 79-92): a fresh node per chain node with its
      priority and value; the fresh nodes are value-initialised, so their
      `dup` flag is false and their `parent` pointer nullptr. */
  function CopyLink<T>(chain: seq<Cell<T>>): (r: seq<Cell<T>>)
    ensures |r| == |chain|
    ensures forall i :: 0 <= i < |r| ==> EntryOf(r[i]) == EntryOf(chain[i])
    ensures forall i :: 0 <= i < |r| ==> !r[i].dup && r[i].up == NoParent
  {
    if chain == [] then []
    else [Cell(chain[0].priority, chain[0].value, false, NoParent)] + CopyLink(chain[1..])
  }

  /** No node of `t`, tree-resident or in a chain, has a `parent`, and no
      chain node has `dup` set: what a copy's nodes look like. */
  ghost predicate Unlinked<T>(t: Tree<T>) {
    t.Node? ==>
      && t.item.up == NoParent
      && (forall c <- t.chain :: c.up == NoParent && !c.dup)
      && Unlinked(t.left) && Unlinked(t.right)
  }

  /** `_copyingTree` (lines 95-118): the same shape, priorities, values and
      tree-resident `dup` flags, with every `parent` pointer nullptr
      (line 108). The copy lists the same entries, is ordered when the
      original is, and its `parent` pointers never point at a deleted node. */
  function CopyTree<T>(t: Tree<T>): (r: Tree<T>)
    ensures Elements(r) == Elements(t)
    ensures Ordered(t) ==> Ordered(r)
    ensures RootDetached(r) && LeftSafe(r) && Unlinked(r)
    ensures r.Node? <==> t.Node?
    ensures r.Node? ==> r.item.up == NoParent
  {
    if t.Empty? then Empty
    else
      var left, right := CopyTree(t.left), CopyTree(t.right);
      var r := Node(t.item.(up := NoParent), CopyLink(t.chain), left, right);
      CopyLinkKeeps(t.chain, t.item.priority);
      assert Group(r) == Group(t);
      assert Elements(r) == Elements(left) + Group(t) + Elements(right);
      r
  }

  /** The copied chain lists the same entries, so it keeps every priority. */
  lemma CopyLinkKeeps<T>(chain: seq<Cell<T>>, k: int)
    ensures Entries(CopyLink(chain)) == Entries(chain)
    ensures (forall c <- chain :: c.priority == k) ==> forall c <- CopyLink(chain) :: c.priority == k
  {
    var r := CopyLink(chain);
    forall c <- r | forall x <- chain :: x.priority == k
      ensures c.priority == k
    {
      var i :| 0 <= i < |r| && r[i] == c;
      assert EntryOf(r[i]) == EntryOf(chain[i]);
      assert chain[i] in chain;
    }
  }
}
