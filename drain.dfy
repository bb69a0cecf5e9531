/** Emptying a queue by calling `dequeue` until it is empty
    (priorityqueue.h:322-395): the pairs come out in the order `toString`
    lists them, and for a queue filled by `enqueue` that order is the stable
    sort of the insertions. */
module Draining {
  import opened Trees
  import opened Insertion
  import opened Removal

  /** The (priority, value) pairs successive `dequeue` calls take from the
      tree: each call takes the leftmost node's pair (lines 331-338) and
      leaves `Dequeued`, until the tree is empty. No call takes more than
      one pair, so there are at most as many calls as entries. */
  function Drain<T>(t: Tree<T>): (r: seq<Entry<T>>)
    ensures |r| <= Count(t)
    ensures t.Node? ==> r != [] && r[0] == EntryOf(Leftmost(t).item)
    decreases Count(t)
  {
    if t.Empty? then [] else [EntryOf(Leftmost(t).item)] + Drain(Dequeued(t))
  }

  /** While the left children point back at their parents, draining hands
      out every entry exactly once, in the order of the listing: one
      `dequeue` per entry. */
  lemma {:induction false} DrainListing<T>(t: Tree<T>)
    requires Ordered(t) && RootDetached(t) && LeftLinked(t)
    ensures Drain(t) == Elements(t)
    decreases Count(t)
  {
    if t.Node? {
      var d := Dequeued(t);
      LinkedSafe(t);
      DequeuedKeeps(t);
      DequeuedSound(t);
      DrainListing(d);
      LeftmostFirst(t);
      HeadTail(Elements(t));
    }
  }

  /** Enqueueing `es` into an empty queue and then dequeueing until it is
      empty yields `es` sorted by priority, with no pair lost or added and
      pairs of equal priority in arrival order: a stable sort. */
  lemma DrainBuild<T>(es: seq<Entry<T>>)
    ensures |Drain(Build(es))| == |es|
    ensures Sorted(Drain(Build(es)))
    ensures multiset(Drain(Build(es))) == multiset(es)
    ensures forall p :: Filter(Drain(Build(es)), p) == Filter(es, p)
  {
    BuildSorts(es);
    ThreadedLinked(Build(es), true);
    DrainListing(Build(es));
  }

}
