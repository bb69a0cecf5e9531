/** What `enqueue` does to the tree (priorityqueue.h:257-312), and the sorted
    listing it produces: a stable insertion sort of the enqueued pairs. */
module Insertion {
  import opened Trees

  /** A node as `enqueue` fills it: no children, no chain, `dup` false. */
  function NewLeaf<T>(value: T, priority: int, up: Up): Tree<T> {
    Node(Cell(priority, value, false, up), [], Empty, Empty)
  }

  /** The tree after `enqueue(value, priority)`: a strictly greater priority
      goes right, a strictly smaller one left, an equal one to the end of the
      node's chain with `dup` true. `up` is the parent link the new node gets
      if `t` is empty: nullptr at the root. Exactly one node is added (the
      `size++` of line 311) and the top node keeps its parent link. */
  function Insert<T>(t: Tree<T>, value: T, priority: int, up: Up): (r: Tree<T>)
    ensures r.Node? && Count(r) == Count(t) + 1
    ensures r.item.up == (if t.Empty? then up else t.item.up)
  {
    if t.Empty? then NewLeaf(value, priority, up)
    else if t.item.priority < priority then t.(right := Insert(t.right, value, priority, Owner))
    else if priority < t.item.priority then t.(left := Insert(t.left, value, priority, Owner))
    else t.(chain := t.chain + [Cell(priority, value, true, Owner)])
  }

  /** `e` placed right after the leading entries whose priority is at most its own. */
  function InsertSorted<T>(s: seq<Entry<T>>, e: Entry<T>): seq<Entry<T>> {
    if s == [] || e.priority < s[0].priority then [e] + s
    else [s[0]] + InsertSorted(s[1..], e)
  }

  /** Number of leading entries of `s` with priority at most `p`. */
  function Position<T>(s: seq<Entry<T>>, p: int): (k: nat)
    ensures k <= |s|
    ensures forall i :: 0 <= i < k ==> s[i].priority <= p
    ensures k < |s| ==> p < s[k].priority
  {
    if s == [] || p < s[0].priority then 0 else 1 + Position(s[1..], p)
  }

  /** Entries of `s` whose priority is `p`, in their order in `s`. */
  function Filter<T>(s: seq<Entry<T>>, p: int): seq<Entry<T>> {
    if s == [] then []
    else (if s[0].priority == p then [s[0]] else []) + Filter(s[1..], p)
  }

  lemma {:induction false} FilterAppend<T>(a: seq<Entry<T>>, b: seq<Entry<T>>, p: int)
    ensures Filter(a + b, p) == Filter(a, p) + Filter(b, p)
  {
    if a != [] {
      assert (a + b)[0] == a[0];
      assert (a + b)[1..] == a[1..] + b;
      FilterAppend(a[1..], b, p);
    } else {
      assert a + b == b;
    }
  }

  /** The new entry lands exactly at `Position`: after every entry of
      priority at most its own, before the first greater one. */
  lemma {:induction false} InsertSortedSplit<T>(s: seq<Entry<T>>, e: Entry<T>)
    ensures InsertSorted(s, e) == s[..Position(s, e.priority)] + [e] + s[Position(s, e.priority)..]
  {
    if s != [] && s[0].priority <= e.priority {
      InsertSortedSplit(s[1..], e);
      var k := Position(s[1..], e.priority);
      assert s[1..][..k] == s[1..k + 1];
      assert s[1..][k..] == s[k + 1..];
      assert s[..k + 1] == [s[0]] + s[1..k + 1];
    }
  }

  lemma {:induction false} InsertSortedMultiset<T>(s: seq<Entry<T>>, e: Entry<T>)
    ensures multiset(InsertSorted(s, e)) == multiset(s) + multiset{e}
  {
    if s != [] && s[0].priority <= e.priority {
      InsertSortedMultiset(s[1..], e);
      var r := InsertSorted(s[1..], e);
      assert InsertSorted(s, e) == [s[0]] + r;
      assert multiset([s[0]] + r) == multiset{s[0]} + multiset(r);
      assert s == [s[0]] + s[1..];
      assert multiset(s) == multiset{s[0]} + multiset(s[1..]);
    }
  }

  lemma {:induction false} InsertSortedSorted<T>(s: seq<Entry<T>>, e: Entry<T>)
    requires Sorted(s)
    ensures Sorted(InsertSorted(s, e))
  {
    InsertSortedSplit(s, e);
    var k := Position(s, e.priority);
    var r := InsertSorted(s, e);
    forall i, j | 0 <= i < j < |r| ensures r[i].priority <= r[j].priority {
      if j < k || i > k {
      } else if i == k {
        assert r[j] == s[j - 1];
      } else if j == k {
      } else {
        assert r[i] == s[i] && r[j] == s[j - 1];
      }
    }
  }

  /** Stability: among entries of one priority, the new entry comes last and
      the others keep their order. */
  lemma {:induction false} InsertSortedFilter<T>(s: seq<Entry<T>>, e: Entry<T>, p: int)
    requires Sorted(s)
    ensures Filter(InsertSorted(s, e), p) == Filter(s, p) + (if e.priority == p then [e] else [])
  {
    if s == [] || e.priority < s[0].priority {
      FilterAppend([e], s, p);
      if e.priority == p {
        FilterNone(s, p);
      }
    } else {
      assert Sorted(s[1..]);
      InsertSortedFilter(s[1..], e, p);
      FilterAppend([s[0]], InsertSorted(s[1..], e), p);
    }
  }

  lemma {:induction false} FilterNone<T>(s: seq<Entry<T>>, p: int)
    requires Sorted(s)
    requires s != [] ==> p < s[0].priority
    ensures Filter(s, p) == []
  {
    if s != [] {
      FilterNone(s[1..], p);
    }
  }

  lemma {:induction false} InsertSortedAfter<T>(a: seq<Entry<T>>, b: seq<Entry<T>>, e: Entry<T>)
    requires forall x <- a :: x.priority <= e.priority
    ensures InsertSorted(a + b, e) == a + InsertSorted(b, e)
  {
    if a != [] {
      assert (a + b)[0] == a[0];
      assert (a + b)[1..] == a[1..] + b;
      assert a[0] in a;
      assert forall x <- a[1..] :: x in a;
      InsertSortedAfter(a[1..], b, e);
    } else {
      assert a + b == b;
    }
  }

  lemma {:induction false} InsertSortedBefore<T>(a: seq<Entry<T>>, b: seq<Entry<T>>, e: Entry<T>)
    requires forall x <- b :: e.priority < x.priority
    ensures InsertSorted(a + b, e) == InsertSorted(a, e) + b
  {
    if a == [] {
      assert a + b == b;
      if b != [] { assert b[0] in b; }
    } else if e.priority < a[0].priority {
    } else {
      assert (a + b)[1..] == a[1..] + b;
      InsertSortedBefore(a[1..], b, e);
    }
  }

  /** `enqueue` keeps the tree ordered and places the new pair in the listing
      right after the last entry whose priority is at most its own. */
  lemma {:induction false} InsertElements<T>(t: Tree<T>, value: T, priority: int, up: Up)
    requires Ordered(t)
    ensures Elements(Insert(t, value, priority, up)) == InsertSorted(Elements(t), Entry(priority, value))
    ensures Ordered(Insert(t, value, priority, up))
  {
    if t.Node? {
      GroupPriorities(t);
      if t.item.priority < priority {
        InsertElements(t.right, value, priority, Owner);
        InsertRight(t, value, priority, up);
      } else if priority < t.item.priority {
        InsertElements(t.left, value, priority, Owner);
        InsertLeft(t, value, priority, up);
      } else {
        InsertHere(t, value, priority, up);
      }
    }
  }

  lemma InsertRight<T>(t: Tree<T>, value: T, priority: int, up: Up)
    requires t.Node? && Ordered(t) && t.item.priority < priority
    requires forall x <- Group(t) :: x.priority == t.item.priority
    requires Elements(Insert(t.right, value, priority, Owner)) == InsertSorted(Elements(t.right), Entry(priority, value))
    requires Ordered(Insert(t.right, value, priority, Owner))
    ensures Elements(Insert(t, value, priority, up)) == InsertSorted(Elements(t), Entry(priority, value))
    ensures Ordered(Insert(t, value, priority, up))
  {
    var e := Entry(priority, value);
    var l, g, r := Elements(t.left), Group(t), Elements(t.right);
    var r' := Insert(t.right, value, priority, Owner);
    assert Insert(t, value, priority, up) == t.(right := r');
    OrderedParts(t);
    AtMostAll(l, g, t.item.priority, priority);
    InsertSortedAfter(l + g, r, e);
    InsertSortedMultiset(r, e);
    MoreAll(Elements(r'), r, e, t.item.priority);
    WithRight(t, r');
    calc {
      Elements(t.(right := r'));
      (l + g) + Elements(r');
      (l + g) + InsertSorted(r, e);
      InsertSorted((l + g) + r, e);
      { Assoc(l, g, r); }
      InsertSorted(Elements(t), e);
    }
  }

  lemma InsertLeft<T>(t: Tree<T>, value: T, priority: int, up: Up)
    requires t.Node? && Ordered(t) && priority < t.item.priority
    requires forall x <- Group(t) :: x.priority == t.item.priority
    requires Elements(Insert(t.left, value, priority, Owner)) == InsertSorted(Elements(t.left), Entry(priority, value))
    requires Ordered(Insert(t.left, value, priority, Owner))
    ensures Elements(Insert(t, value, priority, up)) == InsertSorted(Elements(t), Entry(priority, value))
    ensures Ordered(Insert(t, value, priority, up))
  {
    var e := Entry(priority, value);
    var l, g, r := Elements(t.left), Group(t), Elements(t.right);
    var l' := Insert(t.left, value, priority, Owner);
    assert Insert(t, value, priority, up) == t.(left := l');
    OrderedParts(t);
    GreaterAll(g, r, t.item.priority, priority);
    InsertSortedBefore(l, g + r, e);
    InsertSortedMultiset(l, e);
    LessAll(Elements(l'), l, e, t.item.priority);
    WithLeft(t, l');
    calc {
      Elements(t.(left := l'));
      Elements(l') + (g + r);
      InsertSorted(l, e) + (g + r);
      InsertSorted(l + (g + r), e);
      { Assoc(l, g, r); }
      InsertSorted(Elements(t), e);
    }
  }

  lemma InsertHere<T>(t: Tree<T>, value: T, priority: int, up: Up)
    requires t.Node? && Ordered(t) && priority == t.item.priority
    requires forall x <- Group(t) :: x.priority == t.item.priority
    ensures Elements(Insert(t, value, priority, up)) == InsertSorted(Elements(t), Entry(priority, value))
    ensures Ordered(Insert(t, value, priority, up))
  {
    var e := Entry(priority, value);
    var l, g, r := Elements(t.left), Group(t), Elements(t.right);
    var c := Cell(priority, value, true, Owner);
    assert Insert(t, value, priority, up) == t.(chain := t.chain + [c]);
    OrderedParts(t);
    WithChainCell(t, c);
    AtMostAll(l, g, priority, priority);
    InsertSortedAfter(l + g, r, e);
    InsertSortedFirst(r, e);
  }

  /** The facts `Ordered` packs for one node. */
  lemma OrderedParts<T>(t: Tree<T>)
    requires t.Node? && Ordered(t)
    ensures Elements(t) == Elements(t.left) + Group(t) + Elements(t.right)
    ensures forall x <- Elements(t.left) :: x.priority < t.item.priority
    ensures forall x <- Elements(t.right) :: t.item.priority < x.priority
    ensures forall c <- t.chain :: c.priority == t.item.priority
    ensures Ordered(t.left) && Ordered(t.right)
  {
  }

  lemma WithLeft<T>(t: Tree<T>, s: Tree<T>)
    requires t.Node? && Ordered(t) && Ordered(s)
    requires forall x <- Elements(s) :: x.priority < t.item.priority
    ensures Elements(t.(left := s)) == Elements(s) + (Group(t) + Elements(t.right))
    ensures Ordered(t.(left := s))
  {
    var t' := t.(left := s);
    assert Group(t') == Group(t);
    Assoc(Elements(s), Group(t), Elements(t.right));
  }

  lemma WithRight<T>(t: Tree<T>, s: Tree<T>)
    requires t.Node? && Ordered(t) && Ordered(s)
    requires forall x <- Elements(s) :: t.item.priority < x.priority
    ensures Elements(t.(right := s)) == (Elements(t.left) + Group(t)) + Elements(s)
    ensures Ordered(t.(right := s))
  {
    var t' := t.(right := s);
    assert Group(t') == Group(t);
  }

  lemma WithChainCell<T>(t: Tree<T>, c: Cell<T>)
    requires t.Node? && Ordered(t) && c.priority == t.item.priority
    ensures Elements(t.(chain := t.chain + [c])) == (Elements(t.left) + Group(t)) + ([EntryOf(c)] + Elements(t.right))
    ensures Ordered(t.(chain := t.chain + [c]))
  {
    var t' := t.(chain := t.chain + [c]);
    var l, g, r := Elements(t.left), Group(t), Elements(t.right);
    GroupSnoc(t, c);
    assert Elements(t') == l + (g + [EntryOf(c)]) + r;
    Assoc4(l, g, [EntryOf(c)], r);
    assert forall x <- t'.chain :: x.priority == t.item.priority by {
      assert forall x <- t.chain + [c] :: x in t.chain || x == c;
    }
  }

  lemma GroupSnoc<T>(t: Tree<T>, c: Cell<T>)
    requires t.Node?
    ensures Group(t.(chain := t.chain + [c])) == Group(t) + [EntryOf(c)]
  {
    assert [t.item] + (t.chain + [c]) == ([t.item] + t.chain) + [c];
  }

  lemma InsertSortedFirst<T>(r: seq<Entry<T>>, e: Entry<T>)
    requires forall x <- r :: e.priority < x.priority
    ensures InsertSorted(r, e) == [e] + r
  {
    if r != [] { assert r[0] in r; }
  }

  lemma AtMostAll<T>(l: seq<Entry<T>>, g: seq<Entry<T>>, k: int, p: int)
    requires forall x <- l :: x.priority < k
    requires forall x <- g :: x.priority == k
    requires k <= p
    ensures forall x <- l + g :: x.priority <= p
  {
    forall x <- l + g ensures x.priority <= p {
      assert x in l || x in g;
    }
  }

  lemma GreaterAll<T>(g: seq<Entry<T>>, r: seq<Entry<T>>, k: int, p: int)
    requires forall x <- g :: x.priority == k
    requires forall x <- r :: k < x.priority
    requires p < k
    ensures forall x <- g + r :: p < x.priority
  {
    forall x <- g + r ensures p < x.priority {
      assert x in g || x in r;
    }
  }

  lemma LessAll<T>(s: seq<Entry<T>>, l: seq<Entry<T>>, e: Entry<T>, k: int)
    requires multiset(s) == multiset(l) + multiset{e}
    requires forall x <- l :: x.priority < k
    requires e.priority < k
    ensures forall x <- s :: x.priority < k
  {
    forall x <- s ensures x.priority < k {
      assert x in multiset(s);
    }
  }

  lemma MoreAll<T>(s: seq<Entry<T>>, r: seq<Entry<T>>, e: Entry<T>, k: int)
    requires multiset(s) == multiset(r) + multiset{e}
    requires forall x <- r :: k < x.priority
    requires k < e.priority
    ensures forall x <- s :: k < x.priority
  {
    forall x <- s ensures k < x.priority {
      assert x in multiset(s);
    }
  }

  /** The tree built by enqueueing `es` in order into an empty queue: one
      node per call, and the root's `parent` is nullptr. */
  function Build<T>(es: seq<Entry<T>>): (r: Tree<T>)
    ensures Count(r) == |es|
    ensures RootDetached(r)
  {
    if es == [] then Empty
    else Insert(Build(es[..|es| - 1]), es[|es| - 1].value, es[|es| - 1].priority, NoParent)
  }

  /** `enqueue` keeps every parent link and `dup` flag as `next` needs them. */
  lemma {:induction false} InsertThreaded<T>(t: Tree<T>, value: T, priority: int, isRoot: bool)
    requires Threaded(t, isRoot)
    ensures Threaded(Insert(t, value, priority, if isRoot then NoParent else Owner), isRoot)
  {
    if t.Node? {
      var u := if isRoot then NoParent else Owner;
      if t.item.priority < priority {
        InsertThreaded(t.right, value, priority, false);
      } else if priority < t.item.priority {
        InsertThreaded(t.left, value, priority, false);
      } else {
        var c := Cell(priority, value, true, Owner);
        var t' := t.(chain := t.chain + [c]);
        assert Insert(t, value, priority, u) == t';
        assert forall x <- t'.chain :: x.dup && x.up == Owner by {
          assert forall x <- t.chain + [c] :: x in t.chain || x == c;
        }
      }
    } else {
      assert Threaded<T>(Empty, false);
    }
  }

  /** `enqueue` keeps the root detached, and keeps the left children's parent
      links safe (and linked, when they were). */
  lemma {:induction false} InsertLinks<T>(t: Tree<T>, value: T, priority: int)
    requires RootDetached(t)
    ensures RootDetached(Insert(t, value, priority, NoParent))
    ensures LeftSafe(t) ==> LeftSafe(Insert(t, value, priority, NoParent))
    ensures LeftLinked(t) ==> LeftLinked(Insert(t, value, priority, NoParent))
  {
    if t.Node? {
      InsertKeepsLinks(t.left, value, priority);
      InsertKeepsLinks(t.right, value, priority);
    }
  }

  lemma {:induction false} InsertKeepsLinks<T>(t: Tree<T>, value: T, priority: int)
    ensures LeftSafe(t) ==> LeftSafe(Insert(t, value, priority, Owner))
    ensures LeftLinked(t) ==> LeftLinked(Insert(t, value, priority, Owner))
  {
    if t.Node? {
      InsertKeepsLinks(t.left, value, priority);
      InsertKeepsLinks(t.right, value, priority);
    }
  }

  /** A node that was at path `p` is still there after `enqueue`, with at
      least the chain it had: a cursor resting on it stays valid. */
  lemma {:induction false} InsertKeepsPath<T>(t: Tree<T>, value: T, priority: int, up: Up, p: seq<Dir>)
    requires At(t, p).Node?
    ensures At(Insert(t, value, priority, up), p).Node?
    ensures At(Insert(t, value, priority, up), p).item == At(t, p).item
    ensures |At(t, p).chain| <= |At(Insert(t, value, priority, up), p).chain|
    decreases |p|
  {
    if p != [] {
      InsertKeepsPath(Child(t, p[0]), value, priority, Owner, p[1..]);
    }
  }

  /** Enqueueing `es` into an empty queue yields a threaded, ordered tree
      whose listing is sorted by priority, is a permutation of `es`, and lists
      each priority's values in enqueue order. */
  lemma {:induction false} BuildSorts<T>(es: seq<Entry<T>>)
    ensures Ordered(Build(es)) && Threaded(Build(es), true)
    ensures Sorted(Elements(Build(es)))
    ensures multiset(Elements(Build(es))) == multiset(es)
    ensures forall p :: Filter(Elements(Build(es)), p) == Filter(es, p)
  {
    if es != [] {
      var init, e := es[..|es| - 1], es[|es| - 1];
      BuildSorts(init);
      SnocParts(es);
      BuildStep(init, e, es);
    }
  }

  lemma SnocParts<T>(es: seq<Entry<T>>)
    requires es != []
    ensures es == es[..|es| - 1] + [es[|es| - 1]]
    ensures multiset(es) == multiset(es[..|es| - 1]) + multiset{es[|es| - 1]}
    ensures forall p :: Filter(es, p) == Filter(es[..|es| - 1], p) + Filter([es[|es| - 1]], p)
  {
    var init, e := es[..|es| - 1], es[|es| - 1];
    SplitLast(es);
    forall p ensures Filter(es, p) == Filter(init, p) + Filter([e], p) {
      FilterAppend(init, [e], p);
    }
  }

  lemma SplitLast<X>(s: seq<X>)
    requires s != []
    ensures s == s[..|s| - 1] + [s[|s| - 1]]
  {
  }

  lemma BuildStep<T>(init: seq<Entry<T>>, e: Entry<T>, es: seq<Entry<T>>)
    requires es != [] && init == es[..|es| - 1] && e == es[|es| - 1]
    requires multiset(es) == multiset(init) + multiset{e}
    requires forall p :: Filter(es, p) == Filter(init, p) + Filter([e], p)
    requires Ordered(Build(init)) && Threaded(Build(init), true)
    requires Sorted(Elements(Build(init)))
    requires multiset(Elements(Build(init))) == multiset(init)
    requires forall p :: Filter(Elements(Build(init)), p) == Filter(init, p)
    ensures Ordered(Build(es)) && Threaded(Build(es), true)
    ensures Sorted(Elements(Build(es)))
    ensures multiset(Elements(Build(es))) == multiset(es)
    ensures forall p :: Filter(Elements(Build(es)), p) == Filter(es, p)
  {
    var t := Build(init);
    assert Build(es) == Insert(t, e.value, e.priority, NoParent);
    assert Entry(e.priority, e.value) == e;
    InsertElements(t, e.value, e.priority, NoParent);
    InsertThreaded(t, e.value, e.priority, true);
    OrderedSorted(Build(es));
    InsertSortedMultiset(Elements(t), e);
    FilterStep(Elements(t), init, e, es, Elements(Build(es)));
  }

  lemma FilterStep<T>(s: seq<Entry<T>>, init: seq<Entry<T>>, e: Entry<T>, es: seq<Entry<T>>, s': seq<Entry<T>>)
    requires Sorted(s) && s' == InsertSorted(s, e)
    requires forall p :: Filter(es, p) == Filter(init, p) + Filter([e], p)
    requires forall p :: Filter(s, p) == Filter(init, p)
    ensures forall p :: Filter(s', p) == Filter(es, p)
  {
    forall p ensures Filter(s', p) == Filter(es, p) {
      InsertSortedFilter(s, e, p);
      assert [e][1..] == [];
      assert Filter([e], p) == (if e.priority == p then [e] else []);
    }
  }

  /** `dequeue` and `peek` on a queue built by `enqueue` yield a pair of least
      priority, and among pairs of that priority the one enqueued first. */
  lemma {:induction false} FirstIsEarliestMinimum<T>(es: seq<Entry<T>>)
    requires es != []
    ensures var h := Elements(Build(es))[0];
      && h in es
      && (forall e <- es :: h.priority <= e.priority)
      && Filter(es, h.priority) != [] && h == Filter(es, h.priority)[0]
  {
    BuildSorts(es);
    var s := Elements(Build(es));
    assert |s| == |es| by {
      assert |multiset(s)| == |multiset(es)|;
    }
    SortedHead(s, es);
  }

  lemma SortedHead<T>(s: seq<Entry<T>>, es: seq<Entry<T>>)
    requires s != [] && Sorted(s) && multiset(s) == multiset(es)
    ensures s[0] in es
    ensures forall e <- es :: s[0].priority <= e.priority
    ensures Filter(s, s[0].priority) != [] && Filter(s, s[0].priority)[0] == s[0]
  {
    assert s[0] in multiset(es);
    forall e <- es ensures s[0].priority <= e.priority {
      assert e in multiset(s);
      var j :| 0 <= j < |s| && s[j] == e;
      if j > 0 { assert s[0].priority <= s[j].priority; }
    }
  }
}
