/** Where the traversal cursor `curr` rests (priorityqueue.h:39, 423-492): a
    node reached from the root by a path of `left`/`right` steps, and which
    node of that node's group it is (0 = the tree-resident node, k = the k-th
    node of its chain). The path stands in for the `parent` pointers `next`
    climbs by, which is sound exactly when the tree is `Threaded`. */
module Positions {
  import opened Trees

  /** The entries listed after the subtree at path `p`: for every ancestor
      whose left subtree the path enters, that ancestor's group and its right
      subtree, deepest ancestor first. */
  function Above<T>(t: Tree<T>, p: seq<Dir>): seq<Entry<T>>
    decreases |p|
  {
    if p == [] || t.Empty? then []
    else if p[0] == Left then Above(t.left, p[1..]) + Group(t) + Elements(t.right)
    else Above(t.right, p[1..])
  }

  /** The entries listed before the subtree at path `p`. */
  function Before<T>(t: Tree<T>, p: seq<Dir>): seq<Entry<T>>
    decreases |p|
  {
    if p == [] || t.Empty? then []
    else if p[0] == Left then Before(t.left, p[1..])
    else Elements(t.left) + Group(t) + Before(t.right, p[1..])
  }

  /** Every subtree splits the listing into what comes before it, its own
      entries, and what comes after it. */
  lemma {:induction false} Split<T>(t: Tree<T>, p: seq<Dir>)
    requires At(t, p).Node?
    ensures Elements(t) == Before(t, p) + Elements(At(t, p)) + Above(t, p)
    decreases |p|
  {
    if p != [] {
      var c := Child(t, p[0]);
      Split(c, p[1..]);
      var b, m, a := Before(c, p[1..]), Elements(At(c, p[1..])), Above(c, p[1..]);
      var l, g, r := Elements(t.left), Group(t), Elements(t.right);
      assert Elements(t) == l + g + r;
      if p[0] == Left {
        assert l == b + m + a;
        calc {
          l + g + r;
          (b + m + a) + g + r;
          { Assoc4(b + m, a, g, r); }
          b + m + (a + g + r);
        }
      } else {
        assert r == b + m + a;
        calc {
          l + g + r;
          l + g + (b + m + a);
          { Assoc4(l + g, b, m, a); }
          (l + g + b) + m + a;
        }
      }
    }
  }

  /** One step down to the left: the node just left and its right subtree
      now come after the cursor's subtree. */
  lemma {:induction false} AboveLeft<T>(t: Tree<T>, p: seq<Dir>)
    requires At(t, p).Node?
    ensures Above(t, p + [Left]) == Group(At(t, p)) + Elements(At(t, p).right) + Above(t, p)
    decreases |p|
  {
    if p == [] {
      assert [Left][1..] == [];
    } else {
      AboveLeft(Child(t, p[0]), p[1..]);
      AboveLeftBelow(t, p);
    }
  }

  /** The step of `AboveLeft` for a path that first enters a child: what
      holds below that child holds at the root. */
  lemma AboveLeftBelow<T>(t: Tree<T>, p: seq<Dir>)
    requires p != [] && At(t, p).Node?
    requires Above(Child(t, p[0]), p[1..] + [Left])
          == Group(At(t, p)) + Elements(At(t, p).right) + Above(Child(t, p[0]), p[1..])
    ensures Above(t, p + [Left]) == Group(At(t, p)) + Elements(At(t, p).right) + Above(t, p)
  {
    var c, q := Child(t, p[0]), p[1..];
    assert (p + [Left])[1..] == q + [Left];
    var x := Group(At(t, p)) + Elements(At(t, p).right);
    if p[0] == Left {
      var a, g, r := Above(c, q), Group(t), Elements(t.right);
      assert Above(t, p + [Left]) == (x + a) + g + r;
      Assoc4(x, a, g, r);
    }
  }

  /** One step down to the right: nothing new comes after the subtree. */
  lemma {:induction false} AboveRight<T>(t: Tree<T>, p: seq<Dir>)
    requires At(t, p).Node?
    ensures Above(t, p + [Right]) == Above(t, p)
    decreases |p|
  {
    if p != [] {
      assert (p + [Right])[1..] == p[1..] + [Right];
      AboveRight(Child(t, p[0]), p[1..]);
    }
  }

  /** The node of group index `i` at path `p`: the tree-resident node for 0,
      otherwise the `i`-th node of its chain. */
  function CellAt<T>(t: Tree<T>, p: seq<Dir>, i: nat): (c: Cell<T>)
    requires At(t, p).Node? && i <= |At(t, p).chain|
    ensures EntryOf(c) == Group(At(t, p))[i]
  {
    if i == 0 then At(t, p).item else At(t, p).chain[i - 1]
  }

  /** The rest of the listing from position (`p`, `i`), the entry there
      first: what `next` writes from there while the tree is threaded. */
  function Rest<T>(t: Tree<T>, p: seq<Dir>, i: nat): (r: seq<Entry<T>>)
    requires At(t, p).Node? && i <= |At(t, p).chain|
    ensures r != [] && r[0] == EntryOf(CellAt(t, p, i))
  {
    Group(At(t, p))[i..] + Elements(At(t, p).right) + Above(t, p)
  }

  /** The rest of the listing from a position is a tail of the listing. */
  lemma RestIsSuffix<T>(t: Tree<T>, p: seq<Dir>, i: nat)
    requires At(t, p).Node? && i <= |At(t, p).chain|
    ensures exists k :: 0 <= k < |Elements(t)| && Rest(t, p, i) == Elements(t)[k..]
  {
    Split(t, p);
    var m := At(t, p);
    var b, l, g, r, a := Before(t, p), Elements(m.left), Group(m), Elements(m.right), Above(t, p);
    assert Elements(m) == l + g + r;
    Rearrange(b, l, g, r, a, i);
    var x := b + l + g[..i];
    DropPrefix(x, g[i..] + r + a);
    assert |x| < |Elements(t)|;
  }

  lemma Rearrange<X>(b: seq<X>, l: seq<X>, g: seq<X>, r: seq<X>, a: seq<X>, i: nat)
    requires i < |g|
    ensures b + (l + g + r) + a == (b + l + g[..i]) + (g[i..] + r + a)
  {
    assert g == g[..i] + g[i..];
  }

  lemma DropPrefix<X>(x: seq<X>, y: seq<X>)
    ensures (x + y)[|x|..] == y
  {
  }

  /** In a threaded tree the `parent` pointer of the node at `p` is nullptr
      exactly at the root, every tree-resident node has `dup` false and every
      chain node has `dup` true and points back at its predecessor. */
  lemma {:induction false} ThreadedAt<T>(t: Tree<T>, p: seq<Dir>, isRoot: bool)
    requires Threaded(t, isRoot) && At(t, p).Node?
    ensures Threaded(At(t, p), isRoot && p == [])
    decreases |p|
  {
    if p != [] {
      ThreadedAt(Child(t, p[0]), p[1..], false);
    }
  }

  /** The cell under the cursor is a chain node exactly when its `dup` flag
      is set, and its `parent` pointer then leads to index `i - 1`. */
  lemma DupIsChain<T>(t: Tree<T>, p: seq<Dir>, i: nat)
    requires Threaded(t, true) && At(t, p).Node? && i <= |At(t, p).chain|
    ensures CellAt(t, p, i).dup <==> i > 0
    ensures i > 0 ==> CellAt(t, p, i).up == Owner
    ensures CellAt(t, p, 0).up == (if p == [] then NoParent else Owner)
  {
    ThreadedAt(t, p, true);
    if i > 0 {
      assert At(t, p).chain[i - 1] in At(t, p).chain;
    }
  }

  /** A path that only turns left. */
  ghost predicate AllLeft(p: seq<Dir>) {
    forall i :: 0 <= i < |p| ==> p[i] == Left
  }

  /** Following only left turns from the root, the subtree under the path
      and what comes after it make up the whole listing. */
  lemma LeftSpine<T>(t: Tree<T>, p: seq<Dir>)
    requires AllLeft(p) && At(t, p).Node?
    ensures Elements(t) == Elements(At(t, p)) + Above(t, p)
  {
    Split(t, p);
    BeforeLeft(t, p);
  }

  lemma {:induction false} BeforeLeft<T>(t: Tree<T>, p: seq<Dir>)
    requires AllLeft(p)
    ensures Before(t, p) == []
    decreases |p|
  {
    if p != [] && t.Node? {
      BeforeLeft(t.left, p[1..]);
    }
  }

  /** A node's parent is a node. */
  lemma {:induction false} AtParent<T>(t: Tree<T>, p: seq<Dir>, d: Dir)
    requires At(t, p + [d]).Node?
    ensures At(t, p).Node? && At(t, p + [d]) == Child(At(t, p), d)
    decreases |p|
  {
    if p == [] {
      assert [d][1..] == [];
    } else {
      assert (p + [d])[1..] == p[1..] + [d];
      if t.Node? {
        AtParent(Child(t, p[0]), p[1..], d);
      }
    }
  }

  /** A step to the left child changes neither what lies under the path
      nor what follows it, taken together. */
  lemma StepLeft<T>(t: Tree<T>, p: seq<Dir>)
    requires At(t, p).Node? && At(t, p).left.Node?
    ensures At(t, p + [Left]) == At(t, p).left
    ensures Elements(At(t, p + [Left])) + Above(t, p + [Left]) == Elements(At(t, p)) + Above(t, p)
  {
    AtSnoc(t, p, Left);
    AboveLeft(t, p);
    var m := At(t, p);
    Assoc4(Elements(m.left), Group(m), Elements(m.right), Above(t, p));
  }

  /** At a node with no left subtree, the traversal starts with that node. */
  lemma Settle<T>(t: Tree<T>, p: seq<Dir>)
    requires At(t, p).Node? && At(t, p).left.Empty?
    ensures Rest(t, p, 0) == Elements(At(t, p)) + Above(t, p)
  {
    var m := At(t, p);
    var g, r, a := Group(m), Elements(m.right), Above(t, p);
    assert Rest(t, p, 0) == g[0..] + r + a;
    assert g[0..] == g;
    assert Elements(m) == Elements(m.left) + g + r;
    EmptyPrefix(Elements(m.left), g);
    assert Elements(m) == g + r;
  }

  lemma EmptyPrefix<X>(e: seq<X>, y: seq<X>)
    requires e == []
    ensures e + y == y
  {
  }

  /** Once the last node of a group is written, the right subtree and what
      follows the node remain. */
  lemma LastOfGroup<T>(t: Tree<T>, p: seq<Dir>)
    requires At(t, p).Node?
    ensures Rest(t, p, |At(t, p).chain|)[1..] == Elements(At(t, p).right) + Above(t, p)
  {
    var m := At(t, p);
    var g := Group(m)[|m.chain|..];
    assert |g| == 1 && g[1..] == [];
    assert Rest(t, p, |m.chain|) == g + Elements(m.right) + Above(t, p);
    DropFirst3(g, Elements(m.right), Above(t, p));
    EmptyPrefix(g[1..], Elements(m.right));
  }

  /** Writing a node that has a successor in its chain leaves the rest of
      the group. */
  lemma NextInGroup<T>(t: Tree<T>, p: seq<Dir>, i: nat)
    requires At(t, p).Node? && i < |At(t, p).chain|
    ensures Rest(t, p, i)[1..] == Rest(t, p, i + 1)
  {
    var m := At(t, p);
    var g := Group(m)[i..];
    assert g[1..] == Group(m)[i + 1..];
    DropFirst3(g, Elements(m.right), Above(t, p));
  }
}
