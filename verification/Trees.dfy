/**
 * The shape of a B+ tree, without its page images: which page is whose child and
 * what each leaf holds. Separators are not part of the shape, because a correct
 * separator is the least key of the child to its right.
 */
module Trees {
  import opened Entries

  datatype Tree =
    | Leaf(id: nat, es: seq<Entry>)
    | Node(id: nat, kids: seq<Tree>)

  /** Largest numbers of keys in a leaf and in an internal node. */
  datatype Caps = Caps(leaf: nat, internal: nat) {
    predicate Usable() {
      leaf >= 3 && internal >= 2
    }

    function MinLeaf(): nat {
      (leaf + 1) / 2
    }

    function MinInternal(): nat
      requires Usable()
    {
      (internal + 2) / 2 - 1
    }
  }

  ghost function Contents(t: Tree): seq<Entry>
    decreases t, 1
  {
    match t
    case Leaf(_, es) => es
    case Node(_, kids) => ContentsOf(kids)
  }

  ghost function ContentsOf(ts: seq<Tree>): seq<Entry>
    decreases ts, 0
  {
    if ts == [] then [] else Contents(ts[0]) + ContentsOf(ts[1..])
  }

  /** How many nodes of the tree sit on page x: sharing shows up as a count of two. */
  ghost function Count(t: Tree, x: nat): nat
    decreases t, 1
  {
    (if t.id == x then 1 else 0) + if t.Leaf? then 0 else CountOf(t.kids, x)
  }

  ghost function CountOf(ts: seq<Tree>, x: nat): nat
    decreases ts, 0
  {
    if ts == [] then 0 else Count(ts[0], x) + CountOf(ts[1..], x)
  }

  /** The page of the leftmost leaf. */
  ghost function First(t: Tree): nat
    decreases t
  {
    if t.Node? && t.kids != [] then First(t.kids[0]) else t.id
  }

  /** The key of the leftmost entry. */
  ghost function MinKey(t: Tree): Key
    decreases t
  {
    match t
    case Leaf(_, es) => if es == [] then 0.0 else es[0].key
    case Node(_, kids) => if kids == [] then 0.0 else MinKey(kids[0])
  }

  ghost function Mins(ts: seq<Tree>): (r: seq<Key>)
    ensures |r| == |ts|
  {
    seq(|ts|, i requires 0 <= i < |ts| => MinKey(ts[i]))
  }

  ghost function KidIds(ts: seq<Tree>): (r: seq<nat>)
    ensures |r| == |ts|
  {
    seq(|ts|, i requires 0 <= i < |ts| => ts[i].id)
  }

  /** Minimum occupancy of a non-root node. */
  ghost predicate Filled(t: Tree, c: Caps)
    requires c.Usable()
  {
    match t
    case Leaf(_, es) => |es| >= c.MinLeaf()
    case Node(_, kids) => |kids| >= c.MinInternal() + 1
  }

  /**
   * Uniform depth h, no node over capacity, no empty leaf, and every node below the
   * top at or above minimum occupancy. The top node itself may be underfull.
   */
  ghost predicate Good(t: Tree, h: nat, c: Caps)
    requires c.Usable()
    decreases t
  {
    match t
    case Leaf(_, es) => h == 1 && 1 <= |es| <= c.leaf
    case Node(_, kids) =>
      && h >= 2
      && 1 <= |kids| <= c.internal + 1
      && forall i :: 0 <= i < |kids| ==> Good(kids[i], h - 1, c) && Filled(kids[i], c)
  }

  /** A root is a leaf or has at least one separator. */
  ghost predicate GoodRoot(t: Tree, h: nat, c: Caps)
    requires c.Usable()
  {
    Good(t, h, c) && (t.Node? ==> |t.kids| >= 2)
  }

  ghost predicate GoodAll(ts: seq<Tree>, h: nat, c: Caps)
    requires c.Usable()
  {
    forall i :: 0 <= i < |ts| ==> Good(ts[i], h, c) && Filled(ts[i], c)
  }

  // Lists of subtrees behave well under concatenation.

  lemma {:induction false} ContentsConcat(a: seq<Tree>, b: seq<Tree>)
    ensures ContentsOf(a + b) == ContentsOf(a) + ContentsOf(b)
  {
    if a == [] {
      assert a + b == b;
    } else {
      assert (a + b)[1..] == a[1..] + b;
      ContentsConcat(a[1..], b);
    }
  }

  lemma {:induction false} CountConcat(a: seq<Tree>, b: seq<Tree>, x: nat)
    ensures CountOf(a + b, x) == CountOf(a, x) + CountOf(b, x)
  {
    if a == [] {
      assert a + b == b;
    } else {
      assert (a + b)[1..] == a[1..] + b;
      CountConcat(a[1..], b, x);
    }
  }

  lemma {:induction false} ContentsAround(left: seq<Tree>, t: Tree, right: seq<Tree>)
    ensures ContentsOf(left + [t] + right) == ContentsOf(left) + Contents(t) + ContentsOf(right)
  {
    ContentsConcat(left + [t], right);
    ContentsConcat(left, [t]);
  }

  lemma {:induction false} CountAround(left: seq<Tree>, t: Tree, right: seq<Tree>, x: nat)
    ensures CountOf(left + [t] + right, x) == CountOf(left, x) + Count(t, x) + CountOf(right, x)
  {
    CountConcat(left + [t], right, x);
    CountConcat(left, [t], x);
  }

  lemma {:induction false} FirstCounts(t: Tree)
    ensures Count(t, First(t)) >= 1
    decreases t
  {
    if t.Node? && t.kids != [] {
      FirstCounts(t.kids[0]);
    }
  }

  lemma {:induction false} KidCounts(ts: seq<Tree>, i: nat, x: nat)
    requires i < |ts|
    ensures Count(ts[i], x) <= CountOf(ts, x)
  {
    if i > 0 {
      KidCounts(ts[1..], i - 1, x);
    }
  }

  /** A good tree is not empty, and its least key is the key of its first entry. */
  lemma {:induction false} GoodContents(t: Tree, h: nat, c: Caps)
    requires c.Usable() && Good(t, h, c)
    ensures |Contents(t)| >= 1 && Contents(t)[0].key == MinKey(t)
    decreases t
  {
    if t.Node? {
      GoodContents(t.kids[0], h - 1, c);
    }
  }
}
