/** An underfull leaf: borrowing an entry from a sibling, or merging with one. */
module LeafRepairs {
  import opened Entries
  import opened Trees
  import opened Pages
  import opened Paths
  import opened Cursors
  import opened Repairs
  import opened Underflows
  import opened Parents

  /** A leaf one entry short of the minimum, with its captured parent. Its own page is not written yet. */
  ghost predicate Short(pages: PageMap, path: Path, face: Face, t: Tree, c: Caps,
                        head: Ref, free: seq<nat>, n: nat, target: seq<Entry>, e: PathEntry) {
    && Waiting(pages, path, face, t, 1, c, head, free, n, target)
    && t.Leaf? && |t.es| + 1 == c.MinLeaf()
    && path != [] && Shows(path, face, e)
  }

  /** An underfull leaf has a sibling, and its parent can lose one child without losing two keys of its minimum. */
  lemma {:induction false} ShortParent(pages: PageMap, path: Path, face: Face, t: Tree, c: Caps,
                                       head: Ref, free: seq<nat>, n: nat, target: seq<Entry>, e: PathEntry)
    requires Short(pages, path, face, t, c, head, free, n, target, e)
    ensures var f := Inner(path);
            && |f.left| + |f.right| >= 1
            && (Outer(path) != [] ==> |f.left| + |f.right| >= c.MinInternal())
  {
  }

  ghost function WithoutLast(x: Tree): Tree
    requires x.Leaf? && x.es != []
  {
    Leaf(x.id, DropLast(x.es))
  }

  ghost function WithLast(x: Tree, t: Tree): Tree
    requires x.Leaf? && t.Leaf? && x.es != []
  {
    Leaf(t.id, AddFirst(x.es[|x.es| - 1], t.es))
  }

  ghost function WithoutFirst(y: Tree): Tree
    requires y.Leaf? && y.es != []
  {
    Leaf(y.id, y.es[1..])
  }

  ghost function WithFirst(t: Tree, y: Tree): Tree
    requires y.Leaf? && t.Leaf? && y.es != []
  {
    Leaf(t.id, t.es + [y.es[0]])
  }

  /** What the pages say of the leaf's left neighbour. */
  lemma {:induction false} LeftLeafRead(pages: PageMap, path: Path, face: Face, t: Tree, c: Caps, head: Ref,
                                        free: seq<nat>, n: nat, target: seq<Entry>, e: PathEntry, unique: bool)
    requires Short(pages, path, face, t, c, head, free, n, target, e) && Inner(path).left != []
    requires Ordered(target, unique)
    ensures 0 < e.child < |e.children|
    ensures var x := Last(Inner(path).left);
            && x.Leaf? && x.id == e.children[e.child - 1]
            && x.id in pages && pages[x.id] == LeafPage(x.es, Some(t.id))
            && c.MinLeaf() <= |x.es| <= c.leaf && (unique ==> DistinctKeys(x.es))
            && 1 <= x.id <= n && FreeCount(free, x.id) == 0
  {
    var f := Inner(path);
    WithLeft(pages, path, face, t, 1, c, head, free, n, target);
    LeftReference(path, face, t, e, free, n);
    SiblingsOrdered(Outer(path), Front(f.left), Last(f.left), t, f.right, target, unique);
  }

  /** What the pages say of the leaf's right neighbour. */
  lemma {:induction false} RightLeafRead(pages: PageMap, path: Path, face: Face, t: Tree, c: Caps, head: Ref,
                                         free: seq<nat>, n: nat, target: seq<Entry>, e: PathEntry, unique: bool)
    requires Short(pages, path, face, t, c, head, free, n, target, e) && Inner(path).right != []
    requires Ordered(target, unique)
    ensures e.child + 1 < |e.children|
    ensures var y := Inner(path).right[0];
            && y.Leaf? && y.id == e.children[e.child + 1] && NextOf(path) == Some(y.id)
            && y.id in pages && pages[y.id] == LeafPage(y.es, Head(Inner(path).right[1..], NextOf(Outer(path))))
            && c.MinLeaf() <= |y.es| <= c.leaf && (unique ==> DistinctKeys(y.es))
            && 1 <= y.id <= n && FreeCount(free, y.id) == 0
  {
    var f := Inner(path);
    WithRight(pages, path, face, t, 1, c, head, free, n, target);
    RightReference(path, face, t, e, free, n);
    SiblingsOrdered(Outer(path), f.left, t, f.right[0], f.right[1..], target, unique);
  }

  /** The pages after a leaf has borrowed the last entry of its left neighbour. */
  ghost function FromLeftPages(pages: PageMap, path: Path, t: Tree): PageMap
    requires path != [] && t.Leaf? && Inner(path).left != [] && Last(Inner(path).left).Leaf?
    requires Last(Inner(path).left).es != []
  {
    var f := Inner(path);
    var x := Last(f.left);
    PairPages(pages, f.id, Front(f.left), WithoutLast(x), WithLast(x, t), f.right, NextOf(Outer(path)))
  }

  lemma {:induction false} FromLeft(pages: PageMap, path: Path, face: Face, t: Tree, c: Caps,
                                    head: Ref, free: seq<nat>, n: nat, target: seq<Entry>, e: PathEntry)
    returns (u: Tree)
    requires Short(pages, path, face, t, c, head, free, n, target, e)
    requires Inner(path).left != [] && Last(Inner(path).left).Leaf? && |Last(Inner(path).left).es| > c.MinLeaf()
    ensures var f := Inner(path);
            var x := Last(f.left);
            && u == Node(f.id, Kids(Front(f.left), [WithoutLast(x), WithLast(x, t)], f.right))
            && Settled(FromLeftPages(pages, path, t), Outer(path), Up(f, face), u, 2, c, head, free, n, target)
            && MinKey(u) == Up(f, face).min
    ensures if Outer(path) == [] then |u.kids| >= 2 else Filled(u, c)
  {
    var f := Inner(path);
    var x := Last(f.left);
    WithLeft(pages, path, face, t, 1, c, head, free, n, target);
    assert x.es + t.es == WithoutLast(x).es + WithLast(x, t).es;
    hide Siblings, Settled, Short, Waiting, HoldsPath, GoodPath, Holds;
    u := ShareLeaves(pages, Outer(path), Up(f, face), Front(f.left), x, t, f.right, WithoutLast(x), WithLast(x, t), c,
                     head, free, n, target);
  }

  /** The pages after a leaf has borrowed the first entry of its right neighbour. */
  ghost function FromRightPages(pages: PageMap, path: Path, t: Tree): PageMap
    requires path != [] && t.Leaf? && Inner(path).right != [] && Inner(path).right[0].Leaf?
    requires Inner(path).right[0].es != []
  {
    var f := Inner(path);
    var y := f.right[0];
    PairPages(pages, f.id, f.left, WithFirst(t, y), WithoutFirst(y), f.right[1..], NextOf(Outer(path)))
  }

  lemma {:induction false} FromRight(pages: PageMap, path: Path, face: Face, t: Tree, c: Caps,
                                     head: Ref, free: seq<nat>, n: nat, target: seq<Entry>, e: PathEntry)
    returns (u: Tree)
    requires Short(pages, path, face, t, c, head, free, n, target, e)
    requires Inner(path).right != [] && Inner(path).right[0].Leaf? && |Inner(path).right[0].es| > c.MinLeaf()
    ensures var f := Inner(path);
            var y := f.right[0];
            && u == Node(f.id, Kids(f.left, [WithFirst(t, y), WithoutFirst(y)], f.right[1..]))
            && Settled(FromRightPages(pages, path, t), Outer(path), Up(f, face), u, 2, c, head, free, n, target)
            && (f.left != [] ==> MinKey(u) == Up(f, face).min)
            && (f.left == [] ==> MinKey(u) == WithFirst(t, y).es[0].key)
    ensures if Outer(path) == [] then |u.kids| >= 2 else Filled(u, c)
  {
    var f := Inner(path);
    var y := f.right[0];
    WithRight(pages, path, face, t, 1, c, head, free, n, target);
    assert t.es + y.es == WithFirst(t, y).es + WithoutFirst(y).es;
    hide Siblings, Settled, Short, Waiting, HoldsPath, GoodPath, Holds;
    u := ShareLeaves(pages, Outer(path), Up(f, face), f.left, t, y, f.right[1..], WithFirst(t, y), WithoutFirst(y), c,
                     head, free, n, target);
  }

  /** The pages after a leaf has been merged into its left neighbour. */
  ghost function IntoLeftPages(pages: PageMap, path: Path, t: Tree, head: Ref): PageMap
    requires path != [] && t.Leaf? && Inner(path).left != [] && Last(Inner(path).left).Leaf?
  {
    var f := Inner(path);
    var x := Last(f.left);
    MergePages(pages, f.id, Front(f.left), Leaf(x.id, x.es + t.es), t.id, f.right, NextOf(Outer(path)), head)
  }

  lemma {:induction false} IntoLeft(pages: PageMap, path: Path, face: Face, t: Tree, c: Caps,
                                    head: Ref, free: seq<nat>, n: nat, target: seq<Entry>, e: PathEntry)
    returns (u: Tree)
    requires Short(pages, path, face, t, c, head, free, n, target, e)
    requires Inner(path).left != [] && Last(Inner(path).left).Leaf? && |Last(Inner(path).left).es| == c.MinLeaf()
    ensures var f := Inner(path);
            var x := Last(f.left);
            && u == Node(f.id, Kids(Front(f.left), [Leaf(x.id, x.es + t.es)], f.right))
            && |u.kids| == |f.left| + |f.right|
            && Settled(IntoLeftPages(pages, path, t, head), Outer(path), Up(f, face), u, 2, c, Some(t.id),
                       [t.id] + free, n, target)
            && MinKey(u) == Up(f, face).min
  {
    var f := Inner(path);
    var x := Last(f.left);
    WithLeft(pages, path, face, t, 1, c, head, free, n, target);
    hide Siblings, Settled, Short, Waiting, HoldsPath, GoodPath, Holds;
    u := MergeLeaves(pages, Outer(path), Up(f, face), Front(f.left), x, t, f.right, c, head, free, n, target);
  }

  /** The pages after the right neighbour of a first leaf has been merged into it. */
  ghost function IntoRightPages(pages: PageMap, path: Path, t: Tree, head: Ref): PageMap
    requires path != [] && t.Leaf? && Inner(path).right != [] && Inner(path).right[0].Leaf?
  {
    var f := Inner(path);
    var y := f.right[0];
    MergePages(pages, f.id, [], Leaf(t.id, t.es + y.es), y.id, f.right[1..], NextOf(Outer(path)), head)
  }

  lemma {:induction false} IntoRight(pages: PageMap, path: Path, face: Face, t: Tree, c: Caps,
                                     head: Ref, free: seq<nat>, n: nat, target: seq<Entry>, e: PathEntry)
    returns (u: Tree)
    requires Short(pages, path, face, t, c, head, free, n, target, e)
    requires Inner(path).left == [] && Inner(path).right != []
    requires Inner(path).right[0].Leaf? && |Inner(path).right[0].es| == c.MinLeaf()
    ensures var f := Inner(path);
            var y := f.right[0];
            && u == Node(f.id, Kids([], [Leaf(t.id, t.es + y.es)], f.right[1..]))
            && |u.kids| == |f.right|
            && Settled(IntoRightPages(pages, path, t, head), Outer(path), Up(f, face), u, 2, c, Some(y.id),
                       [y.id] + free, n, target)
            && MinKey(u) == t.es[0].key
  {
    var f := Inner(path);
    var y := f.right[0];
    WithRight(pages, path, face, t, 1, c, head, free, n, target);
    hide Siblings, Settled, Short, Waiting, HoldsPath, GoodPath, Holds;
    u := MergeLeaves(pages, Outer(path), Up(f, face), [], t, y, f.right[1..], c, head, free, n, target);
  }

  // Each branch of a leaf repair, from what it writes to what the index then is.

  lemma {:induction false} FromLeftForm(pages: PageMap, path: Path, face: Face, leaf: nat, es: seq<Entry>, e: PathEntry,
                                        left: nat, leftEs: seq<Entry>)
    requires path != [] && Shows(path, face, e) && face.id == leaf && |leftEs| >= 2
    requires Inner(path).left != [] && Last(Inner(path).left) == Leaf(left, leftEs)
    requires NextOf(path) == Head(Inner(path).right, NextOf(Outer(path)))
    ensures 0 < e.child <= |e.keys|
    ensures var f, x, t := Inner(path), Leaf(left, leftEs), Leaf(leaf, es);
            && InternalOf(Kids(Front(f.left), [WithoutLast(x), WithLast(x, t)], f.right))
                == Rekeyed(e, leftEs[|leftEs| - 1].key)
            && FromLeftPages(pages, path, t)
               == pages[left := LeafPage(DropLast(leftEs), Some(leaf))]
                       [leaf := LeafPage(AddFirst(leftEs[|leftEs| - 1], es), NextOf(path))]
                       [e.id := Rekeyed(e, leftEs[|leftEs| - 1].key)]
  {
    LeftSharePage(path, face, e, WithoutLast(Leaf(left, leftEs)), WithLast(Leaf(left, leftEs), Leaf(leaf, es)));
  }

  /** What borrowing from the left writes is safe, and mends the parent. */
  lemma {:induction false} BorrowLeftStep(pages: PageMap, path: Path, face: Face, leaf: nat, es: seq<Entry>, c: Caps,
                                          head: Ref, free: seq<nat>, n: nat, target: seq<Entry>, e: PathEntry,
                                          unique: bool, left: nat, leftEs: seq<Entry>)
    returns (u: Tree, now: PageMap)
    requires Short(pages, path, face, Leaf(leaf, es), c, head, free, n, target, e) && Ordered(target, unique)
    requires Inner(path).left != [] && Last(Inner(path).left) == Leaf(left, leftEs) && |leftEs| > c.MinLeaf()
    ensures Mended(pages, now, Outer(path), Up(Inner(path), face), u, 2, c, head, free, n, target)
    ensures MinKey(u) == Up(Inner(path), face).min
    ensures if Outer(path) == [] then |u.kids| >= 2 else Filled(u, c)
    ensures 0 < e.child <= |e.keys|
    ensures var es' := AddFirst(leftEs[|leftEs| - 1], es);
            && now == pages[left := LeafPage(DropLast(leftEs), Some(leaf))][leaf := LeafPage(es',
                  NextOf(path))][e.id := Rekeyed(e, es'[0].key)]
            && WellBuilt(left, LeafPage(DropLast(leftEs), Some(leaf)), c)
            && WellBuilt(leaf, LeafPage(es', NextOf(path)), c)
            && WellBuilt(e.id, Rekeyed(e, es'[0].key), c)
  {
    var t := Leaf(leaf, es);
    now := FromLeftPages(pages, path, t);
    var f := Inner(path);
    var x := Last(f.left);
    assert Shows(path, face, e) && t.id == face.id && e.id == f.id && c.Usable();
    assert NextOf(path) == Head(f.right, NextOf(Outer(path)));
    u := FromLeft(pages, path, face, t, c, head, free, n, target, e);
    FromLeftForm(pages, path, face, leaf, es, e, left, leftEs);
    WithLeft(pages, path, face, t, 1, c, head, free, n, target);
    assert Covers(Outer(path), [Node(f.id, Kids(Front(f.left), [x, t], f.right))], free, n);
    hide Waiting, Short, Around, HoldsPath, GoodPath, Holds, Kids, WellBuilt, Shows, FramePage, NextOf, Covers,
         FromLeftPages, AddFirst, DropLast, Rekeyed;
    RewriteKeepsTracks(pages, now, Outer(path), f.id, Front(f.left), x, t, f.right, free, n);
    TwoSafe(Outer(path), f.id, Front(f.left), WithoutLast(x), WithLast(x, t), f.right, 1, c, free, n, target, unique);
  }

  /** What borrowing from the right writes is safe, and mends the parent. */
  lemma {:induction false} BorrowRightStep(pages: PageMap, path: Path, face: Face, t: Tree, c: Caps, head: Ref,
                                           free: seq<nat>, n: nat, target: seq<Entry>, e: PathEntry, unique: bool)
    returns (u: Tree)
    requires Short(pages, path, face, t, c, head, free, n, target, e) && Ordered(target, unique)
    requires Inner(path).right != [] && Inner(path).right[0].Leaf? && |Inner(path).right[0].es| > c.MinLeaf()
    ensures Mended(pages, FromRightPages(pages, path, t), Outer(path), Up(Inner(path), face), u, 2, c, head, free, n,
                   target)
    ensures e.child > 0 ==> MinKey(u) == Up(Inner(path), face).min
    ensures e.child == 0 ==>
              MinKey(u) == WithFirst(t, Inner(path).right[0]).es[0].key && Up(Inner(path), face).min == face.min
    ensures if Outer(path) == [] then |u.kids| >= 2 else Filled(u, c)
    ensures e.child < |e.keys|
    ensures var y := Inner(path).right[0];
            var leaf := LeafPage(WithFirst(t, y).es, Some(y.id));
            var right := LeafPage(WithoutFirst(y).es, Head(Inner(path).right[1..], NextOf(Outer(path))));
            var parent := InternalPage(BeforeSet(e, WithFirst(t, y).es[0].key)[e.child := WithoutFirst(y).es[0].key],
                                       e.children);
            && FromRightPages(pages, path, t) == pages[t.id := leaf][y.id := right][e.id := parent]
            && WellBuilt(t.id, leaf, c) && WellBuilt(y.id, right, c) && WellBuilt(e.id, parent, c)
  {
    var f := Inner(path);
    var y := f.right[0];
    assert Shows(path, face, e) && t.id == face.id && e.id == f.id && c.Usable();
    u := FromRight(pages, path, face, t, c, head, free, n, target, e);
    RightSharePage(path, face, e, WithFirst(t, y), WithoutFirst(y));
    WithRight(pages, path, face, t, 1, c, head, free, n, target);
    assert Covers(Outer(path), [Node(f.id, Kids(f.left, [t, y], f.right[1..]))], free, n);
    assert e.child == |f.left|;
    hide Waiting, Short, Around, HoldsPath, GoodPath, Holds, Kids, WellBuilt, Shows, FramePage, NextOf, Covers;
    RewriteKeepsTracks(pages, FromRightPages(pages, path, t), Outer(path), f.id, f.left, t, y, f.right[1..], free, n);
    TwoSafe(Outer(path), f.id, f.left, WithFirst(t, y), WithoutFirst(y), f.right[1..], 1, c, free, n, target, unique);
  }

  /** What merging into the left neighbour writes is safe, and mends the parent up to its occupancy. */
  lemma {:induction false} MergeLeftStep(pages: PageMap, path: Path, face: Face, t: Tree, c: Caps, head: Ref,
                                         free: seq<nat>, n: nat, target: seq<Entry>, e: PathEntry, unique: bool)
    returns (u: Tree)
    requires Short(pages, path, face, t, c, head, free, n, target, e) && Ordered(target, unique)
    requires Inner(path).left != [] && Last(Inner(path).left).Leaf? && |Last(Inner(path).left).es| == c.MinLeaf()
    ensures Mended(pages, IntoLeftPages(pages, path, t, head), Outer(path), Up(Inner(path), face), u, 2, c, Some(t.id),
                   [t.id] + free, n, target)
    ensures MinKey(u) == Up(Inner(path), face).min && |u.kids| + 1 == |e.children|
    ensures 0 < e.child <= |e.keys| && e.child < |e.children|
    ensures var x := Last(Inner(path).left);
            var merged := LeafPage(x.es + t.es, NextOf(path));
            var parent := InternalPage(RemoveAt(e.keys, e.child - 1), RemoveAt(e.children, e.child));
            && IntoLeftPages(pages, path, t, head) == pages[x.id := merged][t.id := FreePage(head)][e.id := parent]
            && parent == TopPage(u, None)
            && WellBuilt(x.id, merged, c) && WellBuilt(t.id, FreePage(head), c) && WellBuilt(e.id, parent, c)
    ensures FaceUp(path, face).id != t.id && FaceUp(path, face).first != t.id
  {
    var f := Inner(path);
    var x := Last(f.left);
    var m := Leaf(x.id, x.es + t.es);
    assert Shows(path, face, e) && t.id == face.id && e.id == f.id && c.Usable();
    assert NextOf(path) == Head(f.right, NextOf(Outer(path)));
    u := IntoLeft(pages, path, face, t, c, head, free, n, target, e);
    LeftMergePage(path, face, e, m);
    WithLeft(pages, path, face, t, 1, c, head, free, n, target);
    ReleasedIsLoose(pages, Outer(path), Up(f, face), Front(f.left), x, t, f.right, 1, c, head, free, n, target);
    FreeWellBuilt(pages, Outer(path), Up(f, face), Front(f.left), x, t, f.right, 1, c, head, free, n, target);
    assert Covers(Outer(path), [Node(f.id, Kids(Front(f.left), [x, t], f.right))], free, n);
    Neighbours(path, face, e);
    hide Waiting, Short, Around, HoldsPath, GoodPath, Holds, Kids, WellBuilt, Shows, FramePage, NextOf, Covers;
    RewriteKeepsTracks(pages, IntoLeftPages(pages, path, t, head), Outer(path), f.id, Front(f.left), x, t, f.right,
                       free, n);
    OneSafe(Outer(path), f.id, Front(f.left), m, f.right, 1, c, [t.id] + free, n, target, unique);
  }

  /** What merging the right neighbour into a first leaf writes is safe, and mends the parent up to its occupancy. */
  lemma {:induction false} MergeRightStep(pages: PageMap, path: Path, face: Face, t: Tree, c: Caps, head: Ref,
                                          free: seq<nat>, n: nat, target: seq<Entry>, e: PathEntry, unique: bool)
    returns (u: Tree)
    requires Short(pages, path, face, t, c, head, free, n, target, e) && Ordered(target, unique)
    requires Inner(path).left == [] && Inner(path).right != []
    requires Inner(path).right[0].Leaf? && |Inner(path).right[0].es| == c.MinLeaf()
    ensures var y := Inner(path).right[0];
            Mended(pages, IntoRightPages(pages, path, t, head), Outer(path), Up(Inner(path), face), u, 2, c, Some(y.id),
                   [y.id] + free, n, target)
    ensures MinKey(u) == t.es[0].key && Up(Inner(path), face).min == face.min && |u.kids| + 1 == |e.children|
    ensures e.child == 0 < |e.keys| && 1 < |e.children|
    ensures var y := Inner(path).right[0];
            var merged := LeafPage(t.es + y.es, Head(Inner(path).right[1..], NextOf(Outer(path))));
            var parent := InternalPage(RemoveAt(e.keys, 0), RemoveAt(e.children, 1));
            && IntoRightPages(pages, path, t, head) == pages[t.id := merged][y.id := FreePage(head)][e.id := parent]
            && parent == TopPage(u, None)
            && WellBuilt(t.id, merged, c) && WellBuilt(y.id, FreePage(head), c) && WellBuilt(e.id, parent, c)
    ensures FaceUp(path, face).id != Inner(path).right[0].id && FaceUp(path, face).first != Inner(path).right[0].id
  {
    var f := Inner(path);
    var y := f.right[0];
    var m := Leaf(t.id, t.es + y.es);
    assert Shows(path, face, e) && t.id == face.id && e.id == f.id && c.Usable();
    u := IntoRight(pages, path, face, t, c, head, free, n, target, e);
    RightMergePage(path, face, e, m);
    WithRight(pages, path, face, t, 1, c, head, free, n, target);
    ReleasedIsLoose(pages, Outer(path), Up(f, face), [], t, y, f.right[1..], 1, c, head, free, n, target);
    FreeWellBuilt(pages, Outer(path), Up(f, face), [], t, y, f.right[1..], 1, c, head, free, n, target);
    assert Covers(Outer(path), [Node(f.id, Kids([], [t, y], f.right[1..]))], free, n);
    Neighbours(path, face, e);
    hide Waiting, Short, Around, HoldsPath, GoodPath, Holds, Kids, WellBuilt, Shows, FramePage, NextOf, Covers;
    RewriteKeepsTracks(pages, IntoRightPages(pages, path, t, head), Outer(path), f.id, [], t, y, f.right[1..], free, n);
    OneSafe(Outer(path), f.id, [], m, f.right[1..], 1, c, [y.id] + free, n, target, unique);
  }
}
