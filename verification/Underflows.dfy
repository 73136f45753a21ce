/** From a captured path to the two siblings of a repair, and from rewritten pages back to the key lists. */
module Underflows {
  import opened Entries
  import opened Trees
  import opened Pages
  import opened Paths
  import opened Headers
  import opened Cursors
  import opened Reads
  import opened Repairs

  /** A subtree that belongs at the position, whose own pages may not be written yet. */
  ghost predicate Waiting(pages: PageMap, path: Path, face: Face, t: Tree, h: nat, c: Caps,
                          head: Ref, free: seq<nat>, n: nat, target: seq<Entry>) {
    && c.Usable()
    && HoldsPath(pages, path, face)
    && t.id == face.id && First(t) == face.first
    && GoodPath(path, h, c) && Good(t, h, c)
    && Covers(path, [t], free, n)
    && Chain(pages, head, free)
    && Before(path) + Contents(t) + After(path) == target
  }

  lemma {:induction false} FrameCovers(path: Path, t: Tree, free: seq<nat>, n: nat, kids: seq<Tree>)
    requires path != [] && Covers(path, [t], free, n)
    requires kids == Inner(path).left + [t] + Inner(path).right
    ensures Covers(Outer(path), [Node(Inner(path).id, kids)], free, n)
  {
    var f := Inner(path);
    forall x
      ensures CoversAt(Outer(path), [Node(f.id, kids)], free, n, x)
    {
      assert CoversAt(path, [t], free, n, x);
      CountAround(f.left, t, f.right, x);
      assert CountOf([t], x) == Count(t, x) + CountOf([], x);
      assert CountOf([Node(f.id, kids)], x) == Count(Node(f.id, kids), x) + CountOf([], x);
    }
  }

  lemma {:induction false} FrameContents(path: Path, t: Tree, kids: seq<Tree>)
    requires path != [] && kids == Inner(path).left + [t] + Inner(path).right
    ensures Before(Outer(path)) + ContentsOf(kids) + After(Outer(path)) == Before(path) + Contents(t) + After(path)
  {
    var f := Inner(path);
    ContentsAround(f.left, t, f.right);
    Regroup(Before(Outer(path)), ContentsOf(f.left), Contents(t), ContentsOf(f.right), After(Outer(path)));
  }

  ghost function Last(ts: seq<Tree>): Tree
    requires ts != []
  {
    ts[|ts| - 1]
  }

  ghost function Front(ts: seq<Tree>): seq<Tree>
    requires ts != []
  {
    ts[..|ts| - 1]
  }

  /** Two neighbours that the frame around the position holds are siblings below its parent. */
  lemma {:induction false} AsSiblings(pages: PageMap, path: Path, face: Face, t: Tree, a: seq<Tree>, x: Tree, y: Tree,
                                      b: seq<Tree>, h: nat, c: Caps, head: Ref, free: seq<nat>, n: nat,
                                      target: seq<Entry>)
    requires Waiting(pages, path, face, t, h, c, head, free, n, target) && path != []
    requires Kids(a, [x, y], b) == Inner(path).left + [t] + Inner(path).right
    requires Around(pages, Outer(path), Up(Inner(path), face), a, b, First(x), h, c)
    ensures Siblings(pages, Outer(path), Up(Inner(path), face), a, x, y, b, h, c, head, free, n, target)
  {
    hide Kids, Around, GoodPath, HoldsPath, Good, Covers, Chain;
    FrameCovers(path, t, free, n, Kids(a, [x, y], b));
    FrameContents(path, t, Kids(a, [x, y], b));
  }

  lemma {:induction false} LeftAround(pages: PageMap, path: Path, face: Face, first: nat, h: nat, c: Caps)
    requires c.Usable() && HoldsPath(pages, path, face) && GoodPath(path, h, c) && first == face.first
    requires path != [] && Inner(path).left != []
    ensures var f := Inner(path);
            && Around(pages, Outer(path), Up(f, face), Front(f.left), f.right, First(Last(f.left)), h, c)
            && Holds(pages, Last(f.left), Some(first)) && Good(Last(f.left), h, c) && Filled(Last(f.left), c)
            && NextOf(path) == Head(f.right, NextOf(Outer(path)))
  {
    var f := Inner(path);
    var a, x := Front(f.left), Last(f.left);
    assert f.left == a + [x];
    HoldsConcat(pages, a, [x], Some(first));
    HoldsOne(pages, x, Some(first));
    assert f.left[0] == if a == [] then x else a[0];
  }

  lemma {:induction false} RightAround(pages: PageMap, path: Path, face: Face, first: nat, h: nat, c: Caps)
    requires c.Usable() && HoldsPath(pages, path, face) && GoodPath(path, h, c) && first == face.first
    requires path != [] && Inner(path).right != []
    ensures var f := Inner(path);
            && Around(pages, Outer(path), Up(f, face), f.left, f.right[1..], first, h, c)
            && Holds(pages, f.right[0], Head(f.right[1..], NextOf(Outer(path)))) && Good(f.right[0], h, c)
            && Filled(f.right[0], c)
            && NextOf(path) == Some(First(f.right[0]))
  {
    var f := Inner(path);
    assert f.right == [f.right[0]] + f.right[1..];
  }

  lemma {:induction false} KidsLeft(f: Frame, t: Tree)
    requires f.left != []
    ensures Kids(Front(f.left), [Last(f.left), t], f.right) == f.left + [t] + f.right
  {
    assert f.left == Front(f.left) + [Last(f.left)];
  }

  /** The position and its left neighbour, as siblings. */
  lemma {:induction false} WithLeft(pages: PageMap, path: Path, face: Face, t: Tree, h: nat, c: Caps,
                                    head: Ref, free: seq<nat>, n: nat, target: seq<Entry>)
    requires Waiting(pages, path, face, t, h, c, head, free, n, target)
    requires path != [] && Inner(path).left != []
    ensures var f := Inner(path);
            && Siblings(pages, Outer(path), Up(f, face), Front(f.left), Last(f.left), t, f.right, h, c, head, free, n,
                        target)
            && Holds(pages, Last(f.left), Some(First(t))) && Good(Last(f.left), h, c) && Filled(Last(f.left), c)
            && NextOf(path) == Head(f.right, NextOf(Outer(path)))
  {
    var f := Inner(path);
    LeftAround(pages, path, face, First(t), h, c);
    KidsLeft(f, t);
    hide Waiting, Around, Holds, Good, Filled, NextOf, Front, Last, Kids, Siblings;
    AsSiblings(pages, path, face, t, Front(f.left), Last(f.left), t, f.right, h, c, head, free, n, target);
  }

  /** The position and its right neighbour, as siblings. */
  lemma {:induction false} WithRight(pages: PageMap, path: Path, face: Face, t: Tree, h: nat, c: Caps,
                                     head: Ref, free: seq<nat>, n: nat, target: seq<Entry>)
    requires Waiting(pages, path, face, t, h, c, head, free, n, target)
    requires path != [] && Inner(path).right != []
    ensures var f := Inner(path);
            && Siblings(pages, Outer(path), Up(f, face), f.left, t, f.right[0], f.right[1..], h, c, head, free, n,
                        target)
            && Holds(pages, f.right[0], Head(f.right[1..], NextOf(Outer(path))))
            && Good(f.right[0], h, c) && Filled(f.right[0], c)
            && NextOf(path) == Some(First(f.right[0]))
  {
    var f := Inner(path);
    var y, b := f.right[0], f.right[1..];
    assert f.right == [y] + b;
    assert Kids(f.left, [t, y], b) == f.left + [t] + f.right;
    RightAround(pages, path, face, First(t), h, c);
    hide Waiting, Around, Holds, Good, Filled, NextOf;
    AsSiblings(pages, path, face, t, f.left, t, y, b, h, c, head, free, n, target);
  }

  // The key and child lists of the parent, as the code edits them.

  lemma {:induction false} KidsPage(a: seq<Tree>, mid: seq<Tree>, b: seq<Tree>)
    requires mid != []
    ensures InternalOf(Kids(a, mid, b))
            == InternalPage((Mins(a) + Mins(mid) + Mins(b))[1..], KidIds(a) + KidIds(mid) + KidIds(b))
  {
    assert Mins(Kids(a, mid, b)) == Mins(a) + Mins(mid) + Mins(b);
    assert KidIds(Kids(a, mid, b)) == KidIds(a) + KidIds(mid) + KidIds(b);
  }

  function AddFirst<T>(x: T, s: seq<T>): (r: seq<T>)
    ensures r != [] && r[0] == x
  {
    [x] + s
  }

  function DropLast<T>(s: seq<T>): seq<T>
    requires s != []
  {
    s[..|s| - 1]
  }

  function RemoveAt<T>(s: seq<T>, i: nat): seq<T>
    requires i < |s|
  {
    s[..i] + s[i + 1..]
  }

  lemma {:induction false} EditKeys(a: seq<Key>, x: Key, b: seq<Key>, m: Key)
    ensures var k := (a + [x] + b)[1..];
            && (a != [] ==> k[|a| - 1 := m] == (a + [m] + b)[1..])
            && (a != [] ==> RemoveAt(k, |a| - 1) == (a + b)[1..])
            && (b != [] ==> k[|a| := m] == (a + [x] + [m] + b[1..])[1..])
            && (a == [] && b != [] ==> RemoveAt(k, 0) == ([m] + b[1..])[1..])
  {
  }

  // Separator upkeep: the least key of a subtree shows in one ancestor at most.

  ghost predicate LeftmostFrom(path: Path, k: nat) {
    forall j :: k <= j < |path| ==> path[j].left == []
  }

  ghost function WithSeparator(pages: PageMap, f: Frame, m: Key): PageMap
    requires f.id in pages && pages[f.id].InternalPage? && 0 < |f.left| <= |pages[f.id].keys|
  {
    pages[f.id := InternalPage(pages[f.id].keys[|f.left| - 1 := m], pages[f.id].children)]
  }

  lemma {:induction false} SeparatorHere(f: Frame, face: Face, m: Key)
    requires f.left != []
    ensures var p := FramePage(f, face);
            && |p.keys| == |f.left| + |f.right|
            && InternalPage(p.keys[|f.left| - 1 := m], p.children) == FramePage(f, face.(min := m))
  {
    EditKeys(Mins(f.left), face.min, Mins(f.right), m);
  }

  /** Setting the first separator above a leftmost subtree makes the whole path show the new least key. */
  lemma {:induction false} UpdateAt(pages: PageMap, path: Path, i: nat, face: Face, m: Key)
    requires HoldsPath(pages, path, face) && i < |path| && path[i].left != [] && LeftmostFrom(path, i + 1)
    requires PathCount(path, path[i].id) == 1
    ensures var q := path[i].id;
            && q in pages && pages[q].InternalPage? && |path[i].left| <= |pages[q].keys|
            && HoldsPath(WithSeparator(pages, path[i], m), path, face.(min := m))
    decreases |path|
  {
    var f, q := Inner(path), path[i].id;
    FrameCounted(path, i);
    if i == |path| - 1 {
      SeparatorHere(f, face, m);
      var pages' := WithSeparator(pages, f, m);
      HoldsOfFrame(pages, pages', {q}, f.left, Some(face.first));
      HoldsOfFrame(pages, pages', {q}, f.right, NextOf(Outer(path)));
      HoldsPathFrame(pages, pages', {q}, Outer(path), Up(f, face));
    } else {
      FrameCounted(Outer(path), i);
      assert f.left == [];
      UpdateAt(pages, Outer(path), i, Up(f, face), m);
      var pages' := WithSeparator(pages, path[i], m);
      HoldsOfFrame(pages, pages', {q}, f.right, NextOf(Outer(path)));
      assert FramePage(f, face).keys == Mins(f.right) == FramePage(f, face.(min := m)).keys by {
        assert (Mins(f.left) + [face.min] + Mins(f.right))[1..] == Mins(f.right);
        assert (Mins(f.left) + [m] + Mins(f.right))[1..] == Mins(f.right);
      }
    }
  }

  /** A subtree that completes the path to a tree, seen at any depth of the path. */
  ghost predicate Fits(path: Path, t: Tree, h: nat, c: Caps, free: seq<nat>, n: nat, target: seq<Entry>) {
    && c.Usable()
    && GoodPath(path, h, c) && Good(t, h, c) && (path != [] ==> Filled(t, c))
    && Covers(path, [t], free, n)
    && Before(path) + Contents(t) + After(path) == target
  }

  lemma {:induction false} FitsUp(path: Path, t: Tree, h: nat, c: Caps, free: seq<nat>, n: nat, target: seq<Entry>)
    requires Fits(path, t, h, c, free, n, target) && path != []
    ensures Fits(Outer(path), Plug(Inner(path), t), h + 1, c, free, n, target)
    ensures Inner(path).left == [] ==> MinKey(Plug(Inner(path), t)) == MinKey(t)
  {
    var f := Inner(path);
    GoodPlug(f, t, h, c);
    FrameCovers(path, t, free, n, f.left + [t] + f.right);
    FrameContents(path, t, f.left + [t] + f.right);
    PlugFace(f, t);
  }

  lemma {:induction false} CountedOnce(path: Path, t: Tree, free: seq<nat>, n: nat, i: nat)
    requires i < |path| && Covers(path, [t], free, n)
    ensures var q := path[i].id; PathCount(path, q) == 1 && Count(t, q) == 0 && FreeCount(free, q) == 0
  {
    var q := path[i].id;
    FrameCounted(path, i);
    assert CoversAt(path, [t], free, n, q);
    assert CountOf([t], q) == Count(t, q) + CountOf([], q);
  }

  /** Once the separator is set, the whole path shows the subtree as it is now. */
  lemma {:induction false} SeparatorSet(pages: PageMap, path: Path, i: nat, face: Face, t: Tree, h: nat, c: Caps,
                                        head: Ref, free: seq<nat>, n: nat, target: seq<Entry>)
    requires Settled(pages, path, face, t, h, c, head, free, n, target)
    requires i < |path| && path[i].left != [] && LeftmostFrom(path, i + 1)
    ensures var q := path[i].id;
            && q in pages && pages[q].InternalPage? && |path[i].left| <= |pages[q].keys|
            && Settled(WithSeparator(pages, path[i], MinKey(t)), path, FaceOf(t), t, h, c, head, free, n, target)
  {
    var q := path[i].id;
    CountedOnce(path, t, free, n, i);
    UpdateAt(pages, path, i, face, MinKey(t));
    var pages' := WithSeparator(pages, path[i], MinKey(t));
    HoldsFrame(pages, pages', {q}, t, NextOf(path));
    ChainFrame(pages, pages', {q}, head, free);
  }

  /** With nothing to its left anywhere, a subtree's least key is not recorded. */
  lemma {:induction false} NoSeparator(pages: PageMap, path: Path, face: Face, t: Tree, h: nat, c: Caps,
                                       head: Ref, free: seq<nat>, n: nat, target: seq<Entry>)
    requires Settled(pages, path, face, t, h, c, head, free, n, target)
    requires face.min == MinKey(t) || LeftmostFrom(path, 0)
    ensures Settled(pages, path, FaceOf(t), t, h, c, head, free, n, target)
  {
    MinUnseen(pages, path, face, FaceOf(t));
  }

  /** The ancestor with its separator set passes the checks of a node. */
  lemma {:induction false} SeparatorSafe(pages: PageMap, path: Path, i: nat, face: Face, t: Tree, h: nat, c: Caps,
                                         free: seq<nat>, n: nat, target: seq<Entry>, unique: bool)
    requires HoldsPath(pages, path, face) && face.id == t.id
    requires Fits(path, t, h, c, free, n, target) && Ordered(target, unique)
    requires i < |path| && path[i].left != [] && LeftmostFrom(path, i + 1)
    ensures var q := path[i].id;
            && q in pages && pages[q].InternalPage? && |path[i].left| <= |pages[q].keys|
            && WellBuilt(q, WithSeparator(pages, path[i], MinKey(t))[q], c)
    decreases |path|
  {
    var f := Inner(path);
    FitsUp(path, t, h, c, free, n, target);
    if i == |path| - 1 {
      SeparatorHere(f, face, MinKey(t));
      PlugPage(f, t);
      SafeWrite(Outer(path), Plug(f, t), h + 1, c, free, n, target, unique);
    } else {
      assert f.left == [];
      SeparatorSafe(pages, Outer(path), i, Up(f, face), Plug(f, t), h + 1, c, free, n, target, unique);
    }
  }

  /** Setting the separator that a captured ancestor records for a subtree. */
  lemma {:induction false} SeparatorStep(pages: PageMap, path: Path, i: nat, face: Face, t: Tree, h: nat, c: Caps,
                                         head: Ref, free: seq<nat>, n: nat, target: seq<Entry>, unique: bool,
                                         ancestors: seq<PathEntry>)
    requires Settled(pages, path, face, t, h, c, head, free, n, target) && Ordered(target, unique)
    requires Tracks(pages, path, ancestors) && Filled(t, c)
    requires i < |path| && ancestors[i].child != 0 && LeftmostFrom(path, i + 1)
    ensures var e := ancestors[i];
            && e.child <= |e.keys| && e.id in pages && pages[e.id] == InternalPage(e.keys, e.children)
            && var page := InternalPage(e.keys[e.child - 1 := MinKey(t)], e.children);
               && WellBuilt(e.id, page, c)
               && Settled(pages[e.id := page], path, FaceOf(t), t, h, c, head, free, n, target)
  {
    SeparatorSet(pages, path, i, face, t, h, c, head, free, n, target);
    SeparatorSafe(pages, path, i, face, t, h, c, free, n, target, unique);
  }

  /** The pages store one whole tree, but its root may be an internal node with a single child. */
  ghost predicate Nearly(pages: PageMap, t: Tree, h: nat, c: Caps, free: seq<nat>, n: nat, contents: seq<Entry>) {
    c.Usable() && Holds(pages, t, None) && Good(t, h, c) && Contents(t) == contents && Partition(Of(t), free, n)
  }

  /** A repair ends: the subtree completes the tree, which keeps its root page and its first leaf. */
  lemma {:induction false} RepairEnds(pages: PageMap, path: Path, face: Face, t: Tree, h: nat, top: nat, c: Caps,
                                      head: Ref, free: seq<nat>, n: nat, target: seq<Entry>)
    requires Settled(pages, path, face, t, h, c, head, free, n, target) && top == h + |path|
    requires face.min == MinKey(t) && (path != [] ==> Filled(t, c))
    ensures Nearly(pages, Rebuild(path, t), top, c, free, n, target) && Chain(pages, head, free)
    ensures FaceOf(Rebuild(path, t)) == FaceUp(path, face)
  {
    assert face == FaceOf(t);
    if path != [] {
      Reassemble(pages, path, t, h, top, c, free, n, target);
    } else {
      RebuildFace(path, t);
      forall x
        ensures UsedOnce(Of(t), free, n, x)
      {
        assert CoversAt(path, [t], free, n, x);
        assert CountOf([t], x) == Count(t, x) + CountOf([], x);
      }
      assert [] + Contents(t) + [] == Contents(t);
    }
  }

  /** A subtree in place can be walked, as long as the free page that the stored header names is still free. */
  lemma {:induction false} SettledWalks(pages: PageMap, path: Path, face: Face, t: Tree, h: nat, c: Caps,
                                        head: Ref, free: seq<nat>, n: nat, target: seq<Entry>, hd: Header, unique: bool)
    requires Settled(pages, path, face, t, h, c, head, free, n, target) && Ordered(target, unique)
    requires n == hd.pageCount && (hd.freeHead.Some? ==> FreeCount(free, hd.freeHead.page) >= 1)
    ensures Walkable(pages, t, NextOf(path), h, c, hd, unique)
  {
    OrderedMiddle(Before(path), Contents(t), After(path), unique);
    forall x: nat | Count(t, x) > 0
      ensures Count(t, x) == 1 && 1 <= x <= hd.pageCount && hd.freeHead != Some(x)
    {
      TreeIsApart(path, [t], free, n, 0, x);
    }
  }

  /** What the stored header still says while a repair moves up: its root and first leaf, and a page that is free. */
  ghost predicate Anchored(hd: Header, path: Path, face: Face, h: nat, free: seq<nat>, n: nat) {
    && hd.root == Some(FaceUp(path, face).id)
    && hd.first == Some(FaceUp(path, face).first)
    && hd.height == h + |path|
    && hd.pageCount == n
    && (hd.freeHead.Some? ==> FreeCount(free, hd.freeHead.page) >= 1)
  }

  lemma {:induction false} AnchoredUp(hd: Header, path: Path, face: Face, h: nat, free: seq<nat>, n: nat,
                                      free': seq<nat>)
    requires Anchored(hd, path, face, h, free, n) && path != []
    requires free' == free || (free' != [] && free'[1..] == free)
    ensures Anchored(hd, Outer(path), Up(Inner(path), face), h + 1, free', n)
  {
  }

  /** A repair is over: a tree that is whole except for a root with a single child, as the stored header names it. */
  ghost predicate Done(pages: PageMap, hd: Header, t: Tree, c: Caps, head: Ref, free: seq<nat>, target: seq<Entry>) {
    && Nearly(pages, t, hd.height, c, free, hd.pageCount, target)
    && Chain(pages, head, free)
    && hd.root == Some(t.id) && hd.first == Some(First(t))
  }

  lemma {:induction false} RepairDone(pages: PageMap, hd: Header, path: Path, face: Face, face': Face, t: Tree, h: nat,
                                      c: Caps, head: Ref, free: seq<nat>, n: nat, target: seq<Entry>)
    requires Settled(pages, path, face', t, h, c, head, free, n, target) && Anchored(hd, path, face, h, free, n)
    requires face'.min == MinKey(t) && (path != [] ==> Filled(t, c))
    requires face.id == face'.id && face.first == face'.first
    ensures Done(pages, hd, Rebuild(path, t), c, head, free, target)
  {
    RepairEnds(pages, path, face', t, h, hd.height, c, head, free, n, target);
    FaceUpIds(path, face, face');
  }

  lemma {:induction false} MendedFace(pages: PageMap, path: Path, face: Face, t: Tree, h: nat, c: Caps,
                                      head: Ref, free: seq<nat>, n: nat, target: seq<Entry>)
    requires Settled(pages, path, face, t, h, c, head, free, n, target)
    ensures face.id == t.id && face.first == First(t)
  {
  }
}
