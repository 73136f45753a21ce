/** Insertion into a full leaf: the split, and how it moves up the captured path. */
module Splits {
  import opened Entries
  import opened Trees
  import opened Pages
  import opened Paths
  import opened Headers
  import opened Cursors

  /** A page just taken for a new node, before anything is written to it. */
  ghost function Blank(id: nat): Tree {
    Leaf(id, [])
  }

  /**
   * In the middle of a split: two well-filled subtrees stand where the captured path
   * expects one, and the pages around them still show only the left one.
   */
  ghost predicate Splitting(pages: PageMap, path: Path, l: Tree, r: Tree, h: nat, c: Caps) {
    && c.Usable()
    && HoldsPath(pages, path, FaceOf(l))
    && Holds(pages, l, Some(First(r)))
    && Holds(pages, r, NextOf(path))
    && GoodPath(path, h, c)
    && Good(l, h, c) && Filled(l, c)
    && Good(r, h, c) && Filled(r, c)
  }

  ghost function Widened(f: Frame, l: Tree, r: Tree): seq<Tree> {
    f.left + [l] + [r] + f.right
  }

  /** The parent's page with the separator and the new child put in is the page of the widened parent. */
  lemma {:induction false} WidenedPage(f: Frame, l: Tree, r: Tree)
    ensures var p, i := FramePage(f, FaceOf(l)), |f.left|;
            && |p.keys| == |f.left| + |f.right| && |p.children| == |p.keys| + 1
            && InternalPage(p.keys[..i] + [MinKey(r)] + p.keys[i..], p.children[..i + 1] + [r.id] + p.children[i + 1..])
               == InternalOf(Widened(f, l, r))
  {
    var p, i, ks := FramePage(f, FaceOf(l)), |f.left|, Widened(f, l, r);
    assert Mins(ks) == Mins(f.left) + [MinKey(l)] + [MinKey(r)] + Mins(f.right);
    assert KidIds(ks) == KidIds(f.left) + [l.id] + [r.id] + KidIds(f.right);
    SliceAround(Mins(f.left), MinKey(l), MinKey(r), Mins(f.right));
    assert p.children[..i + 1] == KidIds(f.left) + [l.id];
    assert p.children[i + 1..] == KidIds(f.right);
  }

  lemma {:induction false} SliceAround(a: seq<Key>, x: Key, y: Key, b: seq<Key>)
    ensures var k := (a + [x] + b)[1..];
            k[..|a|] + [y] + k[|a|..] == (a + [x] + [y] + b)[1..]
  {
  }

  lemma {:induction false} WidenedHolds(pages: PageMap, f: Frame, l: Tree, r: Tree, next: Ref)
    requires HoldsOf(pages, f.left, Some(First(l)))
    requires Holds(pages, l, Some(First(r))) && Holds(pages, r, Head(f.right, next))
    requires HoldsOf(pages, f.right, next)
    ensures HoldsOf(pages, Widened(f, l, r), next)
  {
    HoldsOne(pages, r, Head(f.right, next));
    HoldsConcat(pages, [r], f.right, next);
    HoldsOne(pages, l, Some(First(r)));
    HoldsConcat(pages, [l], [r] + f.right, next);
    HoldsConcat(pages, f.left, [l] + ([r] + f.right), next);
    assert f.left + ([l] + ([r] + f.right)) == Widened(f, l, r);
  }

  lemma {:induction false} WidenedGood(f: Frame, l: Tree, r: Tree, h: nat, c: Caps)
    requires c.Usable() && GoodAll(f.left, h, c) && GoodAll(f.right, h, c)
    requires Good(l, h, c) && Filled(l, c) && Good(r, h, c) && Filled(r, c)
    ensures GoodAll(Widened(f, l, r), h, c)
  {
  }

  lemma {:induction false} WidenedContents(f: Frame, l: Tree, r: Tree)
    ensures ContentsOf(Widened(f, l, r)) == ContentsOf(f.left) + Contents(l) + Contents(r) + ContentsOf(f.right)
  {
    ContentsConcat(f.left + [l] + [r], f.right);
    ContentsConcat(f.left + [l], [r]);
    ContentsConcat(f.left, [l]);
  }

  lemma {:induction false} WidenedCount(f: Frame, l: Tree, r: Tree, x: nat)
    ensures CountOf(Widened(f, l, r), x) == CountOf(f.left, x) + Count(l, x) + Count(r, x) + CountOf(f.right, x)
  {
    CountConcat(f.left + [l] + [r], f.right, x);
    CountConcat(f.left + [l], [r], x);
    CountConcat(f.left, [l], x);
  }

  /** The index contents in the middle of a split. */
  ghost function SplitContents(path: Path, l: Tree, r: Tree): seq<Entry> {
    Before(path) + Contents(l) + Contents(r) + After(path)
  }

  lemma {:induction false} Regroup4<T>(a: seq<T>, b: seq<T>, l: seq<T>, r: seq<T>, d: seq<T>, e: seq<T>)
    ensures (a + b) + l + r + (d + e) == a + (b + l + r + d) + e
  {
  }

  lemma {:induction false} WidenedPathContents(path: Path, l: Tree, r: Tree)
    requires path != []
    ensures SplitContents(path, l, r)
            == Before(Outer(path)) + ContentsOf(Widened(Inner(path), l, r)) + After(Outer(path))
  {
    var f := Inner(path);
    WidenedContents(f, l, r);
    Regroup4(Before(Outer(path)), ContentsOf(f.left), Contents(l), Contents(r), ContentsOf(f.right),
             After(Outer(path)));
  }

  /** The pages around a split after one write outside them. */
  lemma {:induction false} WidenedFrame(pages: PageMap, pages': PageMap, w: set<nat>, path: Path, l: Tree, r: Tree,
                                        h: nat, c: Caps)
    requires Splitting(pages, path, l, r, h, c) && path != []
    requires Same(pages, pages', w)
    requires Avoids(l, w) && Avoids(r, w) && PathAvoids(Outer(path), w)
    requires AvoidsOf(Inner(path).left, w) && AvoidsOf(Inner(path).right, w)
    ensures HoldsPath(pages', Outer(path), Up(Inner(path), FaceOf(l)))
    ensures HoldsOf(pages', Widened(Inner(path), l, r), NextOf(Outer(path)))
  {
    var f := Inner(path);
    HoldsPathFrame(pages, pages', w, Outer(path), Up(f, FaceOf(l)));
    HoldsOfFrame(pages, pages', w, f.left, Some(First(l)));
    HoldsOfFrame(pages, pages', w, f.right, NextOf(Outer(path)));
    HoldsFrame(pages, pages', w, l, Some(First(r)));
    HoldsFrame(pages, pages', w, r, NextOf(path));
    WidenedHolds(pages', f, l, r, NextOf(Outer(path)));
  }

  lemma {:induction false} WidenedFace(f: Frame, l: Tree, r: Tree, ks: seq<Tree>)
    requires ks != [] && ks <= Widened(f, l, r)
    ensures FaceOf(Node(f.id, ks)) == Up(f, FaceOf(l))
  {
    assert ks[0] == if f.left == [] then l else f.left[0];
  }

  lemma {:induction false} PairCount(l: Tree, r: Tree, id: nat, x: nat)
    ensures CountOf([l, r], x) == Count(l, x) + Count(r, x)
    ensures CountOf([l, r, Blank(id)], x) == Count(l, x) + Count(r, x) + if id == x then 1 else 0
  {
    CountConcat([l], [r], x);
    CountConcat([l] + [r], [Blank(id)], x);
    assert [l] + [r] == [l, r] && [l] + [r] + [Blank(id)] == [l, r, Blank(id)];
  }

  /** The parent has room: the split ends there. */
  lemma {:induction false} AbsorbSplit(pages: PageMap, path: Path, l: Tree, r: Tree, h: nat, c: Caps, free: seq<nat>,
                                       n: nat)
    returns (t: Tree)
    requires Splitting(pages, path, l, r, h, c) && path != []
    requires Covers(path, [l, r], free, n)
    requires |Widened(Inner(path), l, r)| <= c.internal + 1
    ensures t == Node(Inner(path).id, Widened(Inner(path), l, r))
    ensures var pages' := pages[t.id := InternalOf(t.kids)];
            HoldsPath(pages', Outer(path), FaceOf(t)) && Holds(pages', t, NextOf(Outer(path)))
    ensures Good(t, h + 1, c) && GoodPath(Outer(path), h + 1, c)
    ensures if Outer(path) == [] then |t.kids| >= 2 else Filled(t, c)
    ensures Before(Outer(path)) + Contents(t) + After(Outer(path)) == SplitContents(path, l, r)
    ensures Covers(Outer(path), [t], free, n)
    ensures FaceOf(t) == Up(Inner(path), FaceOf(l))
  {
    var f, ks := Inner(path), Widened(Inner(path), l, r);
    t := Node(f.id, ks);
    var pages' := pages[t.id := InternalOf(ks)];
    FrameIsAlone(path, [l, r], free, n);
    PairCount(l, r, 0, f.id);
    WidenedFrame(pages, pages', {f.id}, path, l, r, h, c);
    WidenedFace(f, l, r, ks);
    WidenedGood(f, l, r, h, c);
    WidenedPathContents(path, l, r);
    forall x
      ensures CoversAt(Outer(path), [t], free, n, x)
    {
      assert CoversAt(path, [l, r], free, n, x);
      PairCount(l, r, 0, x);
      WidenedCount(f, l, r, x);
    }
  }

  lemma {:induction false} SplitParentHolds(pages: PageMap, path: Path, l: Tree, r: Tree, h: nat, c: Caps,
                                            free: seq<nat>, n: nat, id: nat, a: seq<Tree>, b: seq<Tree>)
    requires Splitting(pages, path, l, r, h, c) && path != []
    requires Covers(path, [l, r, Blank(id)], free, n)
    requires Widened(Inner(path), l, r) == a + b && a != [] && b != []
    ensures var l', r' := Node(Inner(path).id, a), Node(id, b);
            var pages' := pages[id := InternalOf(b)][l'.id := InternalOf(a)];
            && HoldsPath(pages', Outer(path), FaceOf(l'))
            && Holds(pages', l', Some(First(r')))
            && Holds(pages', r', NextOf(Outer(path)))
  {
    var f := Inner(path);
    var pages' := pages[id := InternalOf(b)][f.id := InternalOf(a)];
    FrameIsAlone(path, [l, r, Blank(id)], free, n);
    TreeIsApart(path, [l, r, Blank(id)], free, n, 2, id);
    assert [l, r, Blank(id)][..2] == [l, r];
    PairCount(l, r, id, f.id);
    PairCount(l, r, id, id);
    WidenedFrame(pages, pages', {f.id, id}, path, l, r, h, c);
    HoldsConcat(pages', a, b, NextOf(Outer(path)));
    WidenedFace(f, l, r, a);
  }

  lemma {:induction false} SplitParentCovers(path: Path, l: Tree, r: Tree, free: seq<nat>, n: nat, id: nat,
                                             a: seq<Tree>, b: seq<Tree>)
    requires path != [] && Covers(path, [l, r, Blank(id)], free, n)
    requires Widened(Inner(path), l, r) == a + b
    ensures Covers(Outer(path), [Node(Inner(path).id, a), Node(id, b)], free, n)
  {
    var l', r' := Node(Inner(path).id, a), Node(id, b);
    forall x
      ensures CoversAt(Outer(path), [l', r'], free, n, x)
    {
      assert CoversAt(path, [l, r, Blank(id)], free, n, x);
      PairCount(l, r, id, x);
      PairCount(l', r', id, x);
      WidenedCount(Inner(path), l, r, x);
      CountConcat(a, b, x);
    }
  }

  lemma {:induction false} SplitParentContents(path: Path, l: Tree, r: Tree, id: nat, a: seq<Tree>, b: seq<Tree>)
    requires path != [] && Widened(Inner(path), l, r) == a + b
    ensures SplitContents(Outer(path), Node(Inner(path).id, a), Node(id, b)) == SplitContents(path, l, r)
  {
    WidenedPathContents(path, l, r);
    ContentsConcat(a, b);
    GroupMiddle(Before(Outer(path)), ContentsOf(a), ContentsOf(b), After(Outer(path)));
  }

  lemma {:induction false} GroupMiddle<T>(a: seq<T>, b: seq<T>, c: seq<T>, d: seq<T>)
    ensures a + b + c + d == a + (b + c) + d
  {
  }

  /** Splitting the children of an overfull node leaves both halves well filled. */
  lemma {:induction false} SplitParentGood(id: nat, ks: seq<Tree>, s: nat, h: nat, c: Caps)
    requires c.Usable() && h >= 1 && GoodAll(ks, h, c) && |ks| == c.internal + 2 && s == (c.internal + 1) / 2
    ensures Good(Node(id, ks[..s + 1]), h + 1, c) && Filled(Node(id, ks[..s + 1]), c)
    ensures Good(Node(id, ks[s + 1..]), h + 1, c) && Filled(Node(id, ks[s + 1..]), c)
  {
  }

  /** Where an overfull node with the given largest number of keys is cut. */
  function CutAt(maximum: nat): nat {
    (maximum + 1) / 2
  }

  ghost function LeftHalf(path: Path, l: Tree, r: Tree, c: Caps): seq<Tree>
    requires path != [] && |Widened(Inner(path), l, r)| == c.internal + 2
  {
    Widened(Inner(path), l, r)[..CutAt(c.internal) + 1]
  }

  ghost function RightHalf(path: Path, l: Tree, r: Tree, c: Caps): seq<Tree>
    requires path != [] && |Widened(Inner(path), l, r)| == c.internal + 2
  {
    Widened(Inner(path), l, r)[CutAt(c.internal) + 1..]
  }

  ghost function MovedUp(pages: PageMap, path: Path, l: Tree, r: Tree, c: Caps, id: nat): PageMap
    requires path != [] && |Widened(Inner(path), l, r)| == c.internal + 2
    requires c.Usable()
  {
    pages[id := InternalOf(RightHalf(path, l, r, c))][Inner(path).id := InternalOf(LeftHalf(path, l, r, c))]
  }

  /** The parent overflows: it is split in turn, and the split moves one level up. */
  lemma {:induction false} SplitParent(pages: PageMap, path: Path, l: Tree, r: Tree, h: nat, c: Caps, free: seq<nat>,
                                       n: nat, id: nat)
    returns (l': Tree, r': Tree)
    requires Splitting(pages, path, l, r, h, c) && path != []
    requires Covers(path, [l, r, Blank(id)], free, n)
    requires |Widened(Inner(path), l, r)| == c.internal + 2
    ensures l' == Node(Inner(path).id, LeftHalf(path, l, r, c)) && r' == Node(id, RightHalf(path, l, r, c))
    ensures Splitting(MovedUp(pages, path, l, r, c, id), Outer(path), l', r', h + 1, c)
    ensures Covers(Outer(path), [l', r'], free, n)
    ensures SplitContents(Outer(path), l', r') == SplitContents(path, l, r)
    ensures FaceOf(l') == Up(Inner(path), FaceOf(l))
  {
    var f, ks := Inner(path), Widened(Inner(path), l, r);
    var a, b := LeftHalf(path, l, r, c), RightHalf(path, l, r, c);
    l', r' := Node(f.id, a), Node(id, b);
    assert ks == a + b;
    WidenedFace(f, l, r, a);
    WidenedGood(f, l, r, h, c);
    SplitParentGood(f.id, ks, CutAt(c.internal), h, c);
    SplitParentGood(id, ks, CutAt(c.internal), h, c);
    SplitParentHolds(pages, path, l, r, h, c, free, n, id, a, b);
    SplitParentCovers(path, l, r, free, n, id, a, b);
    SplitParentContents(path, l, r, id, a, b);
  }

  lemma {:induction false} GrowRootCovers(l: Tree, r: Tree, free: seq<nat>, n: nat, id: nat)
    requires Covers([], [l, r, Blank(id)], free, n)
    ensures Covers([], [Node(id, [l, r])], free, n)
  {
    var t := Node(id, [l, r]);
    forall x
      ensures CoversAt([], [t], free, n, x)
    {
      assert CoversAt([], [l, r, Blank(id)], free, n, x);
      PairCount(l, r, id, x);
      assert Count(t, x) == (if id == x then 1 else 0) + CountOf([l, r], x);
      assert CountOf([t], x) == Count(t, x) + CountOf([], x);
    }
  }

  /** The root was split: a new root takes the two halves. */
  lemma {:induction false} GrowRoot(pages: PageMap, l: Tree, r: Tree, h: nat, c: Caps, free: seq<nat>, n: nat, id: nat)
    returns (t: Tree)
    requires Splitting(pages, [], l, r, h, c) && h >= 1
    requires Covers([], [l, r, Blank(id)], free, n)
    ensures t == Node(id, [l, r])
    ensures Holds(pages[id := InternalOf(t.kids)], t, None) && GoodRoot(t, h + 1, c)
    ensures Contents(t) == SplitContents([], l, r)
    ensures Covers([], [t], free, n)
    ensures First(t) == First(l)
  {
    t := Node(id, [l] + [r]);
    var pages' := pages[id := InternalOf(t.kids)];
    TreeIsApart([], [l, r, Blank(id)], free, n, 2, id);
    assert [l, r, Blank(id)][..2] == [l, r];
    PairCount(l, r, id, id);
    HoldsFrame(pages, pages', {id}, l, Some(First(r)));
    HoldsFrame(pages, pages', {id}, r, None);
    HoldsOne(pages', l, Some(First(r)));
    HoldsOne(pages', r, None);
    HoldsConcat(pages', [l], [r], None);
    ContentsConcat([l], [r]);
    GrowRootCovers(l, r, free, n, id);
    assert [l] + [r] == [l, r];
  }

  /** Both halves of a split pass every check a node makes when it is built. */
  lemma {:induction false} HalvesWellBuilt(pages: PageMap, path: Path, l: Tree, r: Tree, h: nat, c: Caps,
                                           free: seq<nat>, n: nat, target: seq<Entry>, unique: bool)
    requires Splitting(pages, path, l, r, h, c) && Covers(path, [l, r], free, n)
    requires SplitContents(path, l, r) == target && Ordered(target, unique)
    ensures WellBuilt(l.id, TopPage(l, Some(First(r))), c)
    ensures WellBuilt(r.id, TopPage(r, NextOf(path)), c)
  {
    CoversSimple(path, [l, r], free, n, 0);
    CoversSimple(path, [l, r], free, n, 1);
    GroupRight(Before(path) + Contents(l), Contents(r), After(path));
    OrderedMiddle(Before(path), Contents(l), Contents(r) + After(path), unique);
    OrderedMiddle(Before(path) + Contents(l), Contents(r), After(path), unique);
    PairCount(l, r, 0, First(r));
    FirstCounts(r);
    assert CoversAt(path, [l, r], free, n, First(r));
    NextIsOutside(path);
    if NextOf(path).Some? {
      assert CoversAt(path, [l, r], free, n, NextOf(path).page);
      PairCount(l, r, 0, NextOf(path).page);
    }
    GoodIsWellBuilt(l, Some(First(r)), h, c);
    GoodIsWellBuilt(r, NextOf(path), h, c);
  }

  /** Taking a page off the free list, or appending one when the list is empty. */
  lemma {:induction false} TakePage(pages: PageMap, path: Path, ts: seq<Tree>, head: Ref, free: seq<nat>, n: nat)
    requires Covers(path, ts, free, n) && Chain(pages, head, free)
    ensures if head == None then free == [] && Covers(path, ts + [Blank(n + 1)], [], n + 1)
            else free != [] && head.page == free[0] && 1 <= head.page <= n
                 && head.page in pages && pages[head.page].FreePage?
                 && Chain(pages, pages[head.page].next, free[1..])
                 && Covers(path, ts + [Blank(head.page)], free[1..], n)
  {
    var id := if head == None then n + 1 else head.page;
    var free', n' := if free == [] then free else free[1..], if head == None then n + 1 else n;
    assert CoversAt(path, ts, free, n, id);
    forall x
      ensures CoversAt(path, ts + [Blank(id)], free', n', x)
    {
      assert CoversAt(path, ts, free, n, x);
      CountConcat(ts, [Blank(id)], x);
    }
  }

  /** The key and child lists that a parent gets when a split arrives below it. */
  function WithKey(e: PathEntry, sep: Key): seq<Key>
    requires e.child <= |e.keys|
  {
    e.keys[..e.child] + [sep] + e.keys[e.child..]
  }

  function WithChild(e: PathEntry, right: nat): seq<nat>
    requires e.child < |e.children|
  {
    e.children[..e.child + 1] + [right] + e.children[e.child + 1..]
  }

  lemma {:induction false} WithBoth(path: Path, l: Tree, r: Tree, e: PathEntry)
    requires path != [] && Shows(path, FaceOf(l), e)
    ensures |e.children| == |e.keys| + 1 && e.child <= |e.keys| && e.children[e.child] == l.id
    ensures |Widened(Inner(path), l, r)| == |e.keys| + 2
    ensures WithKey(e, MinKey(r)) == Mins(Widened(Inner(path), l, r))[1..]
    ensures WithChild(e, r.id) == KidIds(Widened(Inner(path), l, r))
  {
    WidenedPage(Inner(path), l, r);
    var f := Inner(path);
    assert FramePage(f, FaceOf(l)).children[|f.left|] == l.id;
  }

  /** Cutting the lists of an overfull parent at its middle key gives the pages of the two halves. */
  lemma {:induction false} CutPage(ks: seq<Tree>, s: nat)
    requires s + 1 < |ks|
    ensures InternalPage(Mins(ks)[1..][..s], KidIds(ks)[..s + 1]) == InternalOf(ks[..s + 1])
    ensures InternalPage(Mins(ks)[1..][s + 1..], KidIds(ks)[s + 1..]) == InternalOf(ks[s + 1..])
    ensures Mins(ks)[1..][s] == MinKey(ks[s + 1])
  {
    assert Mins(ks[..s + 1]) == Mins(ks)[..s + 1];
    assert Mins(ks[s + 1..]) == Mins(ks)[s + 1..];
    assert KidIds(ks[..s + 1]) == KidIds(ks)[..s + 1];
    assert KidIds(ks[s + 1..]) == KidIds(ks)[s + 1..];
  }

  /** The pages of the two halves are neither free nor on the path. */
  lemma {:induction false} HalvesApart(path: Path, l: Tree, r: Tree, free: seq<nat>, n: nat)
    requires Covers(path, [l, r], free, n)
    ensures FreeCount(free, l.id) == 0 && FreeCount(free, r.id) == 0
    ensures PathCount(path, l.id) == 0 && PathCount(path, r.id) == 0
  {
    TreeIsApart(path, [l, r], free, n, 0, l.id);
    TreeIsApart(path, [l, r], free, n, 1, r.id);
  }

  lemma {:induction false} SplitShows(pages: PageMap, path: Path, l: Tree, r: Tree, h: nat, c: Caps,
                                      ancestors: seq<PathEntry>)
    requires Splitting(pages, path, l, r, h, c) && path != [] && Tracks(pages, path, ancestors)
    ensures |ancestors| == |path| && c.Usable()
    ensures Shows(path, FaceOf(l), ancestors[|path| - 1])
  {
  }

  lemma {:induction false} CutLists(ks: seq<Tree>, keys: seq<Key>, children: seq<nat>, split: nat)
    requires |ks| >= 3 && keys == Mins(ks)[1..] && children == KidIds(ks) && split == |keys| / 2
    ensures split < |keys| && |children| == |keys| + 1 == |ks|
    ensures InternalPage(keys[..split], children[..split + 1]) == InternalOf(ks[..split + 1])
    ensures InternalPage(keys[split + 1..], children[split + 1..]) == InternalOf(ks[split + 1..])
    ensures keys[split] == MinKey(ks[split + 1..][0])
  {
    assert |keys| == |ks| - 1;
    CutPage(ks, split);
  }

  lemma {:induction false} WithBothSize(ks: seq<Tree>, keys: seq<Key>)
    requires ks != [] && keys == Mins(ks)[1..]
    ensures |keys| + 1 == |ks|
  {
  }

  lemma {:induction false} CutForm(path: Path, l: Tree, r: Tree, e: PathEntry, c: Caps, keys: seq<Key>,
                                   children: seq<nat>, split: nat)
    requires path != [] && Shows(path, FaceOf(l), e) && |e.keys| == c.internal && c.Usable()
    requires e.child <= |e.keys| && e.child < |e.children|
    requires keys == WithKey(e, MinKey(r)) && children == WithChild(e, r.id) && split == |keys| / 2
    ensures split < |keys| && |children| == |keys| + 1 && |Widened(Inner(path), l, r)| == c.internal + 2
    ensures LeftHalf(path, l, r, c) != [] && RightHalf(path, l, r, c) != []
    ensures InternalPage(keys[..split], children[..split + 1]) == InternalOf(LeftHalf(path, l, r, c))
    ensures InternalPage(keys[split + 1..], children[split + 1..]) == InternalOf(RightHalf(path, l, r, c))
    ensures keys[split] == MinKey(Node(0, RightHalf(path, l, r, c)))
  {
    var ks := Widened(Inner(path), l, r);
    WithBoth(path, l, r, e);
    WithBothSize(ks, keys);
    hide Shows, WithKey, WithChild, Mins, KidIds, InternalOf, Widened;
    CutLists(ks, keys, children, split);
    assert split + 1 == CutAt(c.internal) + 1;
  }

  /** Puts a split's separator and new child into an ancestor that has no room and cuts it in two. */
  method CutAncestor(pages: PageMap, ancestors: seq<PathEntry>, sep: Key, right: nat, c: Caps,
                     ghost path: Path, ghost l: Tree, ghost r: Tree, ghost h: nat)
    returns (leftPage: Page, promoted: Key, rightPage: Page)
    requires Splitting(pages, path, l, r, h, c) && path != [] && Tracks(pages, path, ancestors)
    requires sep == MinKey(r) && right == r.id
    requires |ancestors[|path| - 1].keys| == c.internal
    ensures ancestors[|path| - 1].id == Inner(path).id
    ensures |Widened(Inner(path), l, r)| == c.internal + 2
    ensures LeftHalf(path, l, r, c) != [] && RightHalf(path, l, r, c) != []
    ensures leftPage == InternalOf(LeftHalf(path, l, r, c)) && rightPage == InternalOf(RightHalf(path, l, r, c))
    ensures promoted == MinKey(Node(0, RightHalf(path, l, r, c)))
  {
    SplitShows(pages, path, l, r, h, c, ancestors);
    var e := ancestors[|ancestors| - 1];
    WithBoth(path, l, r, e);
    assert e.id == Inner(path).id && e.children[e.child] == l.id;
    hide Splitting, Tracks, Shows, WithKey, WithChild, LeftHalf, RightHalf, Widened, InternalOf;
    var keys, children := WithKey(e, sep), WithChild(e, right);
    var split := |keys| / 2;
    CutForm(path, l, r, e, c, keys, children, split);
    leftPage := InternalPage(keys[..split], children[..split + 1]);
    rightPage := InternalPage(keys[split + 1..], children[split + 1..]);
    promoted := keys[split];
  }

  /** The pages of the two halves have left the free list and the path alone. */
  lemma {:induction false} HalvesSettle(pages: PageMap, pages': PageMap, path: Path, l: Tree, r: Tree, p: Page, q: Page,
                                        h: nat, c: Caps, head: Ref, free: seq<nat>, n: nat, target: seq<Entry>,
                                        unique: bool)
    requires Splitting(pages', path, l, r, h, c) && Covers(path, [l, r], free, n) && Chain(pages, head, free)
    requires SplitContents(path, l, r) == target && Ordered(target, unique)
    requires pages' == pages[r.id := q][l.id := p]
    ensures Chain(pages', head, free) && PathAvoids(path, {l.id, r.id})
    ensures WellBuilt(l.id, TopPage(l, Some(First(r))), c)
    ensures WellBuilt(r.id, TopPage(r, NextOf(path)), c)
  {
    HalvesWellBuilt(pages', path, l, r, h, c, free, n, target, unique);
    HalvesApart(path, l, r, free, n);
    hide Splitting, Covers, SplitContents, WellBuilt, Ordered;
    ChainFrame(pages, pages', {l.id, r.id}, head, free);
  }

  /** One level of an upward split, from the pages before it to the pages after it. */
  lemma {:induction false} SplitLevel(pages: PageMap, path: Path, l: Tree, r: Tree, h: nat, c: Caps,
                                      head: Ref, free: seq<nat>, n: nat, id: nat, target: seq<Entry>, unique: bool)
    returns (l': Tree, r': Tree)
    requires Splitting(pages, path, l, r, h, c) && path != []
    requires Covers(path, [l, r, Blank(id)], free, n) && Chain(pages, head, free)
    requires SplitContents(path, l, r) == target && Ordered(target, unique)
    requires |Widened(Inner(path), l, r)| == c.internal + 2
    ensures l' == Node(Inner(path).id, LeftHalf(path, l, r, c)) && r' == Node(id, RightHalf(path, l, r, c))
    ensures Splitting(MovedUp(pages, path, l, r, c, id), Outer(path), l', r', h + 1, c)
    ensures Covers(Outer(path), [l', r'], free, n) && Chain(MovedUp(pages, path, l, r, c, id), head, free)
    ensures SplitContents(Outer(path), l', r') == target
    ensures FaceOf(l') == Up(Inner(path), FaceOf(l))
    ensures WellBuilt(id, InternalOf(RightHalf(path, l, r, c)), c)
    ensures WellBuilt(Inner(path).id, InternalOf(LeftHalf(path, l, r, c)), c)
    ensures PathAvoids(Outer(path), {Inner(path).id, id})
  {
    l', r' := SplitParent(pages, path, l, r, h, c, free, n, id);
    HalvesSettle(pages, MovedUp(pages, path, l, r, c, id), Outer(path), l', r', InternalOf(l'.kids),
                 InternalOf(r'.kids),
                 h + 1, c, head, free, n, target, unique);
  }

  ghost function Absorbed(pages: PageMap, path: Path, l: Tree, r: Tree): PageMap
    requires path != []
  {
    pages[Inner(path).id := InternalOf(Widened(Inner(path), l, r))]
  }

  /** The last level of a split, where the ancestor has room: the tree is whole again. */
  lemma {:induction false} AbsorbLevel(pages: PageMap, path: Path, l: Tree, r: Tree, h: nat, top: nat, c: Caps,
                                       head: Ref, free: seq<nat>, n: nat, target: seq<Entry>, unique: bool)
    returns (t: Tree)
    requires Splitting(pages, path, l, r, h, c) && path != [] && top == h + |path|
    requires Covers(path, [l, r], free, n) && Chain(pages, head, free)
    requires SplitContents(path, l, r) == target && Ordered(target, unique)
    requires |Widened(Inner(path), l, r)| <= c.internal + 1
    ensures Whole(Absorbed(pages, path, l, r), t, top, c, free, n, target)
    ensures FaceOf(t) == FaceUp(path, FaceOf(l))
    ensures Chain(Absorbed(pages, path, l, r), head, free)
    ensures WellBuilt(Inner(path).id, InternalOf(Widened(Inner(path), l, r)), c)
  {
    var u := AbsorbSplit(pages, path, l, r, h, c, free, n);
    var pages' := Absorbed(pages, path, l, r);
    Reassemble(pages', Outer(path), u, h + 1, top, c, free, n, target);
    t := Rebuild(Outer(path), u);
    SafeWrite(Outer(path), u, h + 1, c, free, n, target, unique);
    ChainFrame(pages, pages', {u.id}, head, free);
  }

  /** A split of the root, seen as a whole tree. */
  lemma {:induction false} GrowLevel(pages: PageMap, l: Tree, r: Tree, h: nat, c: Caps,
                                     head: Ref, free: seq<nat>, n: nat, id: nat, target: seq<Entry>, unique: bool)
    returns (t: Tree)
    requires Splitting(pages, [], l, r, h, c) && h >= 1
    requires Covers([], [l, r, Blank(id)], free, n) && Chain(pages, head, free)
    requires SplitContents([], l, r) == target && Ordered(target, unique)
    ensures t.id == id && First(t) == First(l)
    ensures var pages' := pages[id := InternalOf([l, r])];
            Whole(pages', t, h + 1, c, free, n, target) && Chain(pages', head, free)
    ensures InternalOf([l, r]) == InternalPage([MinKey(r)], [l.id, r.id])
    ensures WellBuilt(id, InternalOf([l, r]), c)
  {
    t := GrowRoot(pages, l, r, h, c, free, n, id);
    var pages' := pages[id := InternalOf([l, r])];
    Reassemble(pages', [], t, h + 1, h + 1, c, free, n, target);
    SafeWrite([], t, h + 1, c, free, n, target, unique);
    ChainFrame(pages, pages', {id}, head, free);
    assert Mins([l, r]) == [MinKey(l), MinKey(r)];
    assert KidIds([l, r]) == [l.id, r.id];
  }

  lemma {:induction false} SplitKeepsTracks(pages: PageMap, path: Path, l: Tree, r: Tree, c: Caps, id: nat,
                                            ancestors: seq<PathEntry>)
    requires path != [] && c.Usable() && |Widened(Inner(path), l, r)| == c.internal + 2
    requires Tracks(pages, path, ancestors) && PathAvoids(Outer(path), {Inner(path).id, id})
    ensures Tracks(MovedUp(pages, path, l, r, c, id), Outer(path), ancestors[..|path| - 1])
  {
    TracksFrame(pages, MovedUp(pages, path, l, r, c, id), {Inner(path).id, id}, Outer(path), ancestors[..|path| - 1]);
  }

  /** No ancestor holds more than the largest number of keys. */
  lemma {:induction false} KeysFit(pages: PageMap, path: Path, l: Tree, r: Tree, h: nat, c: Caps,
                                   ancestors: seq<PathEntry>)
    requires Splitting(pages, path, l, r, h, c) && path != [] && Tracks(pages, path, ancestors)
    ensures |ancestors[|path| - 1].keys| <= c.internal && ancestors[|path| - 1].id == Inner(path).id
  {
  }
}
