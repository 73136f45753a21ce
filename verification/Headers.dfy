/** The metadata page of an index, and what it means for header and pages to form one index. */
module Headers {
  import opened Entries
  import opened Trees
  import opened Pages
  import opened Paths

  const UINT64_MAX: nat := 0xFFFF_FFFF_FFFF_FFFF

  datatype Header = Header(
    root: Ref,
    first: Ref,
    height: nat,
    entryCount: nat,
    pageCount: nat,
    freeHead: Ref,
    complete: bool)

  predicate InRange(r: Ref, n: nat) {
    r.Some? ==> 1 <= r.page <= n
  }

  /** The cross-field checks a header makes of itself every time it is built. */
  predicate Consistent(h: Header) {
    && h.entryCount <= UINT64_MAX
    && InRange(h.root, h.pageCount)
    && InRange(h.first, h.pageCount)
    && InRange(h.freeHead, h.pageCount)
    && (h.entryCount == 0 ==> h.root == None && h.first == None && h.height == 0)
    && (h.entryCount != 0 ==>
          && h.root != None && h.first != None && h.height != 0
          && h.pageCount != 0
          && h.height <= h.pageCount
          && (h.height == 1 ==> h.root == h.first)
          && (h.height > 1 ==> h.root != h.first))
    && (h.freeHead != None ==> h.freeHead != h.root && h.freeHead != h.first)
  }

  datatype Shape = Empty | Of(tree: Tree)

  ghost function ShapeContents(s: Shape): seq<Entry> {
    if s.Empty? then [] else Contents(s.tree)
  }

  ghost function ShapeCount(s: Shape, x: nat): nat {
    if s.Empty? then 0 else Count(s.tree, x)
  }

  /** Page x is in the tree or on the free list exactly once if it is a node page, and not at all otherwise. */
  ghost predicate UsedOnce(s: Shape, free: seq<nat>, n: nat, x: nat) {
    ShapeCount(s, x) + FreeCount(free, x) == if 1 <= x <= n then 1 else 0
  }

  ghost predicate Partition(s: Shape, free: seq<nat>, n: nat) {
    forall x :: UsedOnce(s, free, n, x)
  }

  /**
   * The index invariant. The header and the pages describe one tree of the given shape and one
   * free list, and between them they use every allocated page exactly once.
   */
  ghost predicate WellFormed(pages: PageMap, h: Header, s: Shape, free: seq<nat>, c: Caps, unique: bool) {
    && c.Usable()
    && Chain(pages, h.freeHead, free)
    && Partition(s, free, h.pageCount)
    && h.entryCount == |ShapeContents(s)| <= UINT64_MAX
    && Ordered(ShapeContents(s), unique)
    && match s
       case Empty => h.root == None && h.first == None && h.height == 0
       case Of(t) =>
         && h.root == Some(t.id)
         && h.first == Some(First(t))
         && GoodRoot(t, h.height, c)
         && Holds(pages, t, None)
  }

  /** The pages down the left edge of a tree. */
  ghost function Spine(t: Tree): set<nat>
    decreases t
  {
    if t.Node? && t.kids != [] then Spine(t.kids[0]) + {t.id} else {t.id}
  }

  lemma {:induction false} SpineCounts(t: Tree, h: nat, c: Caps)
    requires c.Usable() && Good(t, h, c) && Simple(t)
    ensures |Spine(t)| == h
    ensures forall x :: x in Spine(t) ==> Count(t, x) == 1
    decreases t
  {
    if t.Node? {
      var k := t.kids[0];
      forall x
        ensures Count(k, x) + (if t.id == x then 1 else 0) <= Count(t, x) <= if x == 0 then 0 else 1
      {
        KidCounts(t.kids, 0, x);
      }
      SpineCounts(k, h - 1, c);
    }
  }

  lemma {:induction false} SubsetOfRange(s: set<nat>, n: nat)
    requires forall x :: x in s ==> 1 <= x <= n
    ensures |s| <= n
  {
    if n > 0 {
      SubsetOfRange(s - {n}, n - 1);
    } else {
      assert forall x :: x !in s;
      assert s == {};
    }
  }

  lemma {:induction false} PartitionSimple(t: Tree, free: seq<nat>, n: nat)
    requires Partition(Of(t), free, n)
    ensures Simple(t)
    ensures forall x: nat :: Count(t, x) >= 1 ==> 1 <= x <= n && FreeCount(free, x) == 0
  {
    forall x: nat
      ensures Count(t, x) <= (if x == 0 then 0 else 1)
      ensures Count(t, x) >= 1 ==> 1 <= x <= n && FreeCount(free, x) == 0
    {
      assert UsedOnce(Of(t), free, n, x);
    }
  }

  /** A well-formed index has a header that passes its own checks. */
  lemma {:induction false} WellFormedIsConsistent(pages: PageMap, h: Header, s: Shape, free: seq<nat>, c: Caps,
                                                  unique: bool)
    requires WellFormed(pages, h, s, free, c, unique)
    ensures Consistent(h)
  {
    if free != [] {
      assert UsedOnce(s, free, h.pageCount, free[0]);
    }
    if s.Of? {
      var t := s.tree;
      PartitionSimple(t, free, h.pageCount);
      FirstCounts(t);
      GoodContents(t, h.height, c);
      SpineCounts(t, h.height, c);
      SubsetOfRange(Spine(t), h.pageCount);
      if t.Node? {
        FirstCounts(t.kids[0]);
        KidCounts(t.kids, 0, First(t));
      }
    }
  }

  /** Everything a well-formed index says about one position in its tree. */
  lemma {:induction false} Inside(pages: PageMap, h: Header, s: Shape, free: seq<nat>, c: Caps, unique: bool,
                                  path: Path, t: Tree)
    requires WellFormed(pages, h, s, free, c, unique) && s.Of?
    requires Rebuild(path, t) == s.tree
    ensures h.height > |path|
    ensures HoldsPath(pages, path, FaceOf(t)) && Holds(pages, t, NextOf(path))
    ensures GoodPath(path, h.height - |path|, c) && Good(t, h.height - |path|, c)
    ensures path != [] ==> Filled(t, c)
    ensures Before(path) + Contents(t) + After(path) == Contents(s.tree)
    ensures Ordered(Contents(t), unique)
    ensures 1 <= t.id <= h.pageCount && h.freeHead != Some(t.id) && PathCount(path, t.id) == 0
  {
    RebuildHolds(pages, path, t);
    GoodUnzip(path, t, h.height, c);
    RebuildContents(path, t);
    OrderedMiddle(Before(path), Contents(t), After(path), unique);
    PartitionSimple(s.tree, free, h.pageCount);
    RebuildCount(path, t, t.id);
  }

  /** What reading the page of subtree t yields, at a position of a well-formed index. */
  lemma {:induction false} ReadsNode(pages: PageMap, h: Header, s: Shape, free: seq<nat>, c: Caps, unique: bool,
                                     path: Path, t: Tree)
    requires WellFormed(pages, h, s, free, c, unique) && s.Of?
    requires Rebuild(path, t) == s.tree
    ensures |path| < h.height && (t.Node? <==> |path| < h.height - 1)
    ensures t.id in pages && 1 <= t.id <= h.pageCount && h.freeHead != Some(t.id) && PathCount(path, t.id) == 0
    ensures t.Leaf? ==> t.es != [] && pages[t.id] == LeafPage(t.es, NextOf(path)) && (unique ==> DistinctKeys(t.es))
    ensures t.Node? ==> t.kids != [] && pages[t.id] == InternalOf(t.kids)
  {
    Inside(pages, h, s, free, c, unique, path, t);
  }

  lemma {:induction false} GoodInside(pages: PageMap, h: Header, s: Shape, free: seq<nat>, c: Caps, unique: bool,
                                      path: Path, t: Tree)
    requires WellFormed(pages, h, s, free, c, unique) && s.Of?
    requires Rebuild(path, t) == s.tree
    ensures h.height > |path| && Good(t, h.height - |path|, c) && Sorted(Contents(Rebuild(path, t)))
  {
    GoodUnzip(path, t, h.height, c);
  }

  /** The pages store one whole tree over all the pages that are not free. */
  ghost predicate Whole(pages: PageMap, t: Tree, h: nat, c: Caps, free: seq<nat>, n: nat, contents: seq<Entry>) {
    c.Usable() && Holds(pages, t, None) && GoodRoot(t, h, c) && Contents(t) == contents && Partition(Of(t), free, n)
  }

  /** A subtree that fits the path around it completes a whole tree. */
  lemma {:induction false} Reassemble(pages: PageMap, path: Path, t: Tree, h: nat, top: nat, c: Caps,
                                      free: seq<nat>, n: nat, contents: seq<Entry>)
    requires top == h + |path|
    requires c.Usable() && HoldsPath(pages, path, FaceOf(t)) && Holds(pages, t, NextOf(path))
    requires GoodPath(path, h, c)
    requires if path == [] then GoodRoot(t, h, c) else Good(t, h, c) && Filled(t, c)
    requires Before(path) + Contents(t) + After(path) == contents
    requires Covers(path, [t], free, n)
    ensures Whole(pages, Rebuild(path, t), top, c, free, n, contents)
    ensures FaceOf(Rebuild(path, t)) == FaceUp(path, FaceOf(t))
  {
    RebuildHolds(pages, path, t);
    GoodRebuild(path, t, h, c);
    RebuildContents(path, t);
    RebuildFace(path, t);
    forall x
      ensures UsedOnce(Of(Rebuild(path, t)), free, n, x)
    {
      assert CoversAt(path, [t], free, n, x);
      RebuildCount(path, t, x);
      assert CountOf([t], x) == Count(t, x) + CountOf([], x);
    }
  }
  lemma {:induction false} CoversSimple(path: Path, ts: seq<Tree>, free: seq<nat>, n: nat, i: nat)
    requires Covers(path, ts, free, n) && i < |ts|
    ensures Simple(ts[i])
  {
    forall x
      ensures Count(ts[i], x) <= if x == 0 then 0 else 1
    {
      assert CoversAt(path, ts, free, n, x);
      KidCounts(ts, i, x);
    }
  }

  /** The top node of a subtree that fits the path passes its checks, and its page is not free. */
  lemma {:induction false} SafeWrite(path: Path, t: Tree, h: nat, c: Caps, free: seq<nat>, n: nat, contents: seq<Entry>,
                                     unique: bool)
    requires c.Usable() && Good(t, h, c) && Covers(path, [t], free, n)
    requires Before(path) + Contents(t) + After(path) == contents && Ordered(contents, unique)
    ensures WellBuilt(t.id, TopPage(t, NextOf(path)), c)
    ensures FreeCount(free, t.id) == 0 && PathCount(path, t.id) == 0
  {
    TreeIsApart(path, [t], free, n, 0, t.id);
    OrderedMiddle(Before(path), Contents(t), After(path), unique);
    CoversSimple(path, [t], free, n, 0);
    NextIsOutside(path);
    GoodIsWellBuilt(t, NextOf(path), h, c);
  }

  /** A well-formed index, taken apart at one position. */
  lemma {:induction false} Opened(pages: PageMap, h: Header, s: Shape, free: seq<nat>, c: Caps, unique: bool,
                                  path: Path, t: Tree)
    requires WellFormed(pages, h, s, free, c, unique) && s.Of?
    requires Rebuild(path, t) == s.tree
    ensures Covers(path, [t], free, h.pageCount)
    ensures h.root == Some(FaceUp(path, FaceOf(t)).id) && h.first == Some(FaceUp(path, FaceOf(t)).first)
  {
    forall x
      ensures CoversAt(path, [t], free, h.pageCount, x)
    {
      assert UsedOnce(s, free, h.pageCount, x);
      RebuildCount(path, t, x);
      assert CountOf([t], x) == Count(t, x) + CountOf([], x);
    }
    RebuildFace(path, t);
  }

  /** A whole tree with a free list and matching header fields is a well-formed index. */
  lemma {:induction false} Publish(pages: PageMap, h: Header, t: Tree, free: seq<nat>, c: Caps, unique: bool,
                                   contents: seq<Entry>)
    requires Whole(pages, t, h.height, c, free, h.pageCount, contents) && Chain(pages, h.freeHead, free)
    requires h.root == Some(t.id) && h.first == Some(First(t))
    requires h.entryCount == |contents| <= UINT64_MAX && Ordered(contents, unique)
    ensures WellFormed(pages, h, Of(t), free, c, unique) && ShapeContents(Of(t)) == contents
  {
  }

  /** Free pages are older pages of the file, and not the root or the first leaf. */
  ghost predicate FreeApart(h: Header, free: seq<nat>) {
    forall x: nat :: FreeCount(free, x) >= 1 ==> x <= h.pageCount && h.root != Some(x) && h.first != Some(x)
  }

  lemma {:induction false} WellFormedApart(pages: PageMap, h: Header, s: Shape, free: seq<nat>, c: Caps, unique: bool)
    requires WellFormed(pages, h, s, free, c, unique)
    ensures FreeApart(h, free)
  {
    forall x: nat | FreeCount(free, x) >= 1
      ensures x <= h.pageCount && h.root != Some(x) && h.first != Some(x)
    {
      assert UsedOnce(s, free, h.pageCount, x);
      if s.Of? {
        FirstCounts(s.tree);
      }
    }
  }

  /** The first pair of an empty index goes into a new root leaf. */
  lemma {:induction false} FirstLeaf(pages: PageMap, e: Entry, head: Ref, free: seq<nat>, n: nat, id: nat, c: Caps,
                                     unique: bool)
    requires c.Usable() && Covers([], [Leaf(id, [])], free, n) && Chain(pages, head, free)
    ensures var pages' := pages[id := LeafPage([e], None)];
            Whole(pages', Leaf(id, [e]), 1, c, free, n, [e]) && Chain(pages', head, free)
    ensures WellBuilt(id, LeafPage([e], None), c) && Ordered([e], unique)
  {
    var t := Leaf(id, [e]);
    var pages' := pages[id := LeafPage([e], None)];
    forall x
      ensures CoversAt([], [t], free, n, x)
    {
      assert CoversAt([], [Leaf(id, [])], free, n, x);
      assert CountOf([t], x) == Count(t, x) + CountOf([], x);
      assert CountOf([Leaf(id, [])], x) == Count(Leaf(id, []), x) + CountOf([], x);
    }
    SafeWrite([], t, 1, c, free, n, [e], unique);
    ChainFrame(pages, pages', {id}, head, free);
    Reassemble(pages', [], t, 1, 1, c, free, n, [e]);
  }

  /** An index has no entries exactly when it has no tree. */
  lemma {:induction false} EmptyShape(pages: PageMap, h: Header, s: Shape, free: seq<nat>, c: Caps, unique: bool)
    requires WellFormed(pages, h, s, free, c, unique)
    ensures h.entryCount == 0 <==> s.Empty?
  {
    if s.Of? {
      GoodContents(s.tree, h.height, c);
    }
  }
}
