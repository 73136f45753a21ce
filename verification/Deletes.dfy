/** What deleting a pair from the leaf at the end of a captured path does to the index. */
module Deletes {
  import opened Entries
  import opened Trees
  import opened Pages
  import opened Paths
  import opened Headers
  import opened Cursors
  import opened Repairs
  import opened Underflows
  import opened Parents

  lemma {:induction false} SplitAround<T>(a: seq<T>, s: seq<T>, i: nat, b: seq<T>)
    requires i < |s|
    ensures a + s + b == (a + s[..i]) + [s[i]] + (s[i + 1..] + b)
    ensures a + RemoveAt(s, i) + b == (a + s[..i]) + (s[i + 1..] + b)
  {
    assert s == s[..i] + [s[i]] + s[i + 1..];
  }

  /** The contents without the pair, as the leaf sees them. */
  lemma {:induction false} ShrunkContents(path: Path, es: seq<Entry>, pos: nat, unique: bool, had: seq<Entry>)
    requires pos < |es| && had == Before(path) + es + After(path) && Ordered(had, unique)
    ensures Before(path) + RemoveAt(es, pos) + After(path) == Removed(had, es[pos])
    ensures Ordered(Removed(had, es[pos]), unique)
  {
    var e := es[pos];
    var a, b := Before(path) + es[..pos], es[pos + 1..] + After(path);
    SplitAround(Before(path), es, pos, After(path));
    assert had == a + [e] + b;
    forall i | 0 <= i < |a|
      ensures a[i] != e
    {
      assert Rises(had, i, |a|);
    }
    RemovedBetween(a, b, e);
    RemoveOrdered(a, e, b, unique);
  }

  ghost predicate LeavesSome(path: Path, es: seq<Entry>, c: Caps)
    requires c.Usable()
  {
    es != [] && (path != [] ==> |es| + 1 >= c.MinLeaf())
  }

  /** The leaf without the pair belongs where the leaf was. */
  lemma {:induction false} Shrink(pages: PageMap, h: Header, s: Shape, free: seq<nat>, c: Caps, unique: bool,
                                  path: Path, d: Descent, pos: nat)
    requires WellFormed(pages, h, s, free, c, unique) && s.Of? && At(pages, s.tree, path, d)
    requires pos < |d.es| && h.entryCount > 1
    ensures var t := Leaf(d.leaf, RemoveAt(d.es, pos));
            var face := FaceOf(Leaf(d.leaf, d.es));
            var target := Removed(Contents(s.tree), d.es[pos]);
            && Waiting(pages, path, face, t, 1, c, h.freeHead, free, h.pageCount, target) && Ordered(target, unique)
            && Anchored(h, path, face, 1, free, h.pageCount)
            && LeavesSome(path, t.es, c)
            && face == Face(d.leaf, d.leaf, d.es[0].key)
  {
    var was, t := Leaf(d.leaf, d.es), Leaf(d.leaf, RemoveAt(d.es, pos));
    Inside(pages, h, s, free, c, unique, path, was);
    Opened(pages, h, s, free, c, unique, path, was);
    ShrunkContents(path, d.es, pos, unique, Contents(s.tree));
    if path == [] {
      assert |Contents(s.tree)| == |d.es|;
    }
    forall x
      ensures CoversAt(path, [t], free, h.pageCount, x)
    {
      assert CoversAt(path, [was], free, h.pageCount, x);
      assert CountOf([t], x) == Count(t, x) + CountOf([], x);
      assert CountOf([was], x) == Count(was, x) + CountOf([], x);
    }
  }

  /** Writing a leaf that belongs at the position puts it there. */
  lemma {:induction false} LeafWritten(pages: PageMap, path: Path, face: Face, t: Tree, c: Caps,
                                       head: Ref, free: seq<nat>, n: nat, target: seq<Entry>, unique: bool)
    requires Waiting(pages, path, face, t, 1, c, head, free, n, target) && t.Leaf? && Ordered(target, unique)
    ensures var page := LeafPage(t.es, NextOf(path));
            && WellBuilt(t.id, page, c)
            && Settled(pages[t.id := page], path, face, t, 1, c, head, free, n, target)
            && KeepsTracks(pages, pages[t.id := page], path)
  {
    var pages' := pages[t.id := LeafPage(t.es, NextOf(path))];
    SafeWrite(path, t, 1, c, free, n, target, unique);
    HoldsPathFrame(pages, pages', {t.id}, path, face);
    ChainFrame(pages, pages', {t.id}, head, free);
    forall rest | Tracks(pages, path, rest)
      ensures Tracks(pages', path, rest)
    {
      TracksFrame(pages, pages', {t.id}, path, rest);
    }
  }

  /** A root with a single child gives way to the child. */
  lemma {:induction false} ShrinkStep(pages: PageMap, t: Tree, h: nat, c: Caps, head: Ref, free: seq<nat>, n: nat,
                                      target: seq<Entry>)
    requires Nearly(pages, t, h, c, free, n, target) && Chain(pages, head, free) && t.Node? && |t.kids| == 1
    ensures h >= 2
    ensures var pages', k := pages[t.id := FreePage(head)], t.kids[0];
            && Whole(pages', k, h - 1, c, [t.id] + free, n, target) && Chain(pages', Some(t.id), [t.id] + free)
            && First(k) == First(t)
    ensures WellBuilt(t.id, FreePage(head), c)
  {
    var pages', k := pages[t.id := FreePage(head)], t.kids[0];
    assert UsedOnce(Of(t), free, n, t.id);
    assert t.kids == [k];
    assert ([t.id] + free)[1..] == free;
    assert forall x :: CountOf(t.kids, x) == Count(k, x) + CountOf([], x);
    HoldsOne(pages, k, None);
    HoldsFrame(pages, pages', {t.id}, k, None);
    ChainFrame(pages, pages', {t.id}, head, free);
    forall x
      ensures UsedOnce(Of(k), [t.id] + free, n, x)
    {
      assert UsedOnce(Of(t), free, n, x);
    }
    assert Contents(t) == Contents(k) + ContentsOf([]);
  }

  /** Two children hold at least two entries, so an index of one entry is a root leaf. */
  lemma {:induction false} ChildrenHoldTwo(t: Tree, h: nat, c: Caps)
    requires c.Usable() && Good(t, h, c) && t.Node? && |t.kids| >= 2
    ensures |Contents(t)| >= 2
  {
    GoodContents(t.kids[0], h - 1, c);
    GoodContents(t.kids[1], h - 1, c);
    assert t.kids == t.kids[..1] + [t.kids[1]] + t.kids[2..];
    ContentsAround(t.kids[..1], t.kids[1], t.kids[2..]);
    assert t.kids[..1][0] == t.kids[0];
  }

  /** Freeing the last leaf leaves an empty index. */
  lemma {:induction false} LastGone(pages: PageMap, h: Header, s: Shape, free: seq<nat>, c: Caps, unique: bool,
                                    path: Path, d: Descent)
    requires WellFormed(pages, h, s, free, c, unique) && s.Of? && At(pages, s.tree, path, d) && h.entryCount == 1
    ensures path == [] && |d.es| == 1 && Contents(s.tree) == d.es
    ensures WellBuilt(d.leaf, FreePage(h.freeHead), c)
    ensures var h' := h.(root := None, first := None, height := 0, entryCount := 0, freeHead := Some(d.leaf));
            WellFormed(pages[d.leaf := FreePage(h.freeHead)], h', Empty, [d.leaf] + free, c, unique)
  {
    if s.tree.Node? {
      ChildrenHoldTwo(s.tree, h.height, c);
    }
    if path != [] {
      RebuildIsNode(path, Leaf(d.leaf, d.es));
    }
    var pages' := pages[d.leaf := FreePage(h.freeHead)];
    assert s.tree == Leaf(d.leaf, d.es);
    assert UsedOnce(s, free, h.pageCount, d.leaf);
    ChainFrame(pages, pages', {d.leaf}, h.freeHead, free);
    assert ([d.leaf] + free)[1..] == free;
    forall x
      ensures UsedOnce(Empty, [d.leaf] + free, h.pageCount, x)
    {
      assert UsedOnce(s, free, h.pageCount, x);
    }
  }

  lemma {:induction false} RebuildIsNode(path: Path, t: Tree)
    requires path != []
    ensures Rebuild(path, t).Node?
    decreases |path|
  {
    if |path| > 1 {
      RebuildIsNode(Outer(path), Plug(Inner(path), t));
    }
  }
}
