/** What inserting into the leaf at the end of a captured path does to the index. */
module Inserts {
  import opened Entries
  import opened Trees
  import opened Pages
  import opened Paths
  import opened Headers
  import opened Cursors
  import opened Locating
  import opened Splits

  function Grown(es: seq<Entry>, pos: nat, e: Entry): seq<Entry>
    requires pos <= |es|
  {
    es[..pos] + [e] + es[pos..]
  }

  /** The contents with the pair put in, as the leaf sees them. */
  lemma {:induction false} GrownContents(path: Path, es: seq<Entry>, pos: nat, e: Entry, unique: bool)
    requires Slot(path, es, pos, e, unique) && Ordered(Before(path) + es + After(path), unique)
    ensures Before(path) + Grown(es, pos, e) + After(path) == Inserted(Before(path) + es + After(path), e)
    ensures Ordered(Before(path) + Grown(es, pos, e) + After(path), unique)
  {
    var a, b := Before(path) + es[..pos], es[pos..] + After(path);
    assert es == es[..pos] + es[pos..];
    Rejoin(Before(path), es[..pos], es[pos..], After(path));
    Regroup(Before(path), es[..pos], [e], es[pos..], After(path));
    InsertedBetween(a, b, e);
    InsertOrdered(a, b, e, unique);
  }

  lemma {:induction false} Rejoin<T>(a: seq<T>, b: seq<T>, c: seq<T>, d: seq<T>)
    ensures a + (b + c) + d == (a + b) + (c + d)
  {
  }

  /** The ancestors of the leaf do not show a least key that inserting there changes. */
  lemma {:induction false} FaceAfterInsert(pages: PageMap, path: Path, t: Tree, t': Tree, c: Caps)
    requires c.Usable() && HoldsPath(pages, path, FaceOf(t)) && GoodPath(path, 1, c)
    requires t.Leaf? && t'.Leaf? && t.id == t'.id
    requires MinKey(t) == MinKey(t') || Before(path) == []
    ensures HoldsPath(pages, path, FaceOf(t'))
    ensures FaceUp(path, FaceOf(t')).id == FaceUp(path, FaceOf(t)).id
    ensures FaceUp(path, FaceOf(t')).first == FaceUp(path, FaceOf(t)).first
  {
    NothingBefore(path, 1, c);
    MinUnseen(pages, path, FaceOf(t), FaceOf(t'));
    FaceUpIds(path, FaceOf(t), FaceOf(t'));
  }

  lemma {:induction false} SameCovers(path: Path, t: Tree, t': Tree, free: seq<nat>, n: nat)
    requires t.Leaf? && t'.Leaf? && t.id == t'.id && Covers(path, [t], free, n)
    ensures Covers(path, [t'], free, n)
  {
    forall x
      ensures CoversAt(path, [t'], free, n, x)
    {
      assert CoversAt(path, [t], free, n, x);
      assert CountOf([t], x) == Count(t, x) + CountOf([], x);
      assert CountOf([t'], x) == Count(t', x) + CountOf([], x);
    }
  }

  /** The state of the index around the leaf that an insertion has chosen. */
  ghost predicate Chosen(pages: PageMap, path: Path, d: Descent, pos: nat, e: Entry, head: Ref, free: seq<nat>, n: nat,
                         c: Caps, had: seq<Entry>, unique: bool) {
    && c.Usable() && GoodPath(path, 1, c)
    && HoldsPath(pages, path, FaceOf(Leaf(d.leaf, d.es)))
    && d.next == NextOf(path)
    && d.es != [] && |d.es| <= c.leaf && (path != [] ==> |d.es| >= c.MinLeaf())
    && Covers(path, [Leaf(d.leaf, d.es)], free, n) && Chain(pages, head, free)
    && had == Before(path) + d.es + After(path) && Ordered(had, unique)
    && Slot(path, d.es, pos, e, unique)
  }

  lemma {:induction false} Choose(pages: PageMap, h: Header, s: Shape, free: seq<nat>, c: Caps, unique: bool,
                                  path: Path, d: Descent, pos: nat, e: Entry)
    requires WellFormed(pages, h, s, free, c, unique) && s.Of? && At(pages, s.tree, path, d)
    requires Slot(path, d.es, pos, e, unique)
    ensures Chosen(pages, path, d, pos, e, h.freeHead, free, h.pageCount, c, Contents(s.tree), unique)
    ensures |path| + 1 == h.height
    ensures h.root == Some(FaceUp(path, FaceOf(Leaf(d.leaf, d.es))).id)
    ensures h.first == Some(FaceUp(path, FaceOf(Leaf(d.leaf, d.es))).first)
  {
    Inside(pages, h, s, free, c, unique, path, Leaf(d.leaf, d.es));
    Opened(pages, h, s, free, c, unique, path, Leaf(d.leaf, d.es));
  }

  /** The leaf has room: writing it once inserts the pair. */
  lemma {:induction false} LeafFits(pages: PageMap, path: Path, d: Descent, pos: nat, e: Entry, head: Ref,
                                    free: seq<nat>, n: nat, c: Caps, had: seq<Entry>, unique: bool, top: nat)
    returns (t: Tree)
    requires Chosen(pages, path, d, pos, e, head, free, n, c, had, unique)
    requires |d.es| + 1 <= c.leaf && top == |path| + 1
    ensures var pages' := pages[d.leaf := LeafPage(Grown(d.es, pos, e), d.next)];
            Whole(pages', t, top, c, free, n, Inserted(had, e)) && Chain(pages', head, free)
    ensures FaceOf(t).id == FaceUp(path, FaceOf(Leaf(d.leaf, d.es))).id
    ensures FaceOf(t).first == FaceUp(path, FaceOf(Leaf(d.leaf, d.es))).first
    ensures WellBuilt(d.leaf, LeafPage(Grown(d.es, pos, e), d.next), c)
    ensures Ordered(Inserted(had, e), unique)
  {
    var was, now := Leaf(d.leaf, d.es), Leaf(d.leaf, Grown(d.es, pos, e));
    var pages' := pages[d.leaf := LeafPage(now.es, d.next)];
    GrownContents(path, d.es, pos, e, unique);
    FaceAfterInsert(pages, path, was, now, c);
    SameCovers(path, was, now, free, n);
    SafeWrite(path, now, 1, c, free, n, Inserted(had, e), unique);
    HoldsPathFrame(pages, pages', {d.leaf}, path, FaceOf(now));
    ChainFrame(pages, pages', {d.leaf}, head, free);
    Reassemble(pages', path, now, 1, top, c, free, n, Inserted(had, e));
    t := Rebuild(path, now);
  }

  function LowerHalf(es: seq<Entry>): seq<Entry> {
    es[..|es| / 2]
  }

  function UpperHalf(es: seq<Entry>): seq<Entry> {
    es[|es| / 2..]
  }

  ghost function LeftLeaf(d: Descent, pos: nat, e: Entry): Tree
    requires pos <= |d.es|
  {
    Leaf(d.leaf, LowerHalf(Grown(d.es, pos, e)))
  }

  ghost function RightLeaf(d: Descent, pos: nat, e: Entry, id: nat): Tree
    requires pos <= |d.es|
  {
    Leaf(id, UpperHalf(Grown(d.es, pos, e)))
  }

  lemma {:induction false} LeafSplitCovers(path: Path, d: Descent, pos: nat, e: Entry, free: seq<nat>, n: nat, id: nat)
    requires Covers(path, [Leaf(d.leaf, d.es)] + [Blank(id)], free, n) && pos <= |d.es|
    ensures Covers(path, [LeftLeaf(d, pos, e), RightLeaf(d, pos, e, id)], free, n)
  {
    var was, l, r := Leaf(d.leaf, d.es), LeftLeaf(d, pos, e), RightLeaf(d, pos, e, id);
    forall x
      ensures CoversAt(path, [l, r], free, n, x)
    {
      assert CoversAt(path, [was] + [Blank(id)], free, n, x);
      CountConcat([was], [Blank(id)], x);
      PairCount(l, r, id, x);
    }
  }

  /** The leaf is full: after the new page is taken and both halves written, the split stands below the path. */
  lemma {:induction false} LeafSplits(pages: PageMap, path: Path, d: Descent, pos: nat, e: Entry, head: Ref,
                                      free: seq<nat>, n: nat, head': Ref, free': seq<nat>, n': nat, id: nat, c: Caps,
                                      had: seq<Entry>, unique: bool, l: Tree, r: Tree, pages': PageMap)
    requires Chosen(pages, path, d, pos, e, head, free, n, c, had, unique)
    requires |d.es| + 1 > c.leaf
    requires Covers(path, [Leaf(d.leaf, d.es)] + [Blank(id)], free', n') && Chain(pages, head', free')
    requires l == LeftLeaf(d, pos, e) && r == RightLeaf(d, pos, e, id)
    requires pages' == pages[id := LeafPage(r.es, d.next)][d.leaf := LeafPage(l.es, Some(id))]
    ensures Splitting(pages', path, l, r, 1, c) && Covers(path, [l, r], free', n') && Chain(pages', head', free')
    ensures SplitContents(path, l, r) == Inserted(had, e) && Ordered(Inserted(had, e), unique)
    ensures FaceUp(path, FaceOf(l)).id == FaceUp(path, FaceOf(Leaf(d.leaf, d.es))).id
    ensures FaceUp(path, FaceOf(l)).first == FaceUp(path, FaceOf(Leaf(d.leaf, d.es))).first
    ensures WellBuilt(d.leaf, LeafPage(l.es, Some(id)), c) && WellBuilt(id, LeafPage(r.es, d.next), c)
    ensures PathAvoids(path, {d.leaf, id})
    ensures |Grown(d.es, pos, e)| >= 1 && MinKey(r) == Grown(d.es, pos, e)[|Grown(d.es, pos, e)| / 2].key
  {
    GrownContents(path, d.es, pos, e, unique);
    LeafSplitCovers(path, d, pos, e, free', n', id);
    HalvesApart(path, l, r, free', n');
    FaceAfterInsert(pages, path, Leaf(d.leaf, d.es), l, c);
    HoldsPathFrame(pages, pages', {d.leaf, id}, path, FaceOf(l));
    ChainFrame(pages, pages', {d.leaf, id}, head', free');
    assert l.es + r.es == Grown(d.es, pos, e);
    GroupMiddle(Before(path), l.es, r.es, After(path));
    TreeIsApart(path, [l, r], free', n', 1, id);
    assert [l, r][..1] == [l];
    HalvesWellBuilt(pages', path, l, r, 1, c, free', n', Inserted(had, e), unique);
  }
}
