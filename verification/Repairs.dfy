/** Deletion: rewriting two adjacent siblings, and what that does to the index around them. */
module Repairs {
  import opened Entries
  import opened Trees
  import opened Pages
  import opened Paths
  import opened Headers

  ghost function Kids(a: seq<Tree>, mid: seq<Tree>, b: seq<Tree>): seq<Tree> {
    a + mid + b
  }

  /**
   * The surroundings of two adjacent children of page id: the children a before them, the
   * children b after them, and the path above. The path still shows the old face of the parent.
   */
  ghost predicate Around(pages: PageMap, path: Path, face: Face, a: seq<Tree>, b: seq<Tree>, first: nat, h: nat,
                         c: Caps) {
    && c.Usable() && h >= 1
    && HoldsPath(pages, path, face)
    && HoldsOf(pages, a, Some(first))
    && HoldsOf(pages, b, NextOf(path))
    && GoodPath(path, h + 1, c)
    && GoodAll(a, h, c) && GoodAll(b, h, c)
    && |a| + 2 + |b| <= c.internal + 1
    && (path != [] ==> |a| + 2 + |b| >= c.MinInternal() + 1)
    && face.first == (if a == [] then first else First(a[0]))
  }

  /** A subtree stands at the position, and the path shows its page and its first leaf but maybe an old least key. */
  ghost predicate Repairing(pages: PageMap, path: Path, face: Face, t: Tree, h: nat, c: Caps) {
    && c.Usable()
    && HoldsPath(pages, path, face)
    && Holds(pages, t, NextOf(path))
    && t.id == face.id && First(t) == face.first
    && GoodPath(path, h, c) && Good(t, h, c)
  }

  lemma {:induction false} KidsContents(a: seq<Tree>, mid: seq<Tree>, b: seq<Tree>)
    ensures ContentsOf(Kids(a, mid, b)) == ContentsOf(a) + ContentsOf(mid) + ContentsOf(b)
  {
    ContentsConcat(a + mid, b);
    ContentsConcat(a, mid);
  }

  lemma {:induction false} KidsCount(a: seq<Tree>, mid: seq<Tree>, b: seq<Tree>, x: nat)
    ensures CountOf(Kids(a, mid, b), x) == CountOf(a, x) + CountOf(mid, x) + CountOf(b, x)
  {
    CountConcat(a + mid, b, x);
    CountConcat(a, mid, x);
  }

  lemma {:induction false} KidsHolds(pages: PageMap, a: seq<Tree>, mid: seq<Tree>, b: seq<Tree>, next: Ref)
    requires mid != []
    requires HoldsOf(pages, a, Some(First(mid[0]))) && HoldsOf(pages, mid, Head(b, next)) && HoldsOf(pages, b, next)
    ensures HoldsOf(pages, Kids(a, mid, b), next)
  {
    HoldsConcat(pages, a + mid, b, next);
    HoldsConcat(pages, a, mid, Head(b, next));
  }

  /** The parent of rewritten children fits the path in its old place. */
  lemma {:induction false} ParentFits(pages: PageMap, pages': PageMap, w: set<nat>, path: Path, face: Face,
                                      a: seq<Tree>, mid: seq<Tree>, b: seq<Tree>, first: nat, h: nat, c: Caps)
    requires Around(pages, path, face, a, b, first, h, c)
    requires Same(pages, pages', w) && PathAvoids(path, w) && AvoidsOf(a, w) && AvoidsOf(b, w)
    requires mid != [] && |mid| <= 2 && First(mid[0]) == first
    requires HoldsOf(pages', mid, Head(b, NextOf(path))) && GoodAll(mid, h, c)
    requires face.id in pages' && pages'[face.id] == InternalOf(Kids(a, mid, b))
    ensures Repairing(pages', path, face, Node(face.id, Kids(a, mid, b)), h + 1, c)
  {
    HoldsPathFrame(pages, pages', w, path, face);
    HoldsOfFrame(pages, pages', w, a, Some(first));
    HoldsOfFrame(pages, pages', w, b, NextOf(path));
    KidsHolds(pages', a, mid, b, NextOf(path));
    var ks := Kids(a, mid, b);
    assert ks[0] == if a == [] then mid[0] else a[0];
  }

  /** Two adjacent children x and y of page face.id, with everything around them in order. */
  ghost predicate Siblings(pages: PageMap, path: Path, face: Face, a: seq<Tree>, x: Tree, y: Tree, b: seq<Tree>, h: nat,
                           c: Caps, head: Ref, free: seq<nat>, n: nat, target: seq<Entry>) {
    && Around(pages, path, face, a, b, First(x), h, c)
    && Covers(path, [Node(face.id, Kids(a, [x, y], b))], free, n)
    && Chain(pages, head, free)
    && Before(path) + ContentsOf(Kids(a, [x, y], b)) + After(path) == target
  }

  /** A subtree at the position, and a free list, that together keep every page and every entry. */
  ghost predicate Settled(pages: PageMap, path: Path, face: Face, t: Tree, h: nat, c: Caps,
                          head: Ref, free: seq<nat>, n: nat, target: seq<Entry>) {
    && Repairing(pages, path, face, t, h, c)
    && Covers(path, [t], free, n)
    && Chain(pages, head, free)
    && Before(path) + Contents(t) + After(path) == target
  }

  lemma {:induction false} SumCount(path: Path, id: nat, a: seq<Tree>, mid: seq<Tree>, b: seq<Tree>, free: seq<nat>,
                                    n: nat, z: nat)
    ensures CoversAt(path, [Node(id, Kids(a, mid, b))], free, n, z) <==>
            PathCount(path, z) + (if id == z then 1
                                  else 0) + CountOf(a, z) + CountOf(mid, z) + CountOf(b, z) + FreeCount(free, z)
            == if 1 <= z <= n then 1 else 0
  {
    var t := Node(id, Kids(a, mid, b));
    KidsCount(a, mid, b, z);
    assert CountOf([t], z) == Count(t, z) + CountOf([], z);
  }

  lemma {:induction false} TwoCount(x: Tree, y: Tree, z: nat)
    ensures CountOf([x, y], z) == Count(x, z) + Count(y, z)
  {
    assert [x, y] == [x] + [y];
    CountConcat([x], [y], z);
  }

  lemma {:induction false} TwoContents(x: Tree, y: Tree)
    ensures ContentsOf([x, y]) == Contents(x) + Contents(y)
  {
    assert [x, y] == [x] + [y];
    ContentsConcat([x], [y]);
  }

  /** The pages of two siblings and of their parent are used by nothing else. */
  lemma {:induction false} SiblingsApart(path: Path, id: nat, a: seq<Tree>, x: Tree, y: Tree, b: seq<Tree>,
                                         free: seq<nat>, n: nat)
    requires Covers(path, [Node(id, Kids(a, [x, y], b))], free, n)
    ensures forall z :: z in {id, x.id, y.id} ==>
              PathCount(path, z) == 0 && CountOf(a, z) == 0 && CountOf(b, z) == 0 && FreeCount(free, z) == 0
                  && 1 <= z <= n
    ensures Count(x, id) == 0 && Count(y, id) == 0 && Count(x, y.id) == 0 && Count(y, x.id) == 0
    ensures Count(x, x.id) == 1 && Count(y, y.id) == 1
  {
    forall z | z in {id, x.id, y.id}
      ensures PathCount(path, z) == 0 && CountOf(a, z) == 0 && CountOf(b, z) == 0 && FreeCount(free, z) == 0
      ensures 1 <= z <= n
      ensures (if id == z then 1 else 0) + Count(x, z) + Count(y, z) == 1
    {
      assert CoversAt(path, [Node(id, Kids(a, [x, y], b))], free, n, z);
      SumCount(path, id, a, [x, y], b, free, n, z);
      TwoCount(x, y, z);
    }
  }

  /** Rewriting the children between a and b keeps every page in use once, if the pages they used are kept or freed. */
  lemma {:induction false} CoversShift(path: Path, id: nat, a: seq<Tree>, mid: seq<Tree>, mid': seq<Tree>, b: seq<Tree>,
                                       free: seq<nat>, free': seq<nat>, n: nat)
    requires Covers(path, [Node(id, Kids(a, mid, b))], free, n)
    requires forall z :: CountOf(mid', z) + FreeCount(free', z) == CountOf(mid, z) + FreeCount(free, z)
    ensures Covers(path, [Node(id, Kids(a, mid', b))], free', n)
  {
    forall z
      ensures CoversAt(path, [Node(id, Kids(a, mid', b))], free', n, z)
    {
      assert CoversAt(path, [Node(id, Kids(a, mid, b))], free, n, z);
      SumCount(path, id, a, mid, b, free, n, z);
      SumCount(path, id, a, mid', b, free', n, z);
    }
  }

  /** Two siblings are replaced by two on the same pages with the same entries between them. */
  lemma {:induction false} RewriteTwo(pages: PageMap, pages': PageMap, path: Path, face: Face, a: seq<Tree>, x: Tree,
                                      y: Tree, b: seq<Tree>, x': Tree, y': Tree, h: nat, c: Caps, head: Ref,
                                      free: seq<nat>, n: nat, target: seq<Entry>)
    returns (t: Tree)
    requires Siblings(pages, path, face, a, x, y, b, h, c, head, free, n, target)
    requires Same(pages, pages', {face.id, x.id, y.id})
    requires x'.id == x.id && y'.id == y.id && First(x') == First(x)
    requires Holds(pages', x', Some(First(y'))) && Holds(pages', y', Head(b, NextOf(path)))
    requires Good(x', h, c) && Filled(x', c) && Good(y', h, c) && Filled(y', c)
    requires Contents(x') + Contents(y') == Contents(x) + Contents(y)
    requires forall z :: Count(x', z) + Count(y', z) == Count(x, z) + Count(y, z)
    requires face.id in pages' && pages'[face.id] == InternalOf(Kids(a, [x', y'], b))
    ensures t == Node(face.id, Kids(a, [x', y'], b))
    ensures Settled(pages', path, face, t, h + 1, c, head, free, n, target)
    ensures if path == [] then |t.kids| >= 2 else Filled(t, c)
  {
    t := Node(face.id, Kids(a, [x', y'], b));
    var w := {face.id, x.id, y.id};
    SiblingsApart(path, face.id, a, x, y, b, free, n);
    HoldsConcat(pages', [x'], [y'], Head(b, NextOf(path)));
    HoldsOne(pages', x', Some(First(y')));
    HoldsOne(pages', y', Head(b, NextOf(path)));
    assert [x'] + [y'] == [x', y'];
    ParentFits(pages, pages', w, path, face, a, [x', y'], b, First(x), h, c);
    forall z
      ensures CountOf([x', y'], z) + FreeCount(free, z) == CountOf([x, y], z) + FreeCount(free, z)
    {
      TwoCount(x, y, z);
      TwoCount(x', y', z);
    }
    CoversShift(path, face.id, a, [x, y], [x', y'], b, free, free, n);
    ChainFrame(pages, pages', w, head, free);
    TwoContents(x, y);
    TwoContents(x', y');
    KidsContents(a, [x, y], b);
    KidsContents(a, [x', y'], b);
  }

  lemma {:induction false} MergeCovers(path: Path, id: nat, a: seq<Tree>, x: Tree, y: Tree, m: Tree, b: seq<Tree>,
                                       free: seq<nat>, n: nat)
    requires Covers(path, [Node(id, Kids(a, [x, y], b))], free, n)
    requires forall z :: Count(m, z) + (if y.id == z then 1 else 0) == Count(x, z) + Count(y, z)
    ensures Covers(path, [Node(id, Kids(a, [m], b))], [y.id] + free, n)
  {
    assert ([y.id] + free)[1..] == free;
    forall z
      ensures CountOf([m], z) + FreeCount([y.id] + free, z) == CountOf([x, y], z) + FreeCount(free, z)
    {
      TwoCount(x, y, z);
      assert CountOf([m], z) == Count(m, z) + CountOf([], z);
    }
    CoversShift(path, id, a, [x, y], [m], b, free, [y.id] + free, n);
  }

  lemma {:induction false} MergeContents(a: seq<Tree>, x: Tree, y: Tree, m: Tree, b: seq<Tree>)
    requires Contents(m) == Contents(x) + Contents(y)
    ensures ContentsOf(Kids(a, [m], b)) == ContentsOf(Kids(a, [x, y], b))
  {
    TwoContents(x, y);
    assert ContentsOf([m]) == Contents(m) + ContentsOf([]);
    KidsContents(a, [x, y], b);
    KidsContents(a, [m], b);
  }

  /** Two siblings are merged onto the page of the first, and the page of the second is freed. */
  lemma {:induction false} RewriteOne(pages: PageMap, pages': PageMap, path: Path, face: Face, a: seq<Tree>, x: Tree,
                                      y: Tree, b: seq<Tree>, m: Tree, h: nat, c: Caps, head: Ref, free: seq<nat>,
                                      n: nat, target: seq<Entry>)
    returns (t: Tree)
    requires Siblings(pages, path, face, a, x, y, b, h, c, head, free, n, target)
    requires Same(pages, pages', {face.id, x.id, y.id})
    requires m.id == x.id && First(m) == First(x)
    requires Holds(pages', m, Head(b, NextOf(path)))
    requires Good(m, h, c) && Filled(m, c)
    requires Contents(m) == Contents(x) + Contents(y)
    requires forall z :: Count(m, z) + (if y.id == z then 1 else 0) == Count(x, z) + Count(y, z)
    requires face.id in pages' && pages'[face.id] == InternalOf(Kids(a, [m], b))
    requires y.id in pages' && pages'[y.id] == FreePage(head)
    ensures t == Node(face.id, Kids(a, [m], b))
    ensures Settled(pages', path, face, t, h + 1, c, Some(y.id), [y.id] + free, n, target)
    ensures |t.kids| == |a| + 1 + |b|
  {
    t := Node(face.id, Kids(a, [m], b));
    var w := {face.id, x.id, y.id};
    SiblingsApart(path, face.id, a, x, y, b, free, n);
    HoldsOne(pages', m, Head(b, NextOf(path)));
    ParentFits(pages, pages', w, path, face, a, [m], b, First(x), h, c);
    MergeCovers(path, face.id, a, x, y, m, b, free, n);
    MergeContents(a, x, y, m, b);
    ChainFrame(pages, pages', w, head, free);
    assert ([y.id] + free)[1..] == free;
  }

  /** A child of a subtree that fits the path passes its checks. */
  lemma {:induction false} KidSafe(path: Path, t: Tree, i: nat, h: nat, c: Caps, free: seq<nat>, n: nat,
                                   target: seq<Entry>, unique: bool)
    requires c.Usable() && Good(t, h + 1, c) && t.Node? && i < |t.kids|
    requires Covers(path, [t], free, n)
    requires Before(path) + Contents(t) + After(path) == target && Ordered(target, unique)
    ensures WellBuilt(t.kids[i].id, TopPage(t.kids[i], Head(t.kids[i + 1..], NextOf(path))), c)
  {
    var path', k := path + [ChildFrame(t, i)], t.kids[i];
    StepDown(path, t, i);
    RebuildContents(path, t);
    RebuildContents(path', k);
    forall x
      ensures CoversAt(path', [k], free, n, x)
    {
      assert CoversAt(path, [t], free, n, x);
      RebuildCount(path, t, x);
      RebuildCount(path', k, x);
      assert CountOf([t], x) == Count(t, x) + CountOf([], x);
      assert CountOf([k], x) == Count(k, x) + CountOf([], x);
    }
    SafeWrite(path', k, h, c, free, n, target, unique);
  }

  /** All that is written by rewriting two siblings and their parent. */
  ghost function PairPages(pages: PageMap, id: nat, a: seq<Tree>, x: Tree, y: Tree, b: seq<Tree>, next: Ref): PageMap
    requires (x.Node? ==> x.kids != []) && (y.Node? ==> y.kids != [])
  {
    pages[x.id := TopPage(x, Some(First(y)))][y.id := TopPage(y, Head(b, next))][id := InternalOf(Kids(a, [x, y], b))]
  }

  lemma {:induction false} NodePairHolds(pages: PageMap, path: Path, face: Face, a: seq<Tree>, x: Tree, y: Tree,
                                         b: seq<Tree>, x': Tree, y': Tree, h: nat, c: Caps, head: Ref, free: seq<nat>,
                                         n: nat, target: seq<Entry>)
    requires Siblings(pages, path, face, a, x, y, b, h, c, head, free, n, target)
    requires x.Node? && y.Node? && Holds(pages, x, Some(First(y))) && Holds(pages, y, Head(b, NextOf(path)))
    requires x'.Node? && y'.Node? && x'.id == x.id && y'.id == y.id
    requires x'.kids != [] && y'.kids != [] && x'.kids + y'.kids == x.kids + y.kids
    ensures var pages' := PairPages(pages, face.id, a, x', y', b, NextOf(path));
            Holds(pages', x', Some(First(y'))) && Holds(pages', y', Head(b, NextOf(path)))
  {
    var w, nx := {face.id, x.id, y.id}, Head(b, NextOf(path));
    var pages' := PairPages(pages, face.id, a, x', y', b, NextOf(path));
    SiblingsApart(path, face.id, a, x, y, b, free, n);
    HoldsOfFrame(pages, pages', w, x.kids, Some(First(y)));
    HoldsOfFrame(pages, pages', w, y.kids, nx);
    HoldsConcat(pages', x.kids, y.kids, nx);
    HoldsConcat(pages', x'.kids, y'.kids, nx);
  }

  lemma {:induction false} NodePairKeeps(x: Tree, y: Tree, x': Tree, y': Tree)
    requires x.Node? && y.Node? && x'.Node? && y'.Node? && x'.id == x.id && y'.id == y.id
    requires x'.kids + y'.kids == x.kids + y.kids
    ensures Contents(x') + Contents(y') == Contents(x) + Contents(y)
    ensures forall z :: Count(x', z) + Count(y', z) == Count(x, z) + Count(y, z)
  {
    ContentsConcat(x.kids, y.kids);
    ContentsConcat(x'.kids, y'.kids);
    forall z
      ensures Count(x', z) + Count(y', z) == Count(x, z) + Count(y, z)
    {
      CountConcat(x.kids, y.kids, z);
      CountConcat(x'.kids, y'.kids, z);
    }
  }

  /** Two internal siblings share out their children anew. */
  lemma {:induction false} ShareNodes(pages: PageMap, path: Path, face: Face, a: seq<Tree>, x: Tree, y: Tree,
                                      b: seq<Tree>, x': Tree, y': Tree, h: nat, c: Caps, head: Ref, free: seq<nat>,
                                      n: nat, target: seq<Entry>)
    returns (t: Tree)
    requires Siblings(pages, path, face, a, x, y, b, h, c, head, free, n, target)
    requires x.Node? && y.Node? && Holds(pages, x, Some(First(y))) && Holds(pages, y, Head(b, NextOf(path)))
    requires x'.Node? && y'.Node? && x'.id == x.id && y'.id == y.id
    requires Good(x', h, c) && Filled(x', c) && Good(y', h, c) && Filled(y', c)
    requires x.kids != [] && x'.kids[0] == x.kids[0] && x'.kids + y'.kids == x.kids + y.kids
    ensures t == Node(face.id, Kids(a, [x', y'], b))
    ensures Settled(PairPages(pages, face.id, a, x', y', b, NextOf(path)), path, face, t, h + 1, c, head, free, n,
                    target)
    ensures if path == [] then |t.kids| >= 2 else Filled(t, c)
  {
    NodePairHolds(pages, path, face, a, x, y, b, x', y', h, c, head, free, n, target);
    NodePairKeeps(x, y, x', y');
    var pages' := PairPages(pages, face.id, a, x', y', b, NextOf(path));
    SiblingsApart(path, face.id, a, x, y, b, free, n);
    t := RewriteTwo(pages, pages', path, face, a, x, y, b, x', y', h, c, head, free, n, target);
  }

  /** Two leaves share out their entries anew. */
  lemma {:induction false} ShareLeaves(pages: PageMap, path: Path, face: Face, a: seq<Tree>, x: Tree, y: Tree,
                                       b: seq<Tree>, x': Tree, y': Tree, c: Caps, head: Ref, free: seq<nat>, n: nat,
                                       target: seq<Entry>)
    returns (t: Tree)
    requires Siblings(pages, path, face, a, x, y, b, 1, c, head, free, n, target)
    requires x.Leaf? && y.Leaf? && x'.Leaf? && y'.Leaf? && x'.id == x.id && y'.id == y.id
    requires Good(x', 1, c) && Filled(x', c) && Good(y', 1, c) && Filled(y', c)
    requires x'.es + y'.es == x.es + y.es
    ensures t == Node(face.id, Kids(a, [x', y'], b))
    ensures Settled(PairPages(pages, face.id, a, x', y', b, NextOf(path)), path, face, t, 2, c, head, free, n, target)
    ensures if path == [] then |t.kids| >= 2 else Filled(t, c)
  {
    var pages' := PairPages(pages, face.id, a, x', y', b, NextOf(path));
    SiblingsApart(path, face.id, a, x, y, b, free, n);
    t := RewriteTwo(pages, pages', path, face, a, x, y, b, x', y', 1, c, head, free, n, target);
  }

  /** All that is written by merging two siblings onto the page of the first. */
  ghost function MergePages(pages: PageMap, id: nat, a: seq<Tree>, m: Tree, gone: nat, b: seq<Tree>, next: Ref,
                            head: Ref): PageMap
    requires m.Node? ==> m.kids != []
  {
    pages[m.id := TopPage(m, Head(b, next))][gone := FreePage(head)][id := InternalOf(Kids(a, [m], b))]
  }

  lemma {:induction false} MergeLeaves(pages: PageMap, path: Path, face: Face, a: seq<Tree>, x: Tree, y: Tree,
                                       b: seq<Tree>, c: Caps, head: Ref, free: seq<nat>, n: nat, target: seq<Entry>)
    returns (t: Tree)
    requires Siblings(pages, path, face, a, x, y, b, 1, c, head, free, n, target)
    requires x.Leaf? && y.Leaf? && c.MinLeaf() <= |x.es| + |y.es| <= c.leaf
    ensures var m := Leaf(x.id, x.es + y.es);
            && t == Node(face.id, Kids(a, [m], b)) && |t.kids| == |a| + 1 + |b|
            && Settled(MergePages(pages, face.id, a, m, y.id, b, NextOf(path), head), path, face, t, 2, c,
                       Some(y.id), [y.id] + free, n, target)
  {
    var m := Leaf(x.id, x.es + y.es);
    var pages' := MergePages(pages, face.id, a, m, y.id, b, NextOf(path), head);
    SiblingsApart(path, face.id, a, x, y, b, free, n);
    t := RewriteOne(pages, pages', path, face, a, x, y, b, m, 1, c, head, free, n, target);
  }

  lemma {:induction false} NodeMergeHolds(pages: PageMap, path: Path, face: Face, a: seq<Tree>, x: Tree, y: Tree,
                                          b: seq<Tree>, h: nat, c: Caps, head: Ref, free: seq<nat>, n: nat,
                                          target: seq<Entry>)
    requires Siblings(pages, path, face, a, x, y, b, h, c, head, free, n, target)
    requires x.Node? && y.Node? && Holds(pages, x, Some(First(y))) && Holds(pages, y, Head(b, NextOf(path)))
    ensures var m := Node(x.id, x.kids + y.kids);
            Holds(MergePages(pages, face.id, a, m, y.id, b, NextOf(path), head), m, Head(b, NextOf(path)))
  {
    var w, nx := {face.id, x.id, y.id}, Head(b, NextOf(path));
    var pages' := MergePages(pages, face.id, a, Node(x.id, x.kids + y.kids), y.id, b, NextOf(path), head);
    SiblingsApart(path, face.id, a, x, y, b, free, n);
    HoldsOfFrame(pages, pages', w, x.kids, Some(First(y)));
    HoldsOfFrame(pages, pages', w, y.kids, nx);
    HoldsConcat(pages', x.kids, y.kids, nx);
  }

  lemma {:induction false} MergeNodes(pages: PageMap, path: Path, face: Face, a: seq<Tree>, x: Tree, y: Tree,
                                      b: seq<Tree>, h: nat, c: Caps, head: Ref, free: seq<nat>, n: nat,
                                      target: seq<Entry>)
    returns (t: Tree)
    requires Siblings(pages, path, face, a, x, y, b, h, c, head, free, n, target)
    requires x.Node? && y.Node? && Holds(pages, x, Some(First(y))) && Holds(pages, y, Head(b, NextOf(path)))
    requires Good(x, h, c) && Good(y, h, c) && c.MinInternal() + 1 <= |x.kids| + |y.kids| <= c.internal + 1
    ensures var m := Node(x.id, x.kids + y.kids);
            && t == Node(face.id, Kids(a, [m], b)) && |t.kids| == |a| + 1 + |b|
            && Settled(MergePages(pages, face.id, a, m, y.id, b, NextOf(path), head), path, face, t, h + 1, c,
                       Some(y.id), [y.id] + free, n, target)
  {
    var m := Node(x.id, x.kids + y.kids);
    var pages' := MergePages(pages, face.id, a, m, y.id, b, NextOf(path), head);
    NodeMergeHolds(pages, path, face, a, x, y, b, h, c, head, free, n, target);
    NodeMergeKeeps(x, y, m);
    SiblingsApart(path, face.id, a, x, y, b, free, n);
    t := RewriteOne(pages, pages', path, face, a, x, y, b, m, h, c, head, free, n, target);
  }

  lemma {:induction false} NodeMergeKeeps(x: Tree, y: Tree, m: Tree)
    requires x.Node? && y.Node? && m == Node(x.id, x.kids + y.kids)
    ensures Contents(m) == Contents(x) + Contents(y)
    ensures forall z :: Count(m, z) + (if y.id == z then 1 else 0) == Count(x, z) + Count(y, z)
  {
    ContentsConcat(x.kids, y.kids);
    forall z
      ensures Count(m, z) + (if y.id == z then 1 else 0) == Count(x, z) + Count(y, z)
    {
      CountConcat(x.kids, y.kids, z);
    }
  }
}
