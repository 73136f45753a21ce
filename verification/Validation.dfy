/** The structure check: it accepts exactly the well-formed indexes, whatever the pages hold. */
module Validation {
  import opened Entries
  import opened Trees
  import opened Pages
  import opened Paths
  import opened Headers
  import opened Reads
  import opened Surveys

  function ReadNode(pages: PageMap, c: Caps, id: nat): Option<Page> {
    if id in pages && Decodes(id, pages[id], c) then Just(pages[id]) else Nothing
  }

  /** A subtree was accepted: it is t, on pages that were not met before. */
  ghost predicate Certified(pages: PageMap, t: Tree, page: nat, height: nat, isRoot: bool, n: nat, c: Caps,
                            unique: bool, a: Survey, b: Survey) {
    t.id == page && Sound(pages, t, height, isRoot, n, c, unique) && Clear(t, a.live) && Surveyed(pages, t, a, b)
  }

  /** A subtree u that should be accepted. */
  ghost predicate Awaited(pages: PageMap, u: Tree, page: nat, height: nat, isRoot: bool, n: nat, c: Caps, unique: bool,
                          a: Survey) {
    u.id == page && Sound(pages, u, height, isRoot, n, c, unique) && Clear(u, a.live)
  }

  ghost predicate CertifiedAll(pages: PageMap, ts: seq<Tree>, ids: seq<nat>, height: nat, n: nat, c: Caps, unique: bool,
                               a: Survey, b: Survey) {
    KidIds(ts) == ids && SoundAll(pages, ts, height, n, c, unique) && ClearOf(ts, a.live) && SurveyedOf(pages, ts, a, b)
  }

  ghost predicate AwaitedAll(pages: PageMap, us: seq<Tree>, ids: seq<nat>, height: nat, n: nat, c: Caps, unique: bool,
                             a: Survey) {
    KidIds(us) == ids && SoundAll(pages, us, height, n, c, unique) && ClearOf(us, a.live)
  }

  /** Every separator is the least key to its right, and ranges neither overlap nor share a key of a unique index. */
  method SeparatorsHold(keys: seq<Key>, ranges: seq<(Entry, Entry)>, unique: bool) returns (ok: bool)
    requires |ranges| == |keys| + 1
    ensures ok <==> Boundaries(ranges, unique) && forall i :: 0 <= i < |keys| ==> keys[i] == ranges[i + 1].0.key
  {
    var i := 0;
    while i < |keys|
      invariant i <= |keys|
      invariant forall j :: 0 <= j < i ==> Boundary(ranges[j].1, ranges[j + 1].0, unique)
      invariant forall j :: 0 <= j < i ==> keys[j] == ranges[j + 1].0.key
    {
      var last, first := ranges[i].1, ranges[i + 1].0;
      if keys[i] != first.key || !Less(last, first) || (unique && last.key == first.key) {
        assert !Boundary(ranges[i].1, ranges[i + 1].0, unique) || keys[i] != ranges[i + 1].0.key;
        return false;
      }
      i := i + 1;
    }
    ok := true;
  }

  lemma {:induction false} MinsOfEnds(ts: seq<Tree>, ranges: seq<(Entry, Entry)>, h: nat, c: Caps, i: nat)
    requires c.Usable() && GoodAll(ts, h, c) && Ends(ranges, ts) && i < |ts|
    ensures Mins(ts)[i] == ranges[i].0.key
  {
    GoodContents(ts[i], h, c);
  }

  /** Accepted children under a checked page make an accepted node. */
  lemma {:induction false} NodeCertified(pages: PageMap, page: nat, ts: seq<Tree>, ranges: seq<(Entry, Entry)>,
                                         height: nat, isRoot: bool, n: nat, c: Caps, unique: bool, a: Survey, b: Survey,
                                         d: Survey)
    requires c.Usable() && page in pages && Decodes(page, pages[page], c) && pages[page].InternalPage?
    requires 1 <= page <= n && height >= 1
    requires |pages[page].keys| >= if isRoot then 1 else c.MinInternal()
    requires page !in a.live && b.live == a.live + {page} && b.leaves == a.leaves
    requires b.internals == a.internals + 1 && b.observed == a.observed
    requires CertifiedAll(pages, ts, pages[page].children, height, n, c, unique, b, d)
    requires Ends(ranges, ts) && Boundaries(ranges, unique)
    requires forall i :: 0 <= i < |pages[page].keys| ==> pages[page].keys[i] == ranges[i + 1].0.key
    ensures Certified(pages, Node(page, ts), page, height + 1, isRoot, n, c, unique, a, d)
    ensures Contents(Node(page, ts)) != []
    ensures FirstEntry(Node(page, ts)) == ranges[0].0 && LastEntry(Node(page, ts)) == ranges[|ranges| - 1].1
  {
    var t, p := Node(page, ts), pages[page];
    assert |ts| == |p.children| == |p.keys| + 1;
    assert GoodAll(ts, height, c);
    forall i | 0 <= i < |p.keys|
      ensures p.keys[i] == Mins(ts)[1..][i]
    {
      MinsOfEnds(ts, ranges, height, c, i + 1);
    }
    assert p.keys == Mins(ts)[1..];
    assert p == InternalOf(ts);
    KidsOrdered(ts, ranges, unique);
    forall x: nat
      ensures AtMostOnce(Count(t, x), x, n)
      ensures Count(t, x) >= 1 ==> x !in a.live
      ensures x in d.live <==> x in a.live || Count(t, x) >= 1
    {
      assert Count(t, x) == (if page == x then 1 else 0) + CountOf(ts, x);
      assert AtMostOnce(CountOf(ts, x), x, n);
    }
  }

  /** The children of an awaited node are awaited. */
  lemma {:induction false} NodeAwaited(pages: PageMap, u: Tree, page: nat, height: nat, isRoot: bool, n: nat, c: Caps,
                                       unique: bool, a: Survey, b: Survey)
    requires c.Usable() && height >= 1
    requires Awaited(pages, u, page, height + 1, isRoot, n, c, unique, a) && u.Node? && b.live == a.live + {page}
    ensures page in pages && pages[page] == InternalOf(u.kids)
    ensures |u.kids| - 1 >= (if isRoot then 1 else c.MinInternal())
    ensures AwaitedAll(pages, u.kids, KidIds(u.kids), height, n, c, unique, b)
  {
    forall i | 0 <= i < |u.kids|
      ensures Sound(pages, u.kids[i], height, false, n, c, unique)
    {
      KidOrdered(u.kids, i, unique);
      forall x: nat
        ensures AtMostOnce(Count(u.kids[i], x), x, n)
      {
        KidCounts(u.kids, i, x);
        assert AtMostOnce(Count(u, x), x, n);
      }
    }
    forall x: nat
      ensures AtMostOnce(CountOf(u.kids, x), x, n)
      ensures CountOf(u.kids, x) >= 1 ==> x !in b.live
    {
      assert AtMostOnce(Count(u, x), x, n);
    }
  }

  /** The separators of an awaited node pass. */
  lemma {:induction false} NodePasses(pages: PageMap, u: Tree, page: nat, ranges: seq<(Entry, Entry)>, height: nat,
                                      isRoot: bool, n: nat, c: Caps, unique: bool, a: Survey)
    requires c.Usable() && height >= 1 && Awaited(pages, u, page, height + 1, isRoot, n, c, unique, a) && u.Node?
    requires Ends(ranges, u.kids)
    ensures Boundaries(ranges, unique)
    ensures page in pages && pages[page].InternalPage? && |pages[page].keys| + 1 == |ranges|
    ensures forall i :: 0 <= i < |pages[page].keys| ==> pages[page].keys[i] == ranges[i + 1].0.key
  {
    forall i | 0 <= i < |ranges| - 1
      ensures Boundary(ranges[i].1, ranges[i + 1].0, unique)
    {
      BoundaryHolds(u.kids, ranges, unique, i);
    }
    forall i | 0 <= i < |u.kids| - 1
      ensures InternalOf(u.kids).keys[i] == ranges[i + 1].0.key
    {
      MinsOfEnds(u.kids, ranges, height, c, i + 1);
    }
  }

  lemma {:induction false} LeafCertified(pages: PageMap, page: nat, isRoot: bool, n: nat, c: Caps, unique: bool,
                                         a: Survey, b: Survey)
    requires c.Usable() && page in pages && Decodes(page, pages[page], c) && pages[page].LeafPage? && 1 <= page <= n
    requires pages[page].es != [] && (isRoot || |pages[page].es| >= c.MinLeaf())
    requires (unique ==> NoEqualNeighbours(pages[page].es))
    requires page !in a.live && b.live == a.live + {page} && b.leaves == a.leaves + [LeafImage(page, pages[page].next)]
    requires b.internals == a.internals && b.observed == a.observed + |pages[page].es|
    ensures Certified(pages, Leaf(page, pages[page].es), page, 1, isRoot, n, c, unique, a, b)
  {
    var t := Leaf(page, pages[page].es);
    ClimbsIsSorted(t.es);
    if unique {
      NeighboursDistinct(t.es);
    }
    assert forall x: nat :: AtMostOnce(Count(t, x), x, n);
    assert LeafImages(pages, t) == [LeafImage(page, pages[page].next)];
  }

  lemma {:induction false} NeighboursDistinct(es: seq<Entry>)
    requires Sorted(es) && NoEqualNeighbours(es)
    ensures DistinctKeys(es)
  {
    forall i, j
      ensures KeyRises(es, i, j)
    {
      if 0 <= i < j < |es| {
        assert Rises(es, i, i + 1) && Rises(es, i + 1, j);
      }
    }
  }

  /** Visits one subtree. u is the tree it should be, if the index is well formed. */
  method Visit(pages: PageMap, h: Header, c: Caps, unique: bool, page: nat, depth: nat, isRoot: bool, sv: Survey,
               ghost u: Tree)
    returns (r: Option<(Entry, Entry)>, sv': Survey, ghost t: Tree)
    requires c.Usable() && 1 <= depth <= h.height
    ensures r.Just? ==>
              && Certified(pages, t, page, h.height - depth + 1, isRoot, h.pageCount, c, unique, sv, sv')
              && Contents(t) != [] && r.value == (FirstEntry(t), LastEntry(t))
    ensures Awaited(pages, u, page, h.height - depth + 1, isRoot, h.pageCount, c, unique, sv) ==> r.Just? && t == u
    decreases h.height - depth, 0
  {
    r, sv', t := Nothing, sv, u;
    ghost var awaited := Awaited(pages, u, page, h.height - depth + 1, isRoot, h.pageCount, c, unique, sv);
    if awaited {
      AwaitedTop(pages, u, page, h.height - depth + 1, isRoot, h.pageCount, c, unique, sv);
    }
    if !(1 <= page <= h.pageCount) || page in sv.live {
      return;
    }
    var node := ReadNode(pages, c, page);
    if node == Nothing || node.value.FreePage? {
      return;
    }
    if node.value.LeafPage? {
      var es := node.value.es;
      if depth != h.height || es == [] || (!isRoot && |es| < c.MinLeaf()) || (unique && !NoEqualNeighbours(es)) {
        return;
      }
      sv' := Survey(sv.live + {page}, sv.leaves + [LeafImage(page, node.value.next)], sv.internals, sv.observed + |es|);
      LeafCertified(pages, page, isRoot, h.pageCount, c, unique, sv, sv');
      t := Leaf(page, es);
      return Just((es[0], es[|es| - 1])), sv', t;
    }
    if depth >= h.height || |node.value.keys| < (if isRoot then 1 else c.MinInternal()) {
      return;
    }
    r, sv', t := VisitNode(pages, h, c, unique, page, node.value.keys, node.value.children, depth, isRoot, sv, u);
  }

  /** What the page of an awaited subtree must look like. */
  lemma {:induction false} AwaitedTop(pages: PageMap, u: Tree, page: nat, height: nat, isRoot: bool, n: nat, c: Caps,
                                      unique: bool, a: Survey)
    requires c.Usable() && Awaited(pages, u, page, height, isRoot, n, c, unique, a)
    ensures u.id == page && 1 <= page <= n && page !in a.live && page in pages && Decodes(page, pages[page], c)
    ensures u.Leaf? ==> height == 1 && pages[page].LeafPage? && pages[page].es == u.es && u.es != []
                        && (isRoot || |u.es| >= c.MinLeaf()) && (unique ==> NoEqualNeighbours(u.es))
    ensures u.Node? ==>
              && height >= 2 && pages[page] == InternalOf(u.kids)
              && |u.kids| - 1 >= if isRoot then 1 else c.MinInternal()
  {
    assert Count(u, page) >= 1;
    assert AtMostOnce(Count(u, page), page, n);
    if u.Leaf? && unique {
      DistinctNeighbours(u.es);
    }
  }

  /** The children that a visit of an internal node may expect. */
  lemma {:induction false} Expected(pages: PageMap, u: Tree, page: nat, keys: seq<Key>, children: seq<nat>,
                                    height: nat, isRoot: bool, n: nat, c: Caps, unique: bool, a: Survey, b: Survey)
    returns (us: seq<Tree>)
    requires c.Usable() && height >= 1 && page in pages && pages[page] == InternalPage(keys, children)
    requires b == a.(live := a.live + {page}, internals := a.internals + 1)
    ensures Awaited(pages, u, page, height + 1, isRoot, n, c, unique, a) ==>
              u == Node(page, us) && AwaitedAll(pages, us, children, height, n, c, unique, b)
  {
    us := if u.Node? then u.kids else [];
    if Awaited(pages, u, page, height + 1, isRoot, n, c, unique, a) {
      AwaitedTop(pages, u, page, height + 1, isRoot, n, c, unique, a);
      NodeAwaited(pages, u, page, height, isRoot, n, c, unique, a, b);
    }
  }

  /** Visits the children of an internal node and checks its separators. */
  method VisitNode(pages: PageMap, h: Header, c: Caps, unique: bool, page: nat, keys: seq<Key>, children: seq<nat>,
                   depth: nat, isRoot: bool, sv: Survey, ghost u: Tree)
    returns (r: Option<(Entry, Entry)>, sv': Survey, ghost t: Tree)
    requires c.Usable() && 1 <= depth < h.height && 1 <= page <= h.pageCount && page !in sv.live
    requires page in pages && Decodes(page, pages[page], c) && pages[page] == InternalPage(keys, children)
    requires |keys| >= if isRoot then 1 else c.MinInternal()
    ensures r.Just? ==>
              && Certified(pages, t, page, h.height - depth + 1, isRoot, h.pageCount, c, unique, sv, sv')
              && Contents(t) != [] && r.value == (FirstEntry(t), LastEntry(t))
    ensures Awaited(pages, u, page, h.height - depth + 1, isRoot, h.pageCount, c, unique, sv) ==> r.Just? && t == u
    decreases h.height - depth - 1, 2
  {
    assert |children| == |keys| + 1;
    hide Awaited, AwaitedAll, CertifiedAll, Certified, Decodes;
    ghost var below := h.height - depth;
    ghost var awaited := Awaited(pages, u, page, below + 1, isRoot, h.pageCount, c, unique, sv);
    var sv1 := sv.(live := sv.live + {page}, internals := sv.internals + 1);
    ghost var us := Expected(pages, u, page, keys, children, below, isRoot, h.pageCount, c, unique, sv, sv1);
    var ranges;
    ghost var ts;
    ranges, sv', ts := VisitChildren(pages, h, c, unique, children, depth + 1, sv1, us);
    t := Node(page, ts);
    if ranges == Nothing {
      return Nothing, sv', t;
    }
    if awaited {
      NodePasses(pages, u, page, ranges.value, below, isRoot, h.pageCount, c, unique, sv);
    }
    var ok := SeparatorsHold(keys, ranges.value, unique);
    if !ok {
      return Nothing, sv', t;
    }
    NodeCertified(pages, page, ts, ranges.value, below, isRoot, h.pageCount, c, unique, sv, sv1, sv');
    r := Just((ranges.value[0].0, ranges.value[|ranges.value| - 1].1));
  }

  /** Visits a list of children in order. */
  method VisitChildren(pages: PageMap, h: Header, c: Caps, unique: bool, children: seq<nat>, depth: nat, sv: Survey,
                       ghost us: seq<Tree>)
    returns (r: Option<seq<(Entry, Entry)>>, sv': Survey, ghost ts: seq<Tree>)
    requires c.Usable() && 1 <= depth <= h.height
    ensures r.Just? ==>
              && CertifiedAll(pages, ts, children, h.height - depth + 1, h.pageCount, c, unique, sv, sv')
              && |r.value| == |children| && Ends(r.value, ts)
    ensures AwaitedAll(pages, us, children, h.height - depth + 1, h.pageCount, c, unique, sv) ==> r.Just? && ts == us
    decreases h.height - depth, 1
  {
    var ranges: seq<(Entry, Entry)> := [];
    sv', ts := sv, [];
    ghost var height, n := h.height - depth + 1, h.pageCount;
    ghost var awaited := AwaitedAll(pages, us, children, height, n, c, unique, sv);
    NoChildren(pages, height, n, c, unique, sv);
    var i := 0;
    while i < |children|
      invariant i <= |children| && CertifiedAll(pages, ts, children[..i], height, n, c, unique, sv, sv')
      invariant Ends(ranges, ts) && |ts| == i
      invariant awaited ==> |us| == |children| && ts == us[..i]
    {
      ghost var u := if awaited then us[i] else Leaf(0, []);
      if awaited {
        ChildAwaited(pages, us, children, i, height, n, c, unique, sv, sv');
      }
      hide AwaitedAll, CertifiedAll, Certified, Awaited;
      ghost var before := sv';
      var range;
      ghost var t;
      range, sv', t := Visit(pages, h, c, unique, children[i], depth, false, sv', u);
      if range == Nothing {
        return Nothing, sv', ts;
      }
      ChildCertified(pages, ts, t, children, i, height, n, c, unique, sv, before, sv');
      ts, ranges := ts + [t], ranges + [range.value];
      i := i + 1;
    }
    assert children[..i] == children;
    r := Just(ranges);
  }

  lemma {:induction false} NoChildren(pages: PageMap, height: nat, n: nat, c: Caps, unique: bool, a: Survey)
    requires c.Usable()
    ensures CertifiedAll(pages, [], [], height, n, c, unique, a, a)
  {
    assert forall x: nat :: AtMostOnce(CountOf([], x), x, n);
  }

  lemma {:induction false} ChildAwaited(pages: PageMap, us: seq<Tree>, ids: seq<nat>, i: nat, height: nat, n: nat,
                                        c: Caps, unique: bool, a: Survey, b: Survey)
    requires AwaitedAll(pages, us, ids, height, n, c, unique, a) && i < |ids|
    requires CertifiedAll(pages, us[..i], ids[..i], height, n, c, unique, a, b)
    ensures |us| == |ids| && Awaited(pages, us[i], ids[i], height, false, n, c, unique, b)
  {
    NextIsClear(pages, us, i, height, n, c, unique, a, b);
  }

  lemma {:induction false} ChildCertified(pages: PageMap, ts: seq<Tree>, t: Tree, ids: seq<nat>, i: nat, height: nat,
                                          n: nat, c: Caps, unique: bool, a: Survey, b: Survey, d: Survey)
    requires i < |ids| && CertifiedAll(pages, ts, ids[..i], height, n, c, unique, a, b)
    requires Certified(pages, t, ids[i], height, false, n, c, unique, b, d)
    ensures CertifiedAll(pages, ts + [t], ids[..i + 1], height, n, c, unique, a, d)
  {
    SurveyOneMore(pages, ts, t, height, n, c, unique, a, b, d);
    assert KidIds(ts + [t]) == KidIds(ts) + [t.id];
  }

  // The whole check.

  /** Header and pages describe a tree of this shape; nothing is said of the free list. */
  ghost predicate Describes(pages: PageMap, h: Header, s: Shape, c: Caps, unique: bool) {
    && c.Usable()
    && h.entryCount == |ShapeContents(s)|
    && Ordered(ShapeContents(s), unique)
    && (forall x: nat :: AtMostOnce(ShapeCount(s, x), x, h.pageCount))
    && match s
       case Empty => h.root == None && h.first == None && h.height == 0
       case Of(t) =>
         && h.root == Some(t.id)
         && h.first == Some(First(t))
         && GoodRoot(t, h.height, c)
         && Holds(pages, t, None)
         && Stored(pages, t, c)
  }

  ghost predicate LiveIn(live: set<nat>, s: Shape) {
    forall x: nat :: x in live <==> ShapeCount(s, x) >= 1
  }

  ghost function ImagesOf(pages: PageMap, s: Shape): seq<LeafImage> {
    if s.Empty? then [] else LeafImages(pages, s.tree)
  }

  ghost function InternalsIn(s: Shape): nat {
    if s.Empty? then 0 else Internals(s.tree)
  }

  method LinksInOrder(leaves: seq<LeafImage>) returns (ok: bool)
    ensures ok <==> LinkedUp(leaves, None)
  {
    var i := 0;
    while i < |leaves|
      invariant i <= |leaves|
      invariant forall j :: 0 <= j < i ==> LinkAt(leaves, None, j)
    {
      if leaves[i].next != if i + 1 < |leaves| then Some(leaves[i + 1].id) else None {
        assert !LinkAt(leaves, None, i);
        return false;
      }
      i := i + 1;
    }
    ok := true;
  }

  /** A described tree is an awaited one. */
  lemma {:induction false} DescribedIsAwaited(pages: PageMap, h: Header, t: Tree, c: Caps, unique: bool)
    requires Describes(pages, h, Of(t), c, unique)
    ensures h.height >= 1
    ensures Awaited(pages, t, h.root.page, h.height, true, h.pageCount, c, unique, Survey({}, [], 0, 0))
    ensures LinkedUp(LeafImages(pages, t), None) && LeafImages(pages, t) != [] && LeafImages(pages, t)[0].id == First(t)
  {
    LinksHold(pages, t, None, c);
    ImagesStart(pages, t, c);
    forall x: nat
      ensures AtMostOnce(Count(t, x), x, h.pageCount)
    {
      assert AtMostOnce(ShapeCount(Of(t), x), x, h.pageCount);
    }
  }

  /** Checks the header against the child graph and the leaf chain. */
  method CheckTree(pages: PageMap, h: Header, c: Caps, unique: bool, ghost s0: Shape)
    returns (r: Option<Survey>, ghost s: Shape)
    requires c.Usable()
    ensures r.Just? ==>
              && Describes(pages, h, s, c, unique) && LiveIn(r.value.live, s)
              && r.value.leaves == ImagesOf(pages, s) && r.value.internals == InternalsIn(s)
              && r.value.observed == h.entryCount
    ensures Describes(pages, h, s0, c, unique) ==> r.Just? && s == s0
  {
    var none := Survey({}, [], 0, 0);
    r, s := Nothing, Empty;
    if h.entryCount == 0 {
      if Describes(pages, h, s0, c, unique) && s0.Of? {
        GoodContents(s0.tree, h.height, c);
      }
      if h.root == None && h.first == None && h.height == 0 {
        r := Just(none);
      }
      return;
    }
    ghost var u := if s0.Of? then s0.tree else Leaf(0, []);
    if Describes(pages, h, s0, c, unique) {
      DescribedIsAwaited(pages, h, u, c, unique);
    }
    if h.root == None || h.height == 0 {
      return;
    }
    var range, survey;
    ghost var t;
    range, survey, t := Visit(pages, h, c, unique, h.root.page, 1, true, none, u);
    if range == Nothing {
      return;
    }
    LinksHold(pages, t, None, c);
    ImagesStart(pages, t, c);
    assert survey.leaves == LeafImages(pages, t);
    s := Of(t);
    var linked := LinksInOrder(survey.leaves);
    if h.first == Some(survey.leaves[0].id) && linked && survey.observed == h.entryCount {
      forall x: nat
        ensures AtMostOnce(ShapeCount(s, x), x, h.pageCount)
      {
        assert AtMostOnce(Count(t, x), x, h.pageCount);
      }
      r := Just(survey);
    }
  }

  /** A stretch of the free list, from a reference to where it stops. */
  ghost predicate Stretch(pages: PageMap, head: Ref, fr: seq<nat>, end: Ref)
    decreases |fr|
  {
    if fr == [] then head == end
    else
      && head == Some(fr[0]) && fr[0] in pages && pages[fr[0]].FreePage?
      && Stretch(pages, pages[fr[0]].next, fr[1..], end)
  }

  lemma {:induction false} StretchMore(pages: PageMap, head: Ref, fr: seq<nat>, id: nat)
    requires Stretch(pages, head, fr, Some(id)) && id in pages && pages[id].FreePage?
    ensures Stretch(pages, head, fr + [id], pages[id].next)
    decreases |fr|
  {
    if fr != [] {
      StretchMore(pages, pages[fr[0]].next, fr[1..], id);
      assert (fr + [id])[1..] == fr[1..] + [id];
    }
  }

  lemma {:induction false} StretchIsChain(pages: PageMap, head: Ref, fr: seq<nat>)
    ensures Stretch(pages, head, fr, None) <==> Chain(pages, head, fr)
    decreases |fr|
  {
    if fr != [] && fr[0] in pages && pages[fr[0]].FreePage? {
      StretchIsChain(pages, pages[fr[0]].next, fr[1..]);
    }
  }

  lemma {:induction false} FreeCountMore(fr: seq<nat>, id: nat, x: nat)
    ensures FreeCount(fr + [id], x) == FreeCount(fr, x) + if id == x then 1 else 0
    decreases |fr|
  {
    if fr == [] {
      assert fr + [id] == [id];
      assert FreeCount([], x) == 0 && [id][1..] == [];
    } else {
      FreeCountMore(fr[1..], id, x);
      assert (fr + [id])[1..] == fr[1..] + [id];
    }
  }

  lemma {:induction false} FreeCountSplit(a: seq<nat>, b: seq<nat>, x: nat)
    ensures FreeCount(a + b, x) == FreeCount(a, x) + FreeCount(b, x)
    decreases |a|
  {
    if a == [] {
      assert a + b == b;
    } else {
      FreeCountSplit(a[1..], b, x);
      assert (a + b)[1..] == a[1..] + b;
    }
  }

  /** The free list covers exactly these pages, once each. */
  ghost predicate FreeIn(fr: seq<nat>, pages: set<nat>) {
    forall x: nat :: FreeCount(fr, x) == if x in pages then 1 else 0
  }

  /** A free list that the check should accept. */
  ghost predicate FreeAwaited(pages: PageMap, head: Ref, fr: seq<nat>, n: nat, live: set<nat>) {
    && Chain(pages, head, fr)
    && (forall x: nat :: AtMostOnce(FreeCount(fr, x), x, n))
    && (forall x: nat :: FreeCount(fr, x) >= 1 ==> x !in live && ReadableFree(pages, x))
  }

  ghost predicate ReadableFree(pages: PageMap, x: nat) {
    x in pages && x >= 1 && pages[x].FreePage? && pages[x].next != Some(x)
  }

  /** How far the check of the free list has come along the list it should accept. */
  ghost predicate Along(pages: PageMap, current: Ref, fr: seq<nat>, fr0: seq<nat>) {
    |fr| <= |fr0| && fr == fr0[..|fr|] && Chain(pages, current, fr0[|fr|..])
  }

  lemma {:induction false} AlongMore(pages: PageMap, current: Ref, fr: seq<nat>, fr0: seq<nat>, n: nat, live: set<nat>,
                                     head: Ref, seen: set<nat>)
    requires Along(pages, current, fr, fr0) && current.Some? && FreeAwaited(pages, head, fr0, n, live)
    requires FreeIn(fr, seen)
    ensures current.page !in live && current.page !in seen && 1 <= current.page <= n
    ensures ReadableFree(pages, current.page)
    ensures Along(pages, pages[current.page].next, fr + [current.page], fr0)
  {
    var rest := fr0[|fr|..];
    assert rest[0] == current.page && rest[1..] == fr0[|fr| + 1..];
    assert fr0 == fr + rest;
    FreeCountSplit(fr, rest, current.page);
    assert AtMostOnce(FreeCount(fr0, current.page), current.page, n);
  }

  /** Walks the free list. */
  method CheckFree(pages: PageMap, h: Header, c: Caps, live: set<nat>, ghost fr0: seq<nat>)
    returns (r: Option<set<nat>>, ghost fr: seq<nat>)
    ensures r.Just? ==> Chain(pages, h.freeHead, fr) && FreeIn(fr, r.value) && r.value !! live && |r.value| == |fr|
    ensures r.Just? ==> forall x :: x in r.value ==> 1 <= x <= h.pageCount
    ensures FreeAwaited(pages, h.freeHead, fr0, h.pageCount, live) ==> r.Just? && fr == fr0
  {
    ghost var awaited := FreeAwaited(pages, h.freeHead, fr0, h.pageCount, live);
    var seen: set<nat> := {};
    var current := h.freeHead;
    fr := [];
    while current != None
      invariant Stretch(pages, h.freeHead, fr, current) && FreeIn(fr, seen) && seen !! live && |seen| == |fr|
      invariant forall x :: x in seen ==> 1 <= x <= h.pageCount
      invariant awaited ==> Along(pages, current, fr, fr0)
      decreases h.pageCount - |seen|
    {
      var id := current.page;
      if awaited {
        AlongMore(pages, current, fr, fr0, h.pageCount, live, h.freeHead, seen);
      }
      if !(1 <= id <= h.pageCount) || id in live || id in seen {
        return Nothing, fr;
      }
      var node := ReadNode(pages, c, id);
      if node == Nothing || !node.value.FreePage? {
        return Nothing, fr;
      }
      StretchMore(pages, h.freeHead, fr, id);
      forall x: nat
        ensures FreeCount(fr + [id], x) == if x in seen + {id} then 1 else 0
      {
        FreeCountMore(fr, id, x);
      }
      SubsetOfRange(seen + {id}, h.pageCount);
      seen, fr, current := seen + {id}, fr + [id], node.value.next;
    }
    StretchIsChain(pages, h.freeHead, fr);
    r := Just(seen);
  }

  datatype Report = Report(height: nat, entries: nat, leaves: nat, internals: nat, frees: nat)

  ghost predicate ReportOf(r: Report, pages: PageMap, h: Header, s: Shape, free: seq<nat>) {
    r == Report(h.height, |ShapeContents(s)|, |ImagesOf(pages, s)|, InternalsIn(s), |free|)
  }

  /** Every node of a well-formed index is stored so that it can be read. */
  lemma {:induction false} AllStored(pages: PageMap, h: Header, s: Shape, free: seq<nat>, c: Caps, unique: bool,
                                     path: Path, t: Tree)
    requires WellFormed(pages, h, s, free, c, unique) && s.Of? && Rebuild(path, t) == s.tree
    ensures Stored(pages, t, c)
    decreases t
  {
    NodeDecodes(pages, h, s, free, c, unique, path, t);
    ReadsOnTheWay(pages, h, s, free, c, unique, path, t);
    if t.Node? {
      forall i | 0 <= i < |t.kids|
        ensures Stored(pages, t.kids[i], c)
      {
        StepDown(path, t, i);
        AllStored(pages, h, s, free, c, unique, path + [ChildFrame(t, i)], t.kids[i]);
      }
    }
  }

  lemma {:induction false} FreeReadable(pages: PageMap, head: Ref, free: seq<nat>, n: nat, x: nat)
    requires Chain(pages, head, free) && FreeCount(free, x) >= 1
    requires forall y: nat :: AtMostOnce(FreeCount(free, y), y, n)
    ensures ReadableFree(pages, x)
    decreases |free|
  {
    assert AtMostOnce(FreeCount(free, x), x, n) && AtMostOnce(FreeCount(free, free[0]), free[0], n);
    if free[0] == x {
      if pages[x].next.Some? {
        assert FreeCount(free[1..], pages[x].next.page) >= 1;
      }
    } else {
      assert forall y: nat :: AtMostOnce(FreeCount(free, y), y, n) ==> AtMostOnce(FreeCount(free[1..], y), y, n);
      FreeReadable(pages, pages[free[0]].next, free[1..], n, x);
    }
  }

  /** The check of a well-formed index has everything it looks for. */
  lemma {:induction false} WellFormedPasses(pages: PageMap, h: Header, s: Shape, free: seq<nat>, c: Caps, unique: bool,
                                            live: set<nat>)
    requires WellFormed(pages, h, s, free, c, unique)
    ensures Describes(pages, h, s, c, unique)
    ensures LiveIn(live, s) ==> FreeAwaited(pages, h.freeHead, free, h.pageCount, live)
  {
    forall x: nat
      ensures AtMostOnce(ShapeCount(s, x), x, h.pageCount) && AtMostOnce(FreeCount(free, x), x, h.pageCount)
      ensures FreeCount(free, x) >= 1 ==> ShapeCount(s, x) == 0
    {
      assert UsedOnce(s, free, h.pageCount, x);
    }
    forall x: nat | FreeCount(free, x) >= 1
      ensures ReadableFree(pages, x)
    {
      FreeReadable(pages, h.freeHead, free, h.pageCount, x);
    }
    if s.Of? {
      AllStored(pages, h, s, free, c, unique, [], s.tree);
    }
  }

  function NodePages(n: nat): (r: set<nat>)
    ensures forall x :: x in r <==> 1 <= x <= n
  {
    if n == 0 then {} else NodePages(n - 1) + {n}
  }

  /** Pages that are met once, and together are all there are, partition the file. */
  lemma {:induction false} Covered(pages: PageMap, h: Header, s: Shape, free: seq<nat>, c: Caps, unique: bool,
                                   live: set<nat>, seen: set<nat>)
    requires Describes(pages, h, s, c, unique) && LiveIn(live, s) && h.entryCount <= UINT64_MAX
    requires Chain(pages, h.freeHead, free) && FreeIn(free, seen) && live !! seen
    ensures WellFormed(pages, h, s, free, c, unique) <==> live + seen == NodePages(h.pageCount)
  {
    var all := NodePages(h.pageCount);
    if live + seen == all {
      forall x: nat
        ensures UsedOnce(s, free, h.pageCount, x)
      {
        assert x in all <==> 1 <= x <= h.pageCount;
        assert x in live + seen <==> x in all;
        assert AtMostOnce(ShapeCount(s, x), x, h.pageCount);
      }
    }
    if WellFormed(pages, h, s, free, c, unique) {
      forall x: nat
        ensures x in live + seen <==> x in all
      {
        assert UsedOnce(s, free, h.pageCount, x);
      }
    }
  }

  /**
   * Reads the complete index. The check accepts exactly the well-formed indexes, and what it
   * accepts has one shape and one free list only.
   */
  method ValidateStructure(pages: PageMap, h: Header, c: Caps, unique: bool, ghost s0: Shape, ghost free0: seq<nat>)
    returns (r: Option<Report>, ghost s: Shape, ghost free: seq<nat>)
    requires c.Usable()
    ensures r.Just? ==> WellFormed(pages, h, s, free, c, unique) && ReportOf(r.value, pages, h, s, free)
    ensures WellFormed(pages, h, s0, free0, c, unique) ==> r.Just? && s == s0 && free == free0
  {
    ghost var wf := WellFormed(pages, h, s0, free0, c, unique);
    if wf {
      WellFormedPasses(pages, h, s0, free0, c, unique, {});
      WellFormedIsConsistent(pages, h, s0, free0, c, unique);
    }
    r, s, free := Nothing, Empty, [];
    if !Consistent(h) {
      return;
    }
    var survey;
    survey, s := CheckTree(pages, h, c, unique, s0);
    if survey == Nothing {
      return;
    }
    var live := survey.value.live;
    if wf {
      WellFormedPasses(pages, h, s0, free0, c, unique, live);
    }
    var seen;
    seen, free := CheckFree(pages, h, c, live, free0);
    if seen == Nothing {
      return;
    }
    Covered(pages, h, s, free, c, unique, live, seen.value);
    if live + seen.value != NodePages(h.pageCount) {
      return;
    }
    r := Just(Report(h.height, survey.value.observed, |survey.value.leaves|, survey.value.internals, |seen.value|));
  }

  lemma {:induction false} KidHolds(pages: PageMap, ts: seq<Tree>, next: Ref, i: nat)
    requires HoldsOf(pages, ts, next) && i < |ts|
    ensures Holds(pages, ts[i], Head(ts[i + 1..], next))
  {
    if i > 0 {
      KidHolds(pages, ts[1..], next, i - 1);
      assert ts[1..][i..] == ts[i + 1..];
    }
  }

  /** Pages store one tree of a given height below a given page. */
  lemma {:induction false} OneTree(pages: PageMap, t: Tree, u: Tree, next: Ref, next': Ref)
    requires Holds(pages, t, next) && Holds(pages, u, next') && t.id == u.id
    ensures t == u
    decreases t
  {
    if t.Node? {
      assert KidIds(t.kids) == KidIds(u.kids);
      forall i | 0 <= i < |t.kids|
        ensures t.kids[i] == u.kids[i]
      {
        KidHolds(pages, t.kids, next, i);
        KidHolds(pages, u.kids, next', i);
        assert KidIds(t.kids)[i] == KidIds(u.kids)[i];
        OneTree(pages, t.kids[i], u.kids[i], Head(t.kids[i + 1..], next), Head(u.kids[i + 1..], next'));
      }
    }
  }

  lemma {:induction false} OneChain(pages: PageMap, head: Ref, a: seq<nat>, b: seq<nat>)
    requires Chain(pages, head, a) && Chain(pages, head, b)
    ensures a == b
    decreases |a|
  {
    if a != [] && b != [] {
      OneChain(pages, pages[a[0]].next, a[1..], b[1..]);
      assert a == [a[0]] + a[1..] && b == [b[0]] + b[1..];
    }
  }

  /** Header and pages determine the shape of the index and its free list. */
  lemma {:induction false} OneShape(pages: PageMap, h: Header, s: Shape, free: seq<nat>, s': Shape, free': seq<nat>,
                                    c: Caps, unique: bool)
    requires WellFormed(pages, h, s, free, c, unique) && WellFormed(pages, h, s', free', c, unique)
    ensures s == s' && free == free'
  {
    OneChain(pages, h.freeHead, free, free');
    if s.Of? && s'.Of? {
      OneTree(pages, s.tree, s'.tree, None, None);
    }
  }

  ghost predicate SomeWellFormed(pages: PageMap, h: Header, c: Caps, unique: bool) {
    exists s, free :: WellFormed(pages, h, s, free, c, unique)
  }

  /** The same, as one equivalence. */
  method Validate(pages: PageMap, h: Header, c: Caps, unique: bool) returns (r: Option<Report>)
    requires c.Usable()
    ensures r.Just? <==> SomeWellFormed(pages, h, c, unique)
    ensures forall s, free :: WellFormed(pages, h, s, free, c, unique) ==>
              r.Just? && ReportOf(r.value, pages, h, s, free)
  {
    ghost var s0, free0 := Empty, [];
    if SomeWellFormed(pages, h, c, unique) {
      s0, free0 :| WellFormed(pages, h, s0, free0, c, unique);
    }
    ghost var s1, free1;
    r, s1, free1 := ValidateStructure(pages, h, c, unique, s0, free0);
    if r.Just? {
      forall s, free | WellFormed(pages, h, s, free, c, unique)
        ensures s == s1 && free == free1
      {
        OneShape(pages, h, s, free, s1, free1, c, unique);
      }
    }
  }
}
