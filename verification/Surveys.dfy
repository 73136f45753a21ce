/** What a traversal of a possibly corrupt child graph can certify. */
module Surveys {
  import opened Entries
  import opened Trees
  import opened Pages

  /** What a traversal keeps of a leaf. */
  datatype LeafImage = LeafImage(id: nat, next: Ref)

  /** What a traversal has met so far. */
  datatype Survey = Survey(live: set<nat>, leaves: seq<LeafImage>, internals: nat, observed: nat)

  /** The nodes of the tree are on its pages, with whatever links between the leaves. */
  ghost predicate Stored(pages: PageMap, t: Tree, c: Caps)
    decreases t
  {
    && t.id in pages && Decodes(t.id, pages[t.id], c)
    && match t
       case Leaf(id, es) => pages[id].LeafPage? && pages[id].es == es
       case Node(id, kids) =>
         kids != [] && pages[id] == InternalOf(kids) && forall i :: 0 <= i < |kids| ==> Stored(pages, kids[i], c)
  }

  ghost function LeafImages(pages: PageMap, t: Tree): seq<LeafImage>
    decreases t, 1
  {
    match t
    case Leaf(id, _) => [LeafImage(id, if id in pages && pages[id].LeafPage? then pages[id].next else None)]
    case Node(_, kids) => LeafImagesOf(pages, kids)
  }

  ghost function LeafImagesOf(pages: PageMap, ts: seq<Tree>): seq<LeafImage>
    decreases ts, 0
  {
    if ts == [] then [] else LeafImages(pages, ts[0]) + LeafImagesOf(pages, ts[1..])
  }

  ghost function Internals(t: Tree): nat
    decreases t, 1
  {
    match t
    case Leaf(_, _) => 0
    case Node(_, kids) => 1 + InternalsOf(kids)
  }

  ghost function InternalsOf(ts: seq<Tree>): nat
    decreases ts, 0
  {
    if ts == [] then 0 else Internals(ts[0]) + InternalsOf(ts[1..])
  }

  ghost predicate AtMostOnce(count: nat, x: nat, n: nat) {
    count <= if 1 <= x <= n then 1 else 0
  }

  /** All that one subtree must satisfy to be accepted. */
  ghost predicate Sound(pages: PageMap, t: Tree, h: nat, isRoot: bool, n: nat, c: Caps, unique: bool) {
    && c.Usable()
    && Stored(pages, t, c)
    && (if isRoot then GoodRoot(t, h, c) else Good(t, h, c) && Filled(t, c))
    && Ordered(Contents(t), unique)
    && forall x: nat :: AtMostOnce(Count(t, x), x, n)
  }

  ghost predicate SoundAll(pages: PageMap, ts: seq<Tree>, h: nat, n: nat, c: Caps, unique: bool) {
    && c.Usable()
    && (forall i :: 0 <= i < |ts| ==> Sound(pages, ts[i], h, false, n, c, unique))
    && (forall x: nat :: AtMostOnce(CountOf(ts, x), x, n))
  }

  ghost predicate Clear(t: Tree, live: set<nat>) {
    forall x: nat :: Count(t, x) >= 1 ==> x !in live
  }

  ghost predicate ClearOf(ts: seq<Tree>, live: set<nat>) {
    forall x: nat :: CountOf(ts, x) >= 1 ==> x !in live
  }

  /** The traversal has met exactly the subtree in between. */
  ghost predicate Surveyed(pages: PageMap, t: Tree, a: Survey, b: Survey) {
    && (forall x: nat :: x in b.live <==> x in a.live || Count(t, x) >= 1)
    && b.leaves == a.leaves + LeafImages(pages, t)
    && b.internals == a.internals + Internals(t)
    && b.observed == a.observed + |Contents(t)|
  }

  ghost predicate SurveyedOf(pages: PageMap, ts: seq<Tree>, a: Survey, b: Survey) {
    && (forall x: nat :: x in b.live <==> x in a.live || CountOf(ts, x) >= 1)
    && b.leaves == a.leaves + LeafImagesOf(pages, ts)
    && b.internals == a.internals + InternalsOf(ts)
    && b.observed == a.observed + |ContentsOf(ts)|
  }

  lemma {:induction false} ImagesConcat(pages: PageMap, a: seq<Tree>, b: seq<Tree>)
    ensures LeafImagesOf(pages, a + b) == LeafImagesOf(pages, a) + LeafImagesOf(pages, b)
    ensures InternalsOf(a + b) == InternalsOf(a) + InternalsOf(b)
  {
    if a == [] {
      assert a + b == b;
    } else {
      assert (a + b)[1..] == a[1..] + b;
      ImagesConcat(pages, a[1..], b);
    }
  }

  /** One more child. */
  lemma {:induction false} SurveyOneMore(pages: PageMap, ts: seq<Tree>, t: Tree, h: nat, n: nat, c: Caps, unique: bool,
                                         s0: Survey, s1: Survey, s2: Survey)
    requires SoundAll(pages, ts, h, n, c, unique) && ClearOf(ts, s0.live) && SurveyedOf(pages, ts, s0, s1)
    requires Sound(pages, t, h, false, n, c, unique) && Clear(t, s1.live) && Surveyed(pages, t, s1, s2)
    ensures SoundAll(pages, ts + [t], h, n, c, unique) && ClearOf(ts + [t], s0.live)
    ensures SurveyedOf(pages, ts + [t], s0, s2)
  {
    forall x: nat
      ensures CountOf(ts + [t], x) == CountOf(ts, x) + Count(t, x) && AtMostOnce(CountOf(ts + [t], x), x, n)
      ensures CountOf(ts + [t], x) >= 1 ==> x !in s0.live
      ensures x in s2.live <==> x in s0.live || CountOf(ts + [t], x) >= 1
    {
      CountConcat(ts, [t], x);
      assert CountOf([t], x) == Count(t, x) + CountOf([], x);
      assert AtMostOnce(CountOf(ts, x), x, n) && AtMostOnce(Count(t, x), x, n);
    }
    ImagesConcat(pages, ts, [t]);
    ContentsConcat(ts, [t]);
    assert LeafImagesOf(pages, [t]) == LeafImages(pages, t) + [];
    assert ContentsOf([t]) == Contents(t) + [];
    assert InternalsOf([t]) == Internals(t) + InternalsOf([]);
    assert s2.leaves == s0.leaves + (LeafImagesOf(pages, ts) + LeafImages(pages, t));
  }

  /** The expected child at each step is free of what was met before it. */
  lemma {:induction false} NextIsClear(pages: PageMap, us: seq<Tree>, i: nat, h: nat, n: nat, c: Caps, unique: bool,
                                       s0: Survey, s1: Survey)
    requires SoundAll(pages, us, h, n, c, unique) && ClearOf(us, s0.live) && i < |us|
    requires SurveyedOf(pages, us[..i], s0, s1)
    ensures Clear(us[i], s1.live)
  {
    assert us == us[..i] + [us[i]] + us[i + 1..];
    forall x: nat | Count(us[i], x) >= 1
      ensures x !in s1.live
    {
      CountAround(us[..i], us[i], us[i + 1..], x);
      assert AtMostOnce(CountOf(us, x), x, n);
    }
  }

  // Order within and between children.

  ghost function FirstEntry(t: Tree): Entry
    requires Contents(t) != []
  {
    Contents(t)[0]
  }

  ghost function LastEntry(t: Tree): Entry
    requires Contents(t) != []
  {
    Contents(t)[|Contents(t)| - 1]
  }

  /** The ends of each subtree, as the traversal returns them. */
  ghost predicate Ends(ranges: seq<(Entry, Entry)>, ts: seq<Tree>) {
    && |ranges| == |ts|
    && forall i :: 0 <= i < |ts| ==> Contents(ts[i]) != [] && ranges[i] == (FirstEntry(ts[i]), LastEntry(ts[i]))
  }

  ghost predicate Boundaries(ranges: seq<(Entry, Entry)>, unique: bool) {
    forall i :: 0 <= i < |ranges| - 1 ==> Boundary(ranges[i].1, ranges[i + 1].0, unique)
  }

  /** Children that are in order one by one and from each to the next are in order together. */
  lemma {:induction false} KidsOrdered(ts: seq<Tree>, ranges: seq<(Entry, Entry)>, unique: bool)
    requires Ends(ranges, ts) && Boundaries(ranges, unique) && ts != []
    requires forall i :: 0 <= i < |ts| ==> Ordered(Contents(ts[i]), unique)
    ensures var s := ContentsOf(ts);
            Ordered(s, unique) && s != [] && s[0] == ranges[0].0 && s[|s| - 1] == ranges[|ts| - 1].1
  {
    var last := |ts| - 1;
    ContentsConcat(ts[..last], [ts[last]]);
    assert ts == ts[..last] + [ts[last]];
    assert ContentsOf([ts[last]]) == Contents(ts[last]) + [];
    if last > 0 {
      KidsOrdered(ts[..last], ranges[..last], unique);
      assert Boundary(ranges[last - 1].1, ranges[last - 1 + 1].0, unique);
      JoinOrdered(ContentsOf(ts[..last]), Contents(ts[last]), unique);
      assert ContentsOf(ts) == ContentsOf(ts[..last]) + Contents(ts[last]);
    } else {
      assert ContentsOf(ts[..last]) == [];
      assert ContentsOf(ts) == Contents(ts[last]);
    }
  }

  /** The converse, at one boundary. */
  lemma {:induction false} BoundaryHolds(ts: seq<Tree>, ranges: seq<(Entry, Entry)>, unique: bool, i: nat)
    requires Ends(ranges, ts) && i + 1 < |ts| && Ordered(ContentsOf(ts), unique)
    ensures Boundary(ranges[i].1, ranges[i + 1].0, unique)
  {
    var a, b := ts[..i + 1], ts[i + 1..];
    assert ts == a + b && a == ts[..i] + [ts[i]];
    ContentsConcat(a, b);
    ContentsConcat(ts[..i], [ts[i]]);
    assert ContentsOf([ts[i]]) == Contents(ts[i]) + [];
    var s, k := ContentsOf(ts), |ContentsOf(a)|;
    assert s[k - 1] == LastEntry(ts[i]);
    assert s[k] == FirstEntry(ts[i + 1]);
    assert Rises(s, k - 1, k) && (unique ==> KeyRises(s, k - 1, k));
  }

  lemma {:induction false} KidOrdered(ts: seq<Tree>, i: nat, unique: bool)
    requires i < |ts| && Ordered(ContentsOf(ts), unique)
    ensures Ordered(Contents(ts[i]), unique)
  {
    assert ts == ts[..i] + [ts[i]] + ts[i + 1..];
    ContentsAround(ts[..i], ts[i], ts[i + 1..]);
    OrderedMiddle(ContentsOf(ts[..i]), Contents(ts[i]), ContentsOf(ts[i + 1..]), unique);
  }

  // Links.

  ghost predicate LinkAt(images: seq<LeafImage>, next: Ref, i: int) {
    0 <= i < |images| ==> images[i].next == if i + 1 < |images| then Some(images[i + 1].id) else next
  }

  ghost predicate LinkedUp(images: seq<LeafImage>, next: Ref) {
    forall i :: LinkAt(images, next, i)
  }

  lemma {:induction false} LinkedConcat(a: seq<LeafImage>, b: seq<LeafImage>, next: Ref)
    requires b != []
    ensures LinkedUp(a + b, next) <==> LinkedUp(a, Some(b[0].id)) && LinkedUp(b, next)
  {
    var s := a + b;
    if LinkedUp(s, next) {
      forall i
        ensures LinkAt(a, Some(b[0].id), i)
      {
        assert LinkAt(s, next, i);
      }
      forall i
        ensures LinkAt(b, next, i)
      {
        assert LinkAt(s, next, |a| + i);
      }
    }
    if LinkedUp(a, Some(b[0].id)) && LinkedUp(b, next) {
      forall i
        ensures LinkAt(s, next, i)
      {
        assert LinkAt(a, Some(b[0].id), i) && LinkAt(b, next, i - |a|);
      }
    }
  }

  lemma {:induction false} ImagesStart(pages: PageMap, t: Tree, c: Caps)
    requires Stored(pages, t, c)
    ensures LeafImages(pages, t) != [] && LeafImages(pages, t)[0].id == First(t)
    decreases t
  {
    if t.Node? {
      ImagesStart(pages, t.kids[0], c);
    }
  }

  /** Stored nodes whose leaves are linked in order store the tree. */
  lemma {:induction false} LinksHold(pages: PageMap, t: Tree, next: Ref, c: Caps)
    requires Stored(pages, t, c)
    ensures LinkedUp(LeafImages(pages, t), next) <==> Holds(pages, t, next)
    decreases t, 1
  {
    if t.Node? {
      LinksHoldOf(pages, t.kids, next, c);
    } else {
      assert LinkAt(LeafImages(pages, t), next, 0) <==> pages[t.id].next == next;
    }
  }

  lemma {:induction false} LinksHoldOf(pages: PageMap, ts: seq<Tree>, next: Ref, c: Caps)
    requires forall i :: 0 <= i < |ts| ==> Stored(pages, ts[i], c)
    ensures LinkedUp(LeafImagesOf(pages, ts), next) <==> HoldsOf(pages, ts, next)
    decreases ts, 0
  {
    if ts != [] {
      LinksHoldOf(pages, ts[1..], next, c);
      if |ts| > 1 {
        ImagesStart(pages, ts[1], c);
        assert LeafImagesOf(pages, ts[1..]) == LeafImages(pages, ts[1]) + LeafImagesOf(pages, ts[1..][1..]);
        LinkedConcat(LeafImages(pages, ts[0]), LeafImagesOf(pages, ts[1..]), next);
        LinksHold(pages, ts[0], Some(First(ts[1])), c);
      } else {
        assert ts[1..] == [];
        assert LeafImagesOf(pages, ts) == LeafImages(pages, ts[0]);
        LinksHold(pages, ts[0], next, c);
      }
    }
  }
}
