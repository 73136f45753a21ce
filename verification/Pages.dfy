/** Node pages, the checks made when one is built, and what it means for pages to store a tree. */
module Pages {
  import opened Entries
  import opened Trees

  /** A page reference that may be null. */
  datatype Ref = None | Some(page: nat)

  /** The decoded image of one node page. A leaf's parallel key and RID tuples are one sequence of pairs. */
  datatype Page =
    | LeafPage(es: seq<Entry>, next: Ref)
    | InternalPage(keys: seq<Key>, children: seq<nat>)
    | FreePage(next: Ref)

  type PageMap = map<nat, Page>

  predicate Nondecreasing(keys: seq<Key>) {
    forall i, j :: 0 <= i < j < |keys| ==> keys[i] <= keys[j]
  }

  predicate NoRepeats(s: seq<nat>) {
    forall i, j :: 0 <= i < j < |s| ==> s[i] != s[j]
  }

  /** The checks of an internal node: one more child than keys, keys in order, and no child twice. */
  predicate InternalSound(id: nat, keys: seq<Key>, children: seq<nat>, c: Caps) {
    && |children| == |keys| + 1
    && Nondecreasing(keys)
    && |keys| <= c.internal
    && id !in children
    && NoRepeats(children)
    && 0 !in children
  }

  /** The checks a node makes of itself when it is built. */
  ghost predicate WellBuilt(id: nat, p: Page, c: Caps) {
    && id >= 1
    && match p
       case LeafPage(es, next) => Sorted(es) && |es| <= c.leaf && next != Some(id)
       case InternalPage(keys, children) => InternalSound(id, keys, children, c)
       case FreePage(next) => next != Some(id)
  }

  /** The order of a leaf, as it is checked from each entry to the next. */
  predicate Climbs(es: seq<Entry>) {
    forall i :: 0 <= i < |es| - 1 ==> Less(es[i], es[i + 1])
  }

  /** The checks on a page that is read back: a leaf's order is checked from each entry to the next. */
  predicate Decodes(id: nat, p: Page, c: Caps) {
    && id >= 1
    && match p
       case LeafPage(es, next) => Climbs(es) && |es| <= c.leaf && next != Some(id)
       case InternalPage(keys, children) => InternalSound(id, keys, children, c)
       case FreePage(next) => next != Some(id)
  }

  lemma {:induction false} ClimbsFar(es: seq<Entry>, i: nat, j: nat)
    requires Climbs(es) && i < j < |es|
    ensures Less(es[i], es[j])
    decreases j
  {
    if i + 1 < j {
      ClimbsFar(es, i, j - 1);
    }
    assert Less(es[j - 1], es[j - 1 + 1]);
  }

  lemma {:induction false} ClimbsIsSorted(es: seq<Entry>)
    ensures Climbs(es) <==> Sorted(es)
  {
    if Climbs(es) {
      forall i, j
        ensures Rises(es, i, j)
      {
        if 0 <= i < j < |es| {
          ClimbsFar(es, i, j);
        }
      }
    }
    if Sorted(es) {
      forall i | 0 <= i < |es| - 1
        ensures Less(es[i], es[i + 1])
      {
        assert Rises(es, i, i + 1);
      }
    }
  }

  lemma {:induction false} DecodesIsWellBuilt(id: nat, p: Page, c: Caps)
    ensures Decodes(id, p, c) <==> WellBuilt(id, p, c)
  {
    if p.LeafPage? {
      ClimbsIsSorted(p.es);
    }
  }

  /** The page of an internal node with the given children: its separators are exact. */
  ghost function InternalOf(kids: seq<Tree>): Page
    requires kids != []
  {
    InternalPage(Mins(kids)[1..], KidIds(kids))
  }

  /** The first leaf of a list of subtrees, or what follows the list when it is empty. */
  ghost function Head(ts: seq<Tree>, next: Ref): Ref {
    if ts == [] then next else Some(First(ts[0]))
  }

  /** The pages store exactly tree t, whose last leaf links to next. */
  ghost predicate Holds(pages: PageMap, t: Tree, next: Ref)
    decreases t, 1
  {
    && t.id in pages
    && match t
       case Leaf(id, es) => pages[id] == LeafPage(es, next)
       case Node(id, kids) => kids != [] && pages[id] == InternalOf(kids) && HoldsOf(pages, kids, next)
  }

  /** The pages store a list of adjacent subtrees, each linked to the one after it. */
  ghost predicate HoldsOf(pages: PageMap, ts: seq<Tree>, next: Ref)
    decreases ts, 0
  {
    ts != [] ==> Holds(pages, ts[0], Head(ts[1..], next)) && HoldsOf(pages, ts[1..], next)
  }

  lemma {:induction false} HoldsConcat(pages: PageMap, a: seq<Tree>, b: seq<Tree>, next: Ref)
    ensures HoldsOf(pages, a + b, next) <==> HoldsOf(pages, a, Head(b, next)) && HoldsOf(pages, b, next)
  {
    if a == [] {
      assert a + b == b;
    } else {
      assert (a + b)[1..] == a[1..] + b;
      HoldsConcat(pages, a[1..], b, next);
    }
  }

  lemma {:induction false} HoldsOne(pages: PageMap, t: Tree, next: Ref)
    ensures HoldsOf(pages, [t], next) <==> Holds(pages, t, next)
  {
    assert [t][1..] == [];
  }

  /** The two page maps differ on the pages of w only. */
  ghost predicate Same(pages: PageMap, pages': PageMap, w: set<nat>) {
    forall id :: id !in w ==> (id in pages <==> id in pages') && (id in pages ==> pages[id] == pages'[id])
  }

  ghost predicate Avoids(t: Tree, w: set<nat>) {
    forall id :: id in w ==> Count(t, id) == 0
  }

  ghost predicate AvoidsOf(ts: seq<Tree>, w: set<nat>) {
    forall id :: id in w ==> CountOf(ts, id) == 0
  }

  /** What is stored for a tree depends on the tree's own pages only. */
  lemma {:induction false} HoldsFrame(pages: PageMap, pages': PageMap, w: set<nat>, t: Tree, next: Ref)
    requires Holds(pages, t, next) && Same(pages, pages', w) && Avoids(t, w)
    ensures Holds(pages', t, next)
    decreases t, 1
  {
    assert Count(t, t.id) >= 1;
    if t.Node? {
      assert forall id :: Count(t, id) >= CountOf(t.kids, id);
      HoldsOfFrame(pages, pages', w, t.kids, next);
    }
  }

  lemma {:induction false} HoldsOfFrame(pages: PageMap, pages': PageMap, w: set<nat>, ts: seq<Tree>, next: Ref)
    requires HoldsOf(pages, ts, next) && Same(pages, pages', w) && AvoidsOf(ts, w)
    ensures HoldsOf(pages', ts, next)
    decreases ts, 0
  {
    if ts != [] {
      assert forall id :: CountOf(ts, id) == Count(ts[0], id) + CountOf(ts[1..], id);
      HoldsFrame(pages, pages', w, ts[0], Head(ts[1..], next));
      HoldsOfFrame(pages, pages', w, ts[1..], next);
    }
  }

  /** The free list: each page on it stores the reference to the one after it. */
  ghost predicate Chain(pages: PageMap, head: Ref, free: seq<nat>)
    decreases |free|
  {
    if free == [] then head == None
    else
      && head == Some(free[0])
      && free[0] in pages
      && pages[free[0]].FreePage?
      && Chain(pages, pages[free[0]].next, free[1..])
  }

  ghost function FreeCount(free: seq<nat>, x: nat): nat {
    if free == [] then 0 else (if free[0] == x then 1 else 0) + FreeCount(free[1..], x)
  }

  lemma {:induction false} ChainFrame(pages: PageMap, pages': PageMap, w: set<nat>, head: Ref, free: seq<nat>)
    requires Chain(pages, head, free) && Same(pages, pages', w)
    requires forall id :: id in w ==> FreeCount(free, id) == 0
    ensures Chain(pages', head, free)
    decreases |free|
  {
    if free != [] {
      assert FreeCount(free, free[0]) >= 1;
      assert forall id :: FreeCount(free, id) >= FreeCount(free[1..], id);
      ChainFrame(pages, pages', w, pages[free[0]].next, free[1..]);
    }
  }

  /** The page written for the top node of a tree. */
  ghost function TopPage(t: Tree, next: Ref): Page
    requires t.Node? ==> t.kids != []
  {
    if t.Leaf? then LeafPage(t.es, next) else InternalOf(t.kids)
  }

  lemma {:induction false} SortedMins(ts: seq<Tree>, h: nat, c: Caps)
    requires c.Usable() && GoodAll(ts, h, c) && Sorted(ContentsOf(ts))
    ensures Nondecreasing(Mins(ts))
  {
    if ts != [] {
      var rest := ts[1..];
      var all := ContentsOf(ts);
      assert all == Contents(ts[0]) + ContentsOf(rest) + [];
      OrderedMiddle(Contents(ts[0]), ContentsOf(rest), [], false);
      SortedMins(rest, h, c);
      forall i, j | 0 <= i < j < |ts|
        ensures Mins(ts)[i] <= Mins(ts)[j]
      {
        if i > 0 {
          assert Mins(rest)[i - 1] <= Mins(rest)[j - 1];
        } else {
          assert ts == ts[..j] + [ts[j]] + ts[j + 1..];
          ContentsAround(ts[..j], ts[j], ts[j + 1..]);
          GoodContents(ts[0], h, c);
          GoodContents(ts[j], h, c);
          assert ts[..j][0] == ts[0];
          var k := |ContentsOf(ts[..j])|;
          assert all[k] == Contents(ts[j])[0];
          assert Rises(all, 0, k);
        }
      }
    }
  }

  /** No page is counted twice, and page 0, which holds the header, is not counted. */
  ghost predicate Simple(t: Tree) {
    forall x :: Count(t, x) <= if x == 0 then 0 else 1
  }

  ghost predicate SimpleOf(ts: seq<Tree>) {
    forall x :: CountOf(ts, x) <= if x == 0 then 0 else 1
  }

  lemma {:induction false} NoRepeatsCons(x: nat, s: seq<nat>)
    requires NoRepeats(s) && x !in s
    ensures NoRepeats([x] + s)
  {
  }

  lemma {:induction false} KidIn(ts: seq<Tree>, x: nat)
    requires x in KidIds(ts)
    ensures CountOf(ts, x) >= 1
  {
    var i :| 0 <= i < |ts| && KidIds(ts)[i] == x;
    KidCounts(ts, i, x);
  }

  lemma {:induction false} DistinctKids(ts: seq<Tree>)
    requires SimpleOf(ts)
    ensures NoRepeats(KidIds(ts))
  {
    if ts != [] {
      var x, rest := ts[0].id, ts[1..];
      assert forall y :: CountOf(ts, y) == Count(ts[0], y) + CountOf(rest, y);
      DistinctKids(rest);
      assert KidIds(ts) == [x] + KidIds(rest);
      if x in KidIds(rest) {
        KidIn(rest, x);
        assert false;
      }
      NoRepeatsCons(x, KidIds(rest));
    }
  }

  /** A good tree over distinct pages, in order, passes every check a node makes when it is built. */
  lemma {:induction false} GoodIsWellBuilt(t: Tree, next: Ref, h: nat, c: Caps)
    requires c.Usable() && Good(t, h, c) && Sorted(Contents(t)) && Simple(t)
    requires t.Leaf? ==> next != Some(t.id)
    ensures WellBuilt(t.id, TopPage(t, next), c)
  {
    assert Count(t, t.id) >= 1;
    if t.Node? {
      assert forall y :: Count(t, y) == (if t.id == y then 1 else 0) + CountOf(t.kids, y);
      SortedMins(t.kids, h - 1, c);
      DistinctKids(t.kids);
      forall x | x in KidIds(t.kids)
        ensures x != t.id && x != 0
      {
        KidIn(t.kids, x);
      }
    }
  }
}
