/** The forward chain of leaves: a scan that follows it, on any pages at all and on a well-formed index. */
module Chains {
  import opened Entries
  import opened Trees
  import opened Pages
  import opened Paths
  import opened Headers
  import opened Cursors
  import opened Reads

  /** How many recent links a scan remembers. */
  const LEAF_SCAN_GUARD_SIZE := 32

  function Remember(visited: seq<nat>, id: nat): seq<nat> {
    if |visited| < LEAF_SCAN_GUARD_SIZE then visited + [id] else visited[1..] + [id]
  }

  datatype LinkResult = End | Corrupt | Next(leaf: nat, es: seq<Entry>, next: Ref)

  /** Reads the next leaf of a scan, with the checks made on every link. */
  method ReadNextLeaf(pages: PageMap, h: Header, c: Caps, unique: bool, es: seq<Entry>, next: Ref, visited: seq<nat>)
    returns (r: LinkResult, visited': seq<nat>)
    ensures r.End? <==> next == None
    ensures r.Next? ==> next == Some(r.leaf) && r.leaf !in visited && visited' == Remember(visited, r.leaf)
    ensures r.Next? ==> r.leaf in pages && pages[r.leaf] == LeafPage(r.es, r.next) && r.es != [] && Sorted(r.es)
    ensures r.Next? && es != [] ==> Less(es[|es| - 1], r.es[0])
    ensures r.Corrupt? ==> LinkFails(pages, h, c, unique, es, next, visited)
  {
    if next == None {
      return End, visited;
    }
    var node := TryRead(pages, h, c, unique, next);
    if node == Nothing || next.page in visited {
      return Corrupt, visited;
    }
    visited' := Remember(visited, next.page);
    if !node.value.LeafPage? || node.value.es == [] {
      return Corrupt, visited';
    }
    ClimbsIsSorted(node.value.es);
    if es != [] {
      var last, first := es[|es| - 1], node.value.es[0];
      if last.key > first.key || (last.key == first.key && (unique || !RidLess(last.rid, first.rid))) {
        return Corrupt, visited';
      }
    }
    r := Next(next.page, node.value.es, node.value.next);
  }

  /** Why a link can be refused. */
  ghost predicate LinkFails(pages: PageMap, h: Header, c: Caps, unique: bool, es: seq<Entry>, next: Ref,
                            visited: seq<nat>) {
    var node := TryRead(pages, h, c, unique, next);
    next.Some? && (node == Nothing || next.page in visited || !node.value.LeafPage? || node.value.es == []
                   || (es != [] && (!Less(es[|es| - 1], node.value.es[0])
                                    || (unique && es[|es| - 1].key == node.value.es[0].key))))
  }

  // Any pages at all.

  ghost predicate LeafAt(pages: PageMap, id: nat) {
    id in pages && pages[id].LeafPage? && pages[id].es != [] && Sorted(pages[id].es)
  }

  /** The leaves a scan has visited: each links to the next and ends below it. */
  ghost predicate Trail(pages: PageMap, trail: seq<nat>) {
    && (forall i :: 0 <= i < |trail| ==> LeafAt(pages, trail[i]))
    && (forall i :: 0 <= i < |trail| - 1 ==> Linked(pages, trail[i], trail[i + 1]))
  }

  ghost predicate Linked(pages: PageMap, a: nat, b: nat) {
    && LeafAt(pages, a) && LeafAt(pages, b)
    && pages[a].next == Some(b)
    && Less(pages[a].es[|pages[a].es| - 1], pages[b].es[0])
  }

  ghost function TrailEntries(pages: PageMap, trail: seq<nat>): seq<Entry>
    requires Trail(pages, trail)
  {
    if trail == [] then [] else TrailEntries(pages, trail[..|trail| - 1]) + pages[trail[|trail| - 1]].es
  }

  /** The entries of a trail rise throughout, so none of its leaves comes twice. */
  lemma {:induction false} TrailRises(pages: PageMap, trail: seq<nat>)
    requires Trail(pages, trail)
    ensures Sorted(TrailEntries(pages, trail))
    ensures trail != [] ==> TrailEntries(pages, trail) != []
    ensures trail != [] ==> EndsWith(TrailEntries(pages, trail), pages[trail[|trail| - 1]].es)
  {
    if |trail| == 1 {
      assert TrailEntries(pages, trail[..0]) == [];
      assert TrailEntries(pages, trail) == pages[trail[0]].es;
    } else if |trail| > 1 {
      var before, es := trail[..|trail| - 1], pages[trail[|trail| - 1]].es;
      TrailRises(pages, before);
      assert Linked(pages, trail[|trail| - 2], trail[|trail| - 2 + 1]);
      JoinOrdered(TrailEntries(pages, before), es, false);
    }
  }

  ghost predicate EndsWith(s: seq<Entry>, es: seq<Entry>) {
    s != [] && es != [] && s[|s| - 1] == es[|es| - 1]
  }

  lemma {:induction false} FirstsRise(pages: PageMap, trail: seq<nat>, i: nat, j: nat)
    requires Trail(pages, trail) && i < j < |trail|
    ensures LeafAt(pages, trail[i]) && LeafAt(pages, trail[j])
    ensures Less(pages[trail[i]].es[0], pages[trail[j]].es[0])
    decreases j
  {
    assert Linked(pages, trail[j - 1], trail[j - 1 + 1]);
    var es := pages[trail[j - 1]].es;
    assert Rises(es, 0, |es| - 1);
    if i < j - 1 {
      FirstsRise(pages, trail, i, j - 1);
    }
  }

  /** A scan never visits a leaf twice, whatever the pages hold. */
  lemma {:induction false} TrailNeverRepeats(pages: PageMap, trail: seq<nat>)
    requires Trail(pages, trail)
    ensures NoRepeats(trail) && |trail| <= |pages|
  {
    forall i, j | 0 <= i < j < |trail|
      ensures trail[i] != trail[j]
    {
      FirstsRise(pages, trail, i, j);
    }
    DistinctFit(trail, pages.Keys);
  }

  lemma {:induction false} DistinctFit(s: seq<nat>, keys: set<nat>)
    requires NoRepeats(s) && forall i :: 0 <= i < |s| ==> s[i] in keys
    ensures |s| <= |keys|
  {
    if s != [] {
      DistinctFit(s[1..], keys - {s[0]});
    }
  }

  lemma {:induction false} AppendTrail(pages: PageMap, trail: seq<nat>, b: nat)
    requires Trail(pages, trail) && LeafAt(pages, b) && (trail != [] ==> Linked(pages, trail[|trail| - 1], b))
    ensures Trail(pages, trail + [b])
    ensures TrailEntries(pages, trail + [b]) == TrailEntries(pages, trail) + pages[b].es
  {
    assert (trail + [b])[..|trail|] == trail;
  }

  lemma {:induction false} FirstInTrail(pages: PageMap, trail: seq<nat>, i: nat)
    requires Trail(pages, trail) && i < |trail|
    ensures LeafAt(pages, trail[i]) && pages[trail[i]].es[0] in TrailEntries(pages, trail)
    decreases |trail|
  {
    if i < |trail| - 1 {
      FirstInTrail(pages, trail[..|trail| - 1], i);
    }
  }

  // A well-formed index.

  /** The leftmost leaf below a position. */
  lemma {:induction false} LeftmostLeaf(path: Path, t: Tree, h: nat, c: Caps) returns (path': Path, leaf: Tree)
    requires c.Usable() && Good(t, h, c)
    ensures leaf.Leaf? && leaf.id == First(t) && Rebuild(path', leaf) == Rebuild(path, t)
    ensures Before(path') == Before(path)
    decreases t
  {
    if t.Leaf? {
      path', leaf := path, t;
    } else {
      GoDownLeft(path, t);
      path', leaf := LeftmostLeaf(path + [ChildFrame(t, 0)], t.kids[0], h - 1, c);
    }
  }

  /** The link out of the last leaf below a position leads to the leaf that follows in order. */
  lemma {:induction false} FollowingLeaf(path: Path, t: Tree, h: nat, c: Caps) returns (path': Path, leaf: Tree)
    requires c.Usable() && GoodPath(path, h, c)
    ensures if NextOf(path) == None then After(path) == [] else
              && leaf.Leaf? && NextOf(path) == Some(leaf.id) && Rebuild(path', leaf) == Rebuild(path, t)
              && Before(path') == Before(path) + Contents(t)
    decreases |path|
  {
    path', leaf := path, t;
    if path != [] {
      if Inner(path).right != [] {
        ShiftRight(path, t);
        path', leaf := LeftmostLeaf(Outer(path) + [Shifted(Inner(path), t)], Inner(path).right[0], h, c);
      } else {
        ClimbOut(path, t);
        path', leaf := FollowingLeaf(Outer(path), Plug(Inner(path), t), h + 1, c);
      }
    }
  }

  /** The scan stands at a leaf of the tree, and its trail has passed all that lies between the start and the leaf. */
  ghost predicate Standing(pages: PageMap, s: Shape, path: Path, start: seq<Entry>, trail: seq<nat>, es: seq<Entry>,
                           next: Ref) {
    && s.Of? && trail != [] && Trail(pages, trail)
    && Rebuild(path, Leaf(trail[|trail| - 1], es)) == s.tree
    && next == NextOf(path)
    && start + TrailEntries(pages, trail) == Before(path) + es
  }

  /** On a well-formed index every link is accepted, and a scan that has no next leaf has seen everything. */
  lemma {:induction false} LinkHolds(pages: PageMap, h: Header, s: Shape, free: seq<nat>, c: Caps, unique: bool,
                                     path: Path, es: seq<Entry>, next: Ref, leaf: nat)
    returns (path': Path, es': seq<Entry>)
    requires WellFormed(pages, h, s, free, c, unique) && s.Of?
    requires Rebuild(path, Leaf(leaf, es)) == s.tree && next == NextOf(path)
    ensures next == None ==> After(path) == []
    ensures next != None ==>
              && Rebuild(path', Leaf(next.page, es')) == s.tree && Before(path') == Before(path) + es && es' != []
              && TryRead(pages, h, c, unique, next) == Just(LeafPage(es', NextOf(path')))
              && es != [] && Less(es[|es| - 1], es'[0]) && (unique ==> es[|es| - 1].key != es'[0].key)
              && es'[0] !in Before(path) + es
  {
    Inside(pages, h, s, free, c, unique, path, Leaf(leaf, es));
    var t;
    path', t := FollowingLeaf(path, Leaf(leaf, es), 1, c);
    es' := if t.Leaf? then t.es else [];
    if next != None {
      ReadsOnTheWay(pages, h, s, free, c, unique, path', t);
      NextIsAbove(path, es, path', t, s.tree, unique);
    }
  }

  lemma {:induction false} NextIsAbove(path: Path, es: seq<Entry>, path': Path, t: Tree, root: Tree, unique: bool)
    requires t.Leaf? && t.es != [] && es != [] && Rebuild(path', t) == root && Before(path') == Before(path) + es
    requires Ordered(Contents(root), unique)
    ensures Less(es[|es| - 1], t.es[0]) && (unique ==> es[|es| - 1].key != t.es[0].key)
    ensures t.es[0] !in Before(path) + es
  {
    RebuildContents(path', t);
    var all, k := Contents(root), |Before(path')|;
    assert all[k] == t.es[0] && all[k - 1] == es[|es| - 1];
    assert Rises(all, k - 1, k) && (unique ==> KeyRises(all, k - 1, k));
    forall i | 0 <= i < k
      ensures Before(path')[i] != t.es[0]
    {
      assert all[i] == Before(path')[i];
      assert Rises(all, i, k);
    }
  }

  ghost predicate Remembered(visited: seq<nat>, trail: seq<nat>) {
    forall v :: v in visited ==> v in trail
  }

  /** A leaf whose first pair the scan has not seen is not a leaf it has visited. */
  lemma {:induction false} NewLeaf(pages: PageMap, start: seq<Entry>, trail: seq<nat>, id: nat)
    requires Trail(pages, trail) && LeafAt(pages, id) && pages[id].es[0] !in start + TrailEntries(pages, trail)
    ensures id !in trail
  {
    forall i | 0 <= i < |trail|
      ensures trail[i] != id
    {
      FirstInTrail(pages, trail, i);
      assert pages[trail[i]].es[0] in start + TrailEntries(pages, trail);
    }
  }

  /** Standing at a leaf that links to the next one, the scan can stand there. */
  lemma {:induction false} StandsNext(pages: PageMap, s: Shape, path: Path, path': Path, start: seq<Entry>,
                                      trail: seq<nat>, es: seq<Entry>, id: nat, es': seq<Entry>)
    requires Standing(pages, s, path, start, trail, es, Some(id)) && Rebuild(path', Leaf(id, es')) == s.tree
    requires trail[|trail| - 1] in pages && pages[trail[|trail| - 1]] == LeafPage(es, Some(id)) && es != []
    requires id in pages && pages[id] == LeafPage(es', NextOf(path')) && es' != [] && Sorted(es')
    requires Before(path') == Before(path) + es && Less(es[|es| - 1], es'[0]) && es'[0] !in Before(path) + es
    ensures LeafAt(pages, id) && Linked(pages, trail[|trail| - 1], id) && id !in trail
    ensures Standing(pages, s, path', start, trail + [id], es', NextOf(path'))
  {
    NewLeaf(pages, start, trail, id);
    AppendTrail(pages, trail, id);
    GroupRight(start, TrailEntries(pages, trail), es');
  }

  /** On a well-formed index a scan takes every step there is. */
  lemma {:induction false} NextStands(pages: PageMap, h: Header, s: Shape, free: seq<nat>, c: Caps, unique: bool,
                                      path: Path, start: seq<Entry>, trail: seq<nat>, es: seq<Entry>, next: Ref,
                                      visited: seq<nat>)
    returns (path': Path)
    requires WellFormed(pages, h, s, free, c, unique) && Standing(pages, s, path, start, trail, es, next)
    requires Remembered(visited, trail)
    ensures !LinkFails(pages, h, c, unique, es, next, visited)
    ensures next == None ==> start + TrailEntries(pages, trail) == ShapeContents(s)
    ensures next != None ==>
              && LeafAt(pages, next.page) && Linked(pages, trail[|trail| - 1], next.page)
              && Standing(pages, s, path', start, trail + [next.page], pages[next.page].es, pages[next.page].next)
  {
    var leaf := trail[|trail| - 1];
    var es';
    path', es' := LinkHolds(pages, h, s, free, c, unique, path, es, next, leaf);
    RebuildContents(path, Leaf(leaf, es));
    if next == None {
      hide WellFormed, Rebuild;
      assert Before(path) + es + [] == Before(path) + es;
    } else {
      ReadsOnTheWay(pages, h, s, free, c, unique, path, Leaf(leaf, es));
      hide WellFormed, Rebuild;
      assert next.page in pages && pages[next.page] == LeafPage(es', NextOf(path')) && Climbs(es');
      ClimbsIsSorted(es');
      StandsNext(pages, s, path, path', start, trail, es, next.page, es');
    }
  }
}
