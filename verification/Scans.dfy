/** Point and range scans over the leaf chain. */
module Scans {
  import opened Entries
  import opened Trees
  import opened Pages
  import opened Paths
  import opened Headers
  import opened Reads
  import opened Chains

  /** The bounds of a range scan; a missing bound does not limit it. */
  datatype Bound = Bound(lower: Option<Key>, upper: Option<Key>, includeLower: bool, includeUpper: bool)

  predicate Below(k: Key, b: Bound) {
    b.lower.Just? && (k < b.lower.value || (k == b.lower.value && !b.includeLower))
  }

  predicate Above(k: Key, b: Bound) {
    b.upper.Just? && (k > b.upper.value || (k == b.upper.value && !b.includeUpper))
  }

  predicate InBounds(k: Key, b: Bound) {
    !Below(k, b) && !Above(k, b)
  }

  /** The entries of a sequence that lie within the bounds, in their order. */
  function Within(s: seq<Entry>, b: Bound): seq<Entry> {
    if s == [] then []
    else Within(s[..|s| - 1], b) + if InBounds(s[|s| - 1].key, b) then [s[|s| - 1]] else []
  }

  lemma {:induction false} WithinConcat(s: seq<Entry>, t: seq<Entry>, b: Bound)
    ensures Within(s + t, b) == Within(s, b) + Within(t, b)
  {
    if t == [] {
      assert s + t == s;
    } else {
      assert (s + t)[..|s + t| - 1] == s + t[..|t| - 1];
      WithinConcat(s, t[..|t| - 1], b);
    }
  }

  lemma {:induction false} WithinNone(s: seq<Entry>, b: Bound)
    requires forall i :: 0 <= i < |s| ==> !InBounds(s[i].key, b)
    ensures Within(s, b) == []
  {
    if s != [] {
      WithinNone(s[..|s| - 1], b);
    }
  }

  lemma {:induction false} WithinAll(s: seq<Entry>, b: Bound)
    requires forall i :: 0 <= i < |s| ==> InBounds(s[i].key, b)
    ensures Within(s, b) == s
  {
    if s != [] {
      WithinAll(s[..|s| - 1], b);
      assert s == s[..|s| - 1] + [s[|s| - 1]];
    }
  }

  /** In order, what lies within the bounds is one slice, with the rest below and above it. */
  lemma {:induction false} WithinIsSlice(s: seq<Entry>, b: Bound) returns (lo: nat, hi: nat)
    requires Sorted(s)
    ensures lo <= hi <= |s| && Within(s, b) == s[lo..hi]
    ensures forall i :: 0 <= i < |s| ==> (lo <= i < hi <==> InBounds(s[i].key, b))
  {
    lo, hi := 0, 0;
    while hi < |s| && Below(s[hi].key, b)
      invariant lo == hi <= |s|
      invariant forall i :: 0 <= i < hi ==> Below(s[i].key, b)
    {
      lo, hi := lo + 1, hi + 1;
    }
    while hi < |s| && InBounds(s[hi].key, b)
      invariant lo <= hi <= |s|
      invariant forall i :: 0 <= i < lo ==> Below(s[i].key, b)
      invariant lo < |s| ==> !Below(s[lo].key, b)
      invariant forall i :: lo <= i < hi ==> InBounds(s[i].key, b)
    {
      hi := hi + 1;
    }
    forall i | hi <= i < |s|
      ensures !InBounds(s[i].key, b)
    {
      assert Rises(s, hi, i) && Rises(s, lo, hi);
    }
    WithinParts(s, lo, hi, b);
  }

  lemma {:induction false} WithinParts(s: seq<Entry>, lo: nat, hi: nat, b: Bound)
    requires lo <= hi <= |s|
    requires forall i :: 0 <= i < |s| ==> (lo <= i < hi <==> InBounds(s[i].key, b))
    ensures Within(s, b) == s[lo..hi]
  {
    assert s == s[..lo] + s[lo..hi] + s[hi..];
    WithinConcat(s[..lo] + s[lo..hi], s[hi..], b);
    WithinConcat(s[..lo], s[lo..hi], b);
    WithinNone(s[..lo], b);
    WithinAll(s[lo..hi], b);
    WithinNone(s[hi..], b);
  }

  /** From an entry above the bounds on, a sorted sequence holds nothing within them. */
  lemma {:induction false} NothingAfter(s: seq<Entry>, t: seq<Entry>, b: Bound)
    requires Sorted(s + t) && t != [] && Above(t[0].key, b)
    ensures Within(s + t, b) == Within(s, b)
  {
    forall i | 0 <= i < |t|
      ensures !InBounds(t[i].key, b)
    {
      assert Rises(s + t, |s|, |s| + i);
      assert (s + t)[|s|] == t[0] && (s + t)[|s| + i] == t[i];
    }
    WithinNone(t, b);
    WithinConcat(s, t, b);
  }

  /** After a sequence that ends above the bounds nothing more lies within them. */
  lemma {:induction false} EndsAbove(s: seq<Entry>, t: seq<Entry>, b: Bound)
    requires Sorted(s + t) && s != [] && Above(s[|s| - 1].key, b)
    ensures Within(s + t, b) == Within(s, b)
  {
    forall i | 0 <= i < |t|
      ensures !InBounds(t[i].key, b)
    {
      assert Rises(s + t, |s| - 1, |s| + i);
      assert (s + t)[|s| - 1] == s[|s| - 1] && (s + t)[|s| + i] == t[i];
    }
    WithinNone(t, b);
    WithinConcat(s, t, b);
  }

  /** Goes over one leaf: yields what lies within the bounds, and stops above them. */
  method ScanRange(es: seq<Entry>, b: Bound) returns (part: seq<Entry>, stop: bool)
    requires Sorted(es)
    ensures part == Within(es, b)
    ensures stop ==> es != [] && Above(es[|es| - 1].key, b)
  {
    part, stop := [], false;
    var i := 0;
    while i < |es|
      invariant i <= |es| && part == Within(es[..i], b)
    {
      assert es[..i + 1][..i] == es[..i];
      var k := es[i].key;
      if !Below(k, b) {
        if Above(k, b) {
          assert es == es[..i] + es[i..];
          NothingAfter(es[..i], es[i..], b);
          assert Rises(es, i, |es| - 1);
          return part, true;
        }
        part := part + [es[i]];
      }
      i := i + 1;
    }
    assert es[..|es|] == es;
  }

  datatype RangeEnd = Finished | Inverted | Damaged

  /** The first leaf of a range scan. */
  method StartRange(pages: PageMap, h: Header, c: Caps, unique: bool, b: Bound, ghost s: Shape, ghost free: seq<nat>)
    returns (r: LinkResult, ghost path: Path)
    requires h.entryCount != 0
    ensures !r.End? && (r.Next? ==> LeafAt(pages, r.leaf) && pages[r.leaf] == LeafPage(r.es, r.next))
    ensures WellFormed(pages, h, s, free, c, unique) ==>
              r.Next? && s.Of? && Rebuild(path, Leaf(r.leaf, r.es)) == s.tree && r.next == NextOf(path)
                  && Within(Before(path), b) == []
  {
    path := [];
    if WellFormed(pages, h, s, free, c, unique) {
      EmptyShape(pages, h, s, free, c, unique);
    }
    if b.lower == Nothing {
      if WellFormed(pages, h, s, free, c, unique) {
        ghost var leaf;
        path, leaf := LeftmostLeaf([], s.tree, h.height, c);
        ReadsOnTheWay(pages, h, s, free, c, unique, path, leaf);
      }
      var node := TryRead(pages, h, c, unique, h.first);
      if node == Nothing || !node.value.LeafPage? || node.value.es == [] {
        return Corrupt, path;
      }
      ClimbsIsSorted(node.value.es);
      return Next(h.first.page, node.value.es, node.value.next), path;
    }
    var reached;
    reached, path := Descend(pages, h, c, unique, b.lower.value, s, free);
    if !reached.Reached? {
      return Corrupt, path;
    }
    ClimbsIsSorted(reached.d.es);
    if WellFormed(pages, h, s, free, c, unique) {
      WithinNone(Before(path), b);
    }
    r := Next(reached.d.leaf, reached.d.es, reached.d.next);
  }

  /** Where a range scan stands, as far as the entries go: on a well-formed index, and there only. */
  ghost predicate OnCourse(pages: PageMap, h: Header, s: Shape, free: seq<nat>, c: Caps, unique: bool, b: Bound,
                           path: Path, start: seq<Entry>, trail: seq<nat>, es: seq<Entry>, next: Ref) {
    WellFormed(pages, h, s, free, c, unique) ==>
      && Standing(pages, s, path, start, trail, es, next)
      && Within(start, b) == []
  }

  lemma {:induction false} OneLeafTrail(pages: PageMap, leaf: nat)
    requires LeafAt(pages, leaf)
    ensures Trail(pages, [leaf]) && TrailEntries(pages, [leaf]) == pages[leaf].es
  {
    assert Trail(pages, []);
    AppendTrail(pages, [], leaf);
    assert [] + [leaf] == [leaf];
    assert [] + pages[leaf].es == pages[leaf].es;
  }

  /** A scan that stops above the bounds, or after the last leaf, has yielded all there is. */
  lemma {:induction false} CourseEnds(pages: PageMap, h: Header, s: Shape, free: seq<nat>, c: Caps, unique: bool,
                                      b: Bound, path: Path, start: seq<Entry>, trail: seq<nat>, es: seq<Entry>,
                                      next: Ref, stop: bool)
    requires WellFormed(pages, h, s, free, c, unique) && Standing(pages, s, path, start, trail, es, next)
    requires Within(start, b) == []
    requires if stop then es != [] && Above(es[|es| - 1].key, b) else next == None
    ensures Within(TrailEntries(pages, trail), b) == Within(ShapeContents(s), b)
  {
    var seen := TrailEntries(pages, trail);
    WithinConcat(start, seen, b);
    if stop {
      RebuildContents(path, Leaf(trail[|trail| - 1], es));
      EndsAbove(start + seen, After(path), b);
    } else {
      var path' := NextStands(pages, h, s, free, c, unique, path, start, trail, es, next, []);
    }
  }

  /** The state of a scan between two leaves. */
  ghost predicate Along(pages: PageMap, h: Header, s: Shape, free: seq<nat>, c: Caps, unique: bool, b: Bound,
                        path: Path, start: seq<Entry>, trail: seq<nat>, leaf: nat, es: seq<Entry>, next: Ref,
                        visited: seq<nat>) {
    && Trail(pages, trail) && trail != [] && trail[|trail| - 1] == leaf
    && leaf in pages && pages[leaf] == LeafPage(es, next) && Sorted(es)
    && Remembered(visited, trail)
    && OnCourse(pages, h, s, free, c, unique, b, path, start, trail, es, next)
  }

  /** Follows one link of a scan. */
  method Advance(pages: PageMap, h: Header, c: Caps, unique: bool, leaf: nat, es: seq<Entry>, next: Ref,
                 visited: seq<nat>, ghost s: Shape, ghost free: seq<nat>, ghost b: Bound, ghost path: Path,
                 ghost start: seq<Entry>, ghost trail: seq<nat>)
    returns (more: LinkResult, visited': seq<nat>, ghost path': Path)
    requires Along(pages, h, s, free, c, unique, b, path, start, trail, leaf, es, next, visited)
    ensures WellFormed(pages, h, s, free, c, unique) ==>
              !more.Corrupt? && (more.End? ==> Within(TrailEntries(pages, trail), b) == Within(ShapeContents(s), b))
    ensures more.Next? ==>
              && Along(pages, h, s, free, c, unique, b, path', start, trail + [more.leaf], more.leaf, more.es,
                       more.next, visited')
              && Trail(pages, trail + [more.leaf]) && |trail| < |pages|
              && Within(TrailEntries(pages, trail + [more.leaf]), b)
                  == Within(TrailEntries(pages, trail), b) + Within(more.es, b)
  {
    path' := path;
    more, visited' := ReadNextLeaf(pages, h, c, unique, es, next, visited);
    if WellFormed(pages, h, s, free, c, unique) {
      path' := NextStands(pages, h, s, free, c, unique, path, start, trail, es, next, visited);
      if more.End? {
        CourseEnds(pages, h, s, free, c, unique, b, path, start, trail, es, next, false);
      }
    }
    if more.Next? {
      AppendTrail(pages, trail, more.leaf);
      TrailNeverRepeats(pages, trail + [more.leaf]);
      WithinConcat(TrailEntries(pages, trail), more.es, b);
    }
  }

  lemma {:induction false} AlongIsSorted(pages: PageMap, h: Header, s: Shape, free: seq<nat>, c: Caps, unique: bool,
                                         b: Bound, path: Path, start: seq<Entry>, trail: seq<nat>, leaf: nat,
                                         es: seq<Entry>, next: Ref, visited: seq<nat>)
    requires Along(pages, h, s, free, c, unique, b, path, start, trail, leaf, es, next, visited)
    ensures Sorted(es)
  {
  }

  lemma {:induction false} StopsAbove(pages: PageMap, h: Header, s: Shape, free: seq<nat>, c: Caps, unique: bool,
                                      b: Bound, path: Path, start: seq<Entry>, trail: seq<nat>, leaf: nat,
                                      es: seq<Entry>, next: Ref, visited: seq<nat>)
    requires Along(pages, h, s, free, c, unique, b, path, start, trail, leaf, es, next, visited)
    requires es != [] && Above(es[|es| - 1].key, b)
    ensures Trail(pages, trail)
    ensures WellFormed(pages, h, s, free, c, unique) ==>
              Within(TrailEntries(pages, trail), b) == Within(ShapeContents(s), b)
  {
    if WellFormed(pages, h, s, free, c, unique) {
      CourseEnds(pages, h, s, free, c, unique, b, path, start, trail, es, next, true);
    }
  }

  /** Scans one leaf and moves on, unless the scan is over. */
  method OneLeaf(pages: PageMap, h: Header, c: Caps, unique: bool, b: Bound, fullScan: bool, leaf: nat, es: seq<Entry>,
                 next: Ref, visited: seq<nat>, out: seq<Entry>, ghost s: Shape, ghost free: seq<nat>, ghost path: Path,
                 ghost start: seq<Entry>, ghost trail: seq<nat>)
    returns (out': seq<Entry>, over: Option<RangeEnd>, more: LinkResult, visited': seq<nat>, ghost path': Path)
    requires Along(pages, h, s, free, c, unique, b, path, start, trail, leaf, es, next, visited)
    requires Trail(pages, trail) && Within(TrailEntries(pages, trail), b) == out + Within(es, b)
    requires fullScan <==> b.lower == Nothing && b.upper == Nothing
    ensures over.Just? ==> !over.value.Inverted? && out' == Within(TrailEntries(pages, trail), b)
    ensures over.Just? && WellFormed(pages, h, s, free, c, unique) ==>
              over.value.Finished? && out' == Within(ShapeContents(s), b)
    ensures over == Nothing ==>
              && more.Next? && |trail| < |pages| && Trail(pages, trail + [more.leaf])
              && Along(pages, h, s, free, c, unique, b, path', start, trail + [more.leaf], more.leaf, more.es,
                       more.next, visited')
              && Within(TrailEntries(pages, trail + [more.leaf]), b) == out' + Within(more.es, b)
  {
    more, visited', path' := End, visited, path;
    AlongIsSorted(pages, h, s, free, c, unique, b, path, start, trail, leaf, es, next, visited);
    var part, stop := ScanRange(es, b);
    out' := out + part;
    if stop {
      StopsAbove(pages, h, s, free, c, unique, b, path, start, trail, leaf, es, next, visited);
      over := Just(Finished);
      return;
    }
    more, visited', path' := Advance(pages, h, c, unique, leaf, es, next, visited, s, free, b, path, start, trail);
    match more
    case End =>
      if fullScan {
        WithinAll(ShapeContents(s), b);
      }
      over := Just(if fullScan && |out'| != h.entryCount then Damaged else Finished);
    case Corrupt => over := Just(Damaged);
    case Next(_, _, _) => over := Nothing;
  }

  /** The loop of a range scan, from its first leaf on. */
  method FollowChain(pages: PageMap, h: Header, c: Caps, unique: bool, b: Bound, fullScan: bool, first: nat,
                     firstEs: seq<Entry>, firstNext: Ref, ghost s: Shape, ghost free: seq<nat>, ghost firstPath: Path)
    returns (out: seq<Entry>, r: RangeEnd, ghost trail: seq<nat>)
    requires LeafAt(pages, first) && pages[first] == LeafPage(firstEs, firstNext)
    requires (fullScan <==> b.lower == Nothing && b.upper == Nothing)
    requires Trail(pages, [first])
    requires OnCourse(pages, h, s, free, c, unique, b, firstPath, Before(firstPath), [first], firstEs, firstNext)
    ensures !r.Inverted? && Trail(pages, trail) && out == Within(TrailEntries(pages, trail), b)
    ensures WellFormed(pages, h, s, free, c, unique) ==> r.Finished? && out == Within(ShapeContents(s), b)
  {
    var leaf, es, next, visited := first, firstEs, firstNext, [first];
    ghost var path, start := firstPath, Before(firstPath);
    out, trail := [], [leaf];
    OneLeafTrail(pages, leaf);
    assert out + Within(es, b) == Within(es, b);
    hide Along, Trail, TrailEntries, Within, WellFormed;
    while true
      invariant Along(pages, h, s, free, c, unique, b, path, start, trail, leaf, es, next, visited)
      invariant Trail(pages, trail) && Within(TrailEntries(pages, trail), b) == out + Within(es, b)
      decreases |pages| - |trail|
    {
      var over, more;
      out, over, more, visited,
          path := OneLeaf(pages, h, c, unique, b, fullScan, leaf, es, next, visited, out, s, free, path, start, trail);
      if over.Just? {
        r := over.value;
        return;
      }
      trail := trail + [more.leaf];
      leaf, es, next := more.leaf, more.es, more.next;
    }
  }

  /**
   * Yields the entries of a range in order. Whatever the pages hold, the scan ends, its trail is a
   * chain of rising leaves, and it yields what lies within the bounds on that trail.
   */
  method RangeEntries(pages: PageMap, h: Header, c: Caps, unique: bool, b: Bound, ghost s: Shape, ghost free: seq<nat>)
    returns (out: seq<Entry>, r: RangeEnd, ghost trail: seq<nat>)
    ensures r.Inverted? <==> b.lower.Just? && b.upper.Just? && b.lower.value > b.upper.value
    ensures Trail(pages, trail) && out == Within(TrailEntries(pages, trail), b)
    ensures WellFormed(pages, h, s, free, c, unique) && !r.Inverted? ==>
              r.Finished? && out == Within(ShapeContents(s), b)
  {
    out, trail := [], [];
    if b.lower.Just? && b.upper.Just? && b.lower.value > b.upper.value {
      return out, Inverted, trail;
    }
    if WellFormed(pages, h, s, free, c, unique) {
      EmptyShape(pages, h, s, free, c, unique);
    }
    if h.entryCount == 0 {
      return out, Finished, trail;
    }
    if b.lower.Just? && b.upper.Just? && b.lower.value == b.upper.value && (!b.includeLower || !b.includeUpper) {
      WithinNone(ShapeContents(s), b);
      return out, Finished, trail;
    }
    var link;
    ghost var path;
    link, path := StartRange(pages, h, c, unique, b, s, free);
    if link.Corrupt? {
      return out, Damaged, trail;
    }
    var fullScan := b.lower == Nothing && b.upper == Nothing;
    OneLeafTrail(pages, link.leaf);
    assert WellFormed(pages, h, s, free, c, unique) ==>
        Standing(pages, s, path, Before(path), [link.leaf], link.es, link.next);
    out, r, trail := FollowChain(pages, h, c, unique, b, fullScan, link.leaf, link.es, link.next, s, free, path);
  }

  // Point scans.

  function Only(key: Key): Bound {
    Bound(Just(key), Just(key), true, true)
  }

  function RidsOf(s: seq<Entry>): (r: seq<Rid>)
    ensures |r| == |s|
  {
    seq(|s|, i requires 0 <= i < |s| => s[i].rid)
  }

  /** Goes over one leaf: yields the RIDs of a key, and stops above it. */
  method ScanKey(es: seq<Entry>, key: Key) returns (rids: seq<Rid>, stop: bool)
    requires Sorted(es)
    ensures rids == RidsOf(Within(es, Only(key)))
    ensures stop ==> es != [] && Above(es[|es| - 1].key, Only(key))
  {
    rids, stop := [], false;
    var i := 0;
    while i < |es|
      invariant i <= |es| && rids == RidsOf(Within(es[..i], Only(key)))
    {
      assert es[..i + 1][..i] == es[..i];
      if es[i].key == key {
        rids := rids + [es[i].rid];
      } else if es[i].key > key {
        assert es == es[..i] + es[i..];
        NothingAfter(es[..i], es[i..], Only(key));
        assert Rises(es, i, |es| - 1);
        return rids, true;
      }
      i := i + 1;
    }
    assert es[..|es|] == es;
  }

  lemma {:induction false} RidsConcat(a: seq<Entry>, b: seq<Entry>)
    ensures RidsOf(a + b) == RidsOf(a) + RidsOf(b)
  {
  }

  /** Yields the RIDs of a key, across as many leaves as it spans. */
  method Search(pages: PageMap, h: Header, c: Caps, unique: bool, key: Key, ghost s: Shape, ghost free: seq<nat>)
    returns (rids: seq<Rid>, sound: bool, ghost trail: seq<nat>)
    ensures Trail(pages, trail) && rids == RidsOf(Within(TrailEntries(pages, trail), Only(key)))
    ensures WellFormed(pages, h, s, free, c, unique) ==> sound && rids == RidsOf(Within(ShapeContents(s), Only(key)))
  {
    rids, trail := [], [];
    if WellFormed(pages, h, s, free, c, unique) {
      EmptyShape(pages, h, s, free, c, unique);
    }
    var reached;
    ghost var path;
    reached, path := Descend(pages, h, c, unique, key, s, free);
    if !reached.Reached? {
      return rids, reached.NoTree?, trail;
    }
    var leaf, es, next := reached.d.leaf, reached.d.es, reached.d.next;
    var visited := [leaf];
    ghost var start, b := Before(path), Only(key);
    if WellFormed(pages, h, s, free, c, unique) {
      WithinNone(start, b);
    }
    ClimbsIsSorted(es);
    trail := [leaf];
    OneLeafTrail(pages, leaf);
    assert RidsOf(Within([], b)) == [];
    while true
      invariant Trail(pages, trail) && trail != [] && trail[|trail| - 1] == leaf && pages[leaf] == LeafPage(es, next)
      invariant Sorted(es) && RidsOf(Within(TrailEntries(pages, trail), b)) == rids + RidsOf(Within(es, b))
      invariant Remembered(visited, trail)
      invariant OnCourse(pages, h, s, free, c, unique, b, path, start, trail, es, next)
      decreases |pages| - |trail|
    {
      var part, stop := ScanKey(es, key);
      rids := rids + part;
      if stop {
        if WellFormed(pages, h, s, free, c, unique) {
          CourseEnds(pages, h, s, free, c, unique, b, path, start, trail, es, next, true);
        }
        return rids, true, trail;
      }
      var more;
      more, visited, path := Advance(pages, h, c, unique, leaf, es, next, visited, s, free, b, path, start, trail);
      hide OnCourse, Trail, Within, RidsOf;
      if !more.Next? {
        return rids, more.End?, trail;
      }
      WithinConcat(TrailEntries(pages, trail), more.es, b);
      RidsConcat(Within(TrailEntries(pages, trail), b), Within(more.es, b));
      trail := trail + [more.leaf];
      leaf, es, next := more.leaf, more.es, more.next;
    }
  }

  // What the results mean.

  /** A range holds exactly the entries within its bounds. */
  lemma {:induction false} WithinMeans(s: seq<Entry>, b: Bound, e: Entry)
    ensures e in Within(s, b) <==> e in s && InBounds(e.key, b)
  {
    if s != [] {
      WithinMeans(s[..|s| - 1], b, e);
      assert s == s[..|s| - 1] + [s[|s| - 1]];
    }
  }

  /** Ranges of ordered entries are ordered. */
  lemma {:induction false} WithinOrdered(s: seq<Entry>, b: Bound)
    requires Sorted(s)
    ensures Sorted(Within(s, b))
  {
    var lo, hi := WithinIsSlice(s, b);
    assert s == s[..lo] + s[lo..hi] + s[hi..];
    OrderedMiddle(s[..lo], s[lo..hi], s[hi..], false);
  }

  ghost predicate RidsRise(r: seq<Rid>, i: int, j: int) {
    0 <= i < j < |r| ==> RidLess(r[i], r[j])
  }

  /** A search yields exactly the RIDs of the key, in increasing order. */
  lemma {:induction false} SearchMeans(s: seq<Entry>, key: Key, rids: seq<Rid>)
    requires Sorted(s) && rids == RidsOf(Within(s, Only(key)))
    ensures forall r :: r in rids <==> Entry(key, r) in s
    ensures forall i, j :: RidsRise(rids, i, j)
  {
    var found := Within(s, Only(key));
    WithinOrdered(s, Only(key));
    forall i | 0 <= i < |found|
      ensures found[i] == Entry(key, rids[i]) && found[i] in s
    {
      WithinMeans(s, Only(key), found[i]);
    }
    forall r | Entry(key, r) in s
      ensures r in rids
    {
      WithinMeans(s, Only(key), Entry(key, r));
      var i :| 0 <= i < |found| && found[i] == Entry(key, r);
      assert rids[i] == r;
    }
    forall i, j
      ensures RidsRise(rids, i, j)
    {
      assert Rises(found, i, j);
    }
  }
}
