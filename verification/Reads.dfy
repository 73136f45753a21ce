/** Reading a well-formed index: lower-bound descent and the path cursor over its leaves. */
module Reads {
  import opened Entries
  import opened Trees
  import opened Pages
  import opened Paths
  import opened Headers
  import opened Cursors

  /**
   * Reads a page that the tree references. The preconditions are the checks made on the
   * reference and on the page, so every use proves that they pass.
   */
  function ReadReachable(pages: PageMap, h: Header, unique: bool, id: nat): (p: Page)
    requires 1 <= id <= h.pageCount
    requires h.freeHead != Some(id)
    requires id in pages && !pages[id].FreePage?
    requires unique && pages[id].LeafPage? ==> DistinctKeys(pages[id].es)
  {
    pages[id]
  }

  /** The first child whose right separator is not below the key. */
  method ChooseChild(keys: seq<Key>, key: Key) returns (child: nat)
    ensures child <= |keys|
    ensures child > 0 ==> keys[child - 1] < key
    ensures child < |keys| ==> keys[child] >= key
  {
    child := 0;
    while child < |keys| && keys[child] < key
      invariant child <= |keys|
      invariant child > 0 ==> keys[child - 1] < key
    {
      child := child + 1;
    }
  }

  datatype Option<T> = Nothing | Just(value: T)

  predicate NoEqualNeighbours(es: seq<Entry>) {
    forall i :: 0 <= i < |es| - 1 ==> es[i].key != es[i + 1].key
  }

  lemma {:induction false} DistinctNeighbours(es: seq<Entry>)
    requires DistinctKeys(es)
    ensures NoEqualNeighbours(es)
  {
    forall i | 0 <= i < |es| - 1
      ensures es[i].key != es[i + 1].key
    {
      assert KeyRises(es, i, i + 1);
    }
  }

  /** Reads a referenced page of an index that may be corrupt. */
  function TryRead(pages: PageMap, h: Header, c: Caps, unique: bool, ref: Ref): (r: Option<Page>)
    ensures r.Just? ==> ref.Some? && 1 <= ref.page <= h.pageCount && h.freeHead != ref
                        && ref.page in pages && r.value == pages[ref.page] && !r.value.FreePage?
                        && Decodes(ref.page, r.value, c)
    ensures r.Just? && unique && r.value.LeafPage? ==> NoEqualNeighbours(r.value.es)
  {
    if ref == None || !(1 <= ref.page <= h.pageCount) || ref == h.freeHead then Nothing
    else if ref.page !in pages || !Decodes(ref.page, pages[ref.page], c) || pages[ref.page].FreePage? then Nothing
    else if unique && pages[ref.page].LeafPage? && !NoEqualNeighbours(pages[ref.page].es) then Nothing
    else Just(pages[ref.page])
  }

  /** Every page of a well-formed tree passes the checks made when it is read. */
  lemma {:induction false} NodeDecodes(pages: PageMap, h: Header, s: Shape, free: seq<nat>, c: Caps, unique: bool,
                                       path: Path, t: Tree)
    requires WellFormed(pages, h, s, free, c, unique) && s.Of? && Rebuild(path, t) == s.tree
    ensures t.id in pages && Decodes(t.id, pages[t.id], c)
  {
    Inside(pages, h, s, free, c, unique, path, t);
    Opened(pages, h, s, free, c, unique, path, t);
    hide WellBuilt, Decodes, Covers, GoodPath, HoldsPath;
    SafeWrite(path, t, h.height - |path|, c, free, h.pageCount, Contents(s.tree), unique);
    DecodesIsWellBuilt(t.id, pages[t.id], c);
  }

  /** A read that the index invariant lets through. */
  lemma {:induction false} ReadsOnTheWay(pages: PageMap, h: Header, s: Shape, free: seq<nat>, c: Caps, unique: bool,
                                         path: Path, t: Tree)
    requires WellFormed(pages, h, s, free, c, unique) && s.Of? && Rebuild(path, t) == s.tree
    ensures |path| < h.height && (t.Node? <==> |path| < h.height - 1)
    ensures t.id in pages && TryRead(pages, h, c, unique, Some(t.id)) == Just(pages[t.id]) && PathCount(path, t.id) == 0
    ensures t.Leaf? ==> t.es != [] && pages[t.id] == LeafPage(t.es, NextOf(path))
    ensures t.Node? ==> t.kids != [] && pages[t.id] == InternalOf(t.kids)
  {
    ReadsNode(pages, h, s, free, c, unique, path, t);
    NodeDecodes(pages, h, s, free, c, unique, path, t);
    hide WellFormed, Decodes;
    if t.Leaf? && unique {
      DistinctNeighbours(t.es);
    }
  }

  datatype DescentResult = NoTree | Broken | Reached(d: Descent)

  /** Where a descent of a well-formed index has got to. */
  ghost predicate OnTheWay(pages: PageMap, h: Header, s: Shape, key: Key, current: Ref, ancestors: seq<PathEntry>,
                           path: Path, t: Tree, visited: set<nat>) {
    && s.Of? && Rebuild(path, t) == s.tree && current == Some(t.id)
    && Tracks(pages, path, ancestors)
    && (forall v :: v in visited ==> PathCount(path, v) >= 1)
    && Bounds(path, MinKey(t), key)
  }

  lemma {:induction false} TracksDown(pages: PageMap, path: Path, f: Frame, ancestors: seq<PathEntry>, e: PathEntry)
    requires Tracks(pages, path, ancestors) && e.id == f.id && e.child == |f.left|
    requires f.id in pages && pages[f.id] == InternalPage(e.keys, e.children)
    ensures Tracks(pages, path + [f], ancestors + [e])
  {
  }

  /** The child chosen below a node on the way is on the way. */
  lemma {:induction false} StaysOnTheWay(pages: PageMap, h: Header, s: Shape, free: seq<nat>, c: Caps, unique: bool,
                                         key: Key, current: nat, ancestors: seq<PathEntry>, path: Path, t: Tree,
                                         visited: set<nat>, node: Page, child: nat)
    returns (path': Path, t': Tree)
    requires WellFormed(pages, h, s, free, c, unique)
    requires OnTheWay(pages, h, s, key, Some(current), ancestors, path, t, visited)
    requires TryRead(pages, h, c, unique, Some(current)) == Just(node) && node.InternalPage?
    requires child <= |node.keys| && (child > 0 ==> node.keys[child - 1] < key)
    requires (child < |node.keys| ==> node.keys[child] >= key)
    ensures child < |node.children| && current !in visited
    ensures OnTheWay(pages, h, s, key, Some(node.children[child]),
                     ancestors + [PathEntry(current, node.keys, node.children, child)],
                     path', t', visited + {current})
  {
    ReadsOnTheWay(pages, h, s, free, c, unique, path, t);
    assert |t.kids| == |node.keys| + 1 && node.children[child] == t.kids[child].id;
    ChosenChild(pages, h, s, free, c, unique, path, t, child, key);
    hide WellFormed, TryRead, Tracks, Bounds, InternalOf, Rebuild, PathCount;
    StepDown(path, t, child);
    path', t' := path + [ChildFrame(t, child)], t.kids[child];
    TracksDown(pages, path, ChildFrame(t, child), ancestors, PathEntry(current, node.keys, node.children, child));
  }

  /** One level of a descent: reads an internal node and chooses a child of it. */
  method DescendOne(pages: PageMap, h: Header, c: Caps, unique: bool, current: Ref, ancestors: seq<PathEntry>, key: Key,
                    ghost s: Shape, ghost free: seq<nat>, ghost path: Path, ghost t: Tree, ghost visited: set<nat>)
    returns (e: Option<PathEntry>, ghost path': Path, ghost t': Tree)
    requires |ancestors| + 1 < h.height
    ensures e.Just? ==> e.value.child < |e.value.children|
    ensures WellFormed(pages, h, s, free, c, unique)
            && OnTheWay(pages, h, s, key, current, ancestors, path, t, visited) ==>
              && e.Just? && current.page !in visited
              && OnTheWay(pages, h, s, key, Some(e.value.children[e.value.child]), ancestors + [e.value], path', t',
                          visited + {current.page})
  {
    ghost var wf := WellFormed(pages, h, s, free, c, unique)
        && OnTheWay(pages, h, s, key, current, ancestors, path, t, visited);
    path', t' := path, t;
    if wf {
      ReadsOnTheWay(pages, h, s, free, c, unique, path, t);
    }
    var node := TryRead(pages, h, c, unique, current);
    if node == Nothing || !node.value.InternalPage? {
      return Nothing, path, t;
    }
    var child := ChooseChild(node.value.keys, key);
    if wf {
      path', t' := StaysOnTheWay(pages, h, s, free, c, unique, key, current.page, ancestors, path, t, visited,
                                 node.value, child);
    }
    e := Just(PathEntry(current.page, node.value.keys, node.value.children, child));
  }

  /**
   * Lower-bound descent that captures the ancestors. On a corrupt index it may report
   * corruption; on a well-formed one it reaches the leaf that bounds the key.
   */
  method Descend(pages: PageMap, h: Header, c: Caps, unique: bool, key: Key, ghost s: Shape, ghost free: seq<nat>)
    returns (r: DescentResult, ghost path: Path)
    ensures r.NoTree? <==> h.entryCount == 0
    ensures r.Reached? ==> r.d.es != [] && r.d.leaf in pages && pages[r.d.leaf] == LeafPage(r.d.es, r.d.next)
    ensures r.Reached? ==> TryRead(pages, h, c, unique, Some(r.d.leaf)).Just?
    ensures WellFormed(pages, h, s, free, c, unique) && s.Of? ==>
              r.Reached? && At(pages, s.tree, path, r.d) && Bounds(path, r.d.es[0].key, key)
  {
    path := [];
    if h.entryCount == 0 {
      ghost var wf := WellFormed(pages, h, s, free, c, unique);
      if wf {
        EmptyShape(pages, h, s, free, c, unique);
      }
      return NoTree, path;
    }
    ghost var wf, t := WellFormed(pages, h, s, free, c, unique) && s.Of?, if s.Of? then s.tree else Leaf(0, []);
    var current, ancestors := h.root, [];
    var visited: set<nat> := {};
    while |ancestors| + 1 < h.height
      invariant wf ==> OnTheWay(pages, h, s, key, current, ancestors, path, t, visited) && |path| < h.height
      decreases h.height - |ancestors|
    {
      if wf {
        ReadsOnTheWay(pages, h, s, free, c, unique, path, t);
      }
      if current == None || current.page in visited {
        return Broken, path;
      }
      var e;
      e, path, t := DescendOne(pages, h, c, unique, current, ancestors, key, s, free, path, t, visited);
      if e == Nothing {
        return Broken, path;
      }
      visited := visited + {current.page};
      current, ancestors := Some(e.value.children[e.value.child]), ancestors + [e.value];
    }
    if wf {
      ReadsOnTheWay(pages, h, s, free, c, unique, path, t);
    }
    if h.height == 0 || current == None || current.page in visited {
      return Broken, path;
    }
    var node := TryRead(pages, h, c, unique, current);
    if node == Nothing || !node.value.LeafPage? || node.value.es == [] {
      return Broken, path;
    }
    r := Reached(Descent(current.page, node.value.es, node.value.next, ancestors));
  }

  /** Re-checks that a captured path still leads from the root to its leaf. */
  method ValidatePath(pages: PageMap, h: Header, c: Caps, unique: bool, d: Descent,
                      ghost s: Shape, ghost free: seq<nat>, ghost path: Path)
    returns (ok: bool)
    requires WellFormed(pages, h, s, free, c, unique) && s.Of? && At(pages, s.tree, path, d)
    ensures ok
  {
    ReadsNode(pages, h, s, free, c, unique, path, Leaf(d.leaf, d.es));
    if |d.ancestors| != h.height - 1 {
      return false;
    }
    var child := d.leaf;
    ghost var p, t := path, Leaf(d.leaf, d.es);
    var i := |d.ancestors|;
    while i > 0
      invariant i == |p| <= |d.ancestors| && child == t.id && Rebuild(p, t) == s.tree
      invariant Tracks(pages, p, d.ancestors[..i])
    {
      i := i - 1;
      var e := d.ancestors[i];
      ReadsAncestor(pages, h, s, free, c, unique, p, t, d.ancestors[..i + 1]);
      assert d.ancestors[..i + 1][..i] == d.ancestors[..i] && d.ancestors[..i + 1] == d.ancestors[..i] + [e];
      if e.child >= |e.children| || e.children[e.child] != child {
        return false;
      }
      child := e.id;
      p, t := Outer(p), Plug(Inner(p), t);
    }
    ok := Some(child) == h.root;
  }

  /** Descends to the first leaf of a subtree. */
  method LeftEdge(pages: PageMap, h: Header, c: Caps, unique: bool, start: nat, before: seq<PathEntry>,
                  ghost s: Shape, ghost free: seq<nat>, ghost path: Path, ghost t: Tree)
    returns (d: Descent, ghost path': Path)
    requires WellFormed(pages, h, s, free, c, unique) && s.Of?
    requires Rebuild(path, t) == s.tree && Tracks(pages, path, before) && start == t.id
    ensures At(pages, s.tree, path', d) && d.es != []
    ensures Before(path') == Before(path) && d.leaf == First(t)
  {
    ghost var u := t;
    var current, ancestors := start, before;
    path' := path;
    ReadsNode(pages, h, s, free, c, unique, path, t);
    while |ancestors| < h.height - 1
      invariant |ancestors| == |path'| <= h.height - 1
      invariant Rebuild(path', u) == s.tree && Tracks(pages, path', ancestors) && current == u.id
      invariant Before(path') == Before(path) && First(u) == First(t)
    {
      ReadsNode(pages, h, s, free, c, unique, path', u);
      var node := ReadReachable(pages, h, unique, current);
      GoDownLeft(path', u);
      ancestors := ancestors + [PathEntry(current, node.keys, node.children, 0)];
      path', u := path' + [ChildFrame(u, 0)], u.kids[0];
      current := node.children[0];
    }
    ReadsNode(pages, h, s, free, c, unique, path', u);
    var node := ReadReachable(pages, h, unique, current);
    d := Descent(current, node.es, node.next, ancestors);
  }

  /** Moves the cursor one child to the right at an ancestor and descends to the first leaf there. */
  method EnterRight(pages: PageMap, h: Header, c: Caps, unique: bool, before: seq<PathEntry>, e: PathEntry,
                    ghost s: Shape, ghost free: seq<nat>, ghost p: Path, ghost t: Tree)
    returns (d: Descent, ghost path': Path)
    requires WellFormed(pages, h, s, free, c, unique) && s.Of? && p != [] && Rebuild(p, t) == s.tree
    requires Tracks(pages, p, before + [e]) && e.child + 1 < |e.children|
    ensures At(pages, s.tree, path', d) && d.es != []
    ensures Before(path') == Before(p) + Contents(t) && NextOf(p) == Some(d.leaf)
  {
    ReadsAncestor(pages, h, s, free, c, unique, p, t, before + [e]);
    assert (before + [e])[..|p| - 1] == before && |e.children| == |Inner(p).left| + 1 + |Inner(p).right|;
    ShiftRight(p, t);
    assert e.children[e.child + 1] == Inner(p).right[0].id;
    ghost var path, f := Outer(p) + [Shifted(Inner(p), t)], Shifted(Inner(p), t);
    var moved := e.(child := e.child + 1);
    TracksDown(pages, Outer(p), f, before, moved);
    d, path' := LeftEdge(pages, h, c, unique, e.children[e.child + 1], before + [moved], s, free, path,
                         Inner(p).right[0]);
  }

  /** The next leaf in order, found by advancing the captured path as a cursor. */
  method Successor(pages: PageMap, h: Header, c: Caps, unique: bool, d: Descent,
                   ghost s: Shape, ghost free: seq<nat>, ghost path: Path)
    returns (found: bool, d': Descent, ghost path': Path)
    requires WellFormed(pages, h, s, free, c, unique) && s.Of? && At(pages, s.tree, path, d)
    ensures found ==> At(pages, s.tree, path', d') && d'.es != [] && Before(path') == Before(path) + d.es
    ensures found ==> After(path) == d'.es + After(path')
    ensures d.next == if found then Some(d'.leaf) else None
    ensures !found ==> After(path) == []
  {
    ghost var p, t := path, Leaf(d.leaf, d.es);
    var i := |d.ancestors|;
    while i > 0
      invariant i == |p| <= |d.ancestors| && Rebuild(p, t) == s.tree
      invariant Tracks(pages, p, d.ancestors[..i])
      invariant Before(p) + Contents(t) == Before(path) + d.es
      invariant After(p) == After(path) && NextOf(p) == NextOf(path)
    {
      i := i - 1;
      var e := d.ancestors[i];
      ReadsAncestor(pages, h, s, free, c, unique, p, t, d.ancestors[..i + 1]);
      assert d.ancestors[..i + 1][..i] == d.ancestors[..i] && d.ancestors[..i + 1] == d.ancestors[..i] + [e];
      if e.child + 1 < |e.children| {
        found := true;
        d', path' := EnterRight(pages, h, c, unique, d.ancestors[..i], e, s, free, p, t);
        RestAfter(path, d, path', d');
        return;
      }
      ClimbOut(p, t);
      p, t := Outer(p), Plug(Inner(p), t);
    }
    found, d', path' := false, d, path;
  }

  /** The pages of a subtree may be referenced: they are node pages, and not the free page the header names. */
  ghost predicate Referable(t: Tree, h: Header) {
    forall x: nat :: Count(t, x) > 0 ==> Count(t, x) == 1 && 1 <= x <= h.pageCount && h.freeHead != Some(x)
  }

  /** A subtree that a walk down its left edge can read. */
  ghost predicate Walkable(pages: PageMap, t: Tree, next: Ref, height: nat, c: Caps, h: Header, unique: bool) {
    && c.Usable() && Good(t, height, c) && Holds(pages, t, next) && Referable(t, h) && Ordered(Contents(t), unique)
  }

  lemma {:induction false} WalkDown(pages: PageMap, t: Tree, next: Ref, height: nat, c: Caps, h: Header, unique: bool)
    requires Walkable(pages, t, next, height, c, h, unique)
    ensures Count(t, t.id) == 1 && t.id in pages && 1 <= t.id <= h.pageCount && h.freeHead != Some(t.id)
    ensures t.Leaf? ==>
              && t.es != [] && pages[t.id] == LeafPage(t.es, next) && MinKey(t) == t.es[0].key
              && (unique ==> DistinctKeys(t.es))
    ensures t.Node? ==>
              && t.kids != [] && height >= 2 && pages[t.id] == InternalOf(t.kids)
              && MinKey(t) == MinKey(t.kids[0])
    ensures t.Node? ==> Walkable(pages, t.kids[0], Head(t.kids[1..], next), height - 1, c, h, unique)
    ensures t.Node? ==> forall x :: Count(t.kids[0], x) + (if t.id == x then 1 else 0) <= Count(t, x)
  {
    assert Count(t, t.id) > 0;
    if t.Node? {
      var k := t.kids[0];
      forall x: nat
        ensures Count(k, x) + (if t.id == x then 1 else 0) <= Count(t, x)
        ensures Count(k, x) > 0 ==> Count(k, x) == 1 && 1 <= x <= h.pageCount && h.freeHead != Some(x)
      {
        KidCounts(t.kids, 0, x);
        assert Count(t, x) > 0 ==> Count(t, x) == 1;
      }
      assert HoldsOf(pages, t.kids, next);
      assert Contents(t) == [] + Contents(k) + ContentsOf(t.kids[1..]);
      OrderedMiddle([], Contents(k), ContentsOf(t.kids[1..]), unique);
    }
  }

  /** The least key of a subtree, read down its left edge. */
  method SubtreeMinimum(pages: PageMap, h: Header, unique: bool, page: nat,
                        ghost t: Tree, ghost next: Ref, ghost height: nat, ghost c: Caps)
    returns (m: Key)
    requires Walkable(pages, t, next, height, c, h, unique) && page == t.id
    ensures m == MinKey(t)
  {
    var current := page;
    var visited: set<nat> := {};
    ghost var u, nx, k := t, next, height;
    while true
      invariant Walkable(pages, u, nx, k, c, h, unique) && current == u.id && MinKey(u) == MinKey(t)
      invariant forall v :: v in visited ==> Count(u, v) == 0
      decreases u
    {
      WalkDown(pages, u, nx, k, c, h, unique);
      assert current !in visited;
      visited := visited + {current};
      var node := ReadReachable(pages, h, unique, current);
      if node.LeafPage? {
        return node.es[0].key;
      }
      current := node.children[0];
      u, nx, k := u.kids[0], Head(u.kids[1..], nx), k - 1;
    }
  }
}
