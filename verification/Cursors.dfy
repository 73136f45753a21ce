/** The captured root-to-leaf path, how a descent narrows a key down, and how a path moves to the next leaf. */
module Cursors {
  import opened Entries
  import opened Trees
  import opened Pages
  import opened Paths
  import opened Headers

  /** One internal ancestor as it was read, and the child chosen in it. */
  datatype PathEntry = PathEntry(id: nat, keys: seq<Key>, children: seq<nat>, child: nat)

  /** A leaf as it was read, and the path to it, the root first. */
  datatype Descent = Descent(leaf: nat, es: seq<Entry>, next: Ref, ancestors: seq<PathEntry>)

  /** The captured ancestors are the current pages of the frames. */
  ghost predicate Tracks(pages: PageMap, path: Path, ancestors: seq<PathEntry>) {
    && |ancestors| == |path|
    && forall i :: 0 <= i < |path| ==>
         && ancestors[i].id == path[i].id
         && ancestors[i].child == |path[i].left|
         && path[i].id in pages
         && pages[path[i].id] == InternalPage(ancestors[i].keys, ancestors[i].children)
  }

  /** The descent d sits at this position of the tree. */
  ghost predicate At(pages: PageMap, root: Tree, path: Path, d: Descent) {
    && Rebuild(path, Leaf(d.leaf, d.es)) == root
    && Tracks(pages, path, d.ancestors)
    && d.next == NextOf(path)
  }

  ghost predicate AllBelow(s: seq<Entry>, key: Key) {
    forall i :: 0 <= i < |s| ==> s[i].key < key
  }

  ghost predicate AllAtLeast(s: seq<Entry>, key: Key) {
    forall i :: 0 <= i < |s| ==> s[i].key >= key
  }

  /** The position is the lower bound of key: smaller keys on its left, and none on its right. */
  ghost predicate Bounds(path: Path, min: Key, key: Key) {
    && AllBelow(Before(path), key)
    && AllAtLeast(After(path), key)
    && (Before(path) != [] ==> min < key)
  }

  lemma {:induction false} KeysBelow(a: seq<Entry>, b: seq<Entry>, key: Key)
    requires Sorted(a + b) && b != [] && b[0].key < key
    ensures AllBelow(a, key)
  {
    assert (a + b)[|a|] == b[0];
    assert forall i :: 0 <= i < |a| ==> Rises(a + b, i, |a|) && (a + b)[i] == a[i];
  }

  lemma {:induction false} KeysFrom(a: seq<Entry>, b: seq<Entry>, key: Key)
    requires Sorted(a + b) && b != [] && b[0].key >= key
    ensures AllAtLeast(b, key)
  {
    assert forall i :: 0 < i < |b| ==> Rises(a + b, |a|, |a| + i) && (a + b)[|a| + i] == b[i];
  }

  lemma {:induction false} BoundsLeft(path: Path, f: Frame, u: Tree, key: Key, h: nat, c: Caps)
    requires c.Usable() && Good(u, h, c)
    requires Sorted(Contents(Rebuild(path + [f], u)))
    requires if f.left == [] then AllBelow(Before(path), key) else MinKey(u) < key
    ensures AllBelow(Before(path + [f]), key)
  {
    assert Outer(path + [f]) == path;
    RebuildContents(path + [f], u);
    GoodContents(u, h, c);
    var before, after := Before(path + [f]), After(path + [f]);
    if f.left == [] {
      assert before == Before(path) + [];
    } else {
      GroupRight(before, Contents(u), after);
      KeysBelow(before, Contents(u) + after, key);
    }
  }

  lemma {:induction false} BoundsRight(path: Path, f: Frame, u: Tree, key: Key, h: nat, c: Caps)
    requires c.Usable() && GoodAll(f.right, h, c)
    requires Sorted(Contents(Rebuild(path + [f], u)))
    requires if f.right == [] then AllAtLeast(After(path), key) else MinKey(f.right[0]) >= key
    ensures AllAtLeast(After(path + [f]), key)
  {
    assert Outer(path + [f]) == path;
    RebuildContents(path + [f], u);
    var before, after := Before(path + [f]), After(path + [f]);
    if f.right == [] {
      assert after == [] + After(path);
    } else {
      GoodContents(f.right[0], h, c);
      assert after[0] == ContentsOf(f.right)[0];
      KeysFrom(before + Contents(u), after, key);
    }
  }

  /** Choosing the first child whose right separator is not below the key keeps the bounds. */
  lemma {:induction false} BoundsStep(path: Path, t: Tree, i: nat, key: Key, h: nat, c: Caps)
    requires c.Usable() && Good(t, h, c) && t.Node? && i < |t.kids|
    requires Sorted(Contents(Rebuild(path, t)))
    requires Bounds(path, MinKey(t), key)
    requires i > 0 ==> MinKey(t.kids[i]) < key
    requires i + 1 < |t.kids| ==> MinKey(t.kids[i + 1]) >= key
    ensures Bounds(path + [ChildFrame(t, i)], MinKey(t.kids[i]), key)
  {
    var f := ChildFrame(t, i);
    StepDown(path, t, i);
    BoundsLeft(path, f, t.kids[i], key, h - 1, c);
    BoundsRight(path, f, t.kids[i], key, h - 1, c);
    if i == 0 {
      assert Before(path + [f]) == Before(path) + [];
    }
  }

  lemma {:induction false} SeparatorAt(kids: seq<Tree>, i: nat)
    requires i + 1 < |kids|
    ensures InternalOf(kids).keys[i] == MinKey(kids[i + 1])
  {
  }

  /** The same for a well-formed index, told in terms of the separators that a descent reads. */
  lemma {:induction false} ChosenChild(pages: PageMap, h: Header, s: Shape, free: seq<nat>, c: Caps, unique: bool,
                                       path: Path, t: Tree, i: nat, key: Key)
    requires WellFormed(pages, h, s, free, c, unique) && s.Of?
    requires Rebuild(path, t) == s.tree && t.Node? && i < |t.kids|
    requires Bounds(path, MinKey(t), key)
    requires i > 0 ==> InternalOf(t.kids).keys[i - 1] < key
    requires i + 1 < |t.kids| ==> InternalOf(t.kids).keys[i] >= key
    ensures Bounds(path + [ChildFrame(t, i)], MinKey(t.kids[i]), key)
  {
    GoodInside(pages, h, s, free, c, unique, path, t);
    if i > 0 {
      SeparatorAt(t.kids, i - 1);
    }
    if i + 1 < |t.kids| {
      SeparatorAt(t.kids, i);
    }
    BoundsStep(path, t, i, key, h.height - |path|, c);
  }

  /** What follows a leaf is the next leaf and what follows that. */
  lemma {:induction false} RestAfter(path: Path, d: Descent, path': Path, d': Descent)
    requires Rebuild(path, Leaf(d.leaf, d.es)) == Rebuild(path', Leaf(d'.leaf, d'.es))
    requires Before(path') == Before(path) + d.es
    ensures After(path) == d'.es + After(path')
  {
    RebuildContents(path, Leaf(d.leaf, d.es));
    RebuildContents(path', Leaf(d'.leaf, d'.es));
    GroupRight(Before(path) + d.es, d'.es, After(path'));
    CancelLeft(Before(path) + d.es, After(path), d'.es + After(path'));
  }

  /** The innermost captured ancestor shows the children of its frame. */
  lemma {:induction false} ReadsAncestor(pages: PageMap, h: Header, s: Shape, free: seq<nat>, c: Caps, unique: bool,
                                         path: Path, t: Tree, ancestors: seq<PathEntry>)
    requires WellFormed(pages, h, s, free, c, unique) && s.Of?
    requires path != [] && Rebuild(path, t) == s.tree && Tracks(pages, path, ancestors)
    ensures Tracks(pages, Outer(path), ancestors[..|path| - 1])
    ensures var e, f := ancestors[|path| - 1], Inner(path);
            && e.id == f.id
            && e.child == |f.left|
            && e.children == KidIds(f.left) + [t.id] + KidIds(f.right)
  {
    Inside(pages, h, s, free, c, unique, path, t);
  }

  /** The frame after moving one child to the right. */
  ghost function Shifted(f: Frame, t: Tree): Frame
    requires f.right != []
  {
    Frame(f.id, f.left + [t], f.right[1..])
  }

  /** Moving one child to the right passes over exactly that child. */
  lemma {:induction false} ShiftRight(path: Path, t: Tree)
    requires path != [] && Inner(path).right != []
    ensures var path', u := Outer(path) + [Shifted(Inner(path), t)], Inner(path).right[0];
            && Outer(path') == Outer(path) && Inner(path') == Shifted(Inner(path), t)
            && Rebuild(path', u) == Rebuild(path, t)
            && Before(path') == Before(path) + Contents(t)
            && NextOf(path) == Some(First(u))
  {
    var f := Inner(path);
    var path' := Outer(path) + [Shifted(f, t)];
    assert Outer(path') == Outer(path);
    assert Plug(Shifted(f, t), f.right[0]) == Plug(f, t) by {
      assert (f.left + [t]) + [f.right[0]] + f.right[1..] == f.left + [t] + f.right;
    }
    ContentsConcat(f.left, [t]);
    GroupRight(Before(Outer(path)), ContentsOf(f.left), Contents(t));
  }

  /** Climbing out of a rightmost child leaves nothing behind on the right. */
  lemma {:induction false} ClimbOut(path: Path, t: Tree)
    requires path != [] && Inner(path).right == []
    ensures Rebuild(Outer(path), Plug(Inner(path), t)) == Rebuild(path, t)
    ensures Before(Outer(path)) + Contents(Plug(Inner(path), t)) == Before(path) + Contents(t)
    ensures After(path) == After(Outer(path)) && NextOf(path) == NextOf(Outer(path))
  {
    var f := Inner(path);
    ContentsAround(f.left, t, f.right);
    assert ContentsOf(f.left) + Contents(t) + ContentsOf(f.right) == ContentsOf(f.left) + Contents(t);
    GroupRight(Before(Outer(path)), ContentsOf(f.left), Contents(t));
    assert After(path) == [] + After(Outer(path));
  }

  /** Going down to a first child passes over nothing. */
  lemma {:induction false} GoDownLeft(path: Path, t: Tree)
    requires t.Node? && t.kids != []
    ensures Before(path + [ChildFrame(t, 0)]) == Before(path)
    ensures Rebuild(path + [ChildFrame(t, 0)], t.kids[0]) == Rebuild(path, t)
    ensures First(t.kids[0]) == First(t)
  {
    StepDown(path, t, 0);
    assert Before(path + [ChildFrame(t, 0)]) == Before(path) + [];
  }

  lemma {:induction false} FrameCounted(path: Path, i: nat)
    requires i < |path|
    ensures PathCount(path, path[i].id) >= 1
    decreases |path|
  {
    if i < |path| - 1 {
      FrameCounted(Outer(path), i);
    }
  }

  lemma {:induction false} TracksFrame(pages: PageMap, pages': PageMap, w: set<nat>, path: Path,
                                       ancestors: seq<PathEntry>)
    requires Tracks(pages, path, ancestors) && Same(pages, pages', w) && PathAvoids(path, w)
    ensures Tracks(pages', path, ancestors)
  {
    forall i | 0 <= i < |path|
      ensures path[i].id !in w
    {
      FrameCounted(path, i);
    }
  }

  /** A captured ancestor that shows the innermost frame around a subtree with the given face. */
  ghost predicate Shows(path: Path, face: Face, e: PathEntry)
    requires path != []
  {
    var f := Inner(path);
    e.id == f.id && e.child == |f.left| && InternalPage(e.keys, e.children) == FramePage(f, face)
  }

  lemma {:induction false} InnerShows(pages: PageMap, path: Path, face: Face, ancestors: seq<PathEntry>)
    requires path != [] && HoldsPath(pages, path, face) && Tracks(pages, path, ancestors)
    ensures Shows(path, face, ancestors[|path| - 1]) && Tracks(pages, Outer(path), ancestors[..|path| - 1])
  {
  }
}
