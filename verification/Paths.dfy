/**
 * A position in a tree, as the stack of ancestors a mutation captures on its way down.
 * A tree is taken apart into the subtree at the position and the frames around it, so
 * that a step which rewrites the subtree can be reasoned about on its own.
 */
module Paths {
  import opened Entries
  import opened Trees
  import opened Pages

  /** One ancestor: its page and the children to the left and right of the position. */
  datatype Frame = Frame(id: nat, left: seq<Tree>, right: seq<Tree>)

  /** Ancestors, the root first. */
  type Path = seq<Frame>

  ghost function Plug(f: Frame, t: Tree): Tree {
    Node(f.id, f.left + [t] + f.right)
  }

  ghost function Outer(path: Path): Path
    requires path != []
  {
    path[..|path| - 1]
  }

  ghost function Inner(path: Path): Frame
    requires path != []
  {
    path[|path| - 1]
  }

  /** The whole tree with t at the position. */
  ghost function Rebuild(path: Path, t: Tree): Tree
    decreases |path|
  {
    if path == [] then t else Rebuild(Outer(path), Plug(Inner(path), t))
  }

  /** The entries to the left of the position. */
  ghost function Before(path: Path): seq<Entry>
    decreases |path|
  {
    if path == [] then [] else Before(Outer(path)) + ContentsOf(Inner(path).left)
  }

  /** The entries to the right of the position. */
  ghost function After(path: Path): seq<Entry>
    decreases |path|
  {
    if path == [] then [] else ContentsOf(Inner(path).right) + After(Outer(path))
  }

  /** How many nodes outside the subtree at the position sit on page x. */
  ghost function PathCount(path: Path, x: nat): nat
    decreases |path|
  {
    if path == [] then 0
    else FrameCount(Inner(path), x) + PathCount(Outer(path), x)
  }

  ghost function FrameCount(f: Frame, x: nat): nat {
    (if f.id == x then 1 else 0) + CountOf(f.left, x) + CountOf(f.right, x)
  }

  lemma {:induction false} RebuildContents(path: Path, t: Tree)
    ensures Contents(Rebuild(path, t)) == Before(path) + Contents(t) + After(path)
    decreases |path|
  {
    if path != [] {
      var f := Inner(path);
      RebuildContents(Outer(path), Plug(f, t));
      ContentsAround(f.left, t, f.right);
      Regroup(Before(Outer(path)), ContentsOf(f.left), Contents(t), ContentsOf(f.right), After(Outer(path)));
    }
  }

  lemma {:induction false} RebuildCount(path: Path, t: Tree, x: nat)
    ensures Count(Rebuild(path, t), x) == PathCount(path, x) + Count(t, x)
    decreases |path|
  {
    if path != [] {
      var f := Inner(path);
      RebuildCount(Outer(path), Plug(f, t), x);
      CountAround(f.left, t, f.right, x);
    }
  }

  /** All the frames meet the occupancy rules, given a subtree of height h at the position. */
  ghost predicate GoodPath(path: Path, h: nat, c: Caps)
    requires c.Usable()
    decreases |path|
  {
    path != [] ==>
      var f := Inner(path);
      && h >= 1
      && GoodAll(f.left, h, c)
      && GoodAll(f.right, h, c)
      && |f.left| + 1 + |f.right| <= c.internal + 1
      && |f.left| + 1 + |f.right| >= (if |path| == 1 then 2 else c.MinInternal() + 1)
      && GoodPath(Outer(path), h + 1, c)
  }


  lemma {:induction false} GoodPlug(f: Frame, t: Tree, h: nat, c: Caps)
    requires c.Usable() && h >= 1
    requires |f.left| + 1 + |f.right| <= c.internal + 1
    ensures Good(Plug(f, t), h + 1, c) <==>
              GoodAll(f.left, h, c) && GoodAll(f.right, h, c) && Good(t, h, c) && Filled(t, c)
  {
    var kids := f.left + [t] + f.right;
    if Good(Plug(f, t), h + 1, c) {
      assert kids[|f.left|] == t;
      assert forall i :: 0 <= i < |f.left| ==> f.left[i] == kids[i];
      assert forall i :: 0 <= i < |f.right| ==> f.right[i] == kids[|f.left| + 1 + i];
    }
  }

  /** Putting a well-filled subtree at the position of a good path gives a good root. */
  lemma {:induction false} GoodRebuild(path: Path, t: Tree, h: nat, c: Caps)
    requires c.Usable() && GoodPath(path, h, c)
    requires if path == [] then GoodRoot(t, h, c) else Good(t, h, c) && Filled(t, c)
    ensures GoodRoot(Rebuild(path, t), h + |path|, c)
    decreases |path|
  {
    if path != [] {
      GoodPlug(Inner(path), t, h, c);
      GoodRebuild(Outer(path), Plug(Inner(path), t), h + 1, c);
    }
  }

  /** All an ancestor's page shows of the subtree at the position. */
  datatype Face = Face(id: nat, first: nat, min: Key)

  ghost function FaceOf(t: Tree): Face {
    Face(t.id, First(t), MinKey(t))
  }

  /** The face of the subtree one level up. */
  ghost function Up(f: Frame, face: Face): Face {
    if f.left == [] then Face(f.id, face.first, face.min)
    else Face(f.id, First(f.left[0]), MinKey(f.left[0]))
  }

  /** The leaf that follows the position in the leaf chain. */
  ghost function NextOf(path: Path): Ref
    decreases |path|
  {
    if path == [] then None else Head(Inner(path).right, NextOf(Outer(path)))
  }

  ghost function FramePage(f: Frame, face: Face): Page {
    InternalPage((Mins(f.left) + [face.min] + Mins(f.right))[1..], KidIds(f.left) + [face.id] + KidIds(f.right))
  }

  /** The pages around the position store the frames, for a subtree with the given face. */
  ghost predicate HoldsPath(pages: PageMap, path: Path, face: Face)
    decreases |path|
  {
    path != [] ==>
      var f := Inner(path);
      && f.id in pages
      && pages[f.id] == FramePage(f, face)
      && HoldsOf(pages, f.left, Some(face.first))
      && HoldsOf(pages, f.right, NextOf(Outer(path)))
      && HoldsPath(pages, Outer(path), Up(f, face))
  }

  lemma {:induction false} PlugFace(f: Frame, t: Tree)
    ensures FaceOf(Plug(f, t)) == Up(f, FaceOf(t))
  {
    var kids := f.left + [t] + f.right;
    assert kids[0] == if f.left == [] then t else f.left[0];
  }

  lemma {:induction false} PlugPage(f: Frame, t: Tree)
    ensures InternalOf(Plug(f, t).kids) == FramePage(f, FaceOf(t))
  {
    var kids := f.left + [t] + f.right;
    assert Mins(kids) == Mins(f.left) + [MinKey(t)] + Mins(f.right);
    assert KidIds(kids) == KidIds(f.left) + [t.id] + KidIds(f.right);
  }

  lemma {:induction false} PlugHolds(pages: PageMap, f: Frame, t: Tree, next: Ref)
    ensures Holds(pages, Plug(f, t), next) <==>
            && f.id in pages
            && pages[f.id] == FramePage(f, FaceOf(t))
            && HoldsOf(pages, f.left, Some(First(t)))
            && HoldsOf(pages, f.right, next)
            && Holds(pages, t, Head(f.right, next))
  {
    var kids := f.left + [t] + f.right;
    PlugPage(f, t);
    HoldsConcat(pages, f.left + [t], f.right, next);
    HoldsConcat(pages, f.left, [t], Head(f.right, next));
    HoldsOne(pages, t, Head(f.right, next));
  }

  /** Pages store a tree exactly when they store the frames and the subtree at any position. */
  lemma {:induction false} RebuildHolds(pages: PageMap, path: Path, t: Tree)
    ensures Holds(pages, Rebuild(path, t), None) <==>
            HoldsPath(pages, path, FaceOf(t)) && Holds(pages, t, NextOf(path))
    decreases |path|
  {
    if path != [] {
      var f := Inner(path);
      RebuildHolds(pages, Outer(path), Plug(f, t));
      PlugFace(f, t);
      PlugHolds(pages, f, t, NextOf(Outer(path)));
    }
  }

  ghost predicate PathAvoids(path: Path, w: set<nat>) {
    forall id :: id in w ==> PathCount(path, id) == 0
  }

  lemma {:induction false} HoldsPathFrame(pages: PageMap, pages': PageMap, w: set<nat>, path: Path, face: Face)
    requires HoldsPath(pages, path, face) && Same(pages, pages', w) && PathAvoids(path, w)
    ensures HoldsPath(pages', path, face)
    decreases |path|
  {
    if path != [] {
      var f := Inner(path);
      assert forall id :: PathCount(path, id) == FrameCount(f, id) + PathCount(Outer(path), id);
      assert FrameCount(f, f.id) >= 1;
      HoldsOfFrame(pages, pages', w, f.left, Some(face.first));
      HoldsOfFrame(pages, pages', w, f.right, NextOf(Outer(path)));
      HoldsPathFrame(pages, pages', w, Outer(path), Up(f, face));
    }
  }

  /** The converse of GoodRebuild: every position in a good root is a good one. */
  lemma {:induction false} GoodUnzip(path: Path, t: Tree, h: nat, c: Caps)
    requires c.Usable() && GoodRoot(Rebuild(path, t), h, c)
    ensures h > |path| && GoodPath(path, h - |path|, c) && Good(t, h - |path|, c)
    ensures if path == [] then GoodRoot(t, h, c) else Filled(t, c)
    decreases |path|
  {
    if path != [] {
      var f := Inner(path);
      GoodUnzip(Outer(path), Plug(f, t), h, c);
      GoodPlug(f, t, h - |path|, c);
    }
  }

  lemma {:induction false} NextIsOutside(path: Path)
    ensures NextOf(path).Some? ==> PathCount(path, NextOf(path).page) >= 1
    decreases |path|
  {
    if path != [] {
      var f := Inner(path);
      NextIsOutside(Outer(path));
      if f.right != [] {
        FirstCounts(f.right[0]);
        KidCounts(f.right, 0, First(f.right[0]));
      }
    }
  }

  /** No frame has a child to the left of the position. */
  ghost predicate Leftmost(path: Path) {
    forall i :: 0 <= i < |path| ==> path[i].left == []
  }

  lemma {:induction false} NothingBefore(path: Path, h: nat, c: Caps)
    requires c.Usable() && GoodPath(path, h, c)
    ensures Before(path) == [] <==> Leftmost(path)
    decreases |path|
  {
    if path != [] {
      var f := Inner(path);
      NothingBefore(Outer(path), h + 1, c);
      if f.left != [] {
        GoodContents(f.left[0], h, c);
      }
      assert forall i :: 0 <= i < |Outer(path)| ==> Outer(path)[i] == path[i];
    }
  }

  /** No ancestor records the least key of the leftmost subtree. */
  lemma {:induction false} MinUnseen(pages: PageMap, path: Path, face: Face, face': Face)
    requires HoldsPath(pages, path, face)
    requires face' == face.(min := face'.min)
    requires face'.min == face.min || Leftmost(path)
    ensures HoldsPath(pages, path, face')
    decreases |path|
  {
    if path != [] {
      var f := Inner(path);
      if f.left == [] {
        assert forall i :: 0 <= i < |Outer(path)| ==> Outer(path)[i] == path[i];
        MinUnseen(pages, Outer(path), Up(f, face), Up(f, face'));
        assert (Mins(f.left) + [face.min] + Mins(f.right))[1..] == Mins(f.right);
        assert (Mins(f.left) + [face'.min] + Mins(f.right))[1..] == Mins(f.right);
      }
    }
  }

  ghost function ChildFrame(t: Tree, i: nat): Frame
    requires t.Node? && i < |t.kids|
  {
    Frame(t.id, t.kids[..i], t.kids[i + 1..])
  }

  lemma {:induction false} StepDown(path: Path, t: Tree, i: nat)
    requires t.Node? && i < |t.kids|
    ensures Rebuild(path + [ChildFrame(t, i)], t.kids[i]) == Rebuild(path, t)
    ensures Outer(path + [ChildFrame(t, i)]) == path && Inner(path + [ChildFrame(t, i)]) == ChildFrame(t, i)
    ensures forall x :: PathCount(path + [ChildFrame(t, i)], x) >= PathCount(path, x) + if x == t.id then 1 else 0
  {
    var f := ChildFrame(t, i);
    assert f.left + [t.kids[i]] + f.right == t.kids;
    assert Outer(path + [f]) == path;
  }

  /** The face of the whole tree. */
  ghost function FaceUp(path: Path, face: Face): Face
    decreases |path|
  {
    if path == [] then face else FaceUp(Outer(path), Up(Inner(path), face))
  }

  lemma {:induction false} RebuildFace(path: Path, t: Tree)
    ensures FaceOf(Rebuild(path, t)) == FaceUp(path, FaceOf(t))
    decreases |path|
  {
    if path != [] {
      PlugFace(Inner(path), t);
      RebuildFace(Outer(path), Plug(Inner(path), t));
    }
  }

  /** The root page and the first leaf of the whole tree do not depend on the least key. */
  lemma {:induction false} FaceUpIds(path: Path, a: Face, b: Face)
    requires a.id == b.id && a.first == b.first
    ensures FaceUp(path, a).id == FaceUp(path, b).id && FaceUp(path, a).first == FaceUp(path, b).first
    decreases |path|
  {
    if path != [] {
      FaceUpIds(Outer(path), Up(Inner(path), a), Up(Inner(path), b));
    }
  }

  /** The frames, the subtrees at the position and the free list use every page once. */
  ghost predicate CoversAt(path: Path, ts: seq<Tree>, free: seq<nat>, n: nat, x: nat) {
    PathCount(path, x) + CountOf(ts, x) + FreeCount(free, x) == if 1 <= x <= n then 1 else 0
  }

  ghost predicate Covers(path: Path, ts: seq<Tree>, free: seq<nat>, n: nat) {
    forall x :: CoversAt(path, ts, free, n, x)
  }

  /** The innermost frame's own page is used by nothing else. */
  lemma {:induction false} FrameIsAlone(path: Path, ts: seq<Tree>, free: seq<nat>, n: nat)
    requires path != [] && Covers(path, ts, free, n)
    ensures var f := Inner(path);
            && 1 <= f.id <= n
            && CountOf(f.left, f.id) == 0 && CountOf(f.right, f.id) == 0
            && PathCount(Outer(path), f.id) == 0 && CountOf(ts, f.id) == 0 && FreeCount(free, f.id) == 0
  {
    assert CoversAt(path, ts, free, n, Inner(path).id);
  }

  /** The frames and list ts around a page of tree ts[i] do not use it. */
  lemma {:induction false} TreeIsApart(path: Path, ts: seq<Tree>, free: seq<nat>, n: nat, i: nat, x: nat)
    requires Covers(path, ts, free, n) && i < |ts| && Count(ts[i], x) >= 1
    ensures 1 <= x <= n && PathCount(path, x) == 0 && FreeCount(free, x) == 0
    ensures CountOf(ts[..i], x) == 0 && Count(ts[i], x) == 1 && CountOf(ts[i + 1..], x) == 0
    ensures path != [] ==>
              var f := Inner(path);
              f.id != x && CountOf(f.left, x) == 0 && CountOf(f.right, x) == 0 && PathCount(Outer(path), x) == 0
  {
    assert CoversAt(path, ts, free, n, x);
    assert ts == ts[..i] + [ts[i]] + ts[i + 1..];
    CountAround(ts[..i], ts[i], ts[i + 1..], x);
  }
}
