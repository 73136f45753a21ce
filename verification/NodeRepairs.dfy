/** An underfull internal node: borrowing a child from a sibling, or merging with one. */
module NodeRepairs {
  import opened Entries
  import opened Trees
  import opened Pages
  import opened Paths
  import opened Cursors
  import opened Repairs
  import opened Underflows
  import opened Parents

  /** An internal node one key short of the minimum, with its captured parent. */
  ghost predicate Scant(pages: PageMap, path: Path, face: Face, t: Tree, h: nat, c: Caps,
                        head: Ref, free: seq<nat>, n: nat, target: seq<Entry>, e: PathEntry) {
    && Settled(pages, path, face, t, h, c, head, free, n, target)
    && t.Node? && |t.kids| == c.MinInternal()
    && path != [] && Shows(path, face, e)
  }

  lemma {:induction false} ScantWaits(pages: PageMap, path: Path, face: Face, t: Tree, h: nat, c: Caps,
                                      head: Ref, free: seq<nat>, n: nat, target: seq<Entry>, e: PathEntry)
    requires Scant(pages, path, face, t, h, c, head, free, n, target, e)
    ensures Waiting(pages, path, face, t, h, c, head, free, n, target)
    ensures Holds(pages, t, NextOf(path)) && Good(t, h, c) && h >= 2 && |t.kids| >= 1
  {
  }

  /** An underfull node has a sibling, and its parent can lose one child without losing two keys of its minimum. */
  lemma {:induction false} ScantParent(pages: PageMap, path: Path, face: Face, t: Tree, h: nat, c: Caps,
                                       head: Ref, free: seq<nat>, n: nat, target: seq<Entry>, e: PathEntry)
    requires Scant(pages, path, face, t, h, c, head, free, n, target, e)
    ensures var f := Inner(path);
            && |f.left| + |f.right| >= 1
            && (Outer(path) != [] ==> |f.left| + |f.right| >= c.MinInternal())
  {
  }

  lemma {:induction false} IsScant(pages: PageMap, path: Path, face: Face, t: Tree, h: nat, c: Caps,
                                   head: Ref, free: seq<nat>, n: nat, target: seq<Entry>, ancestors: seq<PathEntry>)
    requires Settled(pages, path, face, t, h, c, head, free, n, target) && Tracks(pages, path, ancestors)
    requires path != [] && t.Node? && |t.kids| == c.MinInternal()
    ensures Scant(pages, path, face, t, h, c, head, free, n, target, ancestors[|path| - 1])
    ensures Tracks(pages, Outer(path), ancestors[..|path| - 1])
  {
    InnerShows(pages, path, face, ancestors);
  }

  ghost function LostLast(x: Tree): Tree
    requires x.Node? && x.kids != []
  {
    Node(x.id, Front(x.kids))
  }

  ghost function GotLast(x: Tree, t: Tree): Tree
    requires x.Node? && t.Node? && x.kids != []
  {
    Node(t.id, [Last(x.kids)] + t.kids)
  }

  ghost function LostFirst(y: Tree): Tree
    requires y.Node? && y.kids != []
  {
    Node(y.id, y.kids[1..])
  }

  ghost function GotFirst(t: Tree, y: Tree): Tree
    requires y.Node? && t.Node? && y.kids != []
  {
    Node(t.id, t.kids + [y.kids[0]])
  }

  /** Moving a child over keeps both siblings well filled. */
  lemma {:induction false} MovedLast(x: Tree, t: Tree, h: nat, c: Caps)
    requires c.Usable() && x.Node? && t.Node? && Good(x, h, c) && Good(t, h, c)
    requires |x.kids| > c.MinInternal() + 1 && |t.kids| == c.MinInternal()
    ensures Good(LostLast(x), h, c) && Filled(LostLast(x), c) && Good(GotLast(x, t), h, c) && Filled(GotLast(x, t), c)
    ensures LostLast(x).kids + GotLast(x, t).kids == x.kids + t.kids && LostLast(x).kids[0] == x.kids[0]
  {
  }

  lemma {:induction false} MovedFirst(t: Tree, y: Tree, h: nat, c: Caps)
    requires c.Usable() && t.Node? && y.Node? && Good(t, h, c) && Good(y, h, c)
    requires |y.kids| > c.MinInternal() + 1 && |t.kids| == c.MinInternal()
    ensures Good(GotFirst(t, y), h, c) && Filled(GotFirst(t, y), c) && Good(LostFirst(y), h, c)
    ensures Filled(LostFirst(y), c)
    ensures GotFirst(t, y).kids + LostFirst(y).kids == t.kids + y.kids && GotFirst(t, y).kids[0] == t.kids[0]
  {
  }

  // How the key lists of internal nodes join and part.

  lemma {:induction false} JoinedPage(a: seq<Tree>, b: seq<Tree>)
    requires a != [] && b != []
    ensures InternalOf(a + b)
            == InternalPage(InternalOf(a).keys + [MinKey(b[0])] + InternalOf(b).keys, KidIds(a) + KidIds(b))
  {
    assert Mins(a + b) == Mins(a) + Mins(b);
    assert KidIds(a + b) == KidIds(a) + KidIds(b);
  }

  lemma {:induction false} PushedFirst(k: Tree, t: Tree)
    requires t.Node? && t.kids != []
    ensures InternalOf([k] + t.kids)
            == InternalPage([MinKey(t)] + InternalOf(t.kids).keys, [k.id] + InternalOf(t.kids).children)
  {
    var ks := [k] + t.kids;
    assert Mins(ks)[1..] == Mins(t.kids);
    assert Mins(t.kids) == [MinKey(t)] + Mins(t.kids)[1..];
    assert KidIds(ks) == [k.id] + KidIds(t.kids);
  }

  lemma {:induction false} PushedLast(t: Tree, k: Tree)
    requires t.Node? && t.kids != []
    ensures InternalOf(t.kids + [k])
            == InternalPage(InternalOf(t.kids).keys + [MinKey(k)], InternalOf(t.kids).children + [k.id])
  {
    var ks := t.kids + [k];
    assert Mins(ks) == Mins(t.kids) + [MinKey(k)];
    assert KidIds(ks) == KidIds(t.kids) + [k.id];
  }

  lemma {:induction false} LastParted(ks: seq<Tree>)
    requires |ks| >= 2
    ensures var p := InternalOf(ks);
            && |p.keys| == |ks| - 1 && |p.children| == |ks|
            && InternalOf(Front(ks)) == InternalPage(p.keys[..|p.keys| - 1], p.children[..|p.children| - 1])
            && p.keys[|p.keys| - 1] == MinKey(Last(ks)) && p.children[|p.children| - 1] == Last(ks).id
  {
    assert Mins(Front(ks)) == Mins(ks)[..|ks| - 1];
    assert KidIds(Front(ks)) == KidIds(ks)[..|ks| - 1];
  }

  lemma {:induction false} FirstParted(ks: seq<Tree>)
    requires |ks| >= 2
    ensures var p := InternalOf(ks);
            && |p.keys| == |ks| - 1 && |p.children| == |ks|
            && InternalOf(ks[1..]) == InternalPage(p.keys[1..], p.children[1..])
            && p.keys[0] == MinKey(ks[1]) && p.children[0] == ks[0].id
  {
    assert Mins(ks[1..]) == Mins(ks)[1..];
    assert KidIds(ks[1..]) == KidIds(ks)[1..];
  }

  /** What the pages say of the node's left neighbour. */
  lemma {:induction false} LeftNodeRead(pages: PageMap, path: Path, face: Face, t: Tree, h: nat, c: Caps,
                                        head: Ref, free: seq<nat>, n: nat, target: seq<Entry>, e: PathEntry)
    requires Scant(pages, path, face, t, h, c, head, free, n, target, e) && Inner(path).left != []
    ensures 0 < e.child < |e.children|
    ensures var x := Last(Inner(path).left);
            && x.Node? && x.kids != [] && x.id == e.children[e.child - 1]
            && x.id in pages && pages[x.id] == InternalOf(x.kids)
            && c.MinInternal() + 1 <= |x.kids| <= c.internal + 1
            && 1 <= x.id <= n && FreeCount(free, x.id) == 0
  {
    ScantWaits(pages, path, face, t, h, c, head, free, n, target, e);
    WithLeft(pages, path, face, t, h, c, head, free, n, target);
    LeftReference(path, face, t, e, free, n);
  }

  /** What the pages say of the node's right neighbour. */
  lemma {:induction false} RightNodeRead(pages: PageMap, path: Path, face: Face, t: Tree, h: nat, c: Caps,
                                         head: Ref, free: seq<nat>, n: nat, target: seq<Entry>, e: PathEntry)
    requires Scant(pages, path, face, t, h, c, head, free, n, target, e) && Inner(path).right != []
    ensures e.child + 1 < |e.children|
    ensures var y := Inner(path).right[0];
            && y.Node? && y.kids != [] && y.id == e.children[e.child + 1]
            && y.id in pages && pages[y.id] == InternalOf(y.kids)
            && c.MinInternal() + 1 <= |y.kids| <= c.internal + 1
            && 1 <= y.id <= n && FreeCount(free, y.id) == 0
  {
    ScantWaits(pages, path, face, t, h, c, head, free, n, target, e);
    WithRight(pages, path, face, t, h, c, head, free, n, target);
    RightReference(path, face, t, e, free, n);
  }

  /** The separator after the position is the least key of its right neighbour. */
  lemma {:induction false} RightSeparator(path: Path, face: Face, e: PathEntry)
    requires path != [] && Inner(path).right != [] && Shows(path, face, e)
    ensures e.child < |e.keys| && e.keys[e.child] == MinKey(Inner(path).right[0])
  {
  }

  /** The pages after a node has borrowed the last child of its left neighbour. */
  ghost function FromLeftPages(pages: PageMap, path: Path, t: Tree): PageMap
    requires path != [] && t.Node? && Inner(path).left != [] && Last(Inner(path).left).Node?
    requires |Last(Inner(path).left).kids| >= 2
  {
    var f := Inner(path);
    var x := Last(f.left);
    PairPages(pages, f.id, Front(f.left), LostLast(x), GotLast(x, t), f.right, NextOf(Outer(path)))
  }

  lemma {:induction false} FromLeft(pages: PageMap, path: Path, face: Face, t: Tree, h: nat, c: Caps,
                                    head: Ref, free: seq<nat>, n: nat, target: seq<Entry>, e: PathEntry)
    returns (u: Tree)
    requires Scant(pages, path, face, t, h, c, head, free, n, target, e)
    requires Inner(path).left != [] && Last(Inner(path).left).Node?
    requires |Last(Inner(path).left).kids| > c.MinInternal() + 1
    ensures var f := Inner(path);
            var x := Last(f.left);
            && u == Node(f.id, Kids(Front(f.left), [LostLast(x), GotLast(x, t)], f.right))
            && Settled(FromLeftPages(pages, path, t), Outer(path), Up(f, face), u, h + 1, c, head, free, n, target)
            && MinKey(u) == Up(f, face).min
    ensures if Outer(path) == [] then |u.kids| >= 2 else Filled(u, c)
  {
    var f := Inner(path);
    var x := Last(f.left);
    ScantWaits(pages, path, face, t, h, c, head, free, n, target, e);
    WithLeft(pages, path, face, t, h, c, head, free, n, target);
    MovedLast(x, t, h, c);
    assert NextOf(path) == Head(f.right, NextOf(Outer(path)));
    hide Siblings, Settled, Scant, Waiting, HoldsPath, GoodPath, Holds, LostLast, GotLast, Good, Filled, NextOf;
    u := ShareNodes(pages, Outer(path), Up(f, face), Front(f.left), x, t, f.right, LostLast(x), GotLast(x, t), h, c,
                    head, free, n, target);
  }

  /** The pages after a node has borrowed the first child of its right neighbour. */
  ghost function FromRightPages(pages: PageMap, path: Path, t: Tree): PageMap
    requires path != [] && t.Node? && Inner(path).right != [] && Inner(path).right[0].Node?
    requires |Inner(path).right[0].kids| >= 2
  {
    var f := Inner(path);
    var y := f.right[0];
    PairPages(pages, f.id, f.left, GotFirst(t, y), LostFirst(y), f.right[1..], NextOf(Outer(path)))
  }

  lemma {:induction false} FromRight(pages: PageMap, path: Path, face: Face, t: Tree, h: nat, c: Caps,
                                     head: Ref, free: seq<nat>, n: nat, target: seq<Entry>, e: PathEntry)
    returns (u: Tree)
    requires Scant(pages, path, face, t, h, c, head, free, n, target, e)
    requires Inner(path).right != [] && Inner(path).right[0].Node? && |Inner(path).right[0].kids| > c.MinInternal() + 1
    ensures var f := Inner(path);
            var y := f.right[0];
            && u == Node(f.id, Kids(f.left, [GotFirst(t, y), LostFirst(y)], f.right[1..]))
            && Settled(FromRightPages(pages, path, t), Outer(path), Up(f, face), u, h + 1, c, head, free, n, target)
            && MinKey(u) == if f.left != [] then Up(f, face).min else MinKey(t)
    ensures if Outer(path) == [] then |u.kids| >= 2 else Filled(u, c)
  {
    var f := Inner(path);
    var y := f.right[0];
    ScantWaits(pages, path, face, t, h, c, head, free, n, target, e);
    WithRight(pages, path, face, t, h, c, head, free, n, target);
    MovedFirst(t, y, h, c);
    hide Siblings, Settled, Scant, Waiting, HoldsPath, GoodPath, Holds, LostFirst, Good, Filled, NextOf;
    u := ShareNodes(pages, Outer(path), Up(f, face), f.left, t, y, f.right[1..], GotFirst(t, y), LostFirst(y), h, c,
                    head, free, n, target);
  }

  /** The pages after a node has been merged into its left neighbour. */
  ghost function IntoLeftPages(pages: PageMap, path: Path, t: Tree, head: Ref): PageMap
    requires path != [] && t.Node? && Inner(path).left != [] && Last(Inner(path).left).Node? && t.kids != []
  {
    var f := Inner(path);
    var x := Last(f.left);
    MergePages(pages, f.id, Front(f.left), Node(x.id, x.kids + t.kids), t.id, f.right, NextOf(Outer(path)), head)
  }

  lemma {:induction false} IntoLeft(pages: PageMap, path: Path, face: Face, t: Tree, h: nat, c: Caps,
                                    head: Ref, free: seq<nat>, n: nat, target: seq<Entry>, e: PathEntry)
    returns (u: Tree)
    requires Scant(pages, path, face, t, h, c, head, free, n, target, e)
    requires Inner(path).left != [] && Last(Inner(path).left).Node?
    requires |Last(Inner(path).left).kids| == c.MinInternal() + 1
    ensures t.kids != []
    ensures var f := Inner(path);
            var x := Last(f.left);
            && u == Node(f.id, Kids(Front(f.left), [Node(x.id, x.kids + t.kids)], f.right))
            && |u.kids| == |f.left| + |f.right|
            && Settled(IntoLeftPages(pages, path, t, head), Outer(path), Up(f, face), u, h + 1, c, Some(t.id),
                       [t.id] + free, n, target)
            && MinKey(u) == Up(f, face).min
  {
    var f := Inner(path);
    var x := Last(f.left);
    ScantWaits(pages, path, face, t, h, c, head, free, n, target, e);
    WithLeft(pages, path, face, t, h, c, head, free, n, target);
    assert NextOf(path) == Head(f.right, NextOf(Outer(path)));
    hide Siblings, Settled, Scant, Waiting, HoldsPath, GoodPath, Holds;
    u := MergeNodes(pages, Outer(path), Up(f, face), Front(f.left), x, t, f.right, h, c, head, free, n, target);
  }

  /** The pages after the right neighbour of a first child has been merged into it. */
  ghost function IntoRightPages(pages: PageMap, path: Path, t: Tree, head: Ref): PageMap
    requires path != [] && t.Node? && Inner(path).right != [] && Inner(path).right[0].Node? && t.kids != []
  {
    var f := Inner(path);
    var y := f.right[0];
    MergePages(pages, f.id, [], Node(t.id, t.kids + y.kids), y.id, f.right[1..], NextOf(Outer(path)), head)
  }

  lemma {:induction false} IntoRight(pages: PageMap, path: Path, face: Face, t: Tree, h: nat, c: Caps,
                                     head: Ref, free: seq<nat>, n: nat, target: seq<Entry>, e: PathEntry)
    returns (u: Tree)
    requires Scant(pages, path, face, t, h, c, head, free, n, target, e)
    requires Inner(path).left == [] && Inner(path).right != []
    requires Inner(path).right[0].Node? && |Inner(path).right[0].kids| == c.MinInternal() + 1
    ensures t.kids != []
    ensures var f := Inner(path);
            var y := f.right[0];
            && u == Node(f.id, Kids([], [Node(t.id, t.kids + y.kids)], f.right[1..]))
            && |u.kids| == |f.right|
            && Settled(IntoRightPages(pages, path, t, head), Outer(path), Up(f, face), u, h + 1, c, Some(y.id),
                       [y.id] + free, n, target)
            && MinKey(u) == MinKey(t)
  {
    var f := Inner(path);
    var y := f.right[0];
    ScantWaits(pages, path, face, t, h, c, head, free, n, target, e);
    WithRight(pages, path, face, t, h, c, head, free, n, target);
    hide Siblings, Settled, Scant, Waiting, HoldsPath, GoodPath, Holds;
    u := MergeNodes(pages, Outer(path), Up(f, face), [], t, y, f.right[1..], h, c, head, free, n, target);
  }

  // Each branch of the repair: what it writes, and that this is safe and mends the parent.
  // The pages of the node and of its sibling, as read, are k and s.

  /** A page without its last child. */
  function LessLast(s: Page): Page
    requires s.InternalPage? && |s.keys| >= 1 && |s.children| >= 1
  {
    InternalPage(s.keys[..|s.keys| - 1], s.children[..|s.children| - 1])
  }

  /** A page with one more child in front of a first child whose least key is min. */
  function LedBy(k: Page, min: Key, child: nat): Page
    requires k.InternalPage?
  {
    InternalPage([min] + k.keys, [child] + k.children)
  }

  lemma {:induction false} FromLeftForm(pages: PageMap, path: Path, face: Face, t: Tree, e: PathEntry, left: nat,
                                        k: Page, s: Page)
    requires path != [] && Shows(path, face, e) && face.id == t.id && t.Node? && t.kids != []
    requires Inner(path).left != [] && Last(Inner(path).left).Node? && |Last(Inner(path).left).kids| >= 2
    requires k == InternalOf(t.kids) && left == Last(Inner(path).left).id
    requires s == InternalOf(Last(Inner(path).left).kids)
    ensures 0 < e.child <= |e.keys| && |s.keys| >= 1 && |s.children| >= 1
    ensures var f, x := Inner(path), Last(Inner(path).left);
            var borrowed, child := s.keys[|s.keys| - 1], s.children[|s.children| - 1];
            && InternalOf(LostLast(x).kids) == LessLast(s)
            && InternalOf(GotLast(x, t).kids) == LedBy(k, MinKey(t), child)
            && InternalOf(Kids(Front(f.left), [LostLast(x), GotLast(x, t)], f.right)) == Rekeyed(e, borrowed)
            && FromLeftPages(pages, path, t)
               == pages[left := LessLast(s)][t.id := LedBy(k, MinKey(t), child)][e.id := Rekeyed(e, borrowed)]
  {
    var x := Last(Inner(path).left);
    LastParted(x.kids);
    PushedFirst(Last(x.kids), t);
    assert MinKey(LostLast(x)) == MinKey(x) && MinKey(GotLast(x, t)) == MinKey(Last(x.kids));
    hide InternalOf, Mins, KidIds;
    LeftSharePage(path, face, e, LostLast(x), GotLast(x, t));
  }

  lemma {:induction false} BorrowLeftStep(pages: PageMap, path: Path, face: Face, t: Tree, h: nat, c: Caps, head: Ref,
                                          free: seq<nat>, n: nat, target: seq<Entry>, e: PathEntry, unique: bool,
                                          left: nat, k: Page, s: Page)
    returns (u: Tree, now: PageMap)
    requires Scant(pages, path, face, t, h, c, head, free, n, target, e) && Ordered(target, unique)
    requires Inner(path).left != [] && Last(Inner(path).left).Node?
    requires |Last(Inner(path).left).kids| > c.MinInternal() + 1
    requires t.kids != [] && k == InternalOf(t.kids)
    requires left == Last(Inner(path).left).id && s == InternalOf(Last(Inner(path).left).kids)
    ensures Mended(pages, now, Outer(path), Up(Inner(path), face), u, h + 1, c, head, free, n, target)
    ensures MinKey(u) == Up(Inner(path), face).min
    ensures if Outer(path) == [] then |u.kids| >= 2 else Filled(u, c)
    ensures k.InternalPage? && s.InternalPage? && 0 < e.child <= |e.keys| && |s.keys| >= 1 && |s.children| >= 1
    ensures var borrowed, child := s.keys[|s.keys| - 1], s.children[|s.children| - 1];
            && now == pages[left := LessLast(s)][t.id := LedBy(k, MinKey(t), child)][e.id := Rekeyed(e, borrowed)]
            && WellBuilt(left, LessLast(s), c) && WellBuilt(t.id, LedBy(k, MinKey(t), child), c)
            && WellBuilt(e.id, Rekeyed(e, borrowed), c)
  {
    var f := Inner(path);
    var x := Last(f.left);
    assert Shows(path, face, e) && t.id == face.id && e.id == f.id && c.Usable();
    ScantWaits(pages, path, face, t, h, c, head, free, n, target, e);
    u := FromLeft(pages, path, face, t, h, c, head, free, n, target, e);
    FromLeftForm(pages, path, face, t, e, left, k, s);
    now := FromLeftPages(pages, path, t);
    WithLeft(pages, path, face, t, h, c, head, free, n, target);
    assert Covers(Outer(path), [Node(f.id, Kids(Front(f.left), [x, t], f.right))], free, n);
    hide Waiting, Scant, Around, HoldsPath, GoodPath, Holds, Kids, WellBuilt, Shows, FramePage, NextOf, Covers, Good,
         Filled, InternalOf;
    RewriteKeepsTracks(pages, FromLeftPages(pages, path, t), Outer(path), f.id, Front(f.left), x, t, f.right, free, n);
    TwoSafe(Outer(path), f.id, Front(f.left), LostLast(x), GotLast(x, t), f.right, h, c, free, n, target, unique);
  }

  lemma {:induction false} FromRightForm(pages: PageMap, path: Path, face: Face, t: Tree, e: PathEntry)
    requires path != [] && Shows(path, face, e) && face.id == t.id && t.Node? && t.kids != []
    requires Inner(path).right != [] && Inner(path).right[0].Node? && |Inner(path).right[0].kids| >= 2
    ensures e.child < |e.keys|
    ensures var f, y := Inner(path), Inner(path).right[0];
            var k, s := InternalOf(t.kids), InternalOf(y.kids);
            && |s.keys| >= 1 && |s.children| >= 1
            && var current := InternalPage(k.keys + [e.keys[e.child]], k.children + [s.children[0]]);
               var right := InternalPage(s.keys[1..], s.children[1..]);
               var parent := InternalPage(BeforeSet(e, MinKey(t))[e.child := s.keys[0]], e.children);
               && InternalOf(GotFirst(t, y).kids) == current && InternalOf(LostFirst(y).kids) == right
               && InternalOf(Kids(f.left, [GotFirst(t, y), LostFirst(y)], f.right[1..])) == parent
               && FromRightPages(pages, path, t) == pages[t.id := current][y.id := right][e.id := parent]
  {
    var y := Inner(path).right[0];
    RightSeparator(path, face, e);
    FirstParted(y.kids);
    PushedLast(t, y.kids[0]);
    assert MinKey(y) == MinKey(y.kids[0]) && MinKey(GotFirst(t, y)) == MinKey(t)
        && MinKey(LostFirst(y)) == MinKey(y.kids[1]);
    hide InternalOf, Mins, KidIds;
    RightSharePage(path, face, e, GotFirst(t, y), LostFirst(y));
  }

  lemma {:induction false} BorrowRightStep(pages: PageMap, path: Path, face: Face, t: Tree, h: nat, c: Caps, head: Ref,
                                           free: seq<nat>, n: nat, target: seq<Entry>, e: PathEntry, unique: bool)
    returns (u: Tree)
    requires Scant(pages, path, face, t, h, c, head, free, n, target, e) && Ordered(target, unique)
    requires Inner(path).right != [] && Inner(path).right[0].Node? && |Inner(path).right[0].kids| > c.MinInternal() + 1
    ensures Mended(pages, FromRightPages(pages, path, t), Outer(path), Up(Inner(path), face), u, h + 1, c, head, free,
                   n, target)
    ensures MinKey(u) == if e.child > 0 then Up(Inner(path), face).min else MinKey(t)
    ensures if Outer(path) == [] then |u.kids| >= 2 else Filled(u, c)
    ensures t.kids != [] && e.child < |e.keys|
    ensures var y := Inner(path).right[0];
            var k, s := InternalOf(t.kids), InternalOf(y.kids);
            && |s.keys| >= 1 && |s.children| >= 1
            && var current := InternalPage(k.keys + [e.keys[e.child]], k.children + [s.children[0]]);
               var right := InternalPage(s.keys[1..], s.children[1..]);
               var parent := InternalPage(BeforeSet(e, MinKey(t))[e.child := s.keys[0]], e.children);
               && FromRightPages(pages, path, t) == pages[t.id := current][y.id := right][e.id := parent]
               && WellBuilt(t.id, current, c) && WellBuilt(y.id, right, c) && WellBuilt(e.id, parent, c)
  {
    var f := Inner(path);
    var y := f.right[0];
    assert Shows(path, face, e) && t.id == face.id && e.id == f.id && c.Usable() && e.child == |f.left|;
    ScantWaits(pages, path, face, t, h, c, head, free, n, target, e);
    u := FromRight(pages, path, face, t, h, c, head, free, n, target, e);
    FromRightForm(pages, path, face, t, e);
    WithRight(pages, path, face, t, h, c, head, free, n, target);
    assert Covers(Outer(path), [Node(f.id, Kids(f.left, [t, y], f.right[1..]))], free, n);
    hide Waiting, Scant, Around, HoldsPath, GoodPath, Holds, Kids, WellBuilt, Shows, FramePage, NextOf, Covers, Good,
         Filled, InternalOf;
    RewriteKeepsTracks(pages, FromRightPages(pages, path, t), Outer(path), f.id, f.left, t, y, f.right[1..], free, n);
    TwoSafe(Outer(path), f.id, f.left, GotFirst(t, y), LostFirst(y), f.right[1..], h, c, free, n, target, unique);
  }

  lemma {:induction false} IntoLeftForm(pages: PageMap, path: Path, face: Face, t: Tree, head: Ref, e: PathEntry)
    requires path != [] && Shows(path, face, e) && face.id == t.id && t.Node? && t.kids != []
    requires Inner(path).left != [] && Last(Inner(path).left).Node? && |Last(Inner(path).left).kids| >= 1
    ensures 0 < e.child <= |e.keys| && e.child < |e.children|
    ensures var f, x := Inner(path), Last(Inner(path).left);
            var k, s := InternalOf(t.kids), InternalOf(x.kids);
            var merged := InternalPage(s.keys + [MinKey(t)] + k.keys, s.children + k.children);
            var parent := InternalPage(RemoveAt(e.keys, e.child - 1), RemoveAt(e.children, e.child));
            && InternalOf(x.kids + t.kids) == merged
            && InternalOf(Kids(Front(f.left), [Node(x.id, x.kids + t.kids)], f.right)) == parent
            && IntoLeftPages(pages, path, t, head) == pages[x.id := merged][t.id := FreePage(head)][e.id := parent]
  {
    var x := Last(Inner(path).left);
    JoinedPage(x.kids, t.kids);
    assert MinKey(Node(x.id, x.kids + t.kids)) == MinKey(x);
    hide Mins, KidIds;
    LeftMergePage(path, face, e, Node(x.id, x.kids + t.kids));
  }

  lemma {:induction false} MergeLeftStep(pages: PageMap, path: Path, face: Face, t: Tree, h: nat, c: Caps, head: Ref,
                                         free: seq<nat>, n: nat, target: seq<Entry>, e: PathEntry, unique: bool)
    returns (u: Tree)
    requires Scant(pages, path, face, t, h, c, head, free, n, target, e) && Ordered(target, unique)
    requires Inner(path).left != [] && Last(Inner(path).left).Node?
    requires |Last(Inner(path).left).kids| == c.MinInternal() + 1
    ensures t.kids != [] && 0 < e.child <= |e.keys| && e.child < |e.children|
    ensures Mended(pages, IntoLeftPages(pages, path, t, head), Outer(path), Up(Inner(path), face), u, h + 1, c,
                   Some(t.id), [t.id] + free, n, target)
    ensures MinKey(u) == Up(Inner(path), face).min && |u.kids| + 1 == |e.children|
    ensures var x := Last(Inner(path).left);
            var k, s := InternalOf(t.kids), InternalOf(x.kids);
            var merged := InternalPage(s.keys + [MinKey(t)] + k.keys, s.children + k.children);
            var parent := InternalPage(RemoveAt(e.keys, e.child - 1), RemoveAt(e.children, e.child));
            && IntoLeftPages(pages, path, t, head) == pages[x.id := merged][t.id := FreePage(head)][e.id := parent]
            && parent == TopPage(u, None)
            && WellBuilt(x.id, merged, c) && WellBuilt(t.id, FreePage(head), c) && WellBuilt(e.id, parent, c)
    ensures FaceUp(path, face).id != t.id && FaceUp(path, face).first != t.id
  {
    var f := Inner(path);
    var x := Last(f.left);
    var m := Node(x.id, x.kids + t.kids);
    assert Shows(path, face, e) && t.id == face.id && e.id == f.id && c.Usable();
    ScantWaits(pages, path, face, t, h, c, head, free, n, target, e);
    u := IntoLeft(pages, path, face, t, h, c, head, free, n, target, e);
    IntoLeftForm(pages, path, face, t, head, e);
    WithLeft(pages, path, face, t, h, c, head, free, n, target);
    ReleasedIsLoose(pages, Outer(path), Up(f, face), Front(f.left), x, t, f.right, h, c, head, free, n, target);
    FreeWellBuilt(pages, Outer(path), Up(f, face), Front(f.left), x, t, f.right, h, c, head, free, n, target);
    assert Covers(Outer(path), [Node(f.id, Kids(Front(f.left), [x, t], f.right))], free, n);
    Neighbours(path, face, e);
    hide Waiting, Scant, Around, HoldsPath, GoodPath, Holds, Kids, WellBuilt, Shows, FramePage, NextOf, Covers, Good,
         Filled, InternalOf;
    RewriteKeepsTracks(pages, IntoLeftPages(pages, path, t, head), Outer(path), f.id, Front(f.left), x, t, f.right,
                       free, n);
    OneSafe(Outer(path), f.id, Front(f.left), m, f.right, h, c, [t.id] + free, n, target, unique);
  }

  lemma {:induction false} IntoRightForm(pages: PageMap, path: Path, face: Face, t: Tree, head: Ref, e: PathEntry)
    requires path != [] && Shows(path, face, e) && face.id == t.id && t.Node? && t.kids != []
    requires Inner(path).left == [] && Inner(path).right != []
    requires Inner(path).right[0].Node? && |Inner(path).right[0].kids| >= 1
    ensures e.child == 0 < |e.keys| && 1 < |e.children|
    ensures var f, y := Inner(path), Inner(path).right[0];
            var k, s := InternalOf(t.kids), InternalOf(y.kids);
            var merged := InternalPage(k.keys + [e.keys[0]] + s.keys, k.children + s.children);
            var parent := InternalPage(RemoveAt(e.keys, 0), RemoveAt(e.children, 1));
            && InternalOf(t.kids + y.kids) == merged
            && InternalOf(Kids([], [Node(t.id, t.kids + y.kids)], f.right[1..])) == parent
            && IntoRightPages(pages, path, t, head) == pages[t.id := merged][y.id := FreePage(head)][e.id := parent]
  {
    var y := Inner(path).right[0];
    RightSeparator(path, face, e);
    JoinedPage(t.kids, y.kids);
    assert MinKey(y) == MinKey(y.kids[0]);
    hide Mins, KidIds;
    RightMergePage(path, face, e, Node(t.id, t.kids + y.kids));
  }

  lemma {:induction false} MergeRightStep(pages: PageMap, path: Path, face: Face, t: Tree, h: nat, c: Caps, head: Ref,
                                          free: seq<nat>, n: nat, target: seq<Entry>, e: PathEntry, unique: bool)
    returns (u: Tree)
    requires Scant(pages, path, face, t, h, c, head, free, n, target, e) && Ordered(target, unique)
    requires Inner(path).left == [] && Inner(path).right != []
    requires Inner(path).right[0].Node? && |Inner(path).right[0].kids| == c.MinInternal() + 1
    ensures t.kids != [] && e.child == 0 < |e.keys| && 1 < |e.children|
    ensures var y := Inner(path).right[0];
            Mended(pages, IntoRightPages(pages, path, t, head), Outer(path), Up(Inner(path), face), u, h + 1, c,
                   Some(y.id), [y.id] + free, n, target)
    ensures MinKey(u) == MinKey(t) && |u.kids| + 1 == |e.children|
    ensures var y := Inner(path).right[0];
            var k, s := InternalOf(t.kids), InternalOf(y.kids);
            var merged := InternalPage(k.keys + [e.keys[0]] + s.keys, k.children + s.children);
            var parent := InternalPage(RemoveAt(e.keys, 0), RemoveAt(e.children, 1));
            && IntoRightPages(pages, path, t, head) == pages[t.id := merged][y.id := FreePage(head)][e.id := parent]
            && parent == TopPage(u, None)
            && WellBuilt(t.id, merged, c) && WellBuilt(y.id, FreePage(head), c) && WellBuilt(e.id, parent, c)
    ensures FaceUp(path, face).id != Inner(path).right[0].id && FaceUp(path, face).first != Inner(path).right[0].id
  {
    var f := Inner(path);
    var y := f.right[0];
    var m := Node(t.id, t.kids + y.kids);
    assert Shows(path, face, e) && t.id == face.id && e.id == f.id && c.Usable();
    ScantWaits(pages, path, face, t, h, c, head, free, n, target, e);
    u := IntoRight(pages, path, face, t, h, c, head, free, n, target, e);
    IntoRightForm(pages, path, face, t, head, e);
    WithRight(pages, path, face, t, h, c, head, free, n, target);
    ReleasedIsLoose(pages, Outer(path), Up(f, face), [], t, y, f.right[1..], h, c, head, free, n, target);
    FreeWellBuilt(pages, Outer(path), Up(f, face), [], t, y, f.right[1..], h, c, head, free, n, target);
    assert Covers(Outer(path), [Node(f.id, Kids([], [t, y], f.right[1..]))], free, n);
    Neighbours(path, face, e);
    hide Waiting, Scant, Around, HoldsPath, GoodPath, Holds, Kids, WellBuilt, Shows, FramePage, NextOf, Covers, Good,
         Filled, InternalOf;
    RewriteKeepsTracks(pages, IntoRightPages(pages, path, t, head), Outer(path), f.id, [], t, y, f.right[1..], free, n);
    OneSafe(Outer(path), f.id, [], m, f.right[1..], h, c, [y.id] + free, n, target, unique);
  }
}
