/** The parent of an underfull node: how its key and child lists are edited, and what they say about siblings. */
module Parents {
  import opened Entries
  import opened Trees
  import opened Pages
  import opened Paths
  import opened Headers
  import opened Cursors
  import opened Repairs
  import opened Underflows

  /** The captured parent refers to the position and to its left neighbour, which is a live page. */
  lemma {:induction false} LeftReference(path: Path, face: Face, t: Tree, e: PathEntry, free: seq<nat>, n: nat)
    requires path != [] && Inner(path).left != [] && Shows(path, face, e) && face.id == t.id
    requires Covers(path, [t], free, n)
    ensures 0 < e.child <= |e.keys| && |e.children| == |e.keys| + 1 && e.children[e.child] == t.id
    ensures var id := e.children[e.child - 1];
            id == Last(Inner(path).left).id && 1 <= id <= n && FreeCount(free, id) == 0
  {
    var f := Inner(path);
    var x := Last(f.left);
    assert FramePage(f, face).children[|f.left|] == t.id;
    assert FramePage(f, face).children[|f.left| - 1] == x.id;
    KidCounts(f.left, |f.left| - 1, x.id);
    assert CoversAt(path, [t], free, n, x.id);
  }

  lemma {:induction false} RightReference(path: Path, face: Face, t: Tree, e: PathEntry, free: seq<nat>, n: nat)
    requires path != [] && Inner(path).right != [] && Shows(path, face, e) && face.id == t.id
    requires Covers(path, [t], free, n)
    ensures e.child < |e.keys| && |e.children| == |e.keys| + 1 && e.children[e.child] == t.id
    ensures var id := e.children[e.child + 1];
            id == Inner(path).right[0].id && 1 <= id <= n && FreeCount(free, id) == 0
  {
    var f := Inner(path);
    var y := f.right[0];
    assert FramePage(f, face).children[|f.left|] == t.id;
    assert FramePage(f, face).children[|f.left| + 1] == y.id;
    KidCounts(f.right, 0, y.id);
    assert CoversAt(path, [t], free, n, y.id);
  }

  /** Which siblings the captured parent offers. */
  lemma {:induction false} Neighbours(path: Path, face: Face, e: PathEntry)
    requires path != [] && Shows(path, face, e)
    ensures var f := Inner(path);
            && |e.children| == |f.left| + 1 + |f.right| && e.children[e.child] == face.id
            && (e.child > 0 <==> f.left != []) && (e.child + 1 < |e.children| <==> f.right != [])
  {
    assert FramePage(Inner(path), face).children[|Inner(path).left|] == face.id;
  }

  /** Setting the separator before the position, after entries moved over from the left. */
  lemma {:induction false} LeftSharePage(path: Path, face: Face, e: PathEntry, x': Tree, t': Tree)
    requires path != [] && Inner(path).left != [] && Shows(path, face, e)
    requires x'.id == Last(Inner(path).left).id && MinKey(x') == MinKey(Last(Inner(path).left)) && t'.id == face.id
    ensures 0 < e.child <= |e.keys|
    ensures InternalPage(e.keys[e.child - 1 := MinKey(t')], e.children)
            == InternalOf(Kids(Front(Inner(path).left), [x', t'], Inner(path).right))
  {
    var f := Inner(path);
    var a := Front(f.left);
    EditKeys(Mins(f.left), face.min, Mins(f.right), MinKey(t'));
    KidsPage(a, [x', t'], f.right);
    assert Mins(f.left) == Mins(a) + [MinKey(x')];
    assert KidIds(f.left) == KidIds(a) + [x'.id];
    assert Mins(a) + Mins([x', t']) == Mins(f.left) + [MinKey(t')];
    assert KidIds(a) + KidIds([x', t']) == KidIds(f.left) + [face.id];
  }

  /** The parent's page with the separator before the position set to m. */
  function Rekeyed(e: PathEntry, m: Key): Page
    requires 0 < e.child <= |e.keys|
  {
    InternalPage(e.keys[e.child - 1 := m], e.children)
  }

  /** The separator before the position, when there is one, set to m. */
  function BeforeSet(e: PathEntry, m: Key): seq<Key>
    requires e.child <= |e.keys|
  {
    if e.child > 0 then e.keys[e.child - 1 := m] else e.keys
  }

  lemma {:induction false} RightShareKeys(a: seq<Key>, x: Key, b: seq<Key>, m: Key, y: Key)
    requires b != []
    ensures var k := (a + [x] + b)[1..];
            (if a == [] then k else k[|a| - 1 := m])[|a| := y] == (a + [m] + [y] + b[1..])[1..]
  {
  }

  /** Setting the separators on both sides of the position, after entries moved over from the right. */
  lemma {:induction false} RightSharePage(path: Path, face: Face, e: PathEntry, t': Tree, y': Tree)
    requires path != [] && Inner(path).right != [] && Shows(path, face, e)
    requires y'.id == Inner(path).right[0].id && t'.id == face.id
    ensures e.child < |e.keys|
    ensures InternalPage(BeforeSet(e, MinKey(t'))[e.child := MinKey(y')], e.children)
            == InternalOf(Kids(Inner(path).left, [t', y'], Inner(path).right[1..]))
  {
    var f := Inner(path);
    var b := f.right[1..];
    RightShareKeys(Mins(f.left), face.min, Mins(f.right), MinKey(t'), MinKey(y'));
    KidsPage(f.left, [t', y'], b);
    assert Mins(f.right)[1..] == Mins(b);
    assert KidIds(f.right) == [y'.id] + KidIds(b);
    assert Mins(f.left) + Mins([t', y']) == Mins(f.left) + [MinKey(t')] + [MinKey(y')];
    assert KidIds(f.left) + KidIds([t', y']) + KidIds(b) == KidIds(f.left) + [face.id] + KidIds(f.right);
  }

  lemma {:induction false} RemoveMiddle<T>(a: seq<T>, x: T, b: seq<T>)
    ensures RemoveAt(a + [x] + b, |a|) == a + b
  {
  }

  /** Dropping the position from its parent, after it was merged into its left neighbour. */
  lemma {:induction false} LeftMergePage(path: Path, face: Face, e: PathEntry, m: Tree)
    requires path != [] && Inner(path).left != [] && Shows(path, face, e)
    requires m.id == Last(Inner(path).left).id && MinKey(m) == MinKey(Last(Inner(path).left))
    ensures 0 < e.child <= |e.keys| && e.child < |e.children|
    ensures InternalPage(RemoveAt(e.keys, e.child - 1), RemoveAt(e.children, e.child))
            == InternalOf(Kids(Front(Inner(path).left), [m], Inner(path).right))
  {
    var f := Inner(path);
    var a := Front(f.left);
    EditKeys(Mins(f.left), face.min, Mins(f.right), 0.0);
    RemoveMiddle(KidIds(f.left), face.id, KidIds(f.right));
    KidsPage(a, [m], f.right);
    assert Mins(f.left) == Mins(a) + Mins([m]);
    assert KidIds(f.left) == KidIds(a) + KidIds([m]);
  }

  /** A first child's key is not among its parent's separators. */
  lemma {:induction false} FirstChildPage(m: Tree, b: seq<Tree>)
    ensures InternalOf(Kids([], [m], b)) == InternalPage(Mins(b), [m.id] + KidIds(b))
  {
    var ks := Kids([], [m], b);
    assert ks == [m] + b;
    assert Mins(ks)[1..] == Mins(b);
    assert KidIds(ks) == [m.id] + KidIds(b);
  }

  lemma {:induction false} FirstFramePage(f: Frame, face: Face)
    requires f.left == []
    ensures FramePage(f, face) == InternalPage(Mins(f.right), [face.id] + KidIds(f.right))
  {
    assert Mins(f.left) == [] && KidIds(f.left) == [];
    assert (Mins(f.left) + [face.min] + Mins(f.right))[1..] == Mins(f.right);
    assert KidIds(f.left) + [face.id] + KidIds(f.right) == [face.id] + KidIds(f.right);
  }

  /** Dropping the right neighbour of a first child, after it was merged into the position. */
  lemma {:induction false} RightMergePage(path: Path, face: Face, e: PathEntry, m: Tree)
    requires path != [] && Inner(path).left == [] && Inner(path).right != [] && Shows(path, face, e)
    requires m.id == face.id
    ensures e.child == 0 < |e.keys| && 1 < |e.children|
    ensures InternalPage(RemoveAt(e.keys, 0), RemoveAt(e.children, 1))
            == InternalOf(Kids([], [m], Inner(path).right[1..]))
  {
    var f := Inner(path);
    FirstFramePage(f, face);
    FirstChildPage(m, f.right[1..]);
    assert Mins(f.right)[1..] == Mins(f.right[1..]) && KidIds(f.right)[1..] == KidIds(f.right[1..]);
    DropFirst(Mins(f.right), face.id, KidIds(f.right));
  }

  lemma {:induction false} DropFirst(b: seq<Key>, id: nat, ids: seq<nat>)
    ensures b != [] ==> RemoveAt(b, 0) == b[1..]
    ensures ids != [] ==> RemoveAt([id] + ids, 1) == [id] + ids[1..]
  {
  }

  /** Both siblings hold ordered entries. */
  lemma {:induction false} SiblingsOrdered(path: Path, a: seq<Tree>, x: Tree, y: Tree, b: seq<Tree>, target: seq<Entry>,
                                           unique: bool)
    requires Before(path) + ContentsOf(Kids(a, [x, y], b)) + After(path) == target && Ordered(target, unique)
    ensures Ordered(Contents(x), unique) && Ordered(Contents(y), unique)
  {
    var s := ContentsOf(Kids(a, [x, y], b));
    OrderedMiddle(Before(path), s, After(path), unique);
    KidsContents(a, [x, y], b);
    TwoContents(x, y);
    GroupAround(ContentsOf(a), Contents(x), Contents(y), ContentsOf(b));
    OrderedMiddle(ContentsOf(a), Contents(x), Contents(y) + ContentsOf(b), unique);
    OrderedMiddle(ContentsOf(a) + Contents(x), Contents(y), ContentsOf(b), unique);
  }

  lemma {:induction false} GroupAround<T>(a: seq<T>, x: seq<T>, y: seq<T>, b: seq<T>)
    ensures a + (x + y) + b == a + x + (y + b) && a + (x + y) + b == (a + x) + y + b
  {
  }

  /** The root page and the first leaf are on the path, or are those of the subtree at its end. */
  lemma {:induction false} FaceUpCounted(path: Path, face: Face)
    ensures path != [] ==> PathCount(path, FaceUp(path, face).id) >= 1
    ensures FaceUp(path, face).first == face.first || PathCount(path, FaceUp(path, face).first) >= 1
    decreases |path|
  {
    if path != [] {
      var f := Inner(path);
      FaceUpCounted(Outer(path), Up(f, face));
      if f.left != [] {
        FirstCounts(f.left[0]);
        KidCounts(f.left, 0, First(f.left[0]));
      }
    }
  }

  /** The page that a merge releases is neither the root nor the first leaf. */
  lemma {:induction false} ReleasedIsLoose(pages: PageMap, path: Path, face: Face, a: seq<Tree>, x: Tree, y: Tree,
                                           b: seq<Tree>, h: nat, c: Caps, head: Ref, free: seq<nat>, n: nat,
                                           target: seq<Entry>)
    requires Siblings(pages, path, face, a, x, y, b, h, c, head, free, n, target)
    ensures FaceUp(path, face).id != y.id && FaceUp(path, face).first != y.id
  {
    SiblingsApart(path, face.id, a, x, y, b, free, n);
    FaceUpCounted(path, face);
    assert Count(y, y.id) >= 1;
    FirstCounts(x);
    if a != [] {
      FirstCounts(a[0]);
      KidCounts(a, 0, First(a[0]));
    }
  }

  /** Two rewritten siblings and their parent pass their checks when they are built. */
  lemma {:induction false} TwoSafe(path: Path, id: nat, a: seq<Tree>, x: Tree, y: Tree, b: seq<Tree>, h: nat, c: Caps,
                                   free: seq<nat>, n: nat, target: seq<Entry>, unique: bool)
    requires var u := Node(id, Kids(a, [x, y], b));
             && c.Usable() && Good(u, h + 1, c) && Covers(path, [u], free, n)
             && Before(path) + Contents(u) + After(path) == target && Ordered(target, unique)
    ensures (x.Node? ==> x.kids != []) && (y.Node? ==> y.kids != [])
    ensures WellBuilt(x.id, TopPage(x, Some(First(y))), c)
    ensures WellBuilt(y.id, TopPage(y, Head(b, NextOf(path))), c)
    ensures WellBuilt(id, InternalOf(Kids(a, [x, y], b)), c)
  {
    var u := Node(id, Kids(a, [x, y], b));
    var i := |a|;
    assert u.kids[i] == x && u.kids[i + 1] == y;
    assert u.kids[i + 1..] == [y] + b && u.kids[i + 2..] == b;
    hide Covers, Ordered, WellBuilt, Before, After, Contents;
    KidSafe(path, u, i, h, c, free, n, target, unique);
    KidSafe(path, u, i + 1, h, c, free, n, target, unique);
    SafeWrite(path, u, h + 1, c, free, n, target, unique);
  }

  /** So do a merged node and its parent. */
  lemma {:induction false} OneSafe(path: Path, id: nat, a: seq<Tree>, m: Tree, b: seq<Tree>, h: nat, c: Caps,
                                   free: seq<nat>, n: nat, target: seq<Entry>, unique: bool)
    requires var u := Node(id, Kids(a, [m], b));
             && c.Usable() && Good(u, h + 1, c) && Covers(path, [u], free, n)
             && Before(path) + Contents(u) + After(path) == target && Ordered(target, unique)
    ensures m.Node? ==> m.kids != []
    ensures WellBuilt(m.id, TopPage(m, Head(b, NextOf(path))), c)
    ensures WellBuilt(id, InternalOf(Kids(a, [m], b)), c)
  {
    var u := Node(id, Kids(a, [m], b));
    var i := |a|;
    assert u.kids[i] == m && u.kids[i + 1..] == b;
    hide Covers, Ordered, WellBuilt, Before, After, Contents;
    KidSafe(path, u, i, h, c, free, n, target, unique);
    SafeWrite(path, u, h + 1, c, free, n, target, unique);
  }

  /** Ancestors captured before a change are still the pages of the frames after it. */
  ghost predicate KeepsTracks(pages: PageMap, pages': PageMap, path: Path) {
    forall rest :: Tracks(pages, path, rest) ==> Tracks(pages', path, rest)
  }

  lemma {:induction false} RewriteKeepsTracks(pages: PageMap, pages': PageMap, path: Path, id: nat, a: seq<Tree>,
                                              x: Tree, y: Tree, b: seq<Tree>, free: seq<nat>, n: nat)
    requires Covers(path, [Node(id, Kids(a, [x, y], b))], free, n) && Same(pages, pages', {id, x.id, y.id})
    ensures KeepsTracks(pages, pages', path)
  {
    SiblingsApart(path, id, a, x, y, b, free, n);
    forall rest | Tracks(pages, path, rest)
      ensures Tracks(pages', path, rest)
    {
      TracksFrame(pages, pages', {id, x.id, y.id}, path, rest);
    }
  }

  /** The free page that a merge leaves behind passes its checks. */
  lemma {:induction false} FreeWellBuilt(pages: PageMap, path: Path, face: Face, a: seq<Tree>, x: Tree, y: Tree,
                                         b: seq<Tree>, h: nat, c: Caps, head: Ref, free: seq<nat>, n: nat,
                                         target: seq<Entry>)
    requires Siblings(pages, path, face, a, x, y, b, h, c, head, free, n, target)
    ensures WellBuilt(y.id, FreePage(head), c)
  {
    SiblingsApart(path, face.id, a, x, y, b, free, n);
    assert FreeCount(free, y.id) == 0;
  }

  /** A repaired parent: it fits where it was, and only its own occupancy may be short. */
  ghost predicate Mended(pages: PageMap, pages': PageMap, path: Path, face: Face, u: Tree, h: nat, c: Caps,
                         head: Ref, free: seq<nat>, n: nat, target: seq<Entry>) {
    && Settled(pages', path, face, u, h, c, head, free, n, target)
    && KeepsTracks(pages, pages', path)
    && u.Node?
  }

  lemma {:induction false} MendedParts(pages: PageMap, pages': PageMap, path: Path, face: Face, u: Tree, h: nat,
                                       c: Caps, head: Ref, free: seq<nat>, n: nat, target: seq<Entry>,
                                       ancestors: seq<PathEntry>)
    requires Mended(pages, pages', path, face, u, h, c, head, free, n, target) && Tracks(pages, path, ancestors)
    ensures Settled(pages', path, face, u, h, c, head, free, n, target) && Tracks(pages', path, ancestors)
  {
  }
}
