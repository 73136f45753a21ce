/** The persistent B+ tree: descent, cursors, insertion and deletion over its node pages. */
module BPlusTree {
  import opened Entries
  import opened Trees
  import opened Pages
  import opened Paths
  import opened Headers
  import opened Cursors
  import opened Reads
  import opened Locating
  import opened Scans
  import opened Splits
  import opened Inserts
  import opened Repairs
  import opened Underflows
  import opened Parents
  import L = LeafRepairs
  import opened Deletes
  import opened Validation
  import N = NodeRepairs

  /** A row can follow these rows into an index: there is room, and a unique index has no other RID for its key. */
  ghost predicate Follows(rows: seq<Entry>, e: Entry, unique: bool) {
    |Elements(rows)| < UINT64_MAX && (unique ==> e in rows || !Conflict(rows, e))
  }

  /** Rows that can be indexed in this order. */
  ghost predicate Indexable(rows: seq<Entry>, unique: bool) {
    rows != [] ==>
      var last := |rows| - 1;
      Indexable(rows[..last], unique) && Follows(rows[..last], rows[last], unique)
  }

  lemma {:induction false} IndexablePrefix(rows: seq<Entry>, i: nat, unique: bool)
    requires Indexable(rows, unique) && i <= |rows|
    ensures Indexable(rows[..i], unique)
    decreases |rows| - i
  {
    if i == |rows| {
      assert rows[..i] == rows;
    } else {
      IndexablePrefix(rows, i + 1, unique);
      assert rows[..i + 1][..i] == rows[..i];
    }
  }

  lemma {:induction false} IndexableNext(rows: seq<Entry>, i: nat, unique: bool)
    requires i < |rows| && Indexable(rows[..i], unique)
    ensures Indexable(rows[..i + 1], unique) <==> Follows(rows[..i], rows[i], unique)
    ensures Indexable(rows, unique) ==> Follows(rows[..i], rows[i], unique)
    ensures Elements(rows[..i + 1]) == Elements(rows[..i]) + {rows[i]}
  {
    assert rows[..i + 1][..i] == rows[..i];
    assert rows[..i + 1] == rows[..i] + [rows[i]];
    if Indexable(rows, unique) {
      IndexablePrefix(rows, i + 1, unique);
    }
  }

  /** One more row can be indexed exactly when its insertion does not fail. */
  lemma {:induction false} FollowsIndex(rows: seq<Entry>, had: seq<Entry>, e: Entry, unique: bool)
    requires Sorted(had) && Elements(had) == Elements(rows)
    ensures Follows(rows, e, unique) <==> |had| < UINT64_MAX && (unique ==> e in had || !Conflict(had, e))
    ensures e in had <==> e in rows
  {
    SortedSize(had);
    assert e in had <==> e in Elements(had);
    assert e in rows <==> e in Elements(rows);
    if e !in had {
      ConflictInSet(had, e);
      ConflictInSet(rows, e);
    }
  }

  datatype InsertResult = Added | AlreadyThere | DuplicateKey | Full

  datatype DeleteResult = Deleted | Unknown

  /** The siblings of an internal node that its captured parent e offers, as they were read. */
  ghost predicate OffersNodes(path: Path, e: PathEntry, left: Option<Page>, right: Option<Page>, c: Caps)
    requires path != [] && c.Usable()
  {
    var f := Inner(path);
    && |e.children| == |f.left| + 1 + |f.right| && e.child == |f.left|
    && (left.Just? <==> f.left != []) && (right.Just? <==> f.right != [])
    && (left.Just? ==>
          var x := Last(f.left);
          && e.children[e.child - 1] == x.id && x.Node? && x.kids != [] && left.value == InternalOf(x.kids)
          && c.MinInternal() + 1 <= |x.kids|)
    && (right.Just? ==>
          var y := f.right[0];
          && e.children[e.child + 1] == y.id && y.Node? && y.kids != [] && right.value == InternalOf(y.kids)
          && c.MinInternal() + 1 <= |y.kids|)
  }

  lemma {:induction false} LeftOffered(path: Path, e: PathEntry, left: Option<Page>, right: Option<Page>, c: Caps)
    requires path != [] && c.Usable() && OffersNodes(path, e, left, right, c) && left.Just?
    ensures left.value.InternalPage? && 0 < e.child <= |e.children|
    ensures var f := Inner(path);
            && f.left != [] && Last(f.left).Node? && Last(f.left).kids != []
            && e.children[e.child - 1] == Last(f.left).id && left.value == InternalOf(Last(f.left).kids)
            && c.MinInternal() < |Last(f.left).kids| == |left.value.keys| + 1
  {
  }

  lemma {:induction false} RightOffered(path: Path, e: PathEntry, left: Option<Page>, right: Option<Page>, c: Caps)
    requires path != [] && c.Usable() && OffersNodes(path, e, left, right, c) && right.Just?
    ensures right.value.InternalPage? && e.child + 1 < |e.children|
    ensures var f := Inner(path);
            && f.right != [] && f.right[0].Node? && f.right[0].kids != []
            && e.children[e.child + 1] == f.right[0].id && right.value == InternalOf(f.right[0].kids)
            && c.MinInternal() < |f.right[0].kids| == |right.value.keys| + 1
  {
  }

  lemma {:induction false} OneShort(t: Tree, k: Page, least: nat)
    requires t.Node? && t.kids != [] && k == InternalOf(t.kids) && |k.keys| < least <= |t.kids|
    ensures |t.kids| == least
  {
  }

  /** A node that cannot borrow has a sibling to merge with, and its parent stays filled unless it is the root. */
  lemma {:induction false} MergeReady(hd: Header, pages: PageMap, path: Path, face: Face, t: Tree, h: nat, c: Caps,
                                      head: Ref, free: seq<nat>, n: nat, target: seq<Entry>, e: PathEntry,
                                      left: Option<Page>, right: Option<Page>)
    requires N.Scant(pages, path, face, t, h, c, head, free, n, target, e) && Anchored(hd, path, face, h, free, n)
    requires OffersNodes(path, e, left, right, c)
    ensures c.Usable()
    ensures hd.root == Some(FaceUp(path, face).id) && hd.first == Some(FaceUp(path, face).first)
    ensures Up(Inner(path), face).id == e.id && |e.children| >= 2
    ensures Outer(path) != [] ==> |e.children| > c.MinInternal()
    ensures !left.Just? ==> right.Just? && Inner(path).left == []
  {
    N.ScantParent(pages, path, face, t, h, c, head, free, n, target, e);
  }

  /** The siblings of a leaf that its captured parent e offers, as they were read. */
  ghost predicate OffersLeaves(path: Path, e: PathEntry, left: Option<Page>, right: Option<Page>, leaf: nat, c: Caps)
    requires path != [] && c.Usable()
  {
    var f := Inner(path);
    && |e.children| == |f.left| + 1 + |f.right| && e.child == |f.left|
    && (left.Just? <==> f.left != []) && (right.Just? <==> f.right != [])
    && (left.Just? ==>
          var x := Last(f.left);
          && e.children[e.child - 1] == x.id && x.Leaf? && left.value == LeafPage(x.es, Some(leaf))
          && c.MinLeaf() <= |x.es|)
    && (right.Just? ==>
          var y := f.right[0];
          && e.children[e.child + 1] == y.id && NextOf(path) == Some(y.id)
          && y.Leaf? && right.value == LeafPage(y.es, Head(f.right[1..], NextOf(Outer(path)))) && c.MinLeaf() <= |y.es|)
  }

  class BPlusTree {
    const caps: Caps
    const unique: bool
    var header: Header
    var pages: PageMap
    // Node pages physically in the file; the header page is not counted.
    var physicalPages: nat
    ghost var shape: Shape
    ghost var free: seq<nat>

    ghost predicate Valid()
      reads this
    {
      && WellFormed(pages, header, shape, free, caps, unique)
      && physicalPages == header.pageCount
    }

    /** The index as its sorted sequence of pairs. */
    ghost function Pairs(): seq<Entry>
      reads this
    {
      ShapeContents(shape)
    }

    constructor Create(caps: Caps, unique: bool, complete: bool)
      requires caps.Usable()
      ensures Valid() && Pairs() == [] && header.pageCount == 0 && header.complete == complete
      ensures this.caps == caps && this.unique == unique
    {
      this.caps, this.unique := caps, unique;
      header := Header(None, None, 0, 0, 0, None, complete);
      pages := map[];
      physicalPages := 0;
      shape, free := Empty, [];
    }

    /** Writes a node page. The precondition is what building the node checks. */
    method WriteNode(id: nat, p: Page)
      requires WellBuilt(id, p, caps)
      modifies this`pages
      ensures pages == old(pages)[id := p]
    {
      pages := pages[id := p];
    }

    /** Writes three nodes, one after the other. */
    method WriteThree(a: nat, p: Page, b: nat, q: Page, c: nat, r: Page)
      requires WellBuilt(a, p, caps) && WellBuilt(b, q, caps) && WellBuilt(c, r, caps)
      modifies this`pages
      ensures pages == old(pages)[a := p][b := q][c := r]
    {
      hide WellBuilt;
      WriteNode(a, p);
      WriteNode(b, q);
      WriteNode(c, r);
    }

    /** Pops a free page, otherwise appends a page to the file. */
    method AllocateNodePage(head: Ref, ghost fr: seq<nat>, ghost path: Path, ghost ts: seq<Tree>)
      returns (id: nat, next: Ref, ghost fr': seq<nat>)
      requires Chain(pages, head, fr) && Covers(path, ts, fr, physicalPages) && FreeApart(header, fr)
      modifies this`physicalPages
      ensures Chain(pages, next, fr') && Covers(path, ts + [Blank(id)], fr', physicalPages) && FreeApart(header, fr')
      ensures if fr == [] then physicalPages == old(physicalPages) + 1 && fr' == []
              else physicalPages == old(physicalPages) && fr' == fr[1..]
    {
      TakePage(pages, path, ts, head, fr, physicalPages);
      if head == None {
        physicalPages := physicalPages + 1;
        return physicalPages, None, [];
      }
      assert FreeCount(fr, head.page) >= 1;
      assert 1 <= head.page <= header.pageCount && pages[head.page].FreePage?;
      next := pages[head.page].next;
      fr' := fr[1..];
      assert forall x :: FreeCount(fr, x) >= FreeCount(fr', x);
      assert next.Some? ==> next != header.root && next != header.first by {
        if next.Some? {
          assert FreeCount(fr', next.page) >= 1;
        }
      }
      id := head.page;
    }

    /** Splits an overfull ancestor and hands the promoted separator to the next one up. */
    method SplitAncestor(ancestors: seq<PathEntry>, sep: Key, right: nat, head: Ref, ghost path: Path, ghost l: Tree,
                         ghost r: Tree, ghost h: nat, ghost fr: seq<nat>, ghost target: seq<Entry>)
      returns (sep': Key, right': nat, head': Ref, ghost l': Tree, ghost r': Tree, ghost fr': seq<nat>)
      requires Splitting(pages, path, l, r, h, caps) && path != [] && Tracks(pages, path, ancestors)
      requires Covers(path, [l, r], fr, physicalPages) && Chain(pages, head, fr) && FreeApart(header, fr)
      requires SplitContents(path, l, r) == target && Ordered(target, unique)
      requires sep == MinKey(r) && right == r.id && |ancestors[|path| - 1].keys| == caps.internal
      modifies this`pages, this`physicalPages
      ensures Splitting(pages, Outer(path), l', r', h + 1, caps)
      ensures Covers(Outer(path), [l', r'], fr', physicalPages) && Chain(pages, head', fr') && FreeApart(header, fr')
      ensures SplitContents(Outer(path), l', r') == target
      ensures sep' == MinKey(r') && right' == r'.id && FaceOf(l') == Up(Inner(path), FaceOf(l))
      ensures Tracks(pages, Outer(path), ancestors[..|path| - 1]) && l'.id == Inner(path).id
      ensures physicalPages >= old(physicalPages) && (physicalPages > old(physicalPages) || fr == [] ==> fr' == [])
    {
      hide Splitting, Covers, Chain, FreeApart, SplitContents, Ordered, WellBuilt, PathAvoids;
      var leftPage, promoted, rightPage := CutAncestor(pages, ancestors, sep, right, caps, path, l, r, h);
      right', head', fr' := AllocateNodePage(head, fr, path, [l, r]);
      assert [l, r] + [Blank(right')] == [l, r, Blank(right')];
      l', r' := SplitLevel(pages, path, l, r, h, caps, head', fr', physicalPages, right', target, unique);
      SplitKeepsTracks(pages, path, l, r, caps, right', ancestors);
      WriteNode(right', rightPage);
      WriteNode(ancestors[|ancestors| - 1].id, leftPage);
      sep' := promoted;
    }

    /** Puts a split's separator and new child into an ancestor that has room. */
    method AbsorbInAncestor(ancestors: seq<PathEntry>, sep: Key, right: nat, ghost head: Ref, ghost path: Path,
                            ghost l: Tree, ghost r: Tree, ghost h: nat, ghost fr: seq<nat>, ghost target: seq<Entry>)
      returns (ghost t: Tree)
      requires Splitting(pages, path, l, r, h, caps) && path != [] && Tracks(pages, path, ancestors)
      requires Covers(path, [l, r], fr, physicalPages) && Chain(pages, head, fr)
      requires SplitContents(path, l, r) == target && Ordered(target, unique)
      requires sep == MinKey(r) && right == r.id && |ancestors[|path| - 1].keys| + 1 <= caps.internal
      modifies this`pages
      ensures Whole(pages, t, h + |path|, caps, fr, physicalPages, target) && Chain(pages, head, fr)
      ensures FaceOf(t) == FaceUp(path, FaceOf(l))
    {
      var e := ancestors[|ancestors| - 1];
      InnerShows(pages, path, FaceOf(l), ancestors);
      WithBoth(path, l, r, e);
      assert e.children[e.child] == l.id;
      t := AbsorbLevel(pages, path, l, r, h, h + |path|, caps, head, fr, physicalPages, target, unique);
      var page := InternalPage(WithKey(e, sep), WithChild(e, right));
      assert page == InternalOf(Widened(Inner(path), l, r));
      WriteNode(e.id, page);
    }

    /** Puts a new root above the two halves of the old one. */
    method GrowNewRoot(sep: Key, left: nat, right: nat, head: Ref,
                       ghost l: Tree, ghost r: Tree, ghost h: nat, ghost fr: seq<nat>, ghost target: seq<Entry>)
      returns (root: nat, head': Ref, ghost t: Tree, ghost fr': seq<nat>)
      requires Splitting(pages, [], l, r, h, caps) && h >= 1
      requires Covers([], [l, r], fr, physicalPages) && Chain(pages, head, fr) && FreeApart(header, fr)
      requires SplitContents([], l, r) == target && Ordered(target, unique)
      requires sep == MinKey(r) && left == l.id && right == r.id
      modifies this`pages, this`physicalPages
      ensures Whole(pages, t, h + 1, caps, fr', physicalPages, target) && Chain(pages, head', fr')
      ensures root == t.id && First(t) == First(l)
      ensures physicalPages >= old(physicalPages) && (physicalPages > old(physicalPages) || fr == [] ==> fr' == [])
    {
      root, head', fr' := AllocateNodePage(head, fr, [], [l, r]);
      assert [l, r] + [Blank(root)] == [l, r, Blank(root)];
      t := GrowLevel(pages, l, r, h, caps, head', fr', physicalPages, root, target, unique);
      WriteNode(root, InternalPage([sep], [left, right]));
    }

    /** Ends an upward split in the innermost ancestor left, or in a new root. */
    method SettleSplit(ancestors: seq<PathEntry>, sep: Key, left: nat, right: nat, freeHead: Ref, ghost path: Path,
                       ghost l: Tree, ghost r: Tree, ghost h: nat, ghost fr: seq<nat>, ghost target: seq<Entry>)
      returns (root: nat, height: nat, head: Ref, ghost t: Tree, ghost fr': seq<nat>)
      requires Splitting(pages, path, l, r, h, caps) && Tracks(pages, path, ancestors) && h >= 1
      requires path != [] ==> |ancestors[|path| - 1].keys| + 1 <= caps.internal
      requires Covers(path, [l, r], fr, physicalPages) && Chain(pages, freeHead, fr) && FreeApart(header, fr)
      requires SplitContents(path, l, r) == target && Ordered(target, unique)
      requires sep == MinKey(r) && left == l.id && right == r.id
      requires header.height == |path| + h && (path != [] ==> header.root == Some(FaceUp(path, FaceOf(l)).id))
      modifies this`pages, this`physicalPages
      ensures Whole(pages, t, height, caps, fr', physicalPages, target) && Chain(pages, head, fr')
      ensures root == t.id && First(t) == FaceUp(path, FaceOf(l)).first
      ensures physicalPages >= old(physicalPages) && (physicalPages > old(physicalPages) || fr == [] ==> fr' == [])
    {
      if ancestors != [] {
        t := AbsorbInAncestor(ancestors, sep, right, freeHead, path, l, r, h, fr, target);
        root, height, head, fr' := header.root.page, header.height, freeHead, fr;
      } else {
        root, head, t, fr' := GrowNewRoot(sep, left, right, freeHead, l, r, h, fr, target);
        height := header.height + 1;
      }
    }

    /** Moves a split up the captured path until an ancestor has room or a new root is made. */
    method PropagateSplit(ancestors: seq<PathEntry>, separator: Key, left: nat, right: nat, freeHead: Ref,
                          ghost path: Path, ghost l: Tree, ghost r: Tree, ghost fr: seq<nat>, ghost target: seq<Entry>)
      returns (root: nat, height: nat, head: Ref, ghost t: Tree, ghost fr': seq<nat>)
      requires Splitting(pages, path, l, r, 1, caps) && Tracks(pages, path, ancestors)
      requires Covers(path, [l, r], fr, physicalPages) && Chain(pages, freeHead, fr) && FreeApart(header, fr)
      requires SplitContents(path, l, r) == target && Ordered(target, unique)
      requires separator == MinKey(r) && left == l.id && right == r.id
      requires header.height == |path| + 1 && header.root == Some(FaceUp(path, FaceOf(l)).id)
      modifies this`pages, this`physicalPages
      ensures Whole(pages, t, height, caps, fr', physicalPages, target) && Chain(pages, head, fr')
      ensures root == t.id && First(t) == FaceUp(path, FaceOf(l)).first
      ensures physicalPages >= old(physicalPages) && (physicalPages > old(physicalPages) || fr == [] ==> fr' == [])
    {
      hide Splitting, Covers, Chain, FreeApart, SplitContents, Ordered, Whole;
      var rest, sep, left', right' := ancestors, separator, left, right;
      head, fr' := freeHead, fr;
      ghost var p, l', r', h := path, l, r, 1;
      while rest != [] && |rest[|rest| - 1].keys| + 1 > caps.internal
        invariant |rest| == |p| && h + |p| == header.height && h >= 1
        invariant Splitting(pages, p, l', r', h, caps) && Tracks(pages, p, rest)
        invariant Covers(p, [l', r'], fr', physicalPages) && Chain(pages, head, fr') && FreeApart(header, fr')
        invariant SplitContents(p, l', r') == target
        invariant sep == MinKey(r') && left' == l'.id && right' == r'.id
        invariant FaceUp(p, FaceOf(l')) == FaceUp(path, FaceOf(l))
        invariant physicalPages >= old(physicalPages) && (physicalPages > old(physicalPages) || fr == [] ==> fr' == [])
      {
        left' := rest[|rest| - 1].id;
        KeysFit(pages, p, l', r', h, caps, rest);
        sep, right', head, l', r', fr' := SplitAncestor(rest, sep, right', head, p, l', r', h, fr', target);
        rest := rest[..|rest| - 1];
        p, h := Outer(p), h + 1;
      }
      root, height, head, t, fr' := SettleSplit(rest, sep, left', right', head, p, l', r', h, fr', target);
    }

    /** Writes the header page. The precondition is what building and writing a header checks. */
    method WriteHeader(h: Header)
      requires Consistent(h) && h.pageCount == physicalPages
      modifies this`header
      ensures header == h
    {
      header := h;
    }

    method InsertFirstEntry(e: Entry)
      requires Valid() && shape.Empty? && header.entryCount < UINT64_MAX
      modifies this
      ensures Valid() && Pairs() == [e] && header.complete == old(header.complete)
      ensures physicalPages >= old(physicalPages) && (physicalPages > old(physicalPages) ==> free == [])
    {
      WellFormedApart(pages, header, shape, free, caps, unique);
      assert Covers([], [], free, physicalPages) by {
        forall x
          ensures CoversAt([], [], free, physicalPages, x)
        {
          assert UsedOnce(shape, free, physicalPages, x);
        }
      }
      var id, head;
      ghost var fr;
      id, head, fr := AllocateNodePage(header.freeHead, free, [], []);
      assert [] + [Blank(id)] == [Leaf(id, [])];
      FirstLeaf(pages, e, head, fr, physicalPages, id, caps, unique);
      WriteNode(id, LeafPage([e], None));
      var h := header.(root := Some(id), first := Some(id), height := 1, entryCount := 1,
                       pageCount := physicalPages, freeHead := head);
      Publish(pages, h, Leaf(id, [e]), fr, caps, unique, [e]);
      WellFormedIsConsistent(pages, h, Of(Leaf(id, [e])), fr, caps, unique);
      WriteHeader(h);
      shape, free := Of(Leaf(id, [e])), fr;
    }

    /** Writes the leaf with the pair put in. */
    method InsertIntoLeaf(d: Descent, pos: nat, e: Entry, ghost path: Path)
      requires Valid() && shape.Of? && At(pages, shape.tree, path, d)
      requires Slot(path, d.es, pos, e, unique) && |d.es| + 1 <= caps.leaf && header.entryCount < UINT64_MAX
      modifies this
      ensures Valid() && shape.Of? && Pairs() == Inserted(old(Pairs()), e) && header.complete == old(header.complete)
      ensures physicalPages == old(physicalPages) && header.first == old(header.first)
    {
      assert pos <= |d.es|;
      hide Chosen, Whole, Chain, Slot, Ordered, GoodRoot, Holds, Partition;
      ghost var had := Contents(shape.tree);
      Choose(pages, header, shape, free, caps, unique, path, d, pos, e);
      ghost var t := LeafFits(pages, path, d, pos, e, header.freeHead, free, physicalPages, caps, had, unique,
                              header.height);
      WriteNode(d.leaf, LeafPage(Grown(d.es, pos, e), d.next));
      InsertedElements(had, e);
      var h := header.(entryCount := header.entryCount + 1);
      Publish(pages, h, t, free, caps, unique, Inserted(had, e));
      WellFormedIsConsistent(pages, h, Of(t), free, caps, unique);
      WriteHeader(h);
      shape := Of(t);
    }

    /** Writes the two halves of a leaf, the new right one first. */
    method WriteHalves(d: Descent, newRight: nat, low: seq<Entry>, high: seq<Entry>, ghost path: Path)
      requires WellBuilt(newRight, LeafPage(high, d.next), caps)
      requires WellBuilt(d.leaf, LeafPage(low, Some(newRight)), caps)
      requires Tracks(pages, path, d.ancestors) && PathAvoids(path, {d.leaf, newRight})
      modifies this`pages
      ensures pages == old(pages)[newRight := LeafPage(high, d.next)][d.leaf := LeafPage(low, Some(newRight))]
      ensures Tracks(pages, path, d.ancestors)
    {
      hide WellBuilt, Tracks, PathAvoids;
      ghost var was := pages;
      WriteNode(newRight, LeafPage(high, d.next));
      WriteNode(d.leaf, LeafPage(low, Some(newRight)));
      TracksFrame(was, pages, {d.leaf, newRight}, path, d.ancestors);
    }

    /** Takes the page for the right half of a full leaf. */
    method TakeRightPage(d: Descent, pos: nat, e: Entry, ghost path: Path)
      returns (newRight: nat, head: Ref, ghost fr: seq<nat>)
      requires Valid() && shape.Of? && At(pages, shape.tree, path, d)
      requires Slot(path, d.es, pos, e, unique)
      modifies this`physicalPages
      ensures Chosen(pages, path, d, pos, e, header.freeHead, free, old(physicalPages), caps, Pairs(), unique)
      ensures Tracks(pages, path, d.ancestors) && Chain(pages, head, fr) && FreeApart(header, fr)
      ensures Covers(path, [Leaf(d.leaf, d.es)] + [Blank(newRight)], fr, physicalPages)
      ensures header.height == |path| + 1
      ensures header.root == Some(FaceUp(path, FaceOf(Leaf(d.leaf, d.es))).id)
      ensures header.first == Some(FaceUp(path, FaceOf(Leaf(d.leaf, d.es))).first)
      ensures physicalPages >= old(physicalPages) && (physicalPages > old(physicalPages) ==> fr == [])
    {
      hide Chosen, Chain, Slot, Covers, FreeApart, FaceUp, FaceOf, WellFormed, Rebuild, Tracks;
      Choose(pages, header, shape, free, caps, unique, path, d, pos, e);
      WellFormedApart(pages, header, shape, free, caps, unique);
      newRight, head, fr := AllocateNodePage(header.freeHead, free, path, [Leaf(d.leaf, d.es)]);
    }

    /** Cuts a full leaf around the new pair: takes a page for the right half and writes both. */
    method CutLeaf(d: Descent, pos: nat, e: Entry, ghost path: Path)
      returns (newRight: nat, head: Ref, ghost fr: seq<nat>, ghost l: Tree, ghost r: Tree)
      requires Valid() && shape.Of? && At(pages, shape.tree, path, d)
      requires Slot(path, d.es, pos, e, unique) && |d.es| + 1 > caps.leaf
      modifies this`pages, this`physicalPages
      ensures pos <= |d.es| && l.id == d.leaf && r.id == newRight
      ensures Splitting(pages, path, l, r, 1, caps) && Tracks(pages, path, d.ancestors)
      ensures Covers(path, [l, r], fr, physicalPages) && Chain(pages, head, fr) && FreeApart(header, fr)
      ensures SplitContents(path, l, r) == Inserted(Pairs(), e) && Ordered(Inserted(Pairs(), e), unique)
      ensures header.root == Some(FaceUp(path, FaceOf(l)).id) && header.first == Some(FaceUp(path, FaceOf(l)).first)
      ensures var es := Grown(d.es, pos, e);
              es != [] && MinKey(r) == es[|es| / 2].key
      ensures header.height == |path| + 1
      ensures physicalPages >= old(physicalPages) && (physicalPages > old(physicalPages) ==> fr == [])
    {
      assert pos <= |d.es|;
      hide Chosen, Chain, Slot, Ordered, Splitting, Covers, SplitContents, WellBuilt, PathAvoids, FreeApart, FaceUp,
           FaceOf,
           WellFormed, Rebuild, Tracks, NextOf, Grown, LowerHalf, UpperHalf, At;
      ghost var n, was, had := physicalPages, pages, Pairs();
      newRight, head, fr := TakeRightPage(d, pos, e, path);
      var es := Grown(d.es, pos, e);
      l, r := LeftLeaf(d, pos, e), RightLeaf(d, pos, e, newRight);
      ghost var now: PageMap := was[newRight := LeafPage(r.es, d.next)][d.leaf := LeafPage(l.es, Some(newRight))];
      LeafSplits(was, path, d, pos, e, header.freeHead, free, n, head, fr, physicalPages, newRight, caps, had, unique,
                 l, r, now);
      WriteHalves(d, newRight, LowerHalf(es), UpperHalf(es), path);
    }

    /** Splits a full leaf around the new pair and moves the split up. */
    method SplitLeaf(d: Descent, pos: nat, e: Entry, ghost path: Path)
      requires Valid() && shape.Of? && At(pages, shape.tree, path, d)
      requires Slot(path, d.es, pos, e, unique) && |d.es| + 1 > caps.leaf && header.entryCount < UINT64_MAX
      modifies this
      ensures Valid() && shape.Of? && Pairs() == Inserted(old(Pairs()), e) && header.complete == old(header.complete)
      ensures physicalPages >= old(physicalPages) && (physicalPages > old(physicalPages) ==> free == [])
      ensures header.first == old(header.first)
    {
      hide Whole, Chain, Slot, Ordered, Splitting, Covers, SplitContents, FreeApart;
      ghost var had := Pairs();
      ghost var fr, t, l, r;
      var right, head := 0, None;
      right, head, fr, l, r := CutLeaf(d, pos, e, path);
      var es := Grown(d.es, pos, e);
      var root, height;
      root, height, head, t, fr := PropagateSplit(d.ancestors, es[|es| / 2].key, d.leaf, right, head, path,
                                                  l, r, fr, Inserted(had, e));
      InsertedElements(had, e);
      var h := header.(root := Some(root), height := height, entryCount := header.entryCount + 1,
                       pageCount := physicalPages, freeHead := head);
      Publish(pages, h, t, fr, caps, unique, Inserted(had, e));
      WellFormedIsConsistent(pages, h, Of(t), fr, caps, unique);
      WriteHeader(h);
      shape, free := Of(t), fr;
    }

    /**
     * Inserts a pair. A pair that is already there is left alone, and a unique index refuses
     * a key that is there with another RID.
     */
    method Insert(e: Entry) returns (r: InsertResult)
      requires Valid()
      modifies this
      ensures Valid()
      ensures r == (if old(header.entryCount) == UINT64_MAX then Full
                    else if e in old(Pairs()) then AlreadyThere
                    else if unique && Conflict(old(Pairs()), e) then DuplicateKey
                    else Added)
      ensures r != Added ==> header == old(header) && pages == old(pages) && physicalPages == old(physicalPages)
                             && Pairs() == old(Pairs()) && free == old(free)
      ensures r == Added ==> Pairs() == Inserted(old(Pairs()), e) && header.complete == old(header.complete)
      ensures physicalPages >= old(physicalPages) && (physicalPages > old(physicalPages) ==> free == [])
      ensures old(Pairs()) != [] ==> header.first == old(header.first)
    {
      if header.entryCount == UINT64_MAX {
        return Full;
      }
      if header.entryCount == 0 {
        EmptyShape(pages, header, shape, free, caps, unique);
        InsertFirstEntry(e);
        return Added;
      }
      EmptyShape(pages, header, shape, free, caps, unique);
      var outcome, d, pos;
      ghost var path;
      outcome, d, pos, path := Locate(pages, header, caps, unique, e, shape, free);
      if outcome == Found {
        return AlreadyThere;
      }
      if outcome == Duplicate {
        ghost var s := Pairs();
        if e in s {
          NoClash(s, e);
        }
        return DuplicateKey;
      }
      PlaceIsNew(pages, header, shape, free, caps, unique, path, d, pos, e);
      var sound := ValidatePath(pages, header, caps, unique, d, shape, free, path);
      assert sound;
      if |d.es| + 1 <= caps.leaf {
        InsertIntoLeaf(d, pos, e, path);
      } else {
        SplitLeaf(d, pos, e, path);
      }
      r := Added;
    }

    // Reading.

    /** The RIDs of a key, in increasing order. */
    method SearchKey(key: Key) returns (rids: seq<Rid>)
      requires Valid()
      ensures forall r :: r in rids <==> Entry(key, r) in Pairs()
      ensures forall i, j :: RidsRise(rids, i, j)
    {
      var sound;
      ghost var trail;
      rids, sound, trail := Search(pages, header, caps, unique, key, shape, free);
      assert sound;
      SearchMeans(Pairs(), key, rids);
    }

    /** The pairs of a range: one slice of the index. An inverted range is refused. */
    method SearchRange(b: Bound) returns (out: seq<Entry>, r: RangeEnd, ghost lo: nat, ghost hi: nat)
      requires Valid()
      ensures r == if b.lower.Just? && b.upper.Just? && b.lower.value > b.upper.value then Inverted else Finished
      ensures r == Finished ==> lo <= hi <= |Pairs()| && out == Pairs()[lo..hi]
      ensures r == Finished ==> forall i :: 0 <= i < |Pairs()| ==> (lo <= i < hi <==> InBounds(Pairs()[i].key, b))
    {
      ghost var trail;
      out, r, trail := RangeEntries(pages, header, caps, unique, b, shape, free);
      lo, hi := WithinIsSlice(Pairs(), b);
    }

    // Deletion.

    /** The free page that the stored header names is still free while a deletion frees more pages. */
    ghost predicate HeadIsFree(fr: seq<nat>)
      reads this`header
    {
      header.freeHead.Some? ==> FreeCount(fr, header.freeHead.page) >= 1
    }

    /** Puts a page on the free list. The precondition is the check on pages the header names. */
    method RegisterFreePage(id: nat, head: Ref, allowHeaderReference: bool) returns (head': Ref)
      requires allowHeaderReference || (header.root != Some(id) && header.first != Some(id))
      requires WellBuilt(id, FreePage(head), caps)
      modifies this`pages
      ensures pages == old(pages)[id := FreePage(head)] && head' == Some(id)
    {
      WriteNode(id, FreePage(head));
      head' := Some(id);
    }

    /** Sets the one separator that records the least key of the subtree at the end of the path. */
    method UpdateMinimumInAncestors(ancestors: seq<PathEntry>, minimum: Key, ghost path: Path, ghost face: Face,
                                    ghost t: Tree, ghost h: nat, ghost head: Ref, ghost fr: seq<nat>,
                                    ghost target: seq<Entry>)
      requires Settled(pages, path, face, t, h, caps, head, fr, physicalPages, target) && Ordered(target, unique)
      requires Tracks(pages, path, ancestors) && (path != [] ==> Filled(t, caps)) && minimum == MinKey(t)
      modifies this`pages
      ensures Settled(pages, path, FaceOf(t), t, h, caps, head, fr, physicalPages, target)
    {
      var i := |ancestors|;
      while i > 0 && ancestors[i - 1].child == 0
        invariant 0 <= i <= |ancestors| && LeftmostFrom(path, i)
      {
        i := i - 1;
      }
      if i == 0 {
        NoSeparator(pages, path, face, t, h, caps, head, fr, physicalPages, target);
        return;
      }
      SeparatorStep(pages, path, i - 1, face, t, h, caps, head, fr, physicalPages, target, unique, ancestors);
      hide Settled, WellBuilt, Tracks;
      var e := ancestors[i - 1];
      var keys := e.keys[e.child - 1 := minimum];
      if e.keys[e.child - 1] == minimum {
        assert keys == e.keys;
        assert pages[e.id := InternalPage(keys, e.children)] == pages;
        return;
      }
      WriteNode(e.id, InternalPage(keys, e.children));
    }

    /** Moves the last entry of the left neighbour into an underfull leaf. */
    method BorrowFromLeftLeaf(e: PathEntry, leaf: nat, es: seq<Entry>, next: Ref, left: nat, leftEs: seq<Entry>,
                              leftNext: Ref, ghost path: Path, ghost face: Face, ghost head: Ref, ghost fr: seq<nat>,
                              ghost target: seq<Entry>)
      returns (ghost u: Tree)
      requires L.Short(pages, path, face, Leaf(leaf, es), caps, head, fr, physicalPages, target, e)
      requires Ordered(target, unique)
      requires next == NextOf(path) && leftNext == Some(leaf)
      requires Inner(path).left != [] && Last(Inner(path).left) == Leaf(left, leftEs) && |leftEs| > caps.MinLeaf()
      modifies this`pages
      ensures Mended(old(pages), pages, Outer(path), Up(Inner(path), face), u, 2, caps, head, fr, physicalPages, target)
      ensures MinKey(u) == Up(Inner(path), face).min && (Outer(path) != [] ==> Filled(u, caps))
    {
      assert path != [];
      hide L.Short, Mended, WellBuilt, Rekeyed, AddFirst, DropLast;
      ghost var now;
      u, now := L.BorrowLeftStep(pages, path, face, leaf, es, caps, head, fr, physicalPages, target, e, unique, left,
                                 leftEs);
      var last := leftEs[|leftEs| - 1];
      var es' := AddFirst(last, es);
      WriteThree(left, LeafPage(DropLast(leftEs), leftNext), leaf, LeafPage(es', next), e.id, Rekeyed(e, es'[0].key));
      assert pages == now;
    }

    /** Moves the first entry of the right neighbour into an underfull leaf. */
    method BorrowFromRightLeaf(e: PathEntry, leaf: nat, es: seq<Entry>, next: Ref, right: nat, rightEs: seq<Entry>,
                               rightNext: Ref, ghost path: Path, ghost face: Face, ghost head: Ref, ghost fr: seq<nat>,
                               ghost target: seq<Entry>)
      returns (first: Key, ghost u: Tree)
      requires L.Short(pages, path, face, Leaf(leaf, es), caps, head, fr, physicalPages, target, e)
      requires Ordered(target, unique)
      requires next == Some(right) && Inner(path).right != []
      requires rightNext == Head(Inner(path).right[1..], NextOf(Outer(path)))
      requires Inner(path).right[0] == Leaf(right, rightEs) && |rightEs| > caps.MinLeaf()
      modifies this`pages
      ensures Mended(old(pages), pages, Outer(path), Up(Inner(path), face), u, 2, caps, head, fr, physicalPages, target)
      ensures e.child > 0 ==> MinKey(u) == Up(Inner(path), face).min
      ensures e.child == 0 ==> MinKey(u) == first && Up(Inner(path), face).min == face.min
      ensures first == if es == [] then rightEs[0].key else es[0].key
      ensures Outer(path) != [] ==> Filled(u, caps)
    {
      assert path != [];
      hide L.Short, L.FromRightPages, Mended, WellBuilt;
      u := L.BorrowRightStep(pages, path, face, Leaf(leaf, es), caps, head, fr, physicalPages, target, e, unique);
      ghost var now := L.FromRightPages(pages, path, Leaf(leaf, es));
      var es' := es + [rightEs[0]];
      WriteNode(leaf, LeafPage(es', next));
      WriteNode(right, LeafPage(rightEs[1..], rightNext));
      first := es'[0].key;
      var keys := e.keys[e.child := rightEs[1..][0].key];
      if e.child > 0 {
        keys := keys[e.child - 1 := first];
      }
      assert keys == BeforeSet(e, first)[e.child := rightEs[1..][0].key];
      WriteNode(e.id, InternalPage(keys, e.children));
      assert pages == now;
    }

    /** Merges an underfull leaf into its left neighbour and frees its page. */
    method MergeIntoLeftLeaf(e: PathEntry, leaf: nat, es: seq<Entry>, next: Ref, left: nat, leftEs: seq<Entry>,
                             head: Ref, ghost path: Path, ghost face: Face, ghost fr: seq<nat>,
                             ghost target: seq<Entry>)
      returns (head': Ref, keys: seq<Key>, children: seq<nat>, ghost u: Tree, ghost fr': seq<nat>)
      requires L.Short(pages, path, face, Leaf(leaf, es), caps, head, fr, physicalPages, target, e)
      requires Ordered(target, unique)
      requires next == NextOf(path)
      requires header.root == Some(FaceUp(path, face).id) && header.first == Some(FaceUp(path, face).first)
      requires Inner(path).left != [] && Last(Inner(path).left) == Leaf(left, leftEs) && |leftEs| == caps.MinLeaf()
      modifies this`pages
      ensures Mended(old(pages), pages, Outer(path), Up(Inner(path), face), u, 2, caps, head', fr', physicalPages,
                     target)
      ensures MinKey(u) == Up(Inner(path), face).min && fr' == [leaf] + fr
      ensures InternalPage(keys, children) == TopPage(u, None) && |u.kids| + 1 == |e.children|
    {
      assert path != [];
      hide L.Short, L.IntoLeftPages, Mended, WellBuilt;
      u := L.MergeLeftStep(pages, path, face, Leaf(leaf, es), caps, head, fr, physicalPages, target, e, unique);
      ghost var now := L.IntoLeftPages(pages, path, Leaf(leaf, es), head);
      fr' := [leaf] + fr;
      WriteNode(left, LeafPage(leftEs + es, next));
      head' := RegisterFreePage(leaf, head, false);
      keys, children := RemoveAt(e.keys, e.child - 1), RemoveAt(e.children, e.child);
      WriteNode(e.id, InternalPage(keys, children));
      assert pages == now;
    }

    /** Merges the right neighbour of an underfull first leaf into it and frees the neighbour's page. */
    method MergeRightLeaf(e: PathEntry, leaf: nat, es: seq<Entry>, right: nat, rightEs: seq<Entry>, rightNext: Ref,
                          head: Ref, ghost path: Path, ghost face: Face, ghost fr: seq<nat>, ghost target: seq<Entry>)
      returns (head': Ref, keys: seq<Key>, children: seq<nat>, ghost u: Tree, ghost fr': seq<nat>)
      requires L.Short(pages, path, face, Leaf(leaf, es), caps, head, fr, physicalPages, target, e)
      requires Ordered(target, unique)
      requires Inner(path).left == [] && Inner(path).right != []
      requires header.root == Some(FaceUp(path, face).id) && header.first == Some(FaceUp(path, face).first)
      requires rightNext == Head(Inner(path).right[1..], NextOf(Outer(path)))
      requires Inner(path).right[0] == Leaf(right, rightEs) && |rightEs| == caps.MinLeaf() && es != []
      modifies this`pages
      ensures Mended(old(pages), pages, Outer(path), Up(Inner(path), face), u, 2, caps, head', fr', physicalPages,
                     target)
      ensures MinKey(u) == es[0].key && Up(Inner(path), face).min == face.min && fr' == [right] + fr
      ensures InternalPage(keys, children) == TopPage(u, None) && |u.kids| + 1 == |e.children|
    {
      assert path != [];
      hide L.Short, L.IntoRightPages, Mended, WellBuilt;
      u := L.MergeRightStep(pages, path, face, Leaf(leaf, es), caps, head, fr, physicalPages, target, e, unique);
      ghost var now := L.IntoRightPages(pages, path, Leaf(leaf, es), head);
      fr' := [right] + fr;
      WriteNode(leaf, LeafPage(es + rightEs, rightNext));
      head' := RegisterFreePage(right, head, false);
      keys, children := RemoveAt(e.keys, 0), RemoveAt(e.children, 1);
      WriteNode(e.id, InternalPage(keys, children));
      assert pages == now;
    }

    /** Moves the last child of the left neighbour into an underfull internal node. */
    method BorrowFromLeftNode(e: PathEntry, current: nat, k: Page, min: Key, left: nat, s: Page,
                              ghost path: Path, ghost face: Face, ghost t: Tree, ghost x: Tree, ghost h: nat,
                              ghost head: Ref, ghost fr: seq<nat>, ghost target: seq<Entry>)
      returns (ghost u: Tree)
      requires N.Scant(pages, path, face, t, h, caps, head, fr, physicalPages, target, e) && Ordered(target, unique)
      requires current == t.id && t.kids != [] && k == InternalOf(t.kids) && min == MinKey(t)
      requires Inner(path).left != [] && x == Last(Inner(path).left) && x.Node? && |x.kids| > caps.MinInternal() + 1
      requires left == x.id && s == InternalOf(x.kids)
      modifies this`pages
      ensures Mended(old(pages), pages, Outer(path), Up(Inner(path), face), u, h + 1, caps, head, fr, physicalPages,
                     target)
      ensures MinKey(u) == Up(Inner(path), face).min && (Outer(path) != [] ==> Filled(u, caps))
    {
      assert path != [];
      hide N.Scant, Mended, WellBuilt, N.LessLast, N.LedBy, Rekeyed, InternalOf;
      ghost var now;
      u, now := N.BorrowLeftStep(pages, path, face, t, h, caps, head, fr, physicalPages, target, e, unique, left, k, s);
      var borrowed, child := s.keys[|s.keys| - 1], s.children[|s.children| - 1];
      WriteThree(left, N.LessLast(s), current, N.LedBy(k, min, child), e.id, Rekeyed(e, borrowed));
      assert pages == now;
    }

    /** Moves the first child of the right neighbour into an underfull internal node. */
    method BorrowFromRightNode(e: PathEntry, current: nat, k: Page, min: Key, right: nat, s: Page,
                               ghost path: Path, ghost face: Face, ghost t: Tree, ghost h: nat,
                               ghost head: Ref, ghost fr: seq<nat>, ghost target: seq<Entry>)
      returns (ghost u: Tree)
      requires N.Scant(pages, path, face, t, h, caps, head, fr, physicalPages, target, e) && Ordered(target, unique)
      requires current == t.id && t.kids != [] && k == InternalOf(t.kids) && min == MinKey(t)
      requires Inner(path).right != [] && Inner(path).right[0].Node?
      requires |Inner(path).right[0].kids| > caps.MinInternal() + 1
      requires right == Inner(path).right[0].id && s == InternalOf(Inner(path).right[0].kids)
      modifies this`pages
      ensures Mended(old(pages), pages, Outer(path), Up(Inner(path), face), u, h + 1, caps, head, fr, physicalPages,
                     target)
      ensures MinKey(u) == (if e.child > 0 then Up(Inner(path), face).min else min)
      ensures (Outer(path) != [] ==> Filled(u, caps))
    {
      assert path != [];
      u := N.BorrowRightStep(pages, path, face, t, h, caps, head, fr, physicalPages, target, e, unique);
      ghost var now := N.FromRightPages(pages, path, t);
      WriteNode(current, InternalPage(k.keys + [e.keys[e.child]], k.children + [s.children[0]]));
      WriteNode(right, InternalPage(s.keys[1..], s.children[1..]));
      WriteNode(e.id, InternalPage(BeforeSet(e, min)[e.child := s.keys[0]], e.children));
      assert pages == now;
    }

    /** Merges an underfull internal node into its left neighbour and frees its page. */
    method MergeIntoLeftNode(e: PathEntry, current: nat, k: Page, min: Key, left: nat, s: Page, head: Ref,
                             ghost path: Path, ghost face: Face, ghost t: Tree, ghost h: nat, ghost fr: seq<nat>,
                             ghost target: seq<Entry>)
      returns (head': Ref, k': Page, ghost u: Tree, ghost fr': seq<nat>)
      requires N.Scant(pages, path, face, t, h, caps, head, fr, physicalPages, target, e) && Ordered(target, unique)
      requires current == t.id && t.kids != [] && k == InternalOf(t.kids) && min == MinKey(t)
      requires header.root == Some(FaceUp(path, face).id) && header.first == Some(FaceUp(path, face).first)
      requires Inner(path).left != [] && Last(Inner(path).left).Node?
      requires |Last(Inner(path).left).kids| == caps.MinInternal() + 1
      requires left == Last(Inner(path).left).id && s == InternalOf(Last(Inner(path).left).kids)
      modifies this`pages
      ensures Mended(old(pages), pages, Outer(path), Up(Inner(path), face), u, h + 1, caps, head', fr', physicalPages,
                     target)
      ensures MinKey(u) == Up(Inner(path), face).min && fr' == [current] + fr
      ensures k' == TopPage(u, None) && |u.kids| + 1 == |e.children|
    {
      assert path != [];
      u := N.MergeLeftStep(pages, path, face, t, h, caps, head, fr, physicalPages, target, e, unique);
      ghost var now := N.IntoLeftPages(pages, path, t, head);
      fr' := [current] + fr;
      WriteNode(left, InternalPage(s.keys + [min] + k.keys, s.children + k.children));
      head' := RegisterFreePage(current, head, false);
      k' := InternalPage(RemoveAt(e.keys, e.child - 1), RemoveAt(e.children, e.child));
      WriteNode(e.id, k');
      assert pages == now;
    }

    /** Merges the right neighbour of an underfull first child into it and frees the neighbour's page. */
    method MergeRightNode(e: PathEntry, current: nat, k: Page, right: nat, s: Page, head: Ref, ghost path: Path,
                          ghost face: Face, ghost t: Tree, ghost h: nat, ghost fr: seq<nat>, ghost target: seq<Entry>)
      returns (head': Ref, k': Page, ghost u: Tree, ghost fr': seq<nat>)
      requires N.Scant(pages, path, face, t, h, caps, head, fr, physicalPages, target, e) && Ordered(target, unique)
      requires current == t.id && t.kids != [] && k == InternalOf(t.kids)
      requires header.root == Some(FaceUp(path, face).id) && header.first == Some(FaceUp(path, face).first)
      requires Inner(path).left == [] && Inner(path).right != []
      requires Inner(path).right[0].Node? && |Inner(path).right[0].kids| == caps.MinInternal() + 1
      requires right == Inner(path).right[0].id && s == InternalOf(Inner(path).right[0].kids)
      modifies this`pages
      ensures Mended(old(pages), pages, Outer(path), Up(Inner(path), face), u, h + 1, caps, head', fr', physicalPages,
                     target)
      ensures MinKey(u) == MinKey(t) && fr' == [right] + fr
      ensures k' == TopPage(u, None) && |u.kids| + 1 == |e.children|
    {
      assert path != [];
      u := N.MergeRightStep(pages, path, face, t, h, caps, head, fr, physicalPages, target, e, unique);
      ghost var now := N.IntoRightPages(pages, path, t, head);
      fr' := [right] + fr;
      WriteNode(current, InternalPage(k.keys + [e.keys[0]] + s.keys, k.children + s.children));
      head' := RegisterFreePage(right, head, false);
      k' := InternalPage(RemoveAt(e.keys, 0), RemoveAt(e.children, 1));
      WriteNode(e.id, k');
      assert pages == now;
    }

    /** Reads the siblings of an underfull internal node that its parent has. */
    method ReadNodeSiblings(e: PathEntry, ghost path: Path, ghost face: Face, ghost t: Tree, ghost h: nat,
                            ghost head: Ref, ghost fr: seq<nat>, ghost target: seq<Entry>)
      returns (left: Option<Page>, right: Option<Page>)
      requires N.Scant(pages, path, face, t, h, caps, head, fr, physicalPages, target, e)
      requires header.pageCount == physicalPages && HeadIsFree(fr)
      ensures e.children[e.child] == t.id && OffersNodes(path, e, left, right, caps)
    {
      left, right := Nothing, Nothing;
      Neighbours(path, face, e);
      if e.child > 0 {
        N.LeftNodeRead(pages, path, face, t, h, caps, head, fr, physicalPages, target, e);
        var page := ReadReachable(pages, header, unique, e.children[e.child - 1]);
        assert caps.MinInternal() <= |page.keys| <= caps.internal;
        left := Just(page);
      }
      if e.child + 1 < |e.children| {
        N.RightNodeRead(pages, path, face, t, h, caps, head, fr, physicalPages, target, e);
        var page := ReadReachable(pages, header, unique, e.children[e.child + 1]);
        assert caps.MinInternal() <= |page.keys| <= caps.internal;
        right := Just(page);
      }
    }

    /** Rewrites a repaired node as it stands. */
    method RewriteNode(current: nat, k: Page, ghost path: Path, ghost face: Face, ghost t: Tree, ghost h: nat,
                       ghost head: Ref, ghost fr: seq<nat>, ghost target: seq<Entry>)
      requires Settled(pages, path, face, t, h, caps, head, fr, physicalPages, target) && Ordered(target, unique)
      requires t.Node? && t.kids != [] && current == t.id && k == InternalOf(t.kids)
      modifies this`pages
      ensures pages == old(pages)
    {
      SafeWrite(path, t, h, caps, fr, physicalPages, target, unique);
      assert pages[current := k] == pages;
      hide Settled, WellBuilt, Ordered, InternalOf;
      WriteNode(current, k);
    }

    /** The repair has reached the root. */
    method FinishAtRoot(current: nat, k: Page, ghost face: Face, ghost t: Tree, ghost h: nat,
                        ghost head: Ref, ghost fr: seq<nat>, ghost target: seq<Entry>)
      returns (ghost whole: Tree)
      requires Settled(pages, [], face, t, h, caps, head, fr, physicalPages, target) && Ordered(target, unique)
      requires Anchored(header, [], face, h, fr, physicalPages)
      requires t.Node? && t.kids != [] && current == t.id && k == InternalOf(t.kids)
      modifies this`pages
      ensures Done(pages, header, whole, caps, head, fr, target)
    {
      RewriteNode(current, k, [], face, t, h, head, fr, target);
      NoSeparator(pages, [], face, t, h, caps, head, fr, physicalPages, target);
      whole := Rebuild([], t);
      assert face.id == t.id && face.first == First(t);
      RepairDone(pages, header, [], face, FaceOf(t), t, h, caps, head, fr, physicalPages, target);
    }

    /** The repair has reached a node that is filled well enough. */
    method FinishFilled(current: nat, k: Page, rest: seq<PathEntry>, min: Key, ghost path: Path, ghost face: Face,
                        ghost t: Tree, ghost h: nat, ghost head: Ref, ghost fr: seq<nat>, ghost target: seq<Entry>)
      returns (ghost whole: Tree)
      requires Settled(pages, path, face, t, h, caps, head, fr, physicalPages, target) && Ordered(target, unique)
      requires Anchored(header, path, face, h, fr, physicalPages) && Tracks(pages, path, rest)
      requires t.Node? && t.kids != [] && current == t.id && k == InternalOf(t.kids) && min == MinKey(t)
      requires |k.keys| >= caps.MinInternal()
      modifies this`pages
      ensures Done(pages, header, whole, caps, head, fr, target)
    {
      assert face.id == t.id && face.first == First(t) && Filled(t, caps);
      RewriteNode(current, k, path, face, t, h, head, fr, target);
      whole := FinishRepair(rest, true, min, path, face, t, h, head, fr, target);
    }

    /** Ends a repair at a node: the ancestors are told of a new minimum when there is one. */
    method FinishRepair(ancestors: seq<PathEntry>, changed: bool, minimum: Key, ghost path: Path, ghost face: Face,
                        ghost t: Tree, ghost h: nat, ghost head: Ref, ghost fr: seq<nat>, ghost target: seq<Entry>)
      returns (ghost whole: Tree)
      requires Settled(pages, path, face, t, h, caps, head, fr, physicalPages, target) && Ordered(target, unique)
      requires Anchored(header, path, face, h, fr, physicalPages) && Tracks(pages, path, ancestors)
      requires MinKey(t) == (if changed then minimum else face.min) && (path != [] ==> Filled(t, caps))
      modifies this`pages
      ensures Done(pages, header, whole, caps, head, fr, target)
    {
      hide Settled, Anchored, Done, Ordered, Tracks;
      whole := Rebuild(path, t);
      if changed {
        MendedFace(pages, path, face, t, h, caps, head, fr, physicalPages, target);
        UpdateMinimumInAncestors(ancestors, minimum, path, face, t, h, head, fr, target);
        RepairDone(pages, header, path, face, FaceOf(t), t, h, caps, head, fr, physicalPages, target);
      } else {
        RepairDone(pages, header, path, face, face, t, h, caps, head, fr, physicalPages, target);
      }
    }

    /** Borrows from the left sibling, which ends the repair. */
    method BorrowLeftEnds(before: seq<PathEntry>, e: PathEntry, current: nat, k: Page, min: Key, left: nat, s: Page,
                          ghost path: Path, ghost face: Face, ghost t: Tree, ghost x: Tree, ghost h: nat,
                          ghost head: Ref, ghost fr: seq<nat>, ghost target: seq<Entry>)
      returns (ghost whole: Tree)
      requires path != [] && Tracks(pages, Outer(path), before)
      requires N.Scant(pages, path, face, t, h, caps, head, fr, physicalPages, target, e) && Ordered(target, unique)
      requires Anchored(header, path, face, h, fr, physicalPages)
      requires t.kids != [] && current == t.id && k == InternalOf(t.kids) && min == MinKey(t)
      requires Inner(path).left != [] && x == Last(Inner(path).left) && x.Node? && |x.kids| > caps.MinInternal() + 1
      requires left == x.id && s == InternalOf(x.kids)
      modifies this`pages
      ensures Done(pages, header, whole, caps, head, fr, target)
    {
      hide N.Scant, Settled, Anchored, Done, Ordered, Tracks, InternalOf, Last, Filled, Mended;
      AnchoredUp(header, path, face, h, fr, physicalPages, fr);
      ghost var was := pages;
      ghost var u := BorrowFromLeftNode(e, current, k, min, left, s, path, face, t, x, h, head, fr, target);
      MendedParts(was, pages, Outer(path), Up(Inner(path), face), u, h + 1, caps, head, fr, physicalPages, target,
                  before);
      whole := FinishRepair(before, false, min, Outer(path), Up(Inner(path), face), u, h + 1, head, fr, target);
    }

    /** Borrows from the right sibling, which ends the repair. */
    method BorrowRightEnds(before: seq<PathEntry>, e: PathEntry, current: nat, k: Page, min: Key, right: nat, s: Page,
                           ghost path: Path, ghost face: Face, ghost t: Tree, ghost h: nat,
                           ghost head: Ref, ghost fr: seq<nat>, ghost target: seq<Entry>)
      returns (ghost whole: Tree)
      requires path != [] && Tracks(pages, Outer(path), before)
      requires N.Scant(pages, path, face, t, h, caps, head, fr, physicalPages, target, e) && Ordered(target, unique)
      requires Anchored(header, path, face, h, fr, physicalPages)
      requires t.kids != [] && current == t.id && k == InternalOf(t.kids) && min == MinKey(t)
      requires Inner(path).right != [] && Inner(path).right[0].Node?
      requires |Inner(path).right[0].kids| > caps.MinInternal() + 1
      requires right == Inner(path).right[0].id && s == InternalOf(Inner(path).right[0].kids)
      modifies this`pages
      ensures Done(pages, header, whole, caps, head, fr, target)
    {
      ghost var up, face' := Outer(path), Up(Inner(path), face);
      ghost var u;
      AnchoredUp(header, path, face, h, fr, physicalPages, fr);
      hide N.Scant, Settled, Anchored, Done, Ordered, Tracks, InternalOf;
      u := BorrowFromRightNode(e, current, k, min, right, s, path, face, t, h, head, fr, target);
      whole := FinishRepair(before, e.child == 0, min, up, face', u, h + 1, head, fr, target);
    }

    /**
     * Borrows a child for an underfull internal node, from the left sibling or else from the right one, when one can
     * spare it.
     */
    method BorrowForNode(before: seq<PathEntry>, e: PathEntry, current: nat, k: Page, min: Key, left: Option<Page>,
                         right: Option<Page>, ghost path: Path, ghost face: Face, ghost t: Tree, ghost h: nat,
                         ghost head: Ref, ghost fr: seq<nat>, ghost target: seq<Entry>)
      returns (done: bool, ghost whole: Tree)
      requires path != [] && Tracks(pages, Outer(path), before)
      requires N.Scant(pages, path, face, t, h, caps, head, fr, physicalPages, target, e) && Ordered(target, unique)
      requires Anchored(header, path, face, h, fr, physicalPages)
      requires t.kids != [] && current == t.id && k == InternalOf(t.kids) && min == MinKey(t)
      requires OffersNodes(path, e, left, right, caps)
      modifies this`pages
      ensures done <==>
                || (left.Just? && |left.value.keys| > caps.MinInternal())
                || (right.Just? && |right.value.keys| > caps.MinInternal())
      ensures done ==> Done(pages, header, whole, caps, head, fr, target)
      ensures !done ==> pages == old(pages)
    {
      assert caps.Usable();
      hide N.Scant, Settled, Anchored, Done, Ordered, Tracks, OffersNodes, InternalOf;
      if left.Just? {
        LeftOffered(path, e, left, right, caps);
      }
      if right.Just? {
        RightOffered(path, e, left, right, caps);
      }
      if left.Just? && |left.value.keys| > caps.MinInternal() {
        whole := BorrowLeftEnds(before, e, current, k, min, e.children[e.child - 1], left.value, path, face, t,
                                Last(Inner(path).left), h, head, fr, target);
        return true, whole;
      }
      if right.Just? && |right.value.keys| > caps.MinInternal() {
        whole := BorrowRightEnds(before, e, current, k, min, e.children[e.child + 1], right.value, path, face, t, h,
                                 head, fr, target);
        return true, whole;
      }
      done, whole := false, t;
    }

    /** Merges an underfull internal node with its left sibling, or with its right one when it has no left one. */
    method MergeNode(before: seq<PathEntry>, e: PathEntry, current: nat, k: Page, min: Key, left: Option<Page>,
                     right: Option<Page>, head: Ref, ghost path: Path, ghost face: Face, ghost t: Tree, ghost h: nat,
                     ghost fr: seq<nat>, ghost target: seq<Entry>)
      returns (head': Ref, k': Page, ghost u: Tree, ghost fr': seq<nat>)
      requires path != [] && Tracks(pages, Outer(path), before)
      requires N.Scant(pages, path, face, t, h, caps, head, fr, physicalPages, target, e) && Ordered(target, unique)
      requires Anchored(header, path, face, h, fr, physicalPages)
      requires t.kids != [] && current == t.id && k == InternalOf(t.kids) && min == MinKey(t)
      requires OffersNodes(path, e, left, right, caps)
      requires (left.Just? ==> |left.value.keys| <= caps.MinInternal())
      requires (right.Just? ==> |right.value.keys| <= caps.MinInternal())
      modifies this`pages
      ensures Settled(pages, Outer(path), Up(Inner(path), face), u, h + 1, caps, head', fr', physicalPages, target)
      ensures Anchored(header, Outer(path), Up(Inner(path), face), h + 1, fr', physicalPages)
      ensures Tracks(pages, Outer(path), before)
      ensures u.Node? && u.kids != [] && k' == InternalOf(u.kids) && u.id == e.id
      ensures Outer(path) != [] ==> |u.kids| >= caps.MinInternal()
    {
      hide N.Scant, Settled, Anchored, Ordered, Tracks, FaceUp, OffersNodes, InternalOf;
      MergeReady(header, pages, path, face, t, h, caps, head, fr, physicalPages, target, e, left, right);
      if left.Just? {
        LeftOffered(path, e, left, right, caps);
        head', k', u, fr' := MergeIntoLeftNode(e, current, k, min, e.children[e.child - 1], left.value, head, path,
                                               face, t, h, fr, target);
      } else {
        RightOffered(path, e, left, right, caps);
        head', k', u, fr' := MergeRightNode(e, current, k, e.children[e.child + 1], right.value, head, path, face, t, h,
                                            fr, target);
      }
      AnchoredUp(header, path, face, h, fr, physicalPages, fr');
      MendedFace(pages, Outer(path), Up(Inner(path), face), u, h + 1, caps, head', fr', physicalPages, target);
    }

    /** The least key below a merged parent, read from its first child. */
    method ParentMinimum(k: Page, ghost path: Path, ghost face: Face, ghost t: Tree, ghost h: nat,
                         ghost head: Ref, ghost fr: seq<nat>, ghost target: seq<Entry>)
      returns (min: Key)
      requires Settled(pages, path, face, t, h, caps, head, fr, physicalPages, target) && Ordered(target, unique)
      requires Anchored(header, path, face, h, fr, physicalPages)
      requires t.Node? && t.kids != [] && k == InternalOf(t.kids)
      ensures min == MinKey(t)
    {
      SettledWalks(pages, path, face, t, h, caps, head, fr, physicalPages, target, header, unique);
      WalkDown(pages, t, NextOf(path), h, caps, header, unique);
      min := SubtreeMinimum(pages, header, unique, k.children[0], t.kids[0], Head(t.kids[1..], NextOf(path)), h - 1,
                            caps);
    }

    /** Merges an underfull internal node and reads the least key below its parent, which is next. */
    method MergeUp(before: seq<PathEntry>, e: PathEntry, current: nat, k: Page, min: Key, left: Option<Page>,
                   right: Option<Page>, head: Ref, ghost path: Path, ghost face: Face, ghost t: Tree, ghost h: nat,
                   ghost fr: seq<nat>, ghost target: seq<Entry>)
      returns (head': Ref, k': Page, min': Key, ghost u: Tree, ghost fr': seq<nat>)
      requires path != [] && Tracks(pages, Outer(path), before)
      requires N.Scant(pages, path, face, t, h, caps, head, fr, physicalPages, target, e) && Ordered(target, unique)
      requires Anchored(header, path, face, h, fr, physicalPages)
      requires t.kids != [] && current == t.id && k == InternalOf(t.kids) && min == MinKey(t)
      requires OffersNodes(path, e, left, right, caps)
      requires (left.Just? ==> |left.value.keys| <= caps.MinInternal())
      requires (right.Just? ==> |right.value.keys| <= caps.MinInternal())
      modifies this`pages
      ensures Settled(pages, Outer(path), Up(Inner(path), face), u, h + 1, caps, head', fr', physicalPages, target)
      ensures Anchored(header, Outer(path), Up(Inner(path), face), h + 1, fr', physicalPages)
      ensures Tracks(pages, Outer(path), before)
      ensures u.Node? && u.kids != [] && k' == InternalOf(u.kids) && u.id == e.id && min' == MinKey(u)
      ensures Outer(path) != [] ==> |u.kids| >= caps.MinInternal()
    {
      hide Settled, Ordered, Anchored, Tracks, InternalOf, N.Scant, OffersNodes;
      head', k', u, fr' := MergeNode(before, e, current, k, min, left, right, head, path, face, t, h, fr, target);
      min' := ParentMinimum(k', Outer(path), Up(Inner(path), face), u, h + 1, head', fr', target);
    }

    /**
     * Repairs one underfull internal node: by borrowing, which ends the repair, or by merging, which leaves its parent
     * to be seen to.
     */
    method RepairOneLevel(before: seq<PathEntry>, e: PathEntry, current: nat, k: Page, min: Key, head: Ref,
                          ghost path: Path, ghost face: Face, ghost t: Tree, ghost h: nat, ghost fr: seq<nat>,
                          ghost target: seq<Entry>)
      returns (done: bool, head': Ref, k': Page, min': Key, ghost u: Tree, ghost whole: Tree, ghost fr': seq<nat>)
      requires path != [] && Tracks(pages, Outer(path), before)
      requires N.Scant(pages, path, face, t, h, caps, head, fr, physicalPages, target, e) && Ordered(target, unique)
      requires Anchored(header, path, face, h, fr, physicalPages)
      requires t.kids != [] && current == t.id && k == InternalOf(t.kids) && min == MinKey(t)
      modifies this`pages
      ensures done ==> Done(pages, header, whole, caps, head', fr', target)
      ensures !done ==>
                && Settled(pages, Outer(path), Up(Inner(path), face), u, h + 1, caps, head', fr', physicalPages, target)
                && Anchored(header, Outer(path), Up(Inner(path), face), h + 1, fr', physicalPages)
                && Tracks(pages, Outer(path), before)
                && u.Node? && u.kids != [] && k' == InternalOf(u.kids) && u.id == e.id && min' == MinKey(u)
                && (Outer(path) != [] ==> |u.kids| >= caps.MinInternal())
    {
      assert header.pageCount == physicalPages && HeadIsFree(fr);
      hide Settled, Ordered, Anchored, Tracks, InternalOf, Done, N.Scant, OffersNodes;
      head', k', min', u, fr' := head, k, min, t, fr;
      var left, right := ReadNodeSiblings(e, path, face, t, h, head, fr, target);
      done, whole := BorrowForNode(before, e, current, k, min, left, right, path, face, t, h, head, fr, target);
      if !done {
        head', k', min', u, fr' := MergeUp(before, e, current, k, min, left, right, head, path, face, t, h, fr, target);
      }
    }

    /** Repairs an underfull internal node, and its ancestors as long as merging leaves them underfull. */
    method RepairInternalUnderflow(node: nat, image: Page, ancestors: seq<PathEntry>, subtreeMinimum: Key,
                                   freeHead: Ref, ghost path0: Path, ghost face0: Face, ghost t0: Tree, ghost h0: nat,
                                   ghost fr0: seq<nat>, ghost target: seq<Entry>)
      returns (head: Ref, ghost whole: Tree, ghost fr: seq<nat>)
      requires Settled(pages, path0, face0, t0, h0, caps, freeHead, fr0, physicalPages, target)
      requires Ordered(target, unique)
      requires Anchored(header, path0, face0, h0, fr0, physicalPages) && Tracks(pages, path0, ancestors)
      requires t0.Node? && t0.kids != [] && node == t0.id && image == InternalOf(t0.kids)
      requires subtreeMinimum == MinKey(t0)
      requires path0 != [] ==> |t0.kids| >= caps.MinInternal()
      modifies this`pages
      ensures Done(pages, header, whole, caps, head, fr, target)
    {
      assert caps.Usable() && |ancestors| == |path0|;
      hide Settled, Ordered, Anchored, Tracks, InternalOf, Done, N.Scant, Mended;
      head, fr := freeHead, fr0;
      var rest, current, k, min := ancestors, node, image, subtreeMinimum;
      ghost var path, face, t, h := path0, face0, t0, h0;
      while true
        invariant Settled(pages, path, face, t, h, caps, head, fr, physicalPages, target)
        invariant Anchored(header, path, face, h, fr, physicalPages) && Tracks(pages, path, rest)
        invariant t.Node? && t.kids != [] && current == t.id && k == InternalOf(t.kids) && min == MinKey(t)
        invariant |rest| == |path| && (path != [] ==> |t.kids| >= caps.MinInternal())
        decreases |path|
      {
        if rest == [] {
          assert path == [];
          whole := FinishAtRoot(current, k, face, t, h, head, fr, target);
          return;
        }
        if |k.keys| >= caps.MinInternal() {
          whole := FinishFilled(current, k, rest, min, path, face, t, h, head, fr, target);
          return;
        }
        var before, e := rest[..|rest| - 1], rest[|rest| - 1];
        OneShort(t, k, caps.MinInternal());
        N.IsScant(pages, path, face, t, h, caps, head, fr, physicalPages, target, rest);
        var done;
        done, head, k, min, t, whole,
            fr := RepairOneLevel(before, e, current, k, min, head, path, face, t, h, fr, target);
        if done {
          return;
        }
        current := e.id;
        face, path, h := Up(Inner(path), face), Outer(path), h + 1;
        rest := before;
      }
    }

    /** Reads the siblings of an underfull leaf that its parent has. */
    method ReadLeafSiblings(e: PathEntry, ghost path: Path, ghost face: Face, ghost t: Tree,
                            ghost head: Ref, ghost fr: seq<nat>, ghost target: seq<Entry>)
      returns (left: Option<Page>, right: Option<Page>)
      requires L.Short(pages, path, face, t, caps, head, fr, physicalPages, target, e) && Ordered(target, unique)
      requires Anchored(header, path, face, 1, fr, physicalPages)
      ensures OffersLeaves(path, e, left, right, t.id, caps)
    {
      left, right := Nothing, Nothing;
      Neighbours(path, face, e);
      if e.child > 0 {
        L.LeftLeafRead(pages, path, face, t, caps, head, fr, physicalPages, target, e, unique);
        var page := ReadReachable(pages, header, unique, e.children[e.child - 1]);
        assert caps.MinLeaf() <= |page.es| <= caps.leaf;
        left := Just(page);
      }
      if e.child + 1 < |e.children| {
        L.RightLeafRead(pages, path, face, t, caps, head, fr, physicalPages, target, e, unique);
        var page := ReadReachable(pages, header, unique, e.children[e.child + 1]);
        assert caps.MinLeaf() <= |page.es| <= caps.leaf;
        right := Just(page);
      }
    }

    /** Borrows from the right leaf, which ends the repair. */
    method BorrowRightLeafEnds(d: Descent, es: seq<Entry>, minimumChanged: bool, right: nat, rightEs: seq<Entry>,
                               rightNext: Ref, ghost path: Path, ghost face: Face, ghost head: Ref, ghost fr: seq<nat>,
                               ghost target: seq<Entry>)
      returns (ghost whole: Tree)
      requires path != [] && |d.ancestors| == |path| && Tracks(pages, Outer(path), d.ancestors[..|path| - 1])
      requires L.Short(pages, path, face, Leaf(d.leaf, es), caps, head, fr, physicalPages, target,
                       d.ancestors[|path| - 1])
      requires Ordered(target, unique) && Anchored(header, path, face, 1, fr, physicalPages)
      requires es != [] && (!minimumChanged ==> es[0].key == face.min)
      requires d.next == Some(right) && Inner(path).right != []
      requires rightNext == Head(Inner(path).right[1..], NextOf(Outer(path)))
      requires Inner(path).right[0] == Leaf(right, rightEs) && |rightEs| > caps.MinLeaf()
      modifies this`pages
      ensures Done(pages, header, whole, caps, head, fr, target)
    {
      var e := d.ancestors[|d.ancestors| - 1];
      ghost var up, face' := Outer(path), Up(Inner(path), face);
      ghost var u;
      AnchoredUp(header, path, face, 1, fr, physicalPages, fr);
      hide L.Short, Settled, Anchored, Done, Ordered, Tracks;
      var first;
      first, u := BorrowFromRightLeaf(e, d.leaf, es, d.next, right, rightEs, rightNext, path, face, head, fr, target);
      whole := FinishRepair(d.ancestors[..|d.ancestors| - 1], e.child == 0
                            && minimumChanged, first, up, face', u, 2, head, fr, target);
    }

    /**
     * Borrows an entry for an underfull leaf, from the left sibling or else from the right one, when one can spare it.
     */
    method BorrowForLeaf(d: Descent, es: seq<Entry>, minimumChanged: bool, left: Option<Page>, right: Option<Page>,
                         ghost path: Path, ghost face: Face, ghost head: Ref, ghost fr: seq<nat>,
                         ghost target: seq<Entry>)
      returns (done: bool, ghost whole: Tree)
      requires path != [] && |d.ancestors| == |path| && Tracks(pages, Outer(path), d.ancestors[..|path| - 1])
      requires L.Short(pages, path, face, Leaf(d.leaf, es), caps, head, fr, physicalPages, target,
                       d.ancestors[|path| - 1])
      requires Ordered(target, unique) && Anchored(header, path, face, 1, fr, physicalPages)
      requires d.next == NextOf(path) && es != [] && (!minimumChanged ==> es[0].key == face.min)
      requires OffersLeaves(path, d.ancestors[|path| - 1], left, right, d.leaf, caps)
      modifies this`pages
      ensures done <==>
                || (left.Just? && |left.value.es| > caps.MinLeaf())
                || (right.Just? && |right.value.es| > caps.MinLeaf())
      ensures done ==> Done(pages, header, whole, caps, head, fr, target)
      ensures !done ==> pages == old(pages)
    {
      var e := d.ancestors[|d.ancestors| - 1];
      ghost var up, face' := Outer(path), Up(Inner(path), face);
      ghost var u;
      hide L.Short, Settled, Anchored, Done, Ordered, Tracks;
      if left.Just? && |left.value.es| > caps.MinLeaf() {
        AnchoredUp(header, path, face, 1, fr, physicalPages, fr);
        u := BorrowFromLeftLeaf(e, d.leaf, es, d.next, e.children[e.child - 1], left.value.es, left.value.next, path,
                                face, head, fr, target);
        whole := Rebuild(up, u);
        RepairDone(pages, header, up, face', face', u, 2, caps, head, fr, physicalPages, target);
        return true, whole;
      }
      if right.Just? && |right.value.es| > caps.MinLeaf() {
        whole := BorrowRightLeafEnds(d, es, minimumChanged, e.children[e.child + 1], right.value.es, right.value.next,
                                     path, face, head, fr, target);
        return true, whole;
      }
      done, whole := false, Leaf(0, []);
    }

    /** Merges an underfull leaf with its left sibling, or with its right one when it has no left one. */
    method MergeLeaf(d: Descent, es: seq<Entry>, minimumChanged: bool, left: Option<Page>, right: Option<Page>,
                     head: Ref, ghost path: Path, ghost face: Face, ghost fr: seq<nat>, ghost target: seq<Entry>)
      returns (head': Ref, parent: Page, parentMinimumChanged: bool, ghost u: Tree, ghost fr': seq<nat>)
      requires path != [] && |d.ancestors| == |path| && Tracks(pages, Outer(path), d.ancestors[..|path| - 1])
      requires L.Short(pages, path, face, Leaf(d.leaf, es), caps, head, fr, physicalPages, target,
                       d.ancestors[|path| - 1])
      requires Ordered(target, unique) && Anchored(header, path, face, 1, fr, physicalPages)
      requires d.next == NextOf(path) && es != [] && (!minimumChanged ==> es[0].key == face.min)
      requires OffersLeaves(path, d.ancestors[|path| - 1], left, right, d.leaf, caps)
      requires (left.Just? ==> |left.value.es| <= caps.MinLeaf())
      requires (right.Just? ==> |right.value.es| <= caps.MinLeaf())
      modifies this`pages
      ensures Settled(pages, Outer(path), Up(Inner(path), face), u, 2, caps, head', fr', physicalPages, target)
      ensures Anchored(header, Outer(path), Up(Inner(path), face), 2, fr', physicalPages)
      ensures Tracks(pages, Outer(path), d.ancestors[..|path| - 1])
      ensures u.Node? && u.kids != [] && parent == InternalOf(u.kids) && u.id == d.ancestors[|path| - 1].id
      ensures !parentMinimumChanged ==> Up(Inner(path), face).min == MinKey(u)
      ensures Outer(path) != [] ==> |u.kids| >= caps.MinInternal()
    {
      var e := d.ancestors[|d.ancestors| - 1];
      L.ShortParent(pages, path, face, Leaf(d.leaf, es), caps, head, fr, physicalPages, target, e);
      assert header.root == Some(FaceUp(path, face).id) && header.first == Some(FaceUp(path, face).first);
      assert Up(Inner(path), face).id == e.id;
      hide L.Short, Settled, Ordered, Tracks, FaceUp;
      var keys, children;
      if left.Just? {
        head', keys, children, u,
            fr' := MergeIntoLeftLeaf(e, d.leaf, es, d.next, e.children[e.child - 1], left.value.es, head,
                                                           path, face, fr, target);
        parentMinimumChanged := false;
      } else {
        head', keys, children, u,
            fr' := MergeRightLeaf(e, d.leaf, es, e.children[e.child + 1], right.value.es, right.value.next, head,
                                                        path, face, fr, target);
        parentMinimumChanged := minimumChanged;
      }
      parent := InternalPage(keys, children);
      AnchoredUp(header, path, face, 1, fr, physicalPages, fr');
      MendedFace(pages, Outer(path), Up(Inner(path), face), u, 2, caps, head', fr', physicalPages, target);
    }

    /** After a leaf merge: ends the repair at the parent, or goes on with the parent's own underflow. */
    method SettleParent(parentId: nat, parent: Page, ancestors: seq<PathEntry>, parentMinimumChanged: bool,
                        freeHead: Ref, ghost path: Path, ghost face: Face, ghost u: Tree, ghost fr0: seq<nat>,
                        ghost target: seq<Entry>)
      returns (head: Ref, ghost whole: Tree, ghost fr: seq<nat>)
      requires Settled(pages, path, face, u, 2, caps, freeHead, fr0, physicalPages, target) && Ordered(target, unique)
      requires Anchored(header, path, face, 2, fr0, physicalPages) && Tracks(pages, path, ancestors)
      requires u.Node? && u.kids != [] && parent == InternalOf(u.kids) && u.id == parentId
      requires !parentMinimumChanged ==> face.min == MinKey(u)
      requires path != [] ==> |u.kids| >= caps.MinInternal()
      modifies this`pages
      ensures Done(pages, header, whole, caps, head, fr, target)
    {
      assert caps.Usable() && |ancestors| == |path|;
      MendedFace(pages, path, face, u, 2, caps, freeHead, fr0, physicalPages, target);
      hide Settled, Ordered, Anchored, Tracks, Done;
      head, fr := freeHead, fr0;
      whole := Rebuild(path, u);
      if ancestors == [] {
        assert path == [];
        NoSeparator(pages, path, face, u, 2, caps, head, fr, physicalPages, target);
        RepairDone(pages, header, path, face, FaceOf(u), u, 2, caps, head, fr, physicalPages, target);
        return;
      }
      var min := ParentMinimum(parent, path, face, u, 2, head, fr, target);
      if |parent.keys| >= caps.MinInternal() {
        if parentMinimumChanged {
          UpdateMinimumInAncestors(ancestors, min, path, face, u, 2, head, fr, target);
          RepairDone(pages, header, path, face, FaceOf(u), u, 2, caps, head, fr, physicalPages, target);
        } else {
          RepairDone(pages, header, path, face, face, u, 2, caps, head, fr, physicalPages, target);
        }
        return;
      }
      head, whole, fr := RepairInternalUnderflow(parentId, parent, ancestors, min, head, path, face, u, 2, fr, target);
    }

    /**
     * Repairs an underfull leaf: borrows from a sibling of the same parent, preferring the left one, or merges with it.
     */
    method RepairLeafUnderflow(d: Descent, es: seq<Entry>, minimumChanged: bool, freeHead: Ref,
                               ghost path: Path, ghost face: Face, ghost fr0: seq<nat>, ghost target: seq<Entry>)
      returns (head: Ref, ghost whole: Tree, ghost fr: seq<nat>)
      requires Waiting(pages, path, face, Leaf(d.leaf, es), 1, caps, freeHead, fr0, physicalPages, target)
      requires path != [] && |es| + 1 == caps.MinLeaf() && Ordered(target, unique)
      requires Anchored(header, path, face, 1, fr0, physicalPages) && Tracks(pages, path, d.ancestors)
      requires d.next == NextOf(path)
      requires !minimumChanged ==> es != [] && es[0].key == face.min
      modifies this`pages
      ensures Done(pages, header, whole, caps, head, fr, target)
    {
      assert |d.ancestors| == |path| && es != [];
      ghost var t := Leaf(d.leaf, es);
      InnerShows(pages, path, face, d.ancestors);
      var e := d.ancestors[|d.ancestors| - 1];
      assert L.Short(pages, path, face, t, caps, freeHead, fr0, physicalPages, target, e);
      hide L.Short, Waiting, Settled, Ordered, Anchored, Tracks, Done, NextOf, Shows, OffersLeaves;
      head, fr := freeHead, fr0;
      var left, right := ReadLeafSiblings(e, path, face, t, head, fr, target);
      var done;
      done, whole := BorrowForLeaf(d, es, minimumChanged, left, right, path, face, head, fr, target);
      if done {
        return;
      }
      var parent, changed;
      ghost var u;
      head, parent, changed, u, fr := MergeLeaf(d, es, minimumChanged, left, right, head, path, face, fr, target);
      head, whole, fr := SettleParent(e.id, parent, d.ancestors[..|d.ancestors| - 1], changed, head,
                                      Outer(path), Up(Inner(path), face), u, fr, target);
    }

    /** Replaces a root that has a single child by that child, and frees the old root's page. */
    method ShrinkRoot(oldRoot: nat, oldHeight: nat, freeHead: Ref, ghost t0: Tree, ghost fr0: seq<nat>,
                      ghost target: seq<Entry>)
      returns (root: nat, height: nat, head: Ref, ghost t: Tree, ghost fr: seq<nat>)
      requires Nearly(pages, t0, oldHeight, caps, fr0, physicalPages, target) && Chain(pages, freeHead, fr0)
      requires oldRoot == t0.id
      modifies this`pages
      ensures Whole(pages, t, height, caps, fr, physicalPages, target) && Chain(pages, head, fr)
      ensures root == t.id && First(t) == First(t0)
    {
      root, height, head, t, fr := oldRoot, oldHeight, freeHead, t0, fr0;
      while height > 1
        invariant Nearly(pages, t, height, caps, fr, physicalPages, target) && Chain(pages, head, fr)
        invariant root == t.id && First(t) == First(t0)
      {
        var node := pages[root];
        assert node == InternalOf(t.kids);
        if |node.keys| != 0 {
          break;
        }
        ShrinkStep(pages, t, height, caps, head, fr, physicalPages, target);
        var child := node.children[0];
        hide Nearly, Chain, WellBuilt;
        head := RegisterFreePage(root, head, true);
        fr, t := [root] + fr, t.kids[0];
        root, height := child, height - 1;
      }
    }

    /** The last pair goes: the root leaf is freed and the index is empty. */
    method DeleteLast(d: Descent, ghost path: Path)
      requires Valid() && shape.Of? && At(pages, shape.tree, path, d) && header.entryCount == 1
      modifies this
      ensures Valid() && |old(Pairs())| == 1 && Pairs() == []
      ensures physicalPages == old(physicalPages) && header.complete == old(header.complete)
    {
      LastGone(pages, header, shape, free, caps, unique, path, d);
      assert d.ancestors == [] && |d.es| == 1;
      ghost var was, h0 := pages, header;
      hide WellFormed, WellBuilt;
      var head := RegisterFreePage(d.leaf, header.freeHead, true);
      var h := header.(root := None, first := None, height := 0, entryCount := 0, freeHead := head);
      assert WellFormed(pages, h, Empty, [d.leaf] + free, caps, unique);
      WellFormedIsConsistent(pages, h, Empty, [d.leaf] + free, caps, unique);
      WriteHeader(h);
      shape, free := Empty, [d.leaf] + free;
    }

    /** Writes a shrunk leaf that needs no repair, and the separator above it when its least key has changed. */
    method RewriteLeaf(d: Descent, es: seq<Entry>, minimumChanged: bool, ghost path: Path, ghost face: Face,
                       ghost fr: seq<nat>, ghost target: seq<Entry>)
      returns (ghost whole: Tree)
      requires Waiting(pages, path, face, Leaf(d.leaf, es), 1, caps, header.freeHead, fr, physicalPages, target)
      requires Ordered(target, unique)
      requires Anchored(header, path, face, 1, fr, physicalPages) && Tracks(pages, path, d.ancestors)
      requires d.next == NextOf(path)
      requires es != [] && (path != [] ==> |es| >= caps.MinLeaf())
      requires path != [] && !minimumChanged ==> es[0].key == face.min
      modifies this`pages
      ensures Done(pages, header, whole, caps, header.freeHead, fr, target)
    {
      ghost var t := Leaf(d.leaf, es);
      ghost var head := header.freeHead;
      assert |d.ancestors| == |path| && face.id == t.id && face.first == First(t) && (path != [] ==> Filled(t, caps));
      LeafWritten(pages, path, face, t, caps, head, fr, physicalPages, target, unique);
      hide Waiting, Settled, Ordered, Anchored, Tracks, Done, WellBuilt;
      WriteNode(d.leaf, LeafPage(es, d.next));
      whole := Rebuild(path, t);
      if d.ancestors == [] {
        NoSeparator(pages, path, face, t, 1, caps, head, fr, physicalPages, target);
        RepairDone(pages, header, path, face, FaceOf(t), t, 1, caps, head, fr, physicalPages, target);
      } else if minimumChanged {
        UpdateMinimumInAncestors(d.ancestors, es[0].key, path, face, t, 1, head, fr, target);
        RepairDone(pages, header, path, face, FaceOf(t), t, 1, caps, head, fr, physicalPages, target);
      } else {
        RepairDone(pages, header, path, face, face, t, 1, caps, head, fr, physicalPages, target);
      }
    }

    /** Takes a pair out of its leaf and repairs the tree up to an only child at the root. */
    method RemoveFromLeaf(d: Descent, pos: nat, ghost path: Path)
      returns (head: Ref, ghost whole: Tree, ghost fr: seq<nat>)
      requires Valid() && shape.Of? && At(pages, shape.tree, path, d) && pos < |d.es| && header.entryCount > 1
      modifies this`pages
      ensures Done(pages, header, whole, caps, head, fr, Removed(Pairs(), d.es[pos]))
      ensures Ordered(Removed(Pairs(), d.es[pos]), unique)
    {
      ghost var target := Removed(Pairs(), d.es[pos]);
      Shrink(pages, header, shape, free, caps, unique, path, d, pos);
      ghost var face := FaceOf(Leaf(d.leaf, d.es));
      hide WellFormed, Waiting, Ordered, Anchored, Done, FaceOf;
      var es := RemoveAt(d.es, pos);
      var minimumChanged := pos == 0 && |es| > 0 && d.es[0].key != es[0].key;
      if d.ancestors == [] || |es| >= caps.MinLeaf() {
        whole := RewriteLeaf(d, es, minimumChanged, path, face, free, target);
        head, fr := header.freeHead, free;
      } else {
        head, whole, fr := RepairLeafUnderflow(d, es, minimumChanged, header.freeHead, path, face, free, target);
      }
    }

    /** Deletes a pair. A pair that is not there changes nothing. */
    method Delete(e: Entry) returns (r: DeleteResult)
      requires Valid()
      modifies this
      ensures Valid()
      ensures r == if e in old(Pairs()) then Deleted else Unknown
      ensures r == Unknown ==>
                header == old(header) && pages == old(pages) && Pairs() == old(Pairs()) && free == old(free)
      ensures r == Deleted ==> Pairs() == Removed(old(Pairs()), e) && header.complete == old(header.complete)
      ensures physicalPages == old(physicalPages)
      ensures Pairs() != [] ==> header.first == old(header.first)
    {
      EmptyShape(pages, header, shape, free, caps, unique);
      if header.entryCount == 0 {
        return Unknown;
      }
      var found, d, pos;
      ghost var path;
      found, d, pos, path := LocateExisting(pages, header, caps, unique, e, shape, free);
      if !found {
        return Unknown;
      }
      LeafEntry(path, d, shape.tree, pos);
      var sound := ValidatePath(pages, header, caps, unique, d, shape, free, path);
      assert sound;
      ghost var had := Pairs();
      RemovedElements(had, e);
      if header.entryCount == 1 {
        DeleteLast(d, path);
        return Deleted;
      }
      FinishDelete(d, pos, path);
      r := Deleted;
    }

    /** Removes the pair, collapses the root, and publishes the header. */
    method FinishDelete(d: Descent, pos: nat, ghost path: Path)
      requires Valid() && shape.Of? && At(pages, shape.tree, path, d) && pos < |d.es| && header.entryCount > 1
      requires |Removed(Pairs(), d.es[pos])| == |Pairs()| - 1
      modifies this
      ensures Valid() && Pairs() == Removed(old(Pairs()), d.es[pos]) && header.complete == old(header.complete)
      ensures physicalPages == old(physicalPages) && header.first == old(header.first)
    {
      ghost var target := Removed(Pairs(), d.es[pos]);
      hide Chain, Ordered, Nearly, Whole, At;
      var head;
      ghost var t, fr;
      head, t, fr := RemoveFromLeaf(d, pos, path);
      var root, height;
      root, height, head, t, fr := ShrinkRoot(header.root.page, header.height, head, t, fr, target);
      var h := header.(root := Some(root), height := height, entryCount := header.entryCount - 1, freeHead := head);
      Publish(pages, h, t, fr, caps, unique, target);
      WellFormedIsConsistent(pages, h, Of(t), fr, caps, unique);
      WriteHeader(h);
      shape, free := Of(t), fr;
    }

    // Building and rebuilding.

    /** Records whether the index is complete. */
    method SetComplete(complete: bool)
      requires Valid()
      modifies this`header
      ensures Valid() && header == old(header).(complete := complete)
    {
      WellFormedIsConsistent(pages, header, shape, free, caps, unique);
      WriteHeader(header.(complete := complete));
    }

    /** Indexes one row of a storage scan. */
    method IndexRow(e: Entry, ghost before: seq<Entry>) returns (ok: bool)
      requires Valid() && Elements(Pairs()) == Elements(before)
      modifies this
      ensures Valid() && header.complete == old(header.complete)
      ensures ok <==> Follows(before, e, unique)
      ensures ok ==> Elements(Pairs()) == Elements(before) + {e}
    {
      ghost var had := Pairs();
      InsertedElements(had, e);
      FollowsIndex(before, had, e, unique);
      var r := Insert(e);
      ok := r != Full && r != DuplicateKey;
    }

    /**
     * Builds an index from the rows of a storage scan, in scan order. The scan may fail after
     * some of the rows; a failed build stays marked incomplete.
     */
    static method BuildFromStorage(caps: Caps, unique: bool, rows: seq<Entry>, readable: nat)
      returns (ok: bool, tree: BPlusTree)
      requires caps.Usable()
      ensures fresh(tree) && tree.Valid() && tree.caps == caps && tree.unique == unique
      ensures ok <==> readable >= |rows| && Indexable(rows, unique)
      ensures tree.header.complete == ok
      ensures ok ==> Elements(tree.Pairs()) == Elements(rows)
    {
      tree := new BPlusTree.Create(caps, unique, false);
      var i := 0;
      assert rows[..0] == tree.Pairs() && Indexable(rows[..0], unique);
      hide Follows, Indexable, Elements, WellFormed;
      while i < |rows|
        invariant i <= |rows| && i <= readable && fresh(tree) && tree.Valid() && !tree.header.complete
        invariant tree.caps == caps && tree.unique == unique
        invariant Elements(tree.Pairs()) == Elements(rows[..i])
        invariant Indexable(rows[..i], unique)
      {
        if i == readable {
          return false, tree;
        }
        IndexableNext(rows, i, unique);
        var added := tree.IndexRow(rows[i], rows[..i]);
        if !added {
          return false, tree;
        }
        i := i + 1;
      }
      assert rows[..i] == rows;
      tree.SetComplete(true);
      ok := true;
    }

    /**
     * Replaces this index by a fresh build from storage. A failure before the replacement
     * file is committed leaves the index as it was.
     */
    method RebuildFromStorage(rows: seq<Entry>, readable: nat, commits: bool) returns (ok: bool)
      requires Valid()
      modifies this
      ensures Valid()
      ensures ok <==> readable >= |rows| && Indexable(rows, unique) && commits
      ensures ok ==> header.complete && Elements(Pairs()) == Elements(rows)
      ensures !ok ==> header == old(header) && pages == old(pages) && shape == old(shape) && free == old(free)
    {
      var candidate;
      ok, candidate := BuildFromStorage(caps, unique, rows, readable);
      if !ok {
        return;
      }
      var report;
      ghost var s, fr;
      report, s, fr := ValidateStructure(candidate.pages, candidate.header, caps, unique, candidate.shape,
                                         candidate.free);
      assert report.Just?;
      if !commits {
        return false;
      }
      header, pages, physicalPages := candidate.header, candidate.pages, candidate.physicalPages;
      shape, free := candidate.shape, candidate.free;
    }
  }
}
