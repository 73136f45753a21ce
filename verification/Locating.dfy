/** Finding where a pair belongs, or where it is, across leaves that share a key. */
module Locating {
  import opened Entries
  import opened Trees
  import opened Pages
  import opened Paths
  import opened Headers
  import opened Cursors
  import opened Reads

  datatype LeafScan = Here(pos: nat) | Between(at: nat) | Beyond | Clash

  /** Looks for a pair in one leaf, in the order the pairs are stored. */
  method ScanLeaf(es: seq<Entry>, e: Entry, unique: bool) returns (r: LeafScan)
    requires Ordered(es, unique)
    ensures match r
            case Here(pos) => pos < |es| && es[pos] == e
            case Between(at) =>
              at < |es| && AllLess(es[..at], e) && AllGreater(es[at..], e) && (unique ==> NoKey(es, e.key))
            case Beyond => AllLess(es, e) && (unique ==> NoKey(es, e.key))
            case Clash => unique && exists i :: 0 <= i < |es| && es[i].key == e.key && es[i].rid != e.rid
  {
    var insertion: nat := |es|;
    var i := 0;
    while i < |es|
      invariant i <= |es|
      invariant insertion == |es| || insertion < i
      invariant forall j :: 0 <= j < i ==> es[j] != e
      invariant unique ==> forall j :: 0 <= j < i ==> es[j].key != e.key
      invariant forall j :: 0 <= j < i && j < insertion ==> !Less(e, es[j])
      invariant insertion < |es| ==> Less(e, es[insertion])
    {
      if es[i].key == e.key {
        if es[i].rid == e.rid {
          return Here(i);
        }
        if unique {
          return Clash;
        }
      }
      if insertion == |es| && Less(e, es[i]) {
        insertion := i;
      }
      i := i + 1;
    }
    if insertion < |es| {
      assert es[..insertion] + es[insertion..] + [] == es;
      OrderedMiddle(es[..insertion], es[insertion..], [], unique);
      TailGreater(es[insertion..], e, unique);
      r := Between(insertion);
    } else {
      r := Beyond;
    }
  }

  /** The pair goes at pos in the leaf: everything before it is smaller, everything after it larger. */
  ghost predicate Slot(path: Path, es: seq<Entry>, pos: nat, e: Entry, unique: bool) {
    && pos <= |es|
    && AllLess(Before(path) + es[..pos], e)
    && AllGreater(es[pos..] + After(path), e)
    && (unique ==> NoKey(Before(path) + es[..pos], e.key) && NoKey(es[pos..] + After(path), e.key))
    && (pos == 0 ==> Before(path) == [])
  }

  ghost predicate Conflict(s: seq<Entry>, e: Entry) {
    exists i :: 0 <= i < |s| && s[i].key == e.key && s[i].rid != e.rid
  }

  datatype Outcome = Found | Missing | Duplicate

  /** All that has been passed is smaller, and the pair does not belong before the current leaf. */
  ghost predicate Passed(path: Path, es: seq<Entry>, e: Entry, unique: bool) {
    && AllLess(Before(path), e)
    && (unique ==> NoKey(Before(path), e.key))
    && es != []
    && (Before(path) != [] ==> !Less(e, es[0]))
  }

  /** In an ordered sequence all that follows a larger pair is larger. */
  lemma {:induction false} AboveFrom(a: seq<Entry>, b: seq<Entry>, e: Entry, unique: bool)
    requires Ordered(a + b, unique) && b != [] && Less(e, b[0])
    ensures AllGreater(b, e) && (unique && b[0].key != e.key ==> NoKey(b, e.key))
  {
    assert a + b + [] == a + b;
    OrderedMiddle(a, b, [], unique);
    TailGreater(b, e, unique);
  }

  lemma {:induction false} CutAround(a: seq<Entry>, es: seq<Entry>, at: nat, b: seq<Entry>)
    requires at <= |es|
    ensures (a + es[..at]) + (es[at..] + b) == a + es + b
    ensures at < |es| ==> (es[at..] + b)[0] == es[at]
  {
  }

  lemma {:induction false} SlotInside(path: Path, es: seq<Entry>, at: nat, e: Entry, unique: bool)
    requires Passed(path, es, e, unique)
    requires Ordered(Before(path) + es + After(path), unique)
    requires at < |es| && AllLess(es[..at], e) && AllGreater(es[at..], e) && (unique ==> NoKey(es, e.key))
    ensures Slot(path, es, at, e, unique)
  {
    CutAround(Before(path), es, at, After(path));
    hide Ordered;
    AboveFrom(Before(path) + es[..at], es[at..] + After(path), e, unique);
  }

  lemma {:induction false} SlotAtEnd(path: Path, es: seq<Entry>, e: Entry, unique: bool)
    requires Passed(path, es, e, unique)
    requires Ordered(Before(path) + es + After(path), unique)
    requires AllLess(es, e) && (unique ==> NoKey(es, e.key))
    requires After(path) != [] ==> Less(e, After(path)[0]) && (unique ==> After(path)[0].key != e.key)
    ensures Slot(path, es, |es|, e, unique)
  {
    if After(path) != [] {
      AboveFrom(Before(path) + es, After(path), e, unique);
    }
    hide Ordered;
    assert es[..|es|] == es && es[|es|..] + After(path) == After(path);
  }

  lemma {:induction false} Start(path: Path, es: seq<Entry>, e: Entry, unique: bool)
    requires es != [] && Bounds(path, es[0].key, e.key)
    ensures Passed(path, es, e, unique)
  {
  }

  lemma {:induction false} MoveOn(path: Path, es: seq<Entry>, path': Path, es': seq<Entry>, e: Entry, unique: bool)
    requires Passed(path, es, e, unique) && AllLess(es, e) && (unique ==> NoKey(es, e.key))
    requires Before(path') == Before(path) + es
    requires es' != [] && !Less(e, es'[0])
    ensures Passed(path', es', e, unique)
  {
  }

  /** An entry of the current leaf is an entry of the index. */
  lemma {:induction false} LeafEntry(path: Path, d: Descent, t: Tree, i: nat)
    requires Rebuild(path, Leaf(d.leaf, d.es)) == t && i < |d.es|
    ensures d.es[i] in Contents(t)
    ensures forall e :: Clashing(d.es[i], e) ==> Conflict(Contents(t), e)
  {
    RebuildContents(path, Leaf(d.leaf, d.es));
    assert Contents(t)[|Before(path)| + i] == d.es[i];
  }

  ghost predicate Clashing(x: Entry, e: Entry) {
    x.key == e.key && x.rid != e.rid
  }

  /** Finds the place of a pair for an insertion. */
  method Locate(pages: PageMap, h: Header, c: Caps, unique: bool, e: Entry, ghost s: Shape, ghost free: seq<nat>)
    returns (outcome: Outcome, d: Descent, pos: nat, ghost path: Path)
    requires WellFormed(pages, h, s, free, c, unique) && s.Of?
    ensures match outcome
            case Found => e in Contents(s.tree)
            case Duplicate => unique && Conflict(Contents(s.tree), e)
            case Missing => At(pages, s.tree, path, d) && Slot(path, d.es, pos, e, unique)
  {
    EmptyShape(pages, h, s, free, c, unique);
    var reached;
    reached, path := Descend(pages, h, c, unique, e.key, s, free);
    d := reached.d;
    Start(path, d.es, e, unique);
    while true
      invariant At(pages, s.tree, path, d) && Passed(path, d.es, e, unique)
      decreases |After(path)|
    {
      LeafOrder(pages, h, s, free, c, unique, path, d);
      var scan := ScanLeaf(d.es, e, unique);
      match scan {
        case Here(p) =>
          LeafEntry(path, d, s.tree, p);
          return Found, d, p, path;
        case Clash =>
          ghost var i :| 0 <= i < |d.es| && d.es[i].key == e.key && d.es[i].rid != e.rid;
          LeafEntry(path, d, s.tree, i);
          assert Clashing(d.es[i], e);
          return Duplicate, d, 0, path;
        case Between(at) =>
          SlotInside(path, d.es, at, e, unique);
          return Missing, d, at, path;
        case Beyond =>
      }
      var found, d', path' := Successor(pages, h, c, unique, d, s, free, path);
      if !found {
        SlotAtEnd(path, d.es, e, unique);
        return Missing, d, |d.es|, path;
      }
      var first := d'.es[0];
      if unique && first.key == e.key {
        LeafEntry(path', d', s.tree, 0);
        assert first.rid != e.rid ==> Clashing(first, e);
        return if first.rid == e.rid then Found else Duplicate, d', 0, path';
      }
      if Less(e, first) {
        SlotAtEnd(path, d.es, e, unique);
        return Missing, d, |d.es|, path;
      }
      MoveOn(path, d.es, path', d'.es, e, unique);
      d, path := d', path';
    }
  }

  lemma {:induction false} LeafOrder(pages: PageMap, h: Header, s: Shape, free: seq<nat>, c: Caps, unique: bool,
                                     path: Path, d: Descent)
    requires WellFormed(pages, h, s, free, c, unique) && s.Of? && At(pages, s.tree, path, d)
    ensures Ordered(d.es, unique)
    ensures Ordered(Before(path) + d.es + After(path), unique)
  {
    RebuildContents(path, Leaf(d.leaf, d.es));
    OrderedMiddle(Before(path), d.es, After(path), unique);
  }

  /** Finds a pair that is in the index. */
  method LocateExisting(pages: PageMap, h: Header, c: Caps, unique: bool, e: Entry, ghost s: Shape,
                        ghost free: seq<nat>)
    returns (found: bool, d: Descent, pos: nat, ghost path: Path)
    requires WellFormed(pages, h, s, free, c, unique) && s.Of?
    ensures found ==> At(pages, s.tree, path, d) && pos < |d.es| && d.es[pos] == e
    ensures !found ==> e !in Contents(s.tree)
  {
    EmptyShape(pages, h, s, free, c, unique);
    var reached;
    reached, path := Descend(pages, h, c, unique, e.key, s, free);
    d := reached.d;
    Start(path, d.es, e, false);
    while true
      invariant At(pages, s.tree, path, d) && Passed(path, d.es, e, false)
      decreases |After(path)|
    {
      LeafOrder(pages, h, s, free, c, unique, path, d);
      pos := 0;
      while pos < |d.es| && Less(d.es[pos], e)
        invariant pos <= |d.es|
        invariant forall j :: 0 <= j < pos ==> Less(d.es[j], e)
      {
        pos := pos + 1;
      }
      if pos < |d.es| {
        found := d.es[pos] == e;
        if !found {
          Absent(path, d, s.tree, pos, e, unique);
        }
        return;
      }
      var more, d', path' := Successor(pages, h, c, unique, d, s, free, path);
      if !more || Less(e, d'.es[0]) {
        found := false;
        Absent(path, d, s.tree, |d.es|, e, unique);
        return;
      }
      MoveOn(path, d.es, path', d'.es, e, false);
      d, path := d', path';
    }
  }

  /** A pair that is above everything before a point and below everything after it is not in the index. */
  lemma {:induction false} Absent(path: Path, d: Descent, t: Tree, pos: nat, e: Entry, unique: bool)
    requires Rebuild(path, Leaf(d.leaf, d.es)) == t && Ordered(Contents(t), unique)
    requires pos <= |d.es| && AllLess(Before(path), e) && AllLess(d.es[..pos], e)
    requires if pos < |d.es| then Less(e, d.es[pos]) else After(path) != [] ==> Less(e, After(path)[0])
    ensures e !in Contents(t)
  {
    RebuildContents(path, Leaf(d.leaf, d.es));
    var a, b := Before(path) + d.es[..pos], d.es[pos..] + After(path);
    CutAround(Before(path), d.es, pos, After(path));
    if b != [] {
      AboveFrom(a, b, e, unique);
    }
    hide Ordered, Rebuild;
    assert e !in a && e !in b;
  }

  /** A pair that has a place is not in the index, and in a unique index neither is its key. */
  lemma {:induction false} SlotIsNew(path: Path, es: seq<Entry>, pos: nat, e: Entry, unique: bool, s: seq<Entry>)
    requires Slot(path, es, pos, e, unique) && s == Before(path) + es + After(path)
    ensures e !in s && (unique ==> NoKey(s, e.key) && !Conflict(s, e))
  {
    var a, b := Before(path) + es[..pos], es[pos..] + After(path);
    assert es == es[..pos] + es[pos..];
    assert s == a + b;
    forall i | 0 <= i < |s|
      ensures s[i] != e && (unique ==> s[i].key != e.key)
    {
      assert s[i] == if i < |a| then a[i] else b[i - |a|];
    }
  }

  /** In a unique index a pair that is there and a pair that clashes with it exclude each other. */
  lemma {:induction false} NoClash(s: seq<Entry>, e: Entry)
    requires DistinctKeys(s) && e in s
    ensures !Conflict(s, e)
  {
    var i :| 0 <= i < |s| && s[i] == e;
    forall j | 0 <= j < |s| && s[j].key == e.key
      ensures s[j].rid == e.rid
    {
      assert KeyRises(s, i, j) && KeyRises(s, j, i);
    }
  }

  lemma {:induction false} PlaceIsNew(pages: PageMap, h: Header, s: Shape, free: seq<nat>, c: Caps, unique: bool,
                                      path: Path, d: Descent, pos: nat, e: Entry)
    requires WellFormed(pages, h, s, free, c, unique) && s.Of? && At(pages, s.tree, path, d)
    requires Slot(path, d.es, pos, e, unique)
    ensures e !in Contents(s.tree) && (unique ==> !Conflict(Contents(s.tree), e))
  {
    RebuildContents(path, Leaf(d.leaf, d.es));
    SlotIsNew(path, d.es, pos, e, unique, Contents(s.tree));
  }

  lemma {:induction false} ConflictInSet(s: seq<Entry>, e: Entry)
    requires e !in s
    ensures Conflict(s, e) <==> exists x :: x in Elements(s) && x.key == e.key
  {
    if x :| x in Elements(s) && x.key == e.key {
      var i :| 0 <= i < |s| && s[i] == x;
      assert s[i].rid != e.rid;
    }
    if Conflict(s, e) {
      var i :| 0 <= i < |s| && s[i].key == e.key && s[i].rid != e.rid;
      assert s[i] in Elements(s);
    }
  }
}
