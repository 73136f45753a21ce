/** Keys, record identifiers and the ordered (key, RID) pairs an index stores. */
module Entries {

  // The index only ever compares keys, and each of its key types (64-bit integers,
  // non-NaN floats, booleans, strings) is a countable total order, so it embeds in
  // the rationals with its order kept.
  type Key = real

  datatype Rid = Rid(page: nat, slot: nat)

  datatype Entry = Entry(key: Key, rid: Rid)

  predicate RidLess(a: Rid, b: Rid) {
    a.page < b.page || (a.page == b.page && a.slot < b.slot)
  }

  /** Pairs are ordered by key and then by RID. */
  predicate Less(a: Entry, b: Entry) {
    a.key < b.key || (a.key == b.key && RidLess(a.rid, b.rid))
  }

  // The pairwise conditions are named, so that the solver compares two positions only when asked to.

  ghost predicate Rises(s: seq<Entry>, i: int, j: int) {
    0 <= i < j < |s| ==> Less(s[i], s[j])
  }

  ghost predicate Sorted(s: seq<Entry>) {
    forall i, j :: Rises(s, i, j)
  }

  ghost predicate KeyRises(s: seq<Entry>, i: int, j: int) {
    0 <= i < j < |s| ==> s[i].key < s[j].key
  }

  ghost predicate DistinctKeys(s: seq<Entry>) {
    forall i, j :: KeyRises(s, i, j)
  }

  /** What a sequence of index entries must satisfy; a unique index has one RID a key. */
  ghost predicate Ordered(s: seq<Entry>, unique: bool) {
    Sorted(s) && (unique ==> DistinctKeys(s))
  }

  ghost function Elements(s: seq<Entry>): set<Entry> {
    set e | e in s
  }

  // Regrouping of concatenations, kept apart because the solver is slow at it in context.

  lemma {:induction false} Regroup<T>(a: seq<T>, b: seq<T>, c: seq<T>, d: seq<T>, e: seq<T>)
    ensures a + (b + c + d) + e == (a + b) + c + (d + e)
  {
  }

  lemma {:induction false} GroupRight<T>(a: seq<T>, b: seq<T>, c: seq<T>)
    ensures a + b + c == a + (b + c)
  {
  }

  lemma {:induction false} OrderedMiddle(a: seq<Entry>, b: seq<Entry>, c: seq<Entry>, unique: bool)
    requires Ordered(a + b + c, unique)
    ensures Ordered(b, unique)
  {
    var s := a + b + c;
    assert forall i :: 0 <= i < |b| ==> s[|a| + i] == b[i];
    forall i, j
      ensures Rises(b, i, j) && (unique ==> KeyRises(b, i, j))
    {
      assert Rises(s, |a| + i, |a| + j);
      assert unique ==> KeyRises(s, |a| + i, |a| + j);
    }
  }

  lemma {:induction false} CancelLeft<T>(a: seq<T>, b: seq<T>, c: seq<T>)
    requires a + b == a + c
    ensures b == c
  {
    assert b == (a + b)[|a|..];
    assert c == (a + c)[|a|..];
  }

  /** What must hold where one ordered sequence goes on with another. */
  ghost predicate Boundary(last: Entry, first: Entry, unique: bool) {
    Less(last, first) && (unique ==> last.key != first.key)
  }

  lemma {:induction false} JoinOrdered(a: seq<Entry>, b: seq<Entry>, unique: bool)
    requires Ordered(a, unique) && Ordered(b, unique)
    requires a != [] && b != [] ==> Boundary(a[|a| - 1], b[0], unique)
    ensures Ordered(a + b, unique)
  {
    var s := a + b;
    forall i, j
      ensures Rises(s, i, j) && (unique ==> KeyRises(s, i, j))
    {
      if 0 <= i < j < |s| {
        if j < |a| {
          assert Rises(a, i, j) && (unique ==> KeyRises(a, i, j));
        } else if i >= |a| {
          assert Rises(b, i - |a|, j - |a|) && (unique ==> KeyRises(b, i - |a|, j - |a|));
        } else {
          assert Rises(a, i, |a| - 1) && Rises(b, 0, j - |a|);
        }
      }
    }
  }

  ghost predicate AllLess(s: seq<Entry>, e: Entry) {
    forall i :: 0 <= i < |s| ==> Less(s[i], e)
  }

  ghost predicate AllGreater(s: seq<Entry>, e: Entry) {
    forall i :: 0 <= i < |s| ==> Less(e, s[i])
  }

  ghost predicate NoKey(s: seq<Entry>, key: Key) {
    forall i :: 0 <= i < |s| ==> s[i].key != key
  }

  /** Putting a new pair between the smaller and the larger ones keeps the order. */
  lemma {:induction false} InsertOrdered(a: seq<Entry>, b: seq<Entry>, e: Entry, unique: bool)
    requires Ordered(a + b, unique) && AllLess(a, e) && AllGreater(b, e)
    requires unique ==> NoKey(a, e.key) && NoKey(b, e.key)
    ensures Ordered(a + [e] + b, unique)
  {
    var s, s' := a + b, a + [e] + b;
    forall i, j
      ensures Rises(s', i, j) && (unique ==> KeyRises(s', i, j))
    {
      var i', j' := if i <= |a| then i else i - 1, if j <= |a| then j else j - 1;
      assert Rises(s, i', j');
      assert unique ==> KeyRises(s, i', j');
    }
  }

  /** Taking a pair out keeps the order. */
  lemma {:induction false} RemoveOrdered(a: seq<Entry>, e: Entry, b: seq<Entry>, unique: bool)
    requires Ordered(a + [e] + b, unique)
    ensures Ordered(a + b, unique)
  {
    var s, s' := a + [e] + b, a + b;
    forall i, j
      ensures Rises(s', i, j) && (unique ==> KeyRises(s', i, j))
    {
      var i', j' := if i < |a| then i else i + 1, if j < |a| then j else j + 1;
      assert Rises(s, i', j');
      assert unique ==> KeyRises(s, i', j');
    }
  }

  /** Everything from a larger pair on is larger. */
  lemma {:induction false} TailGreater(s: seq<Entry>, e: Entry, unique: bool)
    requires Ordered(s, unique) && s != [] && Less(e, s[0])
    ensures AllGreater(s, e)
    ensures s[0].key != e.key ==> NoKey(s, e.key)
  {
    forall i | 0 <= i < |s|
      ensures Less(e, s[i]) && (s[0].key != e.key ==> s[i].key != e.key)
    {
      assert Rises(s, 0, i);
    }
  }

  /** Where a new pair goes in a sorted sequence. */
  ghost function Inserted(s: seq<Entry>, e: Entry): seq<Entry> {
    if s == [] then [e]
    else if Less(e, s[0]) then [e] + s
    else [s[0]] + Inserted(s[1..], e)
  }

  /** The sequence without the first occurrence of a pair. */
  ghost function Removed(s: seq<Entry>, e: Entry): seq<Entry> {
    if s == [] then []
    else if s[0] == e then s[1..]
    else [s[0]] + Removed(s[1..], e)
  }

  lemma {:induction false} InsertedBetween(a: seq<Entry>, b: seq<Entry>, e: Entry)
    requires AllLess(a, e) && AllGreater(b, e)
    ensures Inserted(a + b, e) == a + [e] + b
  {
    if a == [] {
      assert a + b == b;
    } else {
      assert (a + b)[1..] == a[1..] + b;
      InsertedBetween(a[1..], b, e);
      assert a + [e] + b == [a[0]] + (a[1..] + [e] + b);
    }
  }

  lemma {:induction false} RemovedBetween(a: seq<Entry>, b: seq<Entry>, e: Entry)
    requires e !in a
    ensures Removed(a + [e] + b, e) == a + b
  {
    var s := a + [e] + b;
    if a == [] {
      assert s == [e] + b;
    } else {
      assert s[1..] == a[1..] + [e] + b;
      RemovedBetween(a[1..], b, e);
      assert a + b == [a[0]] + (a[1..] + b);
    }
  }

  /** Inserting adds exactly the new pair. */
  lemma {:induction false} InsertedElements(s: seq<Entry>, e: Entry)
    ensures Elements(Inserted(s, e)) == Elements(s) + {e}
    ensures |Inserted(s, e)| == |s| + 1
  {
    if s != [] && !Less(e, s[0]) {
      InsertedElements(s[1..], e);
      assert Elements(s) == {s[0]} + Elements(s[1..]);
      assert Elements([s[0]] + Inserted(s[1..], e)) == {s[0]} + Elements(Inserted(s[1..], e));
    }
  }

  /** Removing takes out exactly the pair, when the sequence is sorted. */
  lemma {:induction false} RemovedElements(s: seq<Entry>, e: Entry)
    requires Sorted(s)
    ensures Elements(Removed(s, e)) == Elements(s) - {e}
    ensures e in s ==> |Removed(s, e)| == |s| - 1
    ensures e !in s ==> Removed(s, e) == s
  {
    if s != [] {
      assert [s[0]] + s[1..] + [] == s;
      OrderedMiddle([s[0]], s[1..], [], false);
      assert Elements(s) == {s[0]} + Elements(s[1..]);
      forall i | 0 <= i < |s[1..]|
        ensures s[1..][i] != s[0]
      {
        assert Rises(s, 0, i + 1);
      }
      if s[0] != e {
        RemovedElements(s[1..], e);
        assert Elements([s[0]] + Removed(s[1..], e)) == {s[0]} + Elements(Removed(s[1..], e));
      }
    }
  }

  /** A sorted sequence has as many places as pairs. */
  lemma {:induction false} SortedSize(s: seq<Entry>)
    requires Sorted(s)
    ensures |Elements(s)| == |s|
  {
    if s != [] {
      assert [s[0]] + s[1..] + [] == s;
      OrderedMiddle([s[0]], s[1..], [], false);
      SortedSize(s[1..]);
      forall i | 0 <= i < |s[1..]|
        ensures s[1..][i] != s[0]
      {
        assert Rises(s, 0, i + 1);
      }
      assert s[0] !in Elements(s[1..]);
      assert Elements(s) == {s[0]} + Elements(s[1..]);
    } else {
      assert Elements(s) == {};
    }
  }

  /** A set of pairs has one sorted listing, so the set says all there is to say about the index. */
  lemma {:induction false} OneListing(a: seq<Entry>, b: seq<Entry>)
    requires Sorted(a) && Sorted(b) && Elements(a) == Elements(b)
    ensures a == b
  {
    SortedSize(a);
    SortedSize(b);
    if a != [] {
      FirstIsLeast(a, b);
      FirstIsLeast(b, a);
      assert [a[0]] + a[1..] + [] == a && [b[0]] + b[1..] + [] == b;
      OrderedMiddle([a[0]], a[1..], [], false);
      OrderedMiddle([b[0]], b[1..], [], false);
      TailElements(a);
      TailElements(b);
      OneListing(a[1..], b[1..]);
    }
  }

  lemma {:induction false} TailElements(s: seq<Entry>)
    requires Sorted(s) && s != []
    ensures Elements(s[1..]) == Elements(s) - {s[0]}
  {
    assert Elements(s) == {s[0]} + Elements(s[1..]);
    forall i | 0 <= i < |s[1..]|
      ensures s[1..][i] != s[0]
    {
      assert Rises(s, 0, i + 1);
    }
  }

  lemma {:induction false} FirstIsLeast(a: seq<Entry>, b: seq<Entry>)
    requires Sorted(a) && a != [] && |a| == |b| && Elements(a) == Elements(b)
    ensures !Less(b[0], a[0])
  {
    assert b[0] in Elements(b);
    var i :| 0 <= i < |a| && a[i] == b[0];
    assert Rises(a, 0, i);
  }
}
