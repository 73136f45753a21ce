/** A hash bucket as a canonical set of key/RID pairs on one page. */
module HashBuckets {
  import opened Entries
  import opened Reads
  import opened Bounds
  import opened Bytes
  import NodeCodec

  datatype Pair = Pair(key: KeyValue, rid: Rid)

  predicate ValidPair(t: KeyType, x: Pair) {
    ValidKey(t, x.key) && NodeCodec.ValidRid(x.rid)
  }

  /** Equal as the index compares keys: both float zeros are one key. */
  predicate Same(x: Pair, y: Pair) {
    !KeyLess(x.key, y.key) && !KeyLess(y.key, x.key) && x.rid == y.rid
  }

  /** The stored order: encoded key, then RID. */
  predicate Before(x: Pair, y: Pair) {
    TextLess(EncodeKey(x.key), EncodeKey(y.key)) || (EncodeKey(x.key) == EncodeKey(y.key) && RidLess(x.rid, y.rid))
  }

  // The stored order is a strict total order of the valid pairs.

  lemma {:induction false} BytesTransitive(a: seq<byte>, b: seq<byte>, c: seq<byte>)
    requires TextLess(a, b) && TextLess(b, c)
    ensures TextLess(a, c)
  {
    if a != [] && a[0] == b[0] == c[0] {
      BytesTransitive(a[1..], b[1..], c[1..]);
    }
  }

  lemma {:induction false} OneKey(t: KeyType, j: KeyValue, k: KeyValue)
    requires ValidKey(t, j) && ValidKey(t, k) && EncodeKey(j) == EncodeKey(k)
    ensures j == k
  {
    var e := EncodeKey(j);
    assert e[0..|e|] == e;
    EncodedKey(t, j, e, 0, |e|);
    EncodedKey(t, k, e, 0, |e|);
  }

  lemma {:induction false} BeforeTotal(t: KeyType, x: Pair, y: Pair)
    requires ValidPair(t, x) && ValidPair(t, y)
    ensures x == y || Before(x, y) || Before(y, x)
    ensures !(Before(x, y) && Before(y, x)) && !Before(x, x)
  {
    BytesTotal(EncodeKey(x.key), EncodeKey(y.key));
    if EncodeKey(x.key) == EncodeKey(y.key) {
      OneKey(t, x.key, y.key);
    }
  }

  lemma {:induction false} BeforeTransitive(x: Pair, y: Pair, z: Pair)
    requires Before(x, y) && Before(y, z)
    ensures Before(x, z)
  {
    if TextLess(EncodeKey(x.key), EncodeKey(y.key)) && TextLess(EncodeKey(y.key), EncodeKey(z.key)) {
      BytesTransitive(EncodeKey(x.key), EncodeKey(y.key), EncodeKey(z.key));
    }
  }

  predicate Valids(t: KeyType, s: seq<Pair>) {
    forall i :: 0 <= i < |s| ==> ValidPair(t, s[i])
  }

  ghost predicate Ascends(s: seq<Pair>, i: int, j: int) {
    0 <= i < j < |s| ==> Before(s[i], s[j])
  }

  ghost predicate Ascending(s: seq<Pair>) {
    forall i, j :: Ascends(s, i, j)
  }

  /** No pair twice, as keys compare. */
  predicate Distinct(s: seq<Pair>) {
    forall i, j :: 0 <= i < j < |s| ==> !Same(s[i], s[j])
  }

  predicate Has(s: seq<Pair>, x: Pair) {
    exists i :: 0 <= i < |s| && Same(s[i], x)
  }

  /** Puts a pair into its place in the stored order. */
  function Place(s: seq<Pair>, x: Pair): (r: seq<Pair>)
    ensures |r| == |s| + 1
  {
    if s == [] then [x]
    else if Before(x, s[0]) then [x] + s
    else [s[0]] + Place(s[1..], x)
  }

  /** The sorting of the pairs. */
  function Normalize(s: seq<Pair>): (r: seq<Pair>)
    ensures |r| == |s|
  {
    if s == [] then [] else Place(Normalize(s[..|s| - 1]), s[|s| - 1])
  }

  lemma {:induction false} PlaceMembers(s: seq<Pair>, x: Pair, y: Pair)
    ensures y in Place(s, x) <==> y in s || y == x
  {
    if s != [] && !Before(x, s[0]) {
      PlaceMembers(s[1..], x, y);
      assert s == [s[0]] + s[1..];
    }
  }

  lemma {:induction false} NormalizeMembers(s: seq<Pair>, y: Pair)
    ensures y in Normalize(s) <==> y in s
  {
    if s != [] {
      NormalizeMembers(s[..|s| - 1], y);
      PlaceMembers(Normalize(s[..|s| - 1]), s[|s| - 1], y);
      hide Place;
      LastMember(s, y);
    }
  }

  lemma {:induction false} LastMember(s: seq<Pair>, y: Pair)
    requires s != []
    ensures y in s <==> y in s[..|s| - 1] || y == s[|s| - 1]
  {
    assert s == s[..|s| - 1] + [s[|s| - 1]];
  }

  lemma {:induction false} PlaceAscends(t: KeyType, s: seq<Pair>, x: Pair)
    requires Valids(t, s) && ValidPair(t, x) && Ascending(s) && x !in s
    ensures Ascending(Place(s, x)) && Valids(t, Place(s, x))
  {
    if s != [] {
      BeforeTotal(t, x, s[0]);
      var rest := s[1..];
      forall i, j
        ensures Ascends(rest, i, j)
      {
        assert Ascends(s, i + 1, j + 1);
      }
      if Before(x, s[0]) {
        forall i | 0 <= i < |s|
          ensures Before(x, s[i])
        {
          assert Ascends(s, 0, i);
          if i > 0 {
            BeforeTransitive(x, s[0], s[i]);
          }
        }
        FirstAscends(x, s);
      } else {
        PlaceAscends(t, rest, x);
        forall i | 0 <= i < |Place(rest, x)|
          ensures Before(s[0], Place(rest, x)[i])
        {
          PlaceMembers(rest, x, Place(rest, x)[i]);
          if Place(rest, x)[i] != x {
            var k :| 0 <= k < |rest| && rest[k] == Place(rest, x)[i];
            assert Ascends(s, 0, k + 1);
          }
        }
        FirstAscends(s[0], Place(rest, x));
      }
    }
  }

  lemma {:induction false} FirstAscends(x: Pair, s: seq<Pair>)
    requires Ascending(s) && forall i :: 0 <= i < |s| ==> Before(x, s[i])
    ensures Ascending([x] + s)
  {
    var all := [x] + s;
    forall i, j
      ensures Ascends(all, i, j)
    {
      hide Before;
      if 0 <= i < j < |all| {
        assert all[j] == s[j - 1];
        if i > 0 {
          assert all[i] == s[i - 1];
          assert Ascends(s, i - 1, j - 1);
        }
      }
    }
  }

  /** An ascending list of valid pairs is determined by its members. */
  lemma {:induction false} OneAscendingList(t: KeyType, a: seq<Pair>, b: seq<Pair>)
    requires Valids(t, a) && Valids(t, b) && Ascending(a) && Ascending(b)
    requires forall x :: x in a <==> x in b
    ensures a == b
  {
    assert a == [] <==> b == [] by {
      if a != [] {
        assert a[0] in a;
      }
      if b != [] {
        assert b[0] in b;
      }
    }
    if a != [] {
      LeastFirst(t, a, b);
      TailMembers(t, a);
      TailMembers(t, b);
      assert a == [a[0]] + a[1..] && b == [b[0]] + b[1..];
      OneAscendingList(t, a[1..], b[1..]);
    }
  }

  lemma {:induction false} LeastFirst(t: KeyType, a: seq<Pair>, b: seq<Pair>)
    requires Valids(t, a) && Valids(t, b) && Ascending(a) && Ascending(b) && a != [] && b != []
    requires forall x :: x in a <==> x in b
    ensures a[0] == b[0]
  {
    assert a[0] in b && b[0] in a;
    var i :| 0 <= i < |b| && b[i] == a[0];
    var j :| 0 <= j < |a| && a[j] == b[0];
    assert Ascends(b, 0, i) && Ascends(a, 0, j);
    BeforeTotal(t, a[0], b[0]);
  }

  lemma {:induction false} TailMembers(t: KeyType, s: seq<Pair>)
    requires Valids(t, s) && Ascending(s) && s != []
    ensures forall x :: x in s[1..] <==> x in s && x != s[0]
    ensures Ascending(s[1..])
  {
    forall i | 1 <= i < |s|
      ensures s[i] != s[0]
    {
      assert Ascends(s, 0, i);
      BeforeTotal(t, s[0], s[i]);
    }
    forall i, j
      ensures Ascends(s[1..], i, j)
    {
      assert Ascends(s, i + 1, j + 1);
    }
    forall x
      ensures x in s[1..] <==> x in s && x != s[0]
    {
      assert s == [s[0]] + s[1..];
    }
  }

  // Sizes.

  const BUCKET_HEADER_SIZE := 16
  const KEY_LENGTH_SIZE := 2
  const HASH_WIDTH := 64

  function PairSize(x: Pair): nat {
    KEY_LENGTH_SIZE + |EncodeKey(x.key)| + RID_SIZE
  }

  function SizeOf(s: seq<Pair>): nat {
    if s == [] then 0 else SizeOf(s[..|s| - 1]) + PairSize(s[|s| - 1])
  }

  lemma {:induction false} SizeConcat(a: seq<Pair>, b: seq<Pair>)
    ensures SizeOf(a + b) == SizeOf(a) + SizeOf(b)
  {
    if b == [] {
      assert a + b == a;
    } else {
      assert (a + b)[..|a + b| - 1] == a + b[..|b| - 1];
      SizeConcat(a, b[..|b| - 1]);
    }
  }

  lemma {:induction false} PlaceSize(s: seq<Pair>, x: Pair)
    ensures SizeOf(Place(s, x)) == SizeOf(s) + PairSize(x)
  {
    assert SizeOf([x]) == SizeOf([]) + PairSize(x) by {
      assert [x][..0] == [];
    }
    if s != [] {
      SizeConcat([s[0]], s[1..]);
      SizeConcat([x], s);
      assert s == [s[0]] + s[1..];
      if !Before(x, s[0]) {
        PlaceSize(s[1..], x);
        SizeConcat([s[0]], Place(s[1..], x));
      }
    }
  }

  lemma {:induction false} NormalizeSize(s: seq<Pair>)
    ensures SizeOf(Normalize(s)) == SizeOf(s)
  {
    if s != [] {
      NormalizeSize(s[..|s| - 1]);
      PlaceSize(Normalize(s[..|s| - 1]), s[|s| - 1]);
    }
  }

  // Buckets.

  datatype Bucket = Bucket(page: nat, keyType: KeyType, depth: nat, entries: seq<Pair>)

  predicate Fits(s: seq<Pair>) {
    BUCKET_HEADER_SIZE + SizeOf(s) <= NODE_PAYLOAD_SIZE
  }

  /** What a bucket is once it is built. */
  ghost predicate ValidBucket(b: Bucket) {
    && 1 <= b.page < UINT32_MAX && b.depth <= HASH_WIDTH
    && Valids(b.keyType, b.entries) && Ascending(b.entries) && Distinct(b.entries) && Fits(b.entries)
  }

  /** Builds a bucket from pairs in any order, or refuses them. */
  function Build(page: nat, t: KeyType, depth: nat, pairs: seq<Pair>): Option<Bucket> {
    if 1 <= page < UINT32_MAX && depth <= HASH_WIDTH && Valids(t, pairs) && Distinct(Normalize(pairs))
        && Fits(Normalize(pairs))
    then Just(Bucket(page, t, depth, Normalize(pairs)))
    else Nothing
  }

  /** Comparing keys is symmetric and, on valid keys of one type, tells zeros apart from nothing else. */
  lemma {:induction false} SameReflexive(t: KeyType, x: Pair, y: Pair)
    requires ValidPair(t, x) && ValidPair(t, y)
    ensures Same(x, x) && (Same(x, y) <==> Same(y, x))
    ensures t != FloatKey ==> (Same(x, y) <==> x == y)
  {
    if x.key.TextValue? {
      BytesTotal(x.key.utf8, x.key.utf8);
      if y.key.TextValue? {
        BytesTotal(x.key.utf8, y.key.utf8);
      }
    }
  }

  /** Sorting keeps pairs distinct, and distinct pairs sort strictly. */
  lemma {:induction false} NormalizeDistinct(t: KeyType, s: seq<Pair>)
    requires Valids(t, s)
    ensures Valids(t, Normalize(s))
    ensures Distinct(s) ==> Ascending(Normalize(s))
    ensures Distinct(s) <==> Distinct(Normalize(s))
  {
    if s != [] {
      var front, x := s[..|s| - 1], s[|s| - 1];
      var sorted := Normalize(front);
      NormalizeDistinct(t, front);
      DistinctLast(s);
      HasMembers(t, front, sorted, x, front);
      PlaceDistinct(t, sorted, x);
      forall i | 0 <= i < |Normalize(s)|
        ensures ValidPair(t, Normalize(s)[i])
      {
        NormalizeMembers(s, Normalize(s)[i]);
      }
      if Distinct(s) {
        SameReflexive(t, x, x);
        assert x !in sorted by {
          NormalizeMembers(front, x);
        }
        PlaceAscends(t, sorted, x);
      }
    }
  }

  lemma {:induction false} DistinctLast(s: seq<Pair>)
    requires s != []
    ensures Distinct(s) <==> Distinct(s[..|s| - 1]) && !Has(s[..|s| - 1], s[|s| - 1])
  {
  }

  /** Whether a list has a pair depends on its members only. */
  lemma {:induction false} HasMembers(t: KeyType, a: seq<Pair>, b: seq<Pair>, x: Pair, source: seq<Pair>)
    requires a == source && b == Normalize(source)
    ensures Has(a, x) <==> Has(b, x)
  {
    if Has(a, x) {
      var i :| 0 <= i < |a| && Same(a[i], x);
      NormalizeMembers(source, a[i]);
      var j :| 0 <= j < |b| && b[j] == a[i];
    }
    if Has(b, x) {
      var i :| 0 <= i < |b| && Same(b[i], x);
      NormalizeMembers(source, b[i]);
      var j :| 0 <= j < |a| && a[j] == b[i];
    }
  }

  lemma {:induction false} PlaceDistinct(t: KeyType, s: seq<Pair>, x: Pair)
    requires Valids(t, s) && ValidPair(t, x)
    ensures Distinct(Place(s, x)) <==> Distinct(s) && !Has(s, x)
    decreases |s|
  {
    if s != [] {
      var rest := s[1..];
      DistinctFirst(s[0], rest);
      assert s == [s[0]] + rest;
      HasFirst(s[0], rest, x);
      SameReflexive(t, s[0], x);
      if Before(x, s[0]) {
        DistinctFirst(x, s);
        HasSymmetric(t, s, x);
      } else {
        PlaceDistinct(t, rest, x);
        DistinctFirst(s[0], Place(rest, x));
        PlaceHas(t, rest, x, s[0]);
      }
    } else {
      assert Distinct([x]);
    }
  }

  ghost predicate Clashes(x: Pair, s: seq<Pair>) {
    exists i :: 0 <= i < |s| && Same(x, s[i])
  }

  lemma {:induction false} DistinctFirst(x: Pair, s: seq<Pair>)
    ensures Distinct([x] + s) <==> Distinct(s) && !Clashes(x, s)
  {
    var all := [x] + s;
    if Distinct(all) {
      forall i | 0 <= i < |s|
        ensures !Same(x, s[i])
      {
        assert !Same(all[0], all[i + 1]);
      }
      forall i, j | 0 <= i < j < |s|
        ensures !Same(s[i], s[j])
      {
        assert !Same(all[i + 1], all[j + 1]);
      }
    }
  }

  lemma {:induction false} HasFirst(y: Pair, s: seq<Pair>, x: Pair)
    ensures Has([y] + s, x) <==> Same(y, x) || Has(s, x)
  {
    var all := [y] + s;
    if Has(s, x) {
      var i :| 0 <= i < |s| && Same(s[i], x);
      assert Same(all[i + 1], x);
    }
    if Same(y, x) {
      assert Same(all[0], x);
    }
    if Has(all, x) && !Same(y, x) {
      var i :| 0 <= i < |all| && Same(all[i], x);
      assert Same(s[i - 1], x);
    }
  }

  lemma {:induction false} HasSymmetric(t: KeyType, s: seq<Pair>, x: Pair)
    requires Valids(t, s) && ValidPair(t, x)
    ensures Has(s, x) <==> Clashes(x, s)
  {
    forall i | 0 <= i < |s|
      ensures Same(s[i], x) <==> Same(x, s[i])
    {
      SameReflexive(t, s[i], x);
    }
  }

  lemma {:induction false} PlaceHas(t: KeyType, s: seq<Pair>, x: Pair, y: Pair)
    requires Valids(t, s) && ValidPair(t, x) && ValidPair(t, y)
    ensures Clashes(y, Place(s, x)) <==> Clashes(y, s) || Same(y, x)
  {
    var r := Place(s, x);
    forall i | 0 <= i < |r|
      ensures r[i] in s || r[i] == x
    {
      PlaceMembers(s, x, r[i]);
    }
    if Clashes(y, s) {
      var i :| 0 <= i < |s| && Same(y, s[i]);
      PlaceMembers(s, x, s[i]);
      var j :| 0 <= j < |r| && r[j] == s[i];
    }
    if Same(y, x) {
      PlaceMembers(s, x, x);
      var j :| 0 <= j < |r| && r[j] == x;
    }
  }

  /** What is built is a valid bucket of exactly the given pairs. */
  lemma {:induction false} BuiltBucket(page: nat, t: KeyType, depth: nat, pairs: seq<Pair>)
    ensures Build(page, t, depth, pairs).Just? <==>
              1 <= page < UINT32_MAX && depth <= HASH_WIDTH && Valids(t, pairs) && Distinct(pairs) && Fits(pairs)
    ensures Build(page, t, depth, pairs).Just? ==> ValidBucket(Build(page, t, depth, pairs).value)
    ensures forall x :: x in Normalize(pairs) <==> x in pairs
  {
    if Valids(t, pairs) {
      NormalizeDistinct(t, pairs);
    }
    NormalizeSize(pairs);
    forall x
      ensures x in Normalize(pairs) <==> x in pairs
    {
      NormalizeMembers(pairs, x);
    }
  }

  /** Building a bucket from its own entries gives it back. */
  lemma {:induction false} Rebuilt(b: Bucket)
    requires ValidBucket(b)
    ensures Build(b.page, b.keyType, b.depth, b.entries) == Just(b)
  {
    BuiltBucket(b.page, b.keyType, b.depth, b.entries);
    NormalizeDistinct(b.keyType, b.entries);
    OneAscendingList(b.keyType, Normalize(b.entries), b.entries);
  }

  function Insert(b: Bucket, x: Pair): Option<Bucket> {
    if Has(b.entries, x) then Just(b) else Build(b.page, b.keyType, b.depth, b.entries + [x])
  }

  function Without(s: seq<Pair>, x: Pair): seq<Pair> {
    if s == [] then [] else Without(s[..|s| - 1], x) + if Same(s[|s| - 1], x) then [] else [s[|s| - 1]]
  }

  function Delete(b: Bucket, x: Pair): Option<Bucket> {
    var rest := Without(b.entries, x);
    if |rest| == |b.entries| then Nothing else Build(b.page, b.keyType, b.depth, rest)
  }

  function CanFit(b: Bucket, x: Pair): bool {
    Has(b.entries, x) || Fits(b.entries + [x])
  }

  /** There is room for a pair exactly when its insertion succeeds; the result is the set with the pair. */
  lemma {:induction false} InsertAdds(b: Bucket, x: Pair)
    requires ValidBucket(b) && ValidPair(b.keyType, x)
    ensures CanFit(b, x) <==> Insert(b, x).Just?
    ensures Insert(b, x).Just? ==>
              var c := Insert(b, x).value;
              && ValidBucket(c) && c.page == b.page && c.keyType == b.keyType && c.depth == b.depth
              && forall y :: y in c.entries <==> y in b.entries || (y == x && !Has(b.entries, x))
  {
    var more := b.entries + [x];
    assert more[..|more| - 1] == b.entries;
    DistinctLast(more);
    BuiltBucket(b.page, b.keyType, b.depth, more);
  }

  lemma {:induction false} WithoutMembers(s: seq<Pair>, x: Pair, y: Pair)
    ensures y in Without(s, x) <==> y in s && !Same(y, x)
    ensures |Without(s, x)| <= |s| && (|Without(s, x)| == |s| <==> !Has(s, x))
    ensures !Has(s, x) ==> Without(s, x) == s
  {
    if s != [] {
      WithoutMembers(s[..|s| - 1], x, y);
      LastMember(s, y);
      HasLast(s, x);
      assert s == s[..|s| - 1] + [s[|s| - 1]];
    }
  }

  lemma {:induction false} HasLast(s: seq<Pair>, x: Pair)
    requires s != []
    ensures Has(s, x) <==> Has(s[..|s| - 1], x) || Same(s[|s| - 1], x)
  {
  }

  lemma {:induction false} WithoutDistinct(s: seq<Pair>, x: Pair)
    requires Distinct(s)
    ensures Distinct(Without(s, x))
  {
    if s != [] {
      var front, last := s[..|s| - 1], s[|s| - 1];
      WithoutDistinct(front, x);
      var rest := Without(front, x);
      forall i | 0 <= i < |rest|
        ensures !Same(rest[i], last)
      {
        WithoutMembers(front, x, rest[i]);
        var k :| 0 <= k < |front| && front[k] == rest[i];
      }
    }
  }

  lemma {:induction false} LastAscends(t: KeyType, s: seq<Pair>)
    requires Valids(t, s) && Ascending(s) && s != []
    ensures Ascending(s[..|s| - 1]) && Valids(t, s[..|s| - 1])
    ensures var front, last := s[..|s| - 1], s[|s| - 1];
            forall x :: x in front ==> Before(x, last) && x != last
  {
    var front := s[..|s| - 1];
    forall i, j
      ensures Ascends(front, i, j)
    {
      assert Ascends(s, i, j);
    }
    forall i | 0 <= i < |front|
      ensures Before(front[i], s[|s| - 1]) && front[i] != s[|s| - 1]
    {
      assert Ascends(s, i, |s| - 1);
      BeforeTotal(t, s[i], s[|s| - 1]);
    }
  }

  /** Fewer pairs take no more room. */
  lemma {:induction false} SubSize(t: KeyType, a: seq<Pair>, b: seq<Pair>)
    requires Valids(t, a) && Valids(t, b) && Ascending(a) && Ascending(b)
    requires forall x :: x in a ==> x in b
    ensures SizeOf(a) <= SizeOf(b)
    decreases |b|
  {
    if a != [] {
      var x := a[|a| - 1];
      assert x in a;
      var last := b[|b| - 1];
      LastAscends(t, a);
      LastAscends(t, b);
      var front, shorter := a[..|a| - 1], b[..|b| - 1];
      forall y | y in front
        ensures y in shorter
      {
        LastMember(b, y);
        if y == last {
          LastMember(b, x);
          BeforeTotal(t, x, last);
        }
      }
      if x == last {
        SubSize(t, front, shorter);
      } else {
        forall y | y in a
          ensures y in shorter
        {
          LastMember(a, y);
          LastMember(b, x);
        }
        SubSize(t, a, shorter);
      }
    }
  }

  /** A deletion succeeds exactly when the pair is there, and takes out that pair only. */
  lemma {:induction false} DeleteRemoves(b: Bucket, x: Pair)
    requires ValidBucket(b) && ValidPair(b.keyType, x)
    ensures Delete(b, x).Just? <==> Has(b.entries, x)
    ensures Delete(b, x).Just? ==>
              var c := Delete(b, x).value;
              && ValidBucket(c) && c.page == b.page && c.keyType == b.keyType && c.depth == b.depth
              && forall y :: y in c.entries <==> y in b.entries && !Same(y, x)
  {
    var rest := Without(b.entries, x);
    WithoutMembers(b.entries, x, x);
    WithoutDistinct(b.entries, x);
    forall y
      ensures y in rest <==> y in b.entries && !Same(y, x)
    {
      WithoutMembers(b.entries, x, y);
    }
    forall i | 0 <= i < |rest|
      ensures ValidPair(b.keyType, rest[i])
    {
      assert rest[i] in b.entries;
    }
    NormalizeDistinct(b.keyType, rest);
    NormalizeSize(rest);
    forall y | y in Normalize(rest)
      ensures y in b.entries
    {
      NormalizeMembers(rest, y);
    }
    SubSize(b.keyType, Normalize(rest), b.entries);
    BuiltBucket(b.page, b.keyType, b.depth, rest);
  }

  /** Buckets on one page with the same members are the same bucket. */
  lemma {:induction false} OneBucket(b: Bucket, c: Bucket)
    requires ValidBucket(b) && ValidBucket(c) && b.page == c.page && b.keyType == c.keyType && b.depth == c.depth
    requires forall x :: x in b.entries <==> x in c.entries
    ensures b == c
  {
    OneAscendingList(b.keyType, b.entries, c.entries);
  }

  /** Deleting a pair that was just inserted restores the bucket. */
  lemma {:induction false} InsertThenDelete(b: Bucket, x: Pair)
    requires ValidBucket(b) && ValidPair(b.keyType, x) && !Has(b.entries, x) && Insert(b, x).Just?
    ensures Delete(Insert(b, x).value, x) == Just(b)
  {
    var c := Insert(b, x).value;
    InsertAdds(b, x);
    SameReflexive(b.keyType, x, x);
    assert x in c.entries;
    assert Has(c.entries, x);
    DeleteRemoves(c, x);
    var d := Delete(c, x).value;
    forall y
      ensures y in d.entries <==> y in b.entries
    {
    }
    OneBucket(d, b);
  }

  // Order of insertion.

  function InsertMany(b: Bucket, xs: seq<Pair>): Option<Bucket>
    decreases |xs|
  {
    if xs == [] then Just(b)
    else
      var c := InsertMany(b, xs[..|xs| - 1]);
      if c == Nothing then Nothing else Insert(c.value, xs[|xs| - 1])
  }

  /** No two of the pairs are told apart only by their bytes, as the two float zeros are. */
  ghost predicate Unambiguous(s: seq<Pair>) {
    forall x, y :: x in s && y in s && Same(x, y) ==> x == y
  }

  lemma {:induction false} ManyAdds(b: Bucket, xs: seq<Pair>)
    requires ValidBucket(b) && Valids(b.keyType, xs) && Unambiguous(b.entries + xs) && InsertMany(b, xs).Just?
    ensures var c := InsertMany(b, xs).value;
            && ValidBucket(c) && c.page == b.page && c.keyType == b.keyType && c.depth == b.depth
            && forall y :: y in c.entries <==> y in b.entries || y in xs
    decreases |xs|
  {
    if xs != [] {
      var front, x := xs[..|xs| - 1], xs[|xs| - 1];
      assert forall y :: y in b.entries + front ==> y in b.entries + xs;
      ManyAdds(b, front);
      var c := InsertMany(b, front).value;
      InsertAdds(c, x);
      forall y
        ensures y in InsertMany(b, xs).value.entries <==> y in b.entries || y in xs
      {
        LastMember(xs, y);
        if y == x && Has(c.entries, x) {
          var i :| 0 <= i < |c.entries| && Same(c.entries[i], x);
          assert c.entries[i] in b.entries + xs && x in b.entries + xs;
        }
      }
    }
  }

  /** Where all the pairs fit in one order, they fit in every order. */
  lemma {:induction false} ManyFit(b: Bucket, c: Bucket, ys: seq<Pair>)
    requires ValidBucket(b) && ValidBucket(c) && b.keyType == c.keyType && Valids(b.keyType, ys)
    requires Unambiguous(b.entries + ys)
    requires (forall y :: y in b.entries ==> y in c.entries) && forall y :: y in ys ==> y in c.entries
    ensures InsertMany(b, ys).Just?
    decreases |ys|
  {
    if ys != [] {
      var front, y := ys[..|ys| - 1], ys[|ys| - 1];
      assert forall x :: x in b.entries + front ==> x in b.entries + ys;
      ManyFit(b, c, front);
      ManyAdds(b, front);
      var d := InsertMany(b, front).value;
      if !Has(d.entries, y) {
        var more := d.entries + [y];
        assert more[..|more| - 1] == d.entries;
        DistinctLast(more);
        NormalizeDistinct(d.keyType, more);
        NormalizeSize(more);
        forall x | x in Normalize(more)
          ensures x in c.entries
        {
          NormalizeMembers(more, x);
        }
        SubSize(d.keyType, Normalize(more), c.entries);
        InsertAdds(d, y);
      }
    }
  }

  /** Whatever the order in which they arrive, the same pairs make the same bucket. */
  lemma {:induction false} OrderIsIrrelevant(b: Bucket, xs: seq<Pair>, ys: seq<Pair>)
    requires ValidBucket(b) && Valids(b.keyType, xs) && Valids(b.keyType, ys)
    requires Unambiguous(b.entries + xs) && forall x :: x in xs <==> x in ys
    ensures InsertMany(b, xs) == InsertMany(b, ys)
  {
    assert forall x :: x in b.entries + ys ==> x in b.entries + xs;
    if InsertMany(b, xs).Just? {
      ManyAdds(b, xs);
      ManyFit(b, InsertMany(b, xs).value, ys);
    }
    if InsertMany(b, ys).Just? {
      ManyAdds(b, ys);
      ManyFit(b, InsertMany(b, ys).value, xs);
    }
    if InsertMany(b, xs).Just? {
      OneBucket(InsertMany(b, xs).value, InsertMany(b, ys).value);
    }
  }

  /** What a run of insertions keeps, when all of them succeed. */
  lemma {:induction false} ManyKeeps(b: Bucket, xs: seq<Pair>)
    requires ValidBucket(b) && Valids(b.keyType, xs) && InsertMany(b, xs).Just?
    ensures var c := InsertMany(b, xs).value;
            && ValidBucket(c) && c.keyType == b.keyType
            && (forall y :: y in b.entries ==> y in c.entries)
            && (forall y :: y in c.entries ==> y in b.entries || y in xs)
            && (forall y :: y in xs ==> Has(c.entries, y))
    decreases |xs|
  {
    if xs != [] {
      var front, x := xs[..|xs| - 1], xs[|xs| - 1];
      ManyKeeps(b, front);
      var d := InsertMany(b, front).value;
      InsertAdds(d, x);
      var c := InsertMany(b, xs).value;
      SameReflexive(b.keyType, x, x);
      if !Has(d.entries, x) {
        Holding(c.entries, x);
      }
      forall y | y in xs
        ensures Has(c.entries, y)
      {
        LastMember(xs, y);
        if y in front {
          MoreHave(d.entries, c.entries, y);
        }
      }
    }
  }

  lemma {:induction false} Holding(s: seq<Pair>, x: Pair)
    requires x in s && Same(x, x)
    ensures Has(s, x)
  {
    var i :| 0 <= i < |s| && s[i] == x;
  }

  lemma {:induction false} MoreHave(s: seq<Pair>, t: seq<Pair>, x: Pair)
    requires Has(s, x) && forall y :: y in s ==> y in t
    ensures Has(t, x)
  {
    var i :| 0 <= i < |s| && Same(s[i], x);
    assert s[i] in t;
  }

  /** The pairs, in their order, that are not among the entries as keys compare. */
  function NewTo(s: seq<Pair>, xs: seq<Pair>): seq<Pair>
    decreases |xs|
  {
    if xs == [] then []
    else NewTo(s, xs[..|xs| - 1]) + if Has(s, xs[|xs| - 1]) then [] else [xs[|xs| - 1]]
  }

  lemma {:induction false} NewMembers(s: seq<Pair>, xs: seq<Pair>, y: Pair)
    ensures y in NewTo(s, xs) <==> y in xs && !Has(s, y)
    decreases |xs|
  {
    if xs != [] {
      NewMembers(s, xs[..|xs| - 1], y);
      LastMember(xs, y);
    }
  }

  /** Pairs that are there already make no difference. */
  lemma {:induction false} SkipsKnown(b: Bucket, xs: seq<Pair>)
    requires ValidBucket(b) && Valids(b.keyType, xs)
    ensures InsertMany(b, xs) == InsertMany(b, NewTo(b.entries, xs))
    decreases |xs|
  {
    if xs != [] {
      var front, x := xs[..|xs| - 1], xs[|xs| - 1];
      SkipsKnown(b, front);
      var few := NewTo(b.entries, front);
      if Has(b.entries, x) {
        assert NewTo(b.entries, xs) == few;
        if InsertMany(b, front).Just? {
          ManyKeeps(b, front);
          MoreHave(b.entries, InsertMany(b, front).value.entries, x);
        }
      } else {
        assert (few + [x])[..|few|] == few;
      }
    }
  }

  lemma {:induction false} StaysUnambiguous(b: Bucket, few: seq<Pair>)
    requires ValidBucket(b) && Valids(b.keyType, few) && Unambiguous(few) && forall y :: y in few ==> !Has(b.entries, y)
    ensures Unambiguous(b.entries + few)
  {
    forall x, y | x in b.entries + few && y in b.entries + few && Same(x, y)
      ensures x == y
    {
      SameReflexive(b.keyType, x, y);
      if x in b.entries && y in b.entries {
        var i :| 0 <= i < |b.entries| && b.entries[i] == x;
        var j :| 0 <= j < |b.entries| && b.entries[j] == y;
        assert i == j;
      }
    }
  }

  /** The first of several new pairs is in the bucket that they make. */
  lemma {:induction false} FirstStays(b: Bucket, x: Pair, rest: seq<Pair>)
    requires ValidBucket(b) && ValidPair(b.keyType, x) && Valids(b.keyType, rest) && !Has(b.entries, x)
    requires InsertMany(b, [x] + rest).Just?
    ensures var c := InsertMany(b, [x] + rest).value;
            ValidBucket(c) && c.keyType == b.keyType && x in c.entries
    decreases |rest|
  {
    var xs := [x] + rest;
    if rest == [] {
      assert xs[..0] == [];
      assert InsertMany(b, xs) == Insert(b, x);
      InsertAdds(b, x);
    } else {
      var front := rest[..|rest| - 1];
      assert xs[..|xs| - 1] == [x] + front;
      FirstStays(b, x, front);
      InsertAdds(InsertMany(b, [x] + front).value, xs[|xs| - 1]);
    }
  }

  ghost predicate SameMembers(xs: seq<Pair>, ys: seq<Pair>) {
    forall x :: x in xs <==> x in ys
  }

  ghost predicate OrderShows(b: Bucket, xs: seq<Pair>) {
    exists ys :: SameMembers(xs, ys) && InsertMany(b, ys) != InsertMany(b, xs)
  }

  /** A bucket holds at most one of the pairs that compare equal. */
  lemma {:induction false} NoTwins(b: Bucket, x: Pair, y: Pair)
    requires ValidBucket(b) && x in b.entries && y in b.entries && Same(x, y)
    ensures x == y
  {
    var i :| 0 <= i < |b.entries| && b.entries[i] == x;
    var j :| 0 <= j < |b.entries| && b.entries[j] == y;
    SameReflexive(b.keyType, x, y);
  }

  /** A bucket that the pairs make whatever their order holds each new one of them. */
  lemma {:induction false} HoldsFirst(b: Bucket, xs: seq<Pair>, x: Pair)
    requires ValidBucket(b) && Valids(b.keyType, xs) && InsertMany(b, xs).Just? && !OrderShows(b, xs)
    requires x in xs && !Has(b.entries, x)
    ensures ValidBucket(InsertMany(b, xs).value) && x in InsertMany(b, xs).value.entries
  {
    assert SameMembers(xs, [x] + xs);
    assert ValidPair(b.keyType, x);
    hide InsertMany, ValidBucket, Valids, Has;
    FirstStays(b, x, xs);
  }

  /** Of two new pairs that only their bytes tell apart, the one that comes first is kept. */
  lemma {:induction false} TwinsShow(b: Bucket, xs: seq<Pair>, x: Pair, y: Pair)
    requires ValidBucket(b) && Valids(b.keyType, xs) && InsertMany(b, xs).Just?
    requires x in xs && y in xs && x != y && Same(x, y) && !Has(b.entries, x) && !Has(b.entries, y)
    ensures OrderShows(b, xs)
  {
    hide InsertMany, ValidBucket, Valids, Has, OrderShows, Same;
    if !OrderShows(b, xs) {
      HoldsFirst(b, xs, x);
      HoldsFirst(b, xs, y);
      NoTwins(InsertMany(b, xs).value, x, y);
    }
  }

  lemma {:induction false} ValidMembers(t: KeyType, xs: seq<Pair>, ys: seq<Pair>)
    requires Valids(t, xs) && forall y :: y in ys ==> y in xs
    ensures Valids(t, ys)
  {
    forall i | 0 <= i < |ys|
      ensures ValidPair(t, ys[i])
    {
      assert ys[i] in xs;
    }
  }

  lemma {:induction false} NewOnes(b: Bucket, xs: seq<Pair>)
    requires Valids(b.keyType, xs)
    ensures var few := NewTo(b.entries, xs);
            Valids(b.keyType, few) && forall y :: y in few <==> y in xs && !Has(b.entries, y)
  {
    var few := NewTo(b.entries, xs);
    forall y
      ensures y in few <==> y in xs && !Has(b.entries, y)
    {
      NewMembers(b.entries, xs, y);
    }
    ValidMembers(b.keyType, xs, few);
  }

  lemma {:induction false} OrderHidden(b: Bucket, xs: seq<Pair>, ys: seq<Pair>)
    requires ValidBucket(b) && Valids(b.keyType, xs) && Unambiguous(NewTo(b.entries, xs)) && SameMembers(xs, ys)
    ensures InsertMany(b, ys) == InsertMany(b, xs)
  {
    ValidMembers(b.keyType, xs, ys);
    NewOnes(b, xs);
    NewOnes(b, ys);
    StaysUnambiguous(b, NewTo(b.entries, xs));
    SkipsKnown(b, xs);
    SkipsKnown(b, ys);
    hide Unambiguous, Valids, ValidBucket, InsertMany, Has, NewTo;
    OrderIsIrrelevant(b, NewTo(b.entries, xs), NewTo(b.entries, ys));
  }

  // Float pairs all take the same room, so whether a list of them fits does not depend on their order either.

  /** What a float pair compares by. */
  function ClassOf(x: Pair): (int, Rid) {
    (if x.key.FloatValue? then FloatRank(x.key.bits) else 0, x.rid)
  }

  function Classes(s: seq<Pair>): set<(int, Rid)>
    decreases |s|
  {
    if s == [] then {} else Classes(s[..|s| - 1]) + {ClassOf(s[|s| - 1])}
  }

  lemma {:induction false} ClassMember(t: KeyType, s: seq<Pair>, x: Pair)
    requires t == FloatKey && Valids(t, s) && ValidPair(t, x)
    ensures ClassOf(x) in Classes(s) <==> Has(s, x)
    decreases |s|
  {
    if s != [] {
      ClassMember(t, s[..|s| - 1], x);
      HasLast(s, x);
      assert ValidPair(t, s[|s| - 1]);
    }
  }

  lemma {:induction false} ClassCount(t: KeyType, s: seq<Pair>)
    requires t == FloatKey && Valids(t, s) && Distinct(s)
    ensures |Classes(s)| == |s|
    decreases |s|
  {
    if s != [] {
      var front, x := s[..|s| - 1], s[|s| - 1];
      ClassCount(t, front);
      ClassMember(t, front, x);
    }
  }

  lemma {:induction false} ClassesWithin(t: KeyType, s: seq<Pair>, c: seq<Pair>)
    requires t == FloatKey && Valids(t, s) && Valids(t, c) && forall x :: x in s ==> Has(c, x)
    ensures Classes(s) <= Classes(c)
    decreases |s|
  {
    if s != [] {
      var front, x := s[..|s| - 1], s[|s| - 1];
      assert forall y :: y in front ==> y in s;
      ClassesWithin(t, front, c);
      ClassMember(t, c, x);
    }
  }

  lemma {:induction false} FloatSize(t: KeyType, s: seq<Pair>)
    requires t == FloatKey && Valids(t, s)
    ensures SizeOf(s) == 18 * |s|
    decreases |s|
  {
    if s != [] {
      FloatSize(t, s[..|s| - 1]);
      assert ValidPair(t, s[|s| - 1]);
    }
  }

  lemma {:induction false} SubsetSize<T>(a: set<T>, b: set<T>)
    requires a <= b
    ensures |a| <= |b|
  {
    assert b == a + (b - a);
  }

  /** Distinct float pairs that a bucket has take no more room than the bucket. */
  lemma {:induction false} FloatRoom(t: KeyType, s: seq<Pair>, c: Bucket)
    requires t == FloatKey == c.keyType && ValidBucket(c) && Valids(t, s) && Distinct(s)
    requires forall x :: x in s ==> Has(c.entries, x)
    ensures Fits(s)
  {
    ClassesWithin(t, s, c.entries);
    SubsetSize(Classes(s), Classes(c.entries));
    ClassCount(t, s);
    ClassCount(t, c.entries);
    FloatSize(t, s);
    FloatSize(t, c.entries);
  }

  /** Float pairs that a bucket has can all be inserted into a smaller one, in any order. */
  lemma {:induction false} FloatsFit(b: Bucket, c: Bucket, xs: seq<Pair>)
    requires ValidBucket(b) && ValidBucket(c) && b.keyType == c.keyType == FloatKey && Valids(b.keyType, xs)
    requires (forall x :: x in b.entries ==> Has(c.entries, x)) && forall x :: x in xs ==> Has(c.entries, x)
    ensures InsertMany(b, xs).Just?
    decreases |xs|
  {
    if xs != [] {
      var front, x := xs[..|xs| - 1], xs[|xs| - 1];
      assert forall y :: y in front ==> y in xs;
      FloatsFit(b, c, front);
      ManyKeeps(b, front);
      var d := InsertMany(b, front).value;
      OneFloatFits(d, c, x);
    }
  }

  lemma {:induction false} OneFloatFits(d: Bucket, c: Bucket, x: Pair)
    requires ValidBucket(d) && ValidBucket(c) && d.keyType == c.keyType == FloatKey && ValidPair(d.keyType, x)
    requires Has(c.entries, x) && forall y :: y in d.entries ==> Has(c.entries, y)
    ensures Insert(d, x).Just?
  {
    InsertAdds(d, x);
    if !Has(d.entries, x) {
      var more := d.entries + [x];
      assert more[..|more| - 1] == d.entries;
      DistinctLast(more);
      FloatRoom(d.keyType, more, c);
    }
  }

  lemma {:induction false} FitsInEveryOrder(b: Bucket, xs: seq<Pair>, ys: seq<Pair>)
    requires ValidBucket(b) && Valids(b.keyType, xs) && b.keyType == FloatKey && SameMembers(xs, ys)
    ensures InsertMany(b, ys).Just? ==> InsertMany(b, xs).Just?
  {
    if InsertMany(b, ys).Just? {
      ValidMembers(b.keyType, xs, ys);
      ManyKeeps(b, ys);
      var c := InsertMany(b, ys).value;
      forall x | x in b.entries
        ensures Has(c.entries, x)
      {
        ValidMembers(b.keyType, b.entries, [x]);
        assert [x][0] == x;
        SameReflexive(b.keyType, x, x);
        Holding(c.entries, x);
      }
      hide ValidBucket, Valids, InsertMany, Has;
      FloatsFit(b, c, xs);
    }
  }

  /** Only floats have pairs that compare equal and differ. */
  lemma {:induction false} OnlyFloats(t: KeyType, s: seq<Pair>)
    requires Valids(t, s) && t != FloatKey
    ensures Unambiguous(s)
  {
    forall x, y | x in s && y in s && Same(x, y)
      ensures x == y
    {
      SameReflexive(t, x, y);
    }
  }

  /**
   * The order of insertion shows exactly when the pairs fit and two of the new ones are told apart
   * only by their bytes.
   */
  lemma {:induction false} OrderExact(b: Bucket, xs: seq<Pair>)
    requires ValidBucket(b) && Valids(b.keyType, xs)
    ensures OrderShows(b, xs) <==> InsertMany(b, xs).Just? && !Unambiguous(NewTo(b.entries, xs))
  {
    NewOnes(b, xs);
    if Unambiguous(NewTo(b.entries, xs)) {
      hide ValidBucket, Valids, InsertMany, NewTo, Has, Unambiguous;
      forall ys | SameMembers(xs, ys)
        ensures InsertMany(b, ys) == InsertMany(b, xs)
      {
        OrderHidden(b, xs, ys);
      }
    } else if InsertMany(b, xs).Just? {
      var x, y :| x in NewTo(b.entries, xs) && y in NewTo(b.entries, xs) && Same(x, y) && x != y;
      hide ValidBucket, Valids, InsertMany, NewTo, Has, Same, OrderShows;
      TwinsShow(b, xs, x, y);
    } else {
      if b.keyType != FloatKey {
        OnlyFloats(b.keyType, NewTo(b.entries, xs));
      }
      hide ValidBucket, Valids, InsertMany, NewTo, Has, Unambiguous;
      forall ys | SameMembers(xs, ys)
        ensures InsertMany(b, ys) == InsertMany(b, xs)
      {
        FitsInEveryOrder(b, xs, ys);
      }
    }
  }

  /** The two float zeros are one key with two encodings, so their order of insertion shows. */
  lemma {:induction false} ZerosShow() returns (b: Bucket, x: Pair, y: Pair)
    ensures ValidBucket(b) && ValidPair(b.keyType, x) && ValidPair(b.keyType, y)
    ensures InsertMany(b, [x, y]).Just? && InsertMany(b, [y, x]).Just?
    ensures InsertMany(b, [x, y]) != InsertMany(b, [y, x])
  {
    b := Bucket(1, FloatKey, 0, []);
    x, y := Pair(FloatValue(0), Rid(1, 1)), Pair(FloatValue(INTEGER_LIMIT), Rid(1, 1));
    assert SizeOf([]) == 0;
    TwoZeros(b, x, y);
    TwoZeros(b, y, x);
  }

  lemma {:induction false} TwoZeros(b: Bucket, x: Pair, y: Pair)
    requires b == Bucket(1, FloatKey, 0, []) && Same(x, y) && ValidPair(FloatKey, x)
    ensures InsertMany(b, [x, y]) == Just(Bucket(1, FloatKey, 0, [x]))
  {
    assert [x, y][..1] == [x] && [x][..0] == [];
    assert b.entries + [x] == [x];
    assert Normalize([x]) == [x];
    assert SizeOf([x]) == SizeOf([]) + PairSize(x);
    assert InsertMany(b, [x]) == Insert(b, x);
  }

  // The bytes of a bucket.

  const BUCKET_MAGIC: seq<byte> := [0x48, 0x42, 0x4B, 0x54]

  function EncodePair(x: Pair): seq<byte> {
    Pack(|EncodeKey(x.key)|, 2) + EncodeKey(x.key) + NodeCodec.EncodeRid(x.rid)
  }

  function EncodePairs(s: seq<Pair>): seq<byte> {
    if s == [] then [] else EncodePair(s[0]) + EncodePairs(s[1..])
  }

  lemma {:induction false} OneMorePair(s: seq<Pair>, x: Pair)
    ensures EncodePairs(s + [x]) == EncodePairs(s) + EncodePair(x)
  {
    if s == [] {
      assert s + [x] == [x] && [x][1..] == [];
      assert EncodePairs([x]) == EncodePair(x) + EncodePairs([]);
    } else {
      OneMorePair(s[1..], x);
      assert (s + [x])[1..] == s[1..] + [x];
      GroupRight(EncodePair(s[0]), EncodePairs(s[1..]), EncodePair(x));
    }
  }

  lemma {:induction false} OnePairSize(x: Pair)
    ensures |EncodePair(x)| == PairSize(x) >= 10
  {
  }

  lemma {:induction false} MoreSize(s: seq<Pair>, x: Pair)
    ensures SizeOf(s + [x]) == SizeOf(s) + PairSize(x)
  {
    assert (s + [x])[..|s|] == s;
  }

  lemma {:induction false} OneMoreSize(s: seq<Pair>, x: Pair)
    requires |EncodePairs(s)| == SizeOf(s) >= 10 * |s|
    ensures |EncodePairs(s + [x])| == SizeOf(s + [x]) >= 10 * |s + [x]|
  {
    MoreSize(s, x);
    OneMorePair(s, x);
    OnePairSize(x);
    hide EncodePairs, EncodePair, PairSize, SizeOf;
  }

  lemma {:induction false} NoSize()
    ensures |EncodePairs([])| == SizeOf([]) == 0
  {
  }

  lemma {:induction false} SizeUpTo(s: seq<Pair>, n: nat)
    requires n <= |s|
    ensures |EncodePairs(s[..n])| == SizeOf(s[..n]) >= 10 * n
  {
    hide EncodePairs, SizeOf;
    if n == 0 {
      NoSize();
      assert s[..0] == [];
    } else {
      SizeUpTo(s, n - 1);
      OneMoreSize(s[..n - 1], s[n - 1]);
      assert s[..n] == s[..n - 1] + [s[n - 1]];
    }
  }

  lemma {:induction false} PairsSize(s: seq<Pair>)
    ensures |EncodePairs(s)| == SizeOf(s) >= 10 * |s|
  {
    SizeUpTo(s, |s|);
    hide EncodePairs, SizeOf;
    assert s[..|s|] == s;
  }

  function BucketHeader(depth: nat, count: nat, page: nat, used: nat): (r: seq<byte>)
    requires depth <= HASH_WIDTH
    ensures |r| == BUCKET_HEADER_SIZE
  {
    BUCKET_MAGIC + [1, depth] + Pack(count, 2) + Pack(page, 4) + Pack(used, 4)
  }

  function EncodeBucket(b: Bucket): (r: seq<byte>)
    requires b.depth <= HASH_WIDTH && Fits(b.entries)
    ensures |r| == NODE_PAYLOAD_SIZE
  {
    var used := BUCKET_HEADER_SIZE + SizeOf(b.entries);
    PairsSize(b.entries);
    BucketHeader(b.depth, |b.entries|, b.page,
                 used) + EncodePairs(b.entries) + NodeCodec.Zeros(NODE_PAYLOAD_SIZE - used)
  }

  /** Reads one pair at an offset, within the bytes in use. */
  function DecodePair(t: KeyType, p: seq<byte>, at: nat, used: nat): Option<(Pair, nat)>
    requires used <= |p|
  {
    if at + KEY_LENGTH_SIZE > used then Nothing
    else
      var keyEnd := at + KEY_LENGTH_SIZE + Unpack(p[at..at + KEY_LENGTH_SIZE]);
      var end := keyEnd + RID_SIZE;
      if end > used then Nothing
      else
        var bytes := p[at + KEY_LENGTH_SIZE..keyEnd];
        var key := DecodeKey(t, bytes, 0);
        if key == Nothing || key.value.1 != |bytes| then Nothing
        else Just((Pair(key.value.0, NodeCodec.DecodeRid(p[keyEnd..end])), end))
  }

  /** Reads pairs one after the other. */
  function DecodePairs(t: KeyType, p: seq<byte>, at: nat, count: nat, used: nat): Option<(seq<Pair>, nat)>
    requires used <= |p|
    decreases count
  {
    if count == 0 then Just(([], at))
    else
      var first := DecodePair(t, p, at, used);
      if first == Nothing then Nothing
      else
        var rest := DecodePairs(t, p, first.value.1, count - 1, used);
        if rest == Nothing then Nothing else Just(([first.value.0] + rest.value.0, rest.value.1))
  }

  lemma {:induction false} PairParts(x: Pair, p: seq<byte>, at: nat, end: nat) returns (key: nat, rid: nat)
    requires at <= end <= |p| && p[at..end] == EncodePair(x)
    ensures key == at + 2 && at <= key <= rid <= end && rid + 8 == end && rid - key == |EncodeKey(x.key)|
    ensures p[at..key] == Pack(|EncodeKey(x.key)|, 2) && p[key..rid] == EncodeKey(x.key)
    ensures p[rid..end] == NodeCodec.EncodeRid(x.rid)
  {
    var k := EncodeKey(x.key);
    key, rid := at + 2, at + 2 + |k|;
    NodeCodec.Parts(p, at, key, rid, end, Pack(|k|, 2), k, NodeCodec.EncodeRid(x.rid));
  }

  lemma {:induction false} WholeKey(t: KeyType, k: KeyValue)
    requires ValidKey(t, k)
    ensures DecodeKey(t, EncodeKey(k), 0) == Just((k, |EncodeKey(k)|))
    ensures |EncodeKey(k)| < 0x1_0000 && Unpack(Pack(|EncodeKey(k)|, 2)) == |EncodeKey(k)|
  {
    var e := EncodeKey(k);
    assert e[0..|e|] == e;
    EncodedKey(t, k, e, 0, |e|);
    Caps();
    UnpackPack(|e|, 2);
  }

  lemma {:induction false} OnePair(t: KeyType, x: Pair, k: seq<byte>, p: seq<byte>, at: nat, key: nat, rid: nat,
                                   end: nat, used: nat)
    requires at <= key <= rid <= end <= used <= |p| && key == at + 2 && rid == key + |k| && end == rid + 8
    requires Unpack(p[at..key]) == |k| && p[key..rid] == k && DecodeKey(t, k, 0) == Just((x.key, |k|))
    requires NodeCodec.DecodeRid(p[rid..end]) == x.rid
    ensures DecodePair(t, p, at, used) == Just((x, end))
  {
    hide Unpack, DecodeKey, NodeCodec.DecodeRid;
  }

  lemma {:induction false} PairBack(t: KeyType, x: Pair, p: seq<byte>, at: nat, end: nat, used: nat)
    requires ValidPair(t, x) && at <= end <= used <= |p| && p[at..end] == EncodePair(x)
    ensures DecodePair(t, p, at, used) == Just((x, end))
  {
    var key, rid := PairParts(x, p, at, end);
    WholeKey(t, x.key);
    NodeCodec.RidRoundTrip(x.rid, []);
    var k := EncodeKey(x.key);
    hide EncodeKey, DecodeKey, Unpack, ValidKey, EncodePair, Pack, NodeCodec.EncodeRid, NodeCodec.DecodeRid;
    OnePair(t, x, k, p, at, key, rid, end, used);
  }

  lemma {:induction false} FirstPair(s: seq<Pair>, p: seq<byte>, at: nat, end: nat) returns (mid: nat)
    requires s != [] && at <= end <= |p| && p[at..end] == EncodePairs(s)
    ensures at <= mid <= end && p[at..mid] == EncodePair(s[0]) && p[mid..end] == EncodePairs(s[1..])
  {
    mid := at + |EncodePair(s[0])|;
    assert EncodePairs(s) == EncodePair(s[0]) + EncodePairs(s[1..]) + [];
    NodeCodec.Parts(p, at, mid, end, end, EncodePair(s[0]), EncodePairs(s[1..]), []);
  }

  lemma {:induction false} ReadsOn(t: KeyType, s: seq<Pair>, p: seq<byte>, at: nat, mid: nat, end: nat, used: nat)
    requires s != [] && used <= |p| && DecodePair(t, p, at, used) == Just((s[0], mid))
    requires DecodePairs(t, p, mid, |s| - 1, used) == Just((s[1..], end))
    ensures DecodePairs(t, p, at, |s|, used) == Just((s, end))
  {
    hide DecodePair;
    assert s == [s[0]] + s[1..];
  }

  lemma {:induction false} ReadsNone(t: KeyType, s: seq<Pair>, p: seq<byte>, at: nat, end: nat, used: nat)
    requires s == [] && at <= end <= used <= |p| && p[at..end] == EncodePairs(s)
    ensures DecodePairs(t, p, at, |s|, used) == Just((s, end))
  {
    hide DecodePair, EncodePair;
    assert |p[at..end]| == 0;
  }

  lemma {:induction false} ValidTail(t: KeyType, s: seq<Pair>)
    requires Valids(t, s) && s != []
    ensures ValidPair(t, s[0]) && Valids(t, s[1..])
  {
  }

  lemma {:induction false} PairsBack(t: KeyType, s: seq<Pair>, p: seq<byte>, at: nat, end: nat, used: nat)
    requires Valids(t, s) && at <= end <= used <= |p| && p[at..end] == EncodePairs(s)
    ensures DecodePairs(t, p, at, |s|, used) == Just((s, end))
    decreases |s|
  {
    hide Valids, ValidPair, DecodePair, EncodePair, EncodePairs, DecodePairs;
    if s == [] {
      ReadsNone(t, s, p, at, end, used);
    } else {
      ValidTail(t, s);
      var mid := FirstPair(s, p, at, end);
      var rest := s[1..];
      PairBack(t, s[0], p, at, mid, used);
      PairsBack(t, rest, p, mid, end, used);
      ReadsOn(t, s, p, at, mid, end, used);
    }
  }

  /** Reads a payload back; only the canonical bytes of a bucket are accepted. */
  function DecodeBucket(t: KeyType, p: seq<byte>): Option<Bucket> {
    if |p| != NODE_PAYLOAD_SIZE || p[..4] != BUCKET_MAGIC || p[4] != 1 then Nothing
    else
      var count, page, used := Unpack(p[6..8]), Unpack(p[8..12]), Unpack(p[12..16]);
      if !(BUCKET_HEADER_SIZE <= used <= NODE_PAYLOAD_SIZE) then Nothing
      else
        var pairs := DecodePairs(t, p, BUCKET_HEADER_SIZE, count, used);
        if pairs == Nothing || pairs.value.1 != used || !NodeCodec.AllZero(p[used..]) then Nothing
        else
          var b := Build(page, t, p[5], pairs.value.0);
          if b == Nothing then Nothing
          else
            (BuiltBucket(page, t, p[5], pairs.value.0);
             if BUCKET_HEADER_SIZE + SizeOf(b.value.entries) != used || EncodeBucket(b.value) != p then Nothing else b)
  }

  /** What is accepted is a valid bucket, and its bytes are its encoding. */
  lemma {:induction false} AcceptedIsCanonical(t: KeyType, p: seq<byte>, b: Bucket)
    requires DecodeBucket(t, p) == Just(b)
    ensures ValidBucket(b) && b.keyType == t && EncodeBucket(b) == p
  {
    var pairs := DecodePairs(t, p, BUCKET_HEADER_SIZE, Unpack(p[6..8]), Unpack(p[12..16])).value.0;
    BuiltBucket(Unpack(p[8..12]), t, p[5], pairs);
  }

  lemma {:induction false} BucketHeaderParts(p: seq<byte>, depth: byte, a: seq<byte>, b: seq<byte>, c: seq<byte>)
    requires |p| >= 16 && |a| == 2 && |b| == 4 && |c| == 4
    requires p[..16] == BUCKET_MAGIC + [1, depth] + a + b + c
    ensures p[..4] == BUCKET_MAGIC && p[4] == 1 && p[5] == depth && p[6..8] == a && p[8..12] == b && p[12..16] == c
  {
    var h := BUCKET_MAGIC + [1, depth] + a + b + c;
    assert h[..4] == BUCKET_MAGIC && h[4] == 1 && h[5] == depth && h[6..8] == a && h[8..12] == b && h[12..16] == c;
    var q := p[..16];
    assert q[..4] == p[..4] && q[6..8] == p[6..8] && q[8..12] == p[8..12] && q[12..16] == p[12..16];
  }

  lemma {:induction false} BucketParts(b: Bucket, p: seq<byte>)
    requires ValidBucket(b) && p == EncodeBucket(b)
    ensures var used := BUCKET_HEADER_SIZE + SizeOf(b.entries);
            && p[..BUCKET_HEADER_SIZE] == BucketHeader(b.depth, |b.entries|, b.page, used)
            && p[BUCKET_HEADER_SIZE..used] == EncodePairs(b.entries) && NodeCodec.AllZero(p[used..])
  {
    var used := BUCKET_HEADER_SIZE + SizeOf(b.entries);
    PairsSize(b.entries);
    assert p[0..|p|] == p;
    NodeCodec.Parts(p, 0, BUCKET_HEADER_SIZE, used, |p|, BucketHeader(b.depth, |b.entries|, b.page, used),
                    EncodePairs(b.entries),
                    NodeCodec.Zeros(NODE_PAYLOAD_SIZE - used));
    NodeCodec.ZeroTail(p[used..]);
  }

  lemma {:induction false} BucketHeaderBack(b: Bucket, p: seq<byte>, used: nat)
    requires ValidBucket(b) && |p| == NODE_PAYLOAD_SIZE && used == BUCKET_HEADER_SIZE + SizeOf(b.entries)
    requires p[..BUCKET_HEADER_SIZE] == BucketHeader(b.depth, |b.entries|, b.page, used)
    ensures p[..4] == BUCKET_MAGIC && p[4] == 1 && p[5] == b.depth
    ensures Unpack(p[6..8]) == |b.entries| && Unpack(p[8..12]) == b.page && Unpack(p[12..16]) == used
  {
    Caps();
    PairsSize(b.entries);
    UnpackPack(|b.entries|, 2);
    UnpackPack(b.page, 4);
    UnpackPack(used, 4);
    BucketHeaderParts(p, b.depth, Pack(|b.entries|, 2), Pack(b.page, 4), Pack(used, 4));
  }

  /** The bytes of a valid bucket are read as the bucket. */
  lemma {:induction false} EncodedIsAccepted(b: Bucket)
    requires ValidBucket(b)
    ensures DecodeBucket(b.keyType, EncodeBucket(b)) == Just(b)
  {
    var p := EncodeBucket(b);
    var used := BUCKET_HEADER_SIZE + SizeOf(b.entries);
    BucketParts(b, p);
    BucketHeaderBack(b, p, used);
    PairsBack(b.keyType, b.entries, p, BUCKET_HEADER_SIZE, used, used);
    Rebuilt(b);
    hide EncodePairs, EncodeBucket, DecodePairs, Build, Unpack, BucketHeader;
  }

  /** The codec is exact: a payload is accepted as a bucket if and only if it is its encoding. */
  lemma {:induction false} BucketCodecExact(t: KeyType, p: seq<byte>, b: Bucket)
    ensures DecodeBucket(t, p) == Just(b) <==> ValidBucket(b) && b.keyType == t && EncodeBucket(b) == p
  {
    if DecodeBucket(t, p) == Just(b) {
      AcceptedIsCanonical(t, p, b);
    }
    if ValidBucket(b) && b.keyType == t && EncodeBucket(b) == p {
      EncodedIsAccepted(b);
    }
  }

  lemma {:induction false} Assembled(b: Bucket, used: nat)
    requires ValidBucket(b) && used == BUCKET_HEADER_SIZE + SizeOf(b.entries)
    ensures b.depth <= HASH_WIDTH && used <= NODE_PAYLOAD_SIZE && Fits(b.entries)
    ensures EncodeBucket(b) == BucketHeader(b.depth, |b.entries|, b.page, used) + EncodePairs(b.entries)
                               + NodeCodec.Zeros(NODE_PAYLOAD_SIZE - used)
    ensures DecodeBucket(b.keyType, EncodeBucket(b)) == Just(b)
  {
    EncodedIsAccepted(b);
    hide DecodeBucket, BucketHeader, EncodePairs;
    PairsSize(b.entries);
  }

  /** Builds the payload pair by pair. */
  method Serialize(b: Bucket) returns (p: seq<byte>)
    requires ValidBucket(b)
    ensures p == EncodeBucket(b) && DecodeBucket(b.keyType, p) == Just(b)
  {
    var used := BUCKET_HEADER_SIZE + SizeOf(b.entries);
    Assembled(b, used);
    hide EncodePairs, EncodeBucket, BucketHeader, DecodeBucket, SizeOf, ValidBucket, Fits;
    p := AppendPairs(BucketHeader(b.depth, |b.entries|, b.page, used), b.entries);
    p := p + NodeCodec.Zeros(NODE_PAYLOAD_SIZE - used);
  }

  method AppendPairs(head: seq<byte>, s: seq<Pair>) returns (p: seq<byte>)
    ensures p == head + EncodePairs(s)
  {
    p := head;
    var i := 0;
    while i < |s|
      invariant i <= |s| && p == head + EncodePairs(s[..i])
    {
      OneMorePair(s[..i], s[i]);
      assert s[..i + 1] == s[..i] + [s[i]];
      GroupRight(head, EncodePairs(s[..i]), EncodePair(s[i]));
      hide EncodePair, EncodePairs;
      p := p + EncodePair(s[i]);
      i := i + 1;
    }
    assert s[..i] == s;
  }

  ghost function Joined(a: seq<Pair>, b: Option<(seq<Pair>, nat)>): Option<(seq<Pair>, nat)> {
    if b == Nothing then Nothing else Just((a + b.value.0, b.value.1))
  }

  lemma {:induction false} ReadNone(t: KeyType, p: seq<byte>, at: nat, count: nat, used: nat, s: seq<Pair>)
    requires used <= |p|
    ensures Joined([], DecodePairs(t, p, at, count, used)) == DecodePairs(t, p, at, count, used)
    ensures Joined(s, DecodePairs(t, p, at, 0, used)) == Just((s, at))
  {
    assert s + [] == s;
    var all := DecodePairs(t, p, at, count, used);
    assert all.Just? ==> [] + all.value.0 == all.value.0;
  }

  /** What one step of reading does to the pairs read so far and those to come. */
  lemma {:induction false} ReadOne(t: KeyType, p: seq<byte>, at: nat, count: nat, used: nat, s: seq<Pair>)
    requires used <= |p| && count > 0
    ensures var first := DecodePair(t, p, at, used);
            Joined(s, DecodePairs(t, p, at, count, used))
            == if first == Nothing then Nothing
                else Joined(s + [first.value.0], DecodePairs(t, p, first.value.1, count - 1, used))
  {
    var first := DecodePair(t, p, at, used);
    if first.Just? {
      var rest := DecodePairs(t, p, first.value.1, count - 1, used);
      assert rest.Just? ==> s + ([first.value.0] + rest.value.0) == (s + [first.value.0]) + rest.value.0;
    }
  }

  /** Reads pairs with a moving offset. */
  method ReadPairs(t: KeyType, p: seq<byte>, at: nat, count: nat, used: nat) returns (r: Option<(seq<Pair>, nat)>)
    requires used <= |p|
    ensures r == DecodePairs(t, p, at, count, used)
  {
    var offset, s := at, [];
    var i := 0;
    ReadNone(t, p, at, count, used, []);
    hide DecodePairs, DecodePair, Joined;
    while i < count
      invariant i <= count
      invariant DecodePairs(t, p, at, count, used) == Joined(s, DecodePairs(t, p, offset, count - i, used))
    {
      ReadOne(t, p, offset, count - i, used, s);
      var first := DecodePair(t, p, offset, used);
      if first == Nothing {
        return Nothing;
      }
      s, offset, i := s + [first.value.0], first.value.1, i + 1;
    }
    ReadNone(t, p, offset, 0, used, s);
    r := Just((s, offset));
  }

  method Deserialize(t: KeyType, p: seq<byte>) returns (r: Option<Bucket>)
    ensures r == DecodeBucket(t, p)
    ensures forall b :: r == Just(b) <==> ValidBucket(b) && b.keyType == t && EncodeBucket(b) == p
  {
    forall b
      ensures DecodeBucket(t, p) == Just(b) <==> ValidBucket(b) && b.keyType == t && EncodeBucket(b) == p
    {
      BucketCodecExact(t, p, b);
    }
    if |p| != NODE_PAYLOAD_SIZE || p[..4] != BUCKET_MAGIC || p[4] != 1 {
      return Nothing;
    }
    var count, page, used := Unpack(p[6..8]), Unpack(p[8..12]), Unpack(p[12..16]);
    if !(BUCKET_HEADER_SIZE <= used <= NODE_PAYLOAD_SIZE) {
      return Nothing;
    }
    var pairs := ReadPairs(t, p, BUCKET_HEADER_SIZE, count, used);
    if pairs == Nothing || pairs.value.1 != used || !NodeCodec.AllZero(p[used..]) {
      return Nothing;
    }
    r := Build(page, t, p[5], pairs.value.0);
    if r == Nothing {
      return;
    }
    BuiltBucket(page, t, p[5], pairs.value.0);
    var again := Serialize(r.value);
    if BUCKET_HEADER_SIZE + SizeOf(r.value.entries) != used || again != p {
      r := Nothing;
    }
  }
}
