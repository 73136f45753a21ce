/** How many pairs a tree of a given height holds, and what the page layout makes of node capacities. */
module Bounds {
  import opened Trees
  import opened Pages
  import opened Headers

  ghost function Power(b: nat, e: nat): nat {
    if e == 0 then 1 else b * Power(b, e - 1)
  }

  lemma {:induction false} Monotone(a: nat, b: nat, c: nat)
    requires a <= b
    ensures a * c <= b * c && c * a <= c * b
  {
  }

  lemma {:induction false} PowerGrows(a: nat, b: nat, e: nat)
    requires a <= b
    ensures Power(a, e) <= Power(b, e)
  {
    if e > 0 {
      PowerGrows(a, b, e - 1);
      Monotone(a, b, Power(a, e - 1));
      Monotone(Power(a, e - 1), Power(b, e - 1), b);
    }
  }

  /** A list of subtrees holds its length times what each one holds, at least and at most. */
  lemma {:induction false} ListSize(ts: seq<Tree>, low: nat, high: nat)
    requires forall i :: 0 <= i < |ts| ==> low <= |Contents(ts[i])| <= high
    ensures |ts| * low <= |ContentsOf(ts)| <= |ts| * high
  {
    if ts != [] {
      ListSize(ts[1..], low, high);
      assert |ts| * low == |ts[1..]| * low + low && |ts| * high == |ts[1..]| * high + high;
    }
  }

  ghost function Least(h: nat, c: Caps): nat
    requires c.Usable() && h >= 1
  {
    c.MinLeaf() * Power(c.MinInternal() + 1, h - 1)
  }

  ghost function Most(h: nat, c: Caps): nat
    requires h >= 1
  {
    c.leaf * Power(c.internal + 1, h - 1)
  }

  lemma {:induction false} Regroup3(a: nat, b: nat, p: nat)
    ensures b * (a * p) == a * (b * p)
  {
  }

  /** A node that is filled and fits its page bounds what its subtree holds. */
  lemma {:induction false} SubtreeSize(t: Tree, h: nat, c: Caps)
    requires c.Usable() && Good(t, h, c)
    ensures |Contents(t)| <= Most(h, c)
    ensures Filled(t, c) ==> |Contents(t)| >= Least(h, c)
    decreases t
  {
    if t.Node? {
      forall i | 0 <= i < |t.kids|
        ensures Least(h - 1, c) <= |Contents(t.kids[i])| <= Most(h - 1, c)
      {
        SubtreeSize(t.kids[i], h - 1, c);
      }
      ListSize(t.kids, Least(h - 1, c), Most(h - 1, c));
      Monotone(|t.kids|, c.internal + 1, Most(h - 1, c));
      Regroup3(c.leaf, c.internal + 1, Power(c.internal + 1, h - 2));
      Regroup3(c.MinLeaf(), c.MinInternal() + 1, Power(c.MinInternal() + 1, h - 2));
      if Filled(t, c) {
        Monotone(c.MinInternal() + 1, |t.kids|, Least(h - 1, c));
      }
    }
  }

  /** A tree of height h >= 2 holds at least 2 * minLeaf * minChildren^(h-2) pairs, and at most a full tree. */
  lemma {:induction false} TreeSize(t: Tree, h: nat, c: Caps)
    requires c.Usable() && GoodRoot(t, h, c)
    ensures h >= 1 && |Contents(t)| <= Most(h, c)
    ensures h >= 2 ==> |Contents(t)| >= 2 * (c.MinLeaf() * Power(c.MinInternal() + 1, h - 2))
  {
    SubtreeSize(t, h, c);
    if h >= 2 {
      forall i | 0 <= i < |t.kids|
        ensures Least(h - 1, c) <= |Contents(t.kids[i])| <= Most(h - 1, c)
      {
        SubtreeSize(t.kids[i], h - 1, c);
      }
      ListSize(t.kids, Least(h - 1, c), Most(h - 1, c));
      Monotone(2, |t.kids|, Least(h - 1, c));
    }
  }

  lemma {:induction false} DoublesTwice(k: nat)
    ensures 2 * (2 * Power(2, k)) == Power(2, k + 2)
  {
    assert Power(2, k + 2) == 2 * Power(2, k + 1);
  }

  lemma {:induction false} PowerRises(e: nat, f: nat)
    requires e <= f
    ensures Power(2, e) <= Power(2, f)
  {
    if e < f {
      PowerRises(e, f - 1);
    }
  }

  lemma {:induction false} PowerAdds(e: nat, f: nat)
    ensures Power(2, e + f) == Power(2, e) * Power(2, f)
  {
    if e > 0 {
      PowerAdds(e - 1, f);
      assert Power(2, e + f) == 2 * Power(2, e - 1 + f);
      assert 2 * (Power(2, e - 1) * Power(2, f)) == (2 * Power(2, e - 1)) * Power(2, f);
    }
  }

  lemma {:induction false} PowerSixtyFour()
    ensures Power(2, 64) == UINT64_MAX + 1
  {
    assert Power(2, 4) == 16 by {
      assert Power(2, 2) == 4;
    }
    PowerAdds(4, 4);
    PowerAdds(8, 8);
    PowerAdds(16, 16);
    PowerAdds(32, 32);
  }

  /** A descent reads one page a level, and the levels are at most the logarithm of the number of pairs. */
  lemma {:induction false} HeightIsLogarithmic(pages: PageMap, h: Header, s: Shape, free: seq<nat>, c: Caps,
                                               unique: bool)
    requires WellFormed(pages, h, s, free, c, unique)
    ensures h.height >= 2 ==> Power(2, h.height) <= h.entryCount
    ensures h.entryCount == 1 ==> h.height == 1
    ensures h.height <= 63
  {
    if s.Of? {
      TreeSize(s.tree, h.height, c);
      if h.height >= 2 {
        PowerGrows(2, c.MinInternal() + 1, h.height - 2);
        Monotone(2, c.MinLeaf(), Power(c.MinInternal() + 1, h.height - 2));
        DoublesTwice(h.height - 2);
        PowerSixtyFour();
        if h.height >= 64 {
          PowerRises(64, h.height);
        }
        assert Power(2, 2) == 4;
        PowerRises(2, h.height);
      }
    }
  }

  // The layout of a node page.

  const PAGE_SIZE := 4096
  const PAGE_HEADER_SIZE := 12
  const SLOT_SIZE := 5
  const NODE_PAYLOAD_SIZE := PAGE_SIZE - PAGE_HEADER_SIZE - SLOT_SIZE
  const NODE_HEADER_SIZE := 16
  const RID_SIZE := 8
  const CHILD_SIZE := 4

  datatype KeyType = IntegerKey | FloatKey | BooleanKey | VarcharKey

  function MaximumEncodedKeySize(k: KeyType): nat {
    match k
    case IntegerKey => 8
    case FloatKey => 8
    case BooleanKey => 1
    case VarcharKey => 4 + 255
  }

  function MaximumLeafKeys(k: KeyType): nat {
    (NODE_PAYLOAD_SIZE - NODE_HEADER_SIZE) / (MaximumEncodedKeySize(k) + RID_SIZE)
  }

  function MaximumInternalKeys(k: KeyType): nat {
    (NODE_PAYLOAD_SIZE - NODE_HEADER_SIZE - CHILD_SIZE) / (MaximumEncodedKeySize(k) + CHILD_SIZE)
  }

  function CapsOf(k: KeyType): Caps {
    Caps(MaximumLeafKeys(k), MaximumInternalKeys(k))
  }

  /** Every key type leaves room for a usable node, with minimum leaves of several entries. */
  lemma {:induction false} RealCapacities(k: KeyType)
    ensures CapsOf(k).Usable() && CapsOf(k).MinLeaf() >= 2 && CapsOf(k).MinInternal() >= 1
    ensures MaximumLeafKeys(k) >= 15 && MaximumInternalKeys(k) >= 15
  {
    assert NODE_PAYLOAD_SIZE == 4079;
  }

  lemma {:induction false} FitsInto(count: nat, each: nat, room: nat)
    requires each > 0 && count <= room / each
    ensures count * each <= room
  {
    assert room / each * each <= room;
    Monotone(count, room / each, each);
  }

  /** Any keys within the size limit fit the page, as long as there are no more of them than the capacity. */
  lemma {:induction false} PayloadFits(k: KeyType, count: nat, bytes: nat)
    requires bytes <= count * MaximumEncodedKeySize(k)
    ensures count <= MaximumLeafKeys(k) ==> NODE_HEADER_SIZE + bytes + count * RID_SIZE <= NODE_PAYLOAD_SIZE
    ensures count <= MaximumInternalKeys(k) ==>
              NODE_HEADER_SIZE + CHILD_SIZE + bytes + count * CHILD_SIZE <= NODE_PAYLOAD_SIZE
  {
    var m := MaximumEncodedKeySize(k);
    assert count * (m + RID_SIZE) == count * m + count * RID_SIZE;
    assert count * (m + CHILD_SIZE) == count * m + count * CHILD_SIZE;
    if count <= MaximumLeafKeys(k) {
      FitsInto(count, m + RID_SIZE, NODE_PAYLOAD_SIZE - NODE_HEADER_SIZE);
    }
    if count <= MaximumInternalKeys(k) {
      FitsInto(count, m + CHILD_SIZE, NODE_PAYLOAD_SIZE - NODE_HEADER_SIZE - CHILD_SIZE);
    }
  }
}
