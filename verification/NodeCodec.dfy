/** The canonical byte form of index nodes, and the decoded-node cache that must agree with it. */
module NodeCodec {
  import opened Entries
  import opened Pages
  import opened Reads
  import opened Bounds
  import opened Bytes

  datatype Node =
    | LeafNode(id: nat, keys: seq<KeyValue>, rids: seq<Rid>, next: Ref)
    | InternalNode(id: nat, keys: seq<KeyValue>, children: seq<nat>)
    | FreeNode(id: nat, next: Ref)

  predicate NodeId(id: nat) {
    1 <= id < UINT32_MAX
  }

  predicate NodeRef(r: Ref, self: nat) {
    r.Some? ==> NodeId(r.page) && r.page != self
  }

  predicate ValidRid(r: Rid) {
    r.page <= UINT32_MAX && r.slot <= UINT32_MAX
  }

  predicate KeysRise(t: KeyType, keys: seq<KeyValue>) {
    && (forall i :: 0 <= i < |keys| ==> ValidKey(t, keys[i]))
    && (forall i :: 0 <= i < |keys| - 1 ==> !KeyLess(keys[i + 1], keys[i]))
  }

  predicate RidsRise(keys: seq<KeyValue>, rids: seq<Rid>) {
    |keys| == |rids|
    && forall i :: 0 <= i < |keys| - 1 && !KeyLess(keys[i], keys[i + 1]) && !KeyLess(keys[i + 1], keys[i]) ==>
        RidLess(rids[i], rids[i + 1])
  }

  /** The checks a node makes of itself when it is built. */
  predicate ValidNode(t: KeyType, n: Node) {
    && NodeId(n.id)
    && match n
       case LeafNode(id, keys, rids, next) =>
         && KeysRise(t, keys) && RidsRise(keys, rids) && |keys| <= MaximumLeafKeys(t)
         && (forall i :: 0 <= i < |rids| ==> ValidRid(rids[i]))
         && NodeRef(next, id)
       case InternalNode(id, keys, children) =>
         && KeysRise(t, keys) && |children| == |keys| + 1 && |keys| <= MaximumInternalKeys(t)
         && (forall i :: 0 <= i < |children| ==> NodeId(children[i]))
         && id !in children && NoRepeats(children)
       case FreeNode(id, next) => NodeRef(next, id)
  }

  // Entries: a key and a tail of fixed width, a RID in a leaf and a child in an internal node.

  datatype Slot = Slot(key: KeyValue, tail: seq<byte>)

  function EncodeSlots(slots: seq<Slot>): seq<byte> {
    if slots == [] then [] else EncodeKey(slots[0].key) + slots[0].tail + EncodeSlots(slots[1..])
  }

  predicate ValidSlots(t: KeyType, slots: seq<Slot>, w: nat) {
    forall i :: 0 <= i < |slots| ==> ValidKey(t, slots[i].key) && |slots[i].tail| == w
  }

  /** Reads one slot, and where it ends. */
  function DecodeSlot(t: KeyType, p: seq<byte>, at: nat, w: nat): (r: Option<(Slot, nat)>)
    requires at <= |p|
    ensures r.Just? ==> at <= r.value.1 <= |p|
  {
    var key := DecodeKey(t, p, at);
    if key == Nothing || key.value.1 + w > |p| || key.value.1 < at then Nothing
    else Just((Slot(key.value.0, p[key.value.1..key.value.1 + w]), key.value.1 + w))
  }

  /** Reads slots one after the other, and where they end. */
  function DecodeSlots(t: KeyType, p: seq<byte>, at: nat, count: nat, w: nat): Option<(seq<Slot>, nat)>
    requires at <= |p|
    decreases count
  {
    if count == 0 then Just(([], at))
    else
      var first := DecodeSlot(t, p, at, w);
      if first == Nothing then Nothing
      else
        var rest := DecodeSlots(t, p, first.value.1, count - 1, w);
        if rest == Nothing then Nothing else Just(([first.value.0] + rest.value.0, rest.value.1))
  }

  lemma {:induction false} DecodedSlot(t: KeyType, p: seq<byte>, at: nat, w: nat, slot: Slot, end: nat)
    requires at <= |p| && DecodeSlot(t, p, at, w) == Just((slot, end))
    ensures at <= end <= |p| && ValidSlots(t, [slot], w) && p[at..end] == EncodeKey(slot.key) + slot.tail
  {
    DecodedKey(t, p, at);
    hide EncodeKey, DecodeKey, ValidKey;
    Cut(p, at, end - w, end, end);
  }

  lemma {:induction false} DecodedSlots(t: KeyType, p: seq<byte>, at: nat, count: nat, w: nat)
    requires at <= |p| && DecodeSlots(t, p, at, count, w).Just?
    ensures var (slots, end) := DecodeSlots(t, p, at, count, w).value;
            at <= end <= |p| && |slots| == count && ValidSlots(t, slots, w) && p[at..end] == EncodeSlots(slots)
    decreases count
  {
    if count > 0 {
      var (slots, end) := DecodeSlots(t, p, at, count, w).value;
      var (slot, mid) := DecodeSlot(t, p, at, w).value;
      DecodedSlot(t, p, at, w, slot, mid);
      DecodedSlots(t, p, mid, count - 1, w);
      assert slots == [slot] + slots[1..];
      hide DecodeSlot, DecodeSlots, EncodeKey, ValidKey;
      Cut(p, at, mid, end, end);
    }
  }

  lemma {:induction false} Cut(p: seq<byte>, a: nat, b: nat, c: nat, d: nat)
    requires a <= b <= c <= d <= |p|
    ensures p[a..d] == p[a..b] + p[b..c] + p[c..d]
  {
  }

  lemma {:induction false} EncodedSlots(t: KeyType, slots: seq<Slot>, w: nat, p: seq<byte>, at: nat, end: nat)
    requires ValidSlots(t, slots, w) && at <= end <= |p| && p[at..end] == EncodeSlots(slots)
    ensures DecodeSlots(t, p, at, |slots|, w) == Just((slots, end))
    decreases |slots|
  {
    if slots != [] {
      var mid, fin := FirstSlot(slots, w, p, at, end);
      EncodedKey(t, slots[0].key, p, at, mid);
      EncodedSlots(t, slots[1..], w, p, fin, end);
      OneSlot(t, p, at, slots, mid, w, fin, end);
    }
  }

  lemma {:induction false} FirstSlot(slots: seq<Slot>, w: nat, p: seq<byte>, at: nat, end: nat)
    returns (mid: nat, fin: nat)
    requires slots != [] && |slots[0].tail| == w && at <= end <= |p| && p[at..end] == EncodeSlots(slots)
    ensures at <= mid <= fin <= end && mid + w == fin
    ensures p[at..mid] == EncodeKey(slots[0].key) && p[mid..fin] == slots[0].tail
    ensures p[fin..end] == EncodeSlots(slots[1..])
  {
    var k, tail, rest := EncodeKey(slots[0].key), slots[0].tail, EncodeSlots(slots[1..]);
    assert EncodeSlots(slots) == k + tail + rest;
    mid, fin := at + |k|, at + |k| + w;
    Parts(p, at, mid, fin, end, k, tail, rest);
  }

  lemma {:induction false} OneSlot(t: KeyType, p: seq<byte>, at: nat, slots: seq<Slot>, mid: nat, w: nat, fin: nat,
                                   end: nat)
    requires slots != [] && at <= mid && mid + w == fin <= |p| && DecodeKey(t, p, at) == Just((slots[0].key, mid))
    requires p[mid..fin] == slots[0].tail && DecodeSlots(t, p, fin, |slots| - 1, w) == Just((slots[1..], end))
    ensures DecodeSlots(t, p, at, |slots|, w) == Just((slots, end))
  {
    hide DecodeKey;
    assert DecodeSlot(t, p, at, w) == Just((slots[0], fin));
    assert slots == [slots[0]] + slots[1..];
  }

  lemma {:induction false} Parts(p: seq<byte>, at: nat, i: nat, j: nat, end: nat, a: seq<byte>, b: seq<byte>,
                                 c: seq<byte>)
    requires at <= end <= |p| && p[at..end] == a + b + c && i == at + |a| && j == i + |b|
    ensures at <= i <= j <= end && p[at..i] == a && p[i..j] == b && p[j..end] == c
  {
    Cut(p, at, i, j, end);
    assert |p[at..i]| == |a| && |p[i..j]| == |b|;
    Same3(p[at..i], p[i..j], p[j..end], a, b, c);
  }

  lemma {:induction false} Same3(x: seq<byte>, y: seq<byte>, z: seq<byte>, a: seq<byte>, b: seq<byte>, c: seq<byte>)
    requires x + y + z == a + b + c && |x| == |a| && |y| == |b|
    ensures x == a && y == b && z == c
  {
    var s := a + b + c;
    assert x == s[..|a|] && a == s[..|a|];
    assert y == s[|a|..|a| + |b|] && b == s[|a|..|a| + |b|];
    assert z == s[|a| + |b|..] && c == s[|a| + |b|..];
  }

  function EncodeRid(r: Rid): seq<byte> {
    Pack(r.page, 4) + Pack(r.slot, 4)
  }

  function DecodeRid(s: seq<byte>): Rid
    requires |s| == 8
  {
    Rid(Unpack(s[..4]), Unpack(s[4..]))
  }

  lemma {:induction false} RidRoundTrip(r: Rid, s: seq<byte>)
    ensures ValidRid(r) ==> DecodeRid(EncodeRid(r)) == r
    ensures |s| == 8 ==> ValidRid(DecodeRid(s)) && EncodeRid(DecodeRid(s)) == s
  {
    Caps();
    if ValidRid(r) {
      UnpackPack(r.page, 4);
      UnpackPack(r.slot, 4);
    }
    if |s| == 8 {
      PackUnpack(s[..4]);
      PackUnpack(s[4..]);
      assert s == s[..4] + s[4..];
    }
  }

  function LeafSlots(keys: seq<KeyValue>, rids: seq<Rid>): (r: seq<Slot>)
    requires |keys| == |rids|
    ensures |r| == |keys|
  {
    seq(|keys|, i requires 0 <= i < |keys| => Slot(keys[i], EncodeRid(rids[i])))
  }

  function ChildSlots(keys: seq<KeyValue>, children: seq<nat>): (r: seq<Slot>)
    requires |children| == |keys| + 1
    ensures |r| == |keys|
  {
    seq(|keys|, i requires 0 <= i < |keys| => Slot(keys[i], Pack(children[i + 1], 4)))
  }

  function KeysOf(slots: seq<Slot>): (r: seq<KeyValue>)
    ensures |r| == |slots|
  {
    seq(|slots|, i requires 0 <= i < |slots| => slots[i].key)
  }

  function RidsOf(slots: seq<Slot>): (r: seq<Rid>)
    requires forall i :: 0 <= i < |slots| ==> |slots[i].tail| == 8
    ensures |r| == |slots|
  {
    seq(|slots|, i requires 0 <= i < |slots| => DecodeRid(slots[i].tail))
  }

  function ChildrenOf(first: nat, slots: seq<Slot>): (r: seq<nat>)
    ensures |r| == |slots| + 1
  {
    [first] + seq(|slots|, i requires 0 <= i < |slots| => Unpack(slots[i].tail))
  }

  // Whole nodes.

  const MAGIC: seq<byte> := [0x42, 0x50, 0x4E, 0x44]
  const NODE_VERSION: byte := 1

  function Tag(n: Node): byte {
    match n
    case LeafNode(_, _, _, _) => 1
    case InternalNode(_, _, _) => 2
    case FreeNode(_, _) => 3
  }

  function PointerOf(r: Ref): nat {
    if r.Some? then r.page else UINT32_MAX
  }

  function RefOf(n: nat): Ref {
    if n == UINT32_MAX then None else Some(n)
  }

  function Pointer(n: Node): nat {
    if n.InternalNode? then UINT32_MAX else PointerOf(n.next)
  }

  function KeyCount(n: Node): nat {
    if n.FreeNode? then 0 else |n.keys|
  }

  function Header(tag: byte, count: nat, id: nat, pointer: nat): (r: seq<byte>)
    ensures |r| == NODE_HEADER_SIZE
  {
    MAGIC + [NODE_VERSION, tag] + Pack(count, 2) + Pack(id, 4) + Pack(pointer, 4)
  }

  function Body(n: Node): seq<byte>
    requires n.LeafNode? ==> |n.keys| == |n.rids|
    requires n.InternalNode? ==> |n.children| == |n.keys| + 1
  {
    match n
    case LeafNode(_, keys, rids, _) => EncodeSlots(LeafSlots(keys, rids))
    case InternalNode(_, keys, children) => Pack(children[0], 4) + EncodeSlots(ChildSlots(keys, children))
    case FreeNode(_, _) => []
  }

  function Zeros(n: nat): (r: seq<byte>)
    ensures |r| == n
  {
    seq(n, i => 0)
  }

  /** The bytes of a node: header, entries, and zeros up to the size of a page payload. */
  ghost predicate Encodes(t: KeyType, n: Node, p: seq<byte>) {
    && ValidNode(t, n)
    && var used := Header(Tag(n), KeyCount(n), n.id, Pointer(n)) + Body(n);
       |used| <= NODE_PAYLOAD_SIZE && p == used + Zeros(NODE_PAYLOAD_SIZE - |used|)
  }

  predicate AllZero(s: seq<byte>) {
    forall i :: 0 <= i < |s| ==> s[i] == 0
  }

  /** A node, if it is valid and only zeros follow its entries. */
  function Accept(t: KeyType, n: Node, rest: seq<byte>): Option<Node> {
    if ValidNode(t, n) && AllZero(rest) then Just(n) else Nothing
  }

  function DecodeLeaf(t: KeyType, p: seq<byte>, count: nat, id: nat, pointer: nat): Option<Node>
    requires |p| == NODE_PAYLOAD_SIZE
  {
    var slots := DecodeSlots(t, p, NODE_HEADER_SIZE, count, RID_SIZE);
    if slots == Nothing || slots.value.1 > |p| || !ValidSlots(t, slots.value.0, RID_SIZE) then Nothing
    else Accept(t, LeafNode(id, KeysOf(slots.value.0), RidsOf(slots.value.0), RefOf(pointer)), p[slots.value.1..])
  }

  function DecodeInternal(t: KeyType, p: seq<byte>, count: nat, id: nat, pointer: nat): Option<Node>
    requires |p| == NODE_PAYLOAD_SIZE
  {
    if pointer != UINT32_MAX then Nothing
    else
      var at := NODE_HEADER_SIZE + CHILD_SIZE;
      var slots := DecodeSlots(t, p, at, count, CHILD_SIZE);
      if slots == Nothing || slots.value.1 > |p| then Nothing
      else Accept(t, InternalNode(id, KeysOf(slots.value.0),
                                  ChildrenOf(Unpack(p[NODE_HEADER_SIZE..at]), slots.value.0)), p[slots.value.1..])
  }

  /** Reads a payload back, or refuses it. */
  function DecodeNode(t: KeyType, p: seq<byte>): Option<Node> {
    if |p| != NODE_PAYLOAD_SIZE || p[..4] != MAGIC || p[4] != NODE_VERSION then Nothing
    else
      var count, id, pointer := Unpack(p[6..8]), Unpack(p[8..12]), Unpack(p[12..16]);
      if p[5] == 1 then if count > MaximumLeafKeys(t) then Nothing else DecodeLeaf(t, p, count, id, pointer)
      else if p[5] == 2 then if count > MaximumInternalKeys(t) then Nothing
          else DecodeInternal(t, p, count, id, pointer)
      else if p[5] == 3 then if count > 0 then Nothing
          else Accept(t, FreeNode(id, RefOf(pointer)), p[NODE_HEADER_SIZE..])
      else Nothing
  }

  /** The header of a payload, taken apart and put together. */
  lemma {:induction false} HeaderBytes(p: seq<byte>, tag: byte, count: nat, id: nat, pointer: nat)
    requires |p| >= NODE_HEADER_SIZE
    ensures p[..4] == MAGIC && p[4] == NODE_VERSION ==>
              p[..NODE_HEADER_SIZE] == Header(p[5], Unpack(p[6..8]), Unpack(p[8..12]), Unpack(p[12..16]))
    ensures count < 0x1_0000 && id <= UINT32_MAX && pointer <= UINT32_MAX
            && p[..NODE_HEADER_SIZE] == Header(tag, count, id, pointer) ==>
              && p[..4] == MAGIC && p[4] == NODE_VERSION && p[5] == tag
              && Unpack(p[6..8]) == count && Unpack(p[8..12]) == id && Unpack(p[12..16]) == pointer
  {
    Caps();
    PackUnpack(p[6..8]);
    PackUnpack(p[8..12]);
    PackUnpack(p[12..16]);
    HeaderParts(p, p[5], p[6..8], p[8..12], p[12..16]);
    if count < 0x1_0000 && id <= UINT32_MAX && pointer <= UINT32_MAX
        && p[..NODE_HEADER_SIZE] == Header(tag, count, id, pointer) {
      UnpackPack(count, 2);
      UnpackPack(id, 4);
      UnpackPack(pointer, 4);
      HeaderParts(p, tag, Pack(count, 2), Pack(id, 4), Pack(pointer, 4));
    }
  }

  lemma {:induction false} HeaderParts(p: seq<byte>, tag: byte, a: seq<byte>, b: seq<byte>, c: seq<byte>)
    requires |p| >= 16 && |a| == 2 && |b| == 4 && |c| == 4
    ensures p[..16] == MAGIC + [NODE_VERSION, tag] + a + b + c <==>
            p[..4] == MAGIC && p[4] == NODE_VERSION && p[5] == tag && p[6..8] == a && p[8..12] == b && p[12..16] == c
  {
    var h := MAGIC + [NODE_VERSION, tag] + a + b + c;
    assert h[..4] == MAGIC && h[4] == NODE_VERSION && h[5] == tag && h[6..8] == a && h[8..12] == b && h[12..16] == c;
    var q := p[..16];
    assert q[..4] == p[..4] && q[6..8] == p[6..8] && q[8..12] == p[8..12] && q[12..16] == p[12..16];
    assert q == q[..4] + [q[4], q[5]] + q[6..8] + q[8..12] + q[12..16];
  }

  lemma {:induction false} ZeroTail(s: seq<byte>)
    ensures AllZero(s) <==> s == Zeros(|s|)
  {
  }

  /** A payload is the encoding of a node exactly when it starts with the node's bytes and goes on with zeros. */
  lemma {:induction false} PayloadParts(t: KeyType, n: Node, p: seq<byte>, end: nat)
    requires ValidNode(t, n) && |p| == NODE_PAYLOAD_SIZE && end == NODE_HEADER_SIZE + |Body(n)|
    ensures Encodes(t, n, p) <==>
            && end <= |p| && AllZero(p[end..])
            && p[..NODE_HEADER_SIZE] == Header(Tag(n), KeyCount(n), n.id, Pointer(n))
            && p[NODE_HEADER_SIZE..end] == Body(n)
  {
    var head, body := Header(Tag(n), KeyCount(n), n.id, Pointer(n)), Body(n);
    if end <= |p| {
      ZeroTail(p[end..]);
      assert |head + body| == end;
      assert p == p[..16] + p[16..end] + p[end..];
      if Encodes(t, n, p) {
        Same3(p[..16], p[16..end], p[end..], head, body, Zeros(|p| - end));
      }
    }
  }

  lemma {:induction false} LeafSlotsBack(keys: seq<KeyValue>, rids: seq<Rid>, slots: seq<Slot>, t: KeyType)
    requires |keys| == |rids|
    requires forall i :: 0 <= i < |rids| ==> ValidRid(rids[i])
    requires forall i :: 0 <= i < |keys| ==> ValidKey(t, keys[i])
    ensures ValidSlots(t, LeafSlots(keys, rids), RID_SIZE)
    ensures KeysOf(LeafSlots(keys, rids)) == keys && RidsOf(LeafSlots(keys, rids)) == rids
    ensures ValidSlots(t, slots, RID_SIZE) ==> LeafSlots(KeysOf(slots), RidsOf(slots)) == slots
  {
    var s := LeafSlots(keys, rids);
    forall i | 0 <= i < |rids|
      ensures RidsOf(s)[i] == rids[i]
    {
      RidRoundTrip(rids[i], []);
    }
    if ValidSlots(t, slots, RID_SIZE) {
      forall i | 0 <= i < |slots|
        ensures LeafSlots(KeysOf(slots), RidsOf(slots))[i] == slots[i]
      {
        RidRoundTrip(Rid(0, 0), slots[i].tail);
      }
    }
  }

  lemma {:induction false} ChildSlotsBack(keys: seq<KeyValue>, children: seq<nat>, slots: seq<Slot>, t: KeyType)
    requires |children| == |keys| + 1
    requires forall i :: 0 <= i < |children| ==> NodeId(children[i])
    requires forall i :: 0 <= i < |keys| ==> ValidKey(t, keys[i])
    ensures ValidSlots(t, ChildSlots(keys, children), CHILD_SIZE)
    ensures KeysOf(ChildSlots(keys, children)) == keys
    ensures ChildrenOf(children[0], ChildSlots(keys, children)) == children
    ensures forall first :: ValidSlots(t, slots, CHILD_SIZE) ==>
              ChildSlots(KeysOf(slots), ChildrenOf(first, slots)) == slots
  {
    Caps();
    var s := ChildSlots(keys, children);
    forall i | 0 < i <= |keys|
      ensures ChildrenOf(children[0], s)[i] == children[i]
    {
      UnpackPack(children[i], 4);
    }
    assert ChildrenOf(children[0], s) == children;
    forall first | ValidSlots(t, slots, CHILD_SIZE)
      ensures ChildSlots(KeysOf(slots), ChildrenOf(first, slots)) == slots
    {
      forall i | 0 <= i < |slots|
        ensures ChildSlots(KeysOf(slots), ChildrenOf(first, slots))[i] == slots[i]
      {
        PackUnpack(slots[i].tail);
      }
    }
  }

  lemma {:induction false} PointerBack(r: Ref, self: nat, n: nat)
    requires n <= UINT32_MAX
    ensures NodeRef(r, self) ==> PointerOf(r) <= UINT32_MAX && RefOf(PointerOf(r)) == r
    ensures PointerOf(RefOf(n)) == n
  {
  }

  /** What is read as a leaf is its encoding, and the encoding of a leaf is read as it. */
  lemma {:induction false} LeafCodec(t: KeyType, p: seq<byte>, n: Node, count: nat, id: nat, pointer: nat)
    requires |p| == NODE_PAYLOAD_SIZE && count <= MaximumLeafKeys(t) && id <= UINT32_MAX && pointer <= UINT32_MAX
    requires p[..NODE_HEADER_SIZE] == Header(1, count, id, pointer)
    ensures DecodeLeaf(t, p, count, id, pointer) == Just(n) ==> n.LeafNode? && Encodes(t, n, p)
    ensures n.LeafNode? && Encodes(t, n, p) && |n.keys| == count && n.id == id && PointerOf(n.next) == pointer ==>
              DecodeLeaf(t, p, count, id, pointer) == Just(n)
  {
    if DecodeLeaf(t, p, count, id, pointer) == Just(n) {
      var (slots, end) := DecodeSlots(t, p, NODE_HEADER_SIZE, count, RID_SIZE).value;
      DecodedSlots(t, p, NODE_HEADER_SIZE, count, RID_SIZE);
      LeafSlotsBack(n.keys, n.rids, slots, t);
      PointerBack(None, id, pointer);
      PayloadParts(t, n, p, end);
    }
    if n.LeafNode? && Encodes(t, n, p) && |n.keys| == count && n.id == id && PointerOf(n.next) == pointer {
      var slots := LeafSlots(n.keys, n.rids);
      var end := NODE_HEADER_SIZE + |Body(n)|;
      LeafSlotsBack(n.keys, n.rids, slots, t);
      PayloadParts(t, n, p, end);
      EncodedSlots(t, slots, RID_SIZE, p, NODE_HEADER_SIZE, end);
      PointerBack(n.next, id, pointer);
    }
  }

  lemma {:induction false} InternalRead(t: KeyType, p: seq<byte>, n: Node, count: nat, id: nat, pointer: nat)
    requires |p| == NODE_PAYLOAD_SIZE && count <= MaximumInternalKeys(t) && id <= UINT32_MAX && pointer <= UINT32_MAX
    requires p[..NODE_HEADER_SIZE] == Header(2, count, id, pointer)
    requires DecodeInternal(t, p, count, id, pointer) == Just(n)
    ensures n.InternalNode? && Encodes(t, n, p)
  {
    var at: nat := NODE_HEADER_SIZE + CHILD_SIZE;
    var (slots, end) := DecodeSlots(t, p, at, count, CHILD_SIZE).value;
    DecodedSlots(t, p, at, count, CHILD_SIZE);
    ChildSlotsBack(n.keys, n.children, slots, t);
    PackUnpack(p[NODE_HEADER_SIZE..at]);
    Cut(p, NODE_HEADER_SIZE, at, end, end);
    hide DecodeSlots, DecodeInternal, ValidNode, Encodes, AllZero;
    assert Body(n) == p[NODE_HEADER_SIZE..at] + p[at..end];
    PayloadParts(t, n, p, end);
  }

  lemma {:induction false} InternalWritten(t: KeyType, p: seq<byte>, n: Node)
    requires |p| == NODE_PAYLOAD_SIZE && n.InternalNode? && Encodes(t, n, p)
    ensures DecodeInternal(t, p, |n.keys|, n.id, UINT32_MAX) == Just(n)
  {
    var at: nat := NODE_HEADER_SIZE + CHILD_SIZE;
    var slots := ChildSlots(n.keys, n.children);
    var end := NODE_HEADER_SIZE + |Body(n)|;
    Caps();
    ChildSlotsBack(n.keys, n.children, slots, t);
    PayloadParts(t, n, p, end);
    UnpackPack(n.children[0], 4);
    Parts(p, NODE_HEADER_SIZE, at, end, end, Pack(n.children[0], 4), EncodeSlots(slots), []);
    EncodedSlots(t, slots, CHILD_SIZE, p, at, end);
  }

  lemma {:induction false} FreeCodec(t: KeyType, p: seq<byte>, n: Node, id: nat, pointer: nat)
    requires |p| == NODE_PAYLOAD_SIZE && id <= UINT32_MAX && pointer <= UINT32_MAX
    requires p[..NODE_HEADER_SIZE] == Header(3, 0, id, pointer)
    ensures Accept(t, FreeNode(id, RefOf(pointer)), p[NODE_HEADER_SIZE..]) == Just(n) ==>
              n.FreeNode? && Encodes(t, n, p)
    ensures n.FreeNode? && Encodes(t, n, p) && n.id == id && PointerOf(n.next) == pointer ==>
              Accept(t, FreeNode(id, RefOf(pointer)), p[NODE_HEADER_SIZE..]) == Just(n)
  {
    if n.FreeNode? {
      PointerBack(n.next, id, pointer);
      if ValidNode(t, n) {
        assert p[NODE_HEADER_SIZE..NODE_HEADER_SIZE] == [];
        PayloadParts(t, n, p, NODE_HEADER_SIZE);
      }
    }
  }

  lemma {:induction false} CountFits(t: KeyType)
    ensures MaximumLeafKeys(t) < 0x1_0000 && MaximumInternalKeys(t) < 0x1_0000
  {
  }

  /** A payload that is read as a node is the node's encoding. */
  lemma {:induction false} ReadIsWritten(t: KeyType, p: seq<byte>, n: Node)
    requires DecodeNode(t, p) == Just(n)
    ensures Encodes(t, n, p)
  {
    Caps();
    var count, id, pointer := Unpack(p[6..8]), Unpack(p[8..12]), Unpack(p[12..16]);
    HeaderBytes(p, 0, 0, 0, 0);
    PackUnpack(p[8..12]);
    PackUnpack(p[12..16]);
    hide DecodeLeaf, DecodeInternal, Encodes, Header, Accept, Unpack;
    if p[5] == 1 {
      LeafCodec(t, p, n, count, id, pointer);
    } else if p[5] == 2 {
      InternalRead(t, p, n, count, id, pointer);
    } else {
      FreeCodec(t, p, n, id, pointer);
    }
  }

  /** The encoding of a node is read as the node. */
  lemma {:induction false} WrittenIsRead(t: KeyType, p: seq<byte>, n: Node)
    requires Encodes(t, n, p)
    ensures DecodeNode(t, p) == Just(n)
  {
    Caps();
    CountFits(t);
    PayloadParts(t, n, p, NODE_HEADER_SIZE + |Body(n)|);
    HeaderBytes(p, Tag(n), KeyCount(n), n.id, Pointer(n));
    assert KeyCount(n) < 0x1_0000 && n.id <= UINT32_MAX && Pointer(n) <= UINT32_MAX;
    hide DecodeLeaf, DecodeInternal, Encodes, Header, Accept, Unpack;
    if n.LeafNode? {
      LeafCodec(t, p, n, |n.keys|, n.id, Pointer(n));
    } else if n.InternalNode? {
      InternalWritten(t, p, n);
    } else {
      FreeCodec(t, p, n, n.id, Pointer(n));
    }
  }

  /**
   * The codec is exact: a payload is read as a node if and only if it is the encoding of that
   * node. So reading undoes writing, writing undoes reading, and a node has one payload.
   */
  lemma {:induction false} CodecExact(t: KeyType, p: seq<byte>, n: Node)
    ensures DecodeNode(t, p) == Just(n) <==> Encodes(t, n, p)
  {
    if DecodeNode(t, p) == Just(n) {
      ReadIsWritten(t, p, n);
    }
    if Encodes(t, n, p) {
      WrittenIsRead(t, p, n);
    }
  }

  lemma {:induction false} OneMoreSlot(slots: seq<Slot>, s: Slot)
    ensures EncodeSlots(slots + [s]) == EncodeSlots(slots) + EncodeKey(s.key) + s.tail
  {
    if slots == [] {
      assert slots + [s] == [s];
      assert EncodeSlots([s]) == EncodeKey(s.key) + s.tail + EncodeSlots([]);
    } else {
      OneMoreSlot(slots[1..], s);
      assert (slots + [s])[1..] == slots[1..] + [s];
      Shift(EncodeKey(slots[0].key) + slots[0].tail, EncodeSlots(slots[1..]), EncodeKey(s.key), s.tail);
    }
  }

  lemma {:induction false} Shift(a: seq<byte>, b: seq<byte>, c: seq<byte>, d: seq<byte>)
    ensures a + (b + c + d) == (a + b) + c + d
  {
  }

  ghost function KeyBytes(slots: seq<Slot>): nat {
    if slots == [] then 0 else |EncodeKey(slots[0].key)| + KeyBytes(slots[1..])
  }

  lemma {:induction false} SlotsSize(t: KeyType, slots: seq<Slot>, w: nat)
    requires ValidSlots(t, slots, w)
    ensures |EncodeSlots(slots)| == KeyBytes(slots) + |slots| * w
    ensures KeyBytes(slots) <= |slots| * MaximumEncodedKeySize(t)
  {
    if slots != [] {
      var e, m := EncodeKey(slots[0].key), MaximumEncodedKeySize(t);
      assert e[0..|e|] == e;
      EncodedKey(t, slots[0].key, e, 0, |e|);
      hide EncodeKey, ValidKey, MaximumEncodedKeySize;
      SlotsSize(t, slots[1..], w);
      OneTimesMore(|slots| - 1, w);
      OneTimesMore(|slots| - 1, m);
    }
  }

  lemma {:induction false} OneTimesMore(n: nat, w: nat)
    ensures (n + 1) * w == n * w + w
  {
  }

  /** A node within its key capacity fits the page: the size errors cannot happen. */
  lemma {:induction false} NodeFits(t: KeyType, n: Node)
    requires ValidNode(t, n)
    ensures NODE_HEADER_SIZE + |Body(n)| <= NODE_PAYLOAD_SIZE
  {
    if n.LeafNode? {
      var slots := LeafSlots(n.keys, n.rids);
      LeafSlotsBack(n.keys, n.rids, [], t);
      SlotsSize(t, slots, RID_SIZE);
      PayloadFits(t, |slots|, KeyBytes(slots));
    } else if n.InternalNode? {
      var slots := ChildSlots(n.keys, n.children);
      ChildSlotsBack(n.keys, n.children, [], t);
      SlotsSize(t, slots, CHILD_SIZE);
      PayloadFits(t, |slots|, KeyBytes(slots));
    }
  }

  /** Appends the entries of a leaf to a buffer. */
  method AppendLeaf(head: seq<byte>, keys: seq<KeyValue>, rids: seq<Rid>) returns (p: seq<byte>)
    requires |keys| == |rids|
    ensures p == head + EncodeSlots(LeafSlots(keys, rids))
  {
    ghost var slots := LeafSlots(keys, rids);
    p := head;
    var i := 0;
    while i < |keys|
      invariant i <= |keys| && p == head + EncodeSlots(slots[..i])
    {
      NextSlot(head, slots, i);
      p := p + EncodeKey(keys[i]) + EncodeRid(rids[i]);
      i := i + 1;
    }
    assert slots[..i] == slots;
  }

  /** Appends the entries of an internal node to a buffer that ends with its first child. */
  method AppendChildren(head: seq<byte>, keys: seq<KeyValue>, children: seq<nat>) returns (p: seq<byte>)
    requires |children| == |keys| + 1
    ensures p == head + EncodeSlots(ChildSlots(keys, children))
  {
    ghost var slots := ChildSlots(keys, children);
    p := head;
    var i := 0;
    while i < |keys|
      invariant i <= |keys| && p == head + EncodeSlots(slots[..i])
    {
      NextSlot(head, slots, i);
      assert slots[i] == Slot(keys[i], Pack(children[i + 1], 4));
      hide EncodeKey, EncodeSlots, Pack, ChildSlots;
      p := p + EncodeKey(keys[i]) + Pack(children[i + 1], 4);
      i := i + 1;
    }
    assert slots[..i] == slots;
  }

  lemma {:induction false} NextSlot(head: seq<byte>, slots: seq<Slot>, i: nat)
    requires i < |slots|
    ensures head + EncodeSlots(slots[..i + 1])
            == head + EncodeSlots(slots[..i]) + EncodeKey(slots[i].key) + slots[i].tail
  {
    OneMoreSlot(slots[..i], slots[i]);
    assert slots[..i + 1] == slots[..i] + [slots[i]];
    Shift(head, EncodeSlots(slots[..i]), EncodeKey(slots[i].key), slots[i].tail);
  }

  /** Writes a node into a buffer, entry by entry, and pads it. */
  method Serialize(t: KeyType, n: Node) returns (p: seq<byte>)
    requires ValidNode(t, n)
    ensures Encodes(t, n, p) && DecodeNode(t, p) == Just(n)
  {
    var head := Header(Tag(n), KeyCount(n), n.id, Pointer(n));
    p := head;
    NodeFits(t, n);
    if n.LeafNode? {
      p := AppendLeaf(head, n.keys, n.rids);
    } else if n.InternalNode? {
      p := AppendChildren(head + Pack(n.children[0], 4), n.keys, n.children);
      GroupRight(head, Pack(n.children[0], 4), EncodeSlots(ChildSlots(n.keys, n.children)));
    }
    assert p == head + Body(n);
    p := p + Zeros(NODE_PAYLOAD_SIZE - |p|);
    WrittenIsRead(t, p, n);
  }

  /** Slots read so far, and those still to come. */
  ghost function Joined(a: seq<Slot>, b: Option<(seq<Slot>, nat)>): Option<(seq<Slot>, nat)> {
    if b == Nothing then Nothing else Just((a + b.value.0, b.value.1))
  }

  lemma {:induction false} ReadNone(t: KeyType, p: seq<byte>, at: nat, count: nat, w: nat, slots: seq<Slot>)
    requires at <= |p|
    ensures Joined([], DecodeSlots(t, p, at, count, w)) == DecodeSlots(t, p, at, count, w)
    ensures Joined(slots, DecodeSlots(t, p, at, 0, w)) == Just((slots, at))
  {
    assert slots + [] == slots;
    var all := DecodeSlots(t, p, at, count, w);
    assert all.Just? ==> [] + all.value.0 == all.value.0;
  }

  /** What one step of reading does to the slots read so far and those to come. */
  lemma {:induction false} ReadOne(t: KeyType, p: seq<byte>, at: nat, count: nat, w: nat, slots: seq<Slot>)
    requires at <= |p| && count > 0
    ensures var first := DecodeSlot(t, p, at, w);
            Joined(slots, DecodeSlots(t, p, at, count, w))
            == if first == Nothing then Nothing
                else Joined(slots + [first.value.0], DecodeSlots(t, p, first.value.1, count - 1, w))
  {
    var first := DecodeSlot(t, p, at, w);
    if first.Just? {
      var rest := DecodeSlots(t, p, first.value.1, count - 1, w);
      assert rest.Just? ==> slots + ([first.value.0] + rest.value.0) == (slots + [first.value.0]) + rest.value.0;
    }
  }

  /** Reads entries with a moving offset. */
  method ReadSlots(t: KeyType, p: seq<byte>, at: nat, count: nat, w: nat) returns (r: Option<(seq<Slot>, nat)>)
    requires at <= |p|
    ensures r == DecodeSlots(t, p, at, count, w)
  {
    var offset := at;
    var slots: seq<Slot> := [];
    var i := 0;
    ReadNone(t, p, at, count, w, []);
    hide DecodeSlots, DecodeSlot, Joined;
    while i < count
      invariant i <= count && at <= offset <= |p|
      invariant DecodeSlots(t, p, at, count, w) == Joined(slots, DecodeSlots(t, p, offset, count - i, w))
    {
      ReadOne(t, p, offset, count - i, w, slots);
      var first := DecodeSlot(t, p, offset, w);
      if first == Nothing {
        return Nothing;
      }
      slots, offset, i := slots + [first.value.0], first.value.1, i + 1;
    }
    ReadNone(t, p, offset, 0, w, slots);
    r := Just((slots, offset));
  }

  method Deserialize(t: KeyType, p: seq<byte>) returns (r: Option<Node>)
    ensures r == DecodeNode(t, p)
    ensures forall n :: r == Just(n) <==> Encodes(t, n, p)
  {
    forall n
      ensures DecodeNode(t, p) == Just(n) <==> Encodes(t, n, p)
    {
      CodecExact(t, p, n);
    }
    if |p| != NODE_PAYLOAD_SIZE || p[..4] != MAGIC || p[4] != NODE_VERSION {
      return Nothing;
    }
    var count, id, pointer := Unpack(p[6..8]), Unpack(p[8..12]), Unpack(p[12..16]);
    if p[5] == 1 {
      if count > MaximumLeafKeys(t) {
        return Nothing;
      }
      var slots := ReadSlots(t, p, NODE_HEADER_SIZE, count, RID_SIZE);
      if slots == Nothing {
        return Nothing;
      }
      DecodedSlots(t, p, NODE_HEADER_SIZE, count, RID_SIZE);
      var (entries, end) := slots.value;
      r := Accept(t, LeafNode(id, KeysOf(entries), RidsOf(entries), RefOf(pointer)), p[end..]);
    } else if p[5] == 2 {
      if count > MaximumInternalKeys(t) || pointer != UINT32_MAX {
        return Nothing;
      }
      var at := NODE_HEADER_SIZE + CHILD_SIZE;
      var slots := ReadSlots(t, p, at, count, CHILD_SIZE);
      if slots == Nothing {
        return Nothing;
      }
      DecodedSlots(t, p, at, count, CHILD_SIZE);
      var (entries, end) := slots.value;
      r := Accept(t, InternalNode(id, KeysOf(entries), ChildrenOf(Unpack(p[NODE_HEADER_SIZE..at]), entries)), p[end..]);
    } else if p[5] == 3 && count == 0 {
      r := Accept(t, FreeNode(id, RefOf(pointer)), p[NODE_HEADER_SIZE..]);
    } else {
      r := Nothing;
    }
  }

  // Node pages with a bounded cache of decoded nodes.

  const NODE_CACHE_LIMIT := 1024

  /** What reading a node page yields without a cache. */
  ghost function FreshRead(t: KeyType, pages: map<nat, seq<byte>>, id: nat): Option<Node> {
    if id == 0 || id !in pages then Nothing
    else
      var n := DecodeNode(t, pages[id]);
      if n == Nothing || n.value.id != id then Nothing else n
  }

  class NodePageIO {
    const keyType: KeyType
    var pages: map<nat, seq<byte>>
    var decoded: map<nat, (seq<byte>, Node)>
    // The cached pages, in the order in which they were first put into the cache.
    var order: seq<nat>

    /** Every cached node is what its cached payload decodes to. */
    ghost predicate Valid()
      reads this
    {
      && (forall id :: id in decoded ==> DecodeNode(keyType, decoded[id].0) == Just(decoded[id].1))
      && (forall id :: id in decoded <==> id in order)
      && (forall i, j :: 0 <= i < j < |order| ==> order[i] != order[j])
      && |order| <= NODE_CACHE_LIMIT
    }

    constructor (keyType: KeyType, pages: map<nat, seq<byte>>)
      ensures Valid() && this.keyType == keyType && this.pages == pages
    {
      this.keyType, this.pages, decoded, order := keyType, pages, map[], [];
    }

    /** Drops the oldest node when the cache is full. */
    method MakeRoom()
      requires Valid()
      modifies this`decoded, this`order
      ensures Valid() && |order| < NODE_CACHE_LIMIT
    {
      if |order| >= NODE_CACHE_LIMIT {
        var oldest := order[0];
        assert forall k :: k in order <==> k == oldest || k in order[1..];
        decoded, order := decoded - {oldest}, order[1..];
      }
    }

    /** Puts a decoded node into the cache, after making room. */
    method Remember(id: nat, payload: seq<byte>, n: Node)
      requires Valid() && DecodeNode(keyType, payload) == Just(n)
      modifies this`decoded, this`order
      ensures Valid()
    {
      MakeRoom();
      if id !in decoded {
        order := order + [id];
      }
      decoded := decoded[id := (payload, n)];
    }

    /** Reads a node: a cached one is used only while its page is byte for byte the same. */
    method ReadNode(id: nat) returns (r: Option<Node>)
      requires Valid()
      modifies this`decoded, this`order
      ensures Valid() && r == FreshRead(keyType, pages, id)
    {
      if id == 0 || id !in pages {
        return Nothing;
      }
      var payload := pages[id];
      var node;
      if id in decoded && decoded[id].0 == payload {
        node := decoded[id].1;
      } else {
        var read := Deserialize(keyType, payload);
        if read == Nothing {
          return Nothing;
        }
        node := read.value;
        Remember(id, payload, node);
      }
      if node.id != id {
        return Nothing;
      }
      r := Just(node);
    }

    /** Writes a node. The cache is left alone: its payload no longer matches. */
    method WriteNode(n: Node)
      requires Valid() && ValidNode(keyType, n)
      modifies this`pages
      ensures Valid() && n.id in pages
      ensures (forall id :: id != n.id ==>
               (id in pages <==> id in old(pages)) && (id in pages ==> pages[id] == old(pages)[id]))
      ensures FreshRead(keyType, pages, n.id) == Just(n)
    {
      var p := Serialize(keyType, n);
      pages := pages[n.id := p];
    }
  }
}
