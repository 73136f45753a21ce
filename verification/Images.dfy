/** What ties the bytes of a file to the pages of the tree: keys are ranked by numbers, and payloads decode to pages. */
module Images {
  import opened Entries
  import opened Trees
  import opened Pages
  import opened Reads
  import opened Bounds
  import opened Bytes
  import opened NodeCodec
  import Validation

  // Every key type embeds in the numbers that stand for keys in the tree.

  function TextRank(s: seq<byte>): real {
    if s == [] then 0.0 else (s[0] as real + 1.0 + TextRank(s[1..])) / 257.0
  }

  function KeyRank(k: KeyValue): Key {
    match k
    case IntegerValue(v) => v as real
    case FloatValue(bits) => FloatRank(bits) as real
    case BooleanValue(b) => if b then 1.0 else 0.0
    case TextValue(utf8) => TextRank(utf8)
  }

  lemma {:induction false} TextRankBounds(s: seq<byte>)
    ensures 0.0 <= TextRank(s) < 1.0
    ensures s != [] ==> TextRank(s) > 0.0
  {
    if s != [] {
      TextRankBounds(s[1..]);
    }
  }

  lemma {:induction false} TextRankRises(a: seq<byte>, b: seq<byte>)
    requires TextLess(a, b)
    ensures TextRank(a) < TextRank(b)
  {
    TextRankBounds(b);
    if a != [] {
      TextRankBounds(a[1..]);
      TextRankBounds(b[1..]);
      if a[0] == b[0] {
        TextRankRises(a[1..], b[1..]);
      }
    }
  }

  /** The ranks order the keys of one type as the index compares them. */
  lemma {:induction false} RankOrders(t: KeyType, j: KeyValue, k: KeyValue)
    requires ValidKey(t, j) && ValidKey(t, k)
    ensures KeyLess(j, k) <==> KeyRank(j) < KeyRank(k)
  {
    if t == VarcharKey {
      BytesTotal(j.utf8, k.utf8);
      if TextLess(j.utf8, k.utf8) {
        TextRankRises(j.utf8, k.utf8);
      } else if TextLess(k.utf8, j.utf8) {
        TextRankRises(k.utf8, j.utf8);
      }
    }
  }

  // Decoded nodes are pages of the tree.

  function EntriesOf(keys: seq<KeyValue>, rids: seq<Rid>): (r: seq<Entry>)
    requires |keys| == |rids|
    ensures |r| == |keys|
  {
    seq(|keys|, i requires 0 <= i < |keys| => Entry(KeyRank(keys[i]), rids[i]))
  }

  function RanksOf(keys: seq<KeyValue>): (r: seq<Key>)
    ensures |r| == |keys|
  {
    seq(|keys|, i requires 0 <= i < |keys| => KeyRank(keys[i]))
  }

  function PageOf(n: Node): Page
    requires n.LeafNode? ==> |n.keys| == |n.rids|
  {
    match n
    case LeafNode(_, keys, rids, next) => LeafPage(EntriesOf(keys, rids), next)
    case InternalNode(_, keys, children) => InternalPage(RanksOf(keys), children)
    case FreeNode(_, next) => FreePage(next)
  }

  predicate RefInFormat(r: Ref) {
    r.Some? ==> NodeId(r.page)
  }

  /** Keys of the type, and numbers that have room in the format. */
  predicate InFormat(t: KeyType, n: Node) {
    && NodeId(n.id)
    && match n
       case LeafNode(_, keys, rids, next) =>
         && |keys| == |rids| && RefInFormat(next)
         && (forall i :: 0 <= i < |keys| ==> ValidKey(t, keys[i]) && ValidRid(rids[i]))
       case InternalNode(_, keys, children) =>
         && (forall i :: 0 <= i < |keys| ==> ValidKey(t, keys[i]))
         && (forall i :: 0 <= i < |children| ==> NodeId(children[i]))
       case FreeNode(_, next) => RefInFormat(next)
  }

  lemma {:induction false} LeafOrder(t: KeyType, keys: seq<KeyValue>, rids: seq<Rid>)
    requires |keys| == |rids| && forall i :: 0 <= i < |keys| ==> ValidKey(t, keys[i])
    ensures KeysRise(t, keys) && RidsRise(keys, rids) <==> Climbs(EntriesOf(keys, rids))
  {
    var es := EntriesOf(keys, rids);
    forall i | 0 <= i < |keys| - 1
      ensures Less(es[i], es[i + 1]) <==>
              !KeyLess(keys[i + 1], keys[i]) && (!KeyLess(keys[i], keys[i + 1]) ==> RidLess(rids[i], rids[i + 1]))
    {
      RankOrders(t, keys[i], keys[i + 1]);
      RankOrders(t, keys[i + 1], keys[i]);
    }
  }

  lemma {:induction false} StepsAscend(keys: seq<Key>, i: nat, j: nat)
    requires i <= j < |keys| && forall k :: 0 <= k < |keys| - 1 ==> keys[k] <= keys[k + 1]
    ensures keys[i] <= keys[j]
  {
    if i < j {
      StepsAscend(keys, i, j - 1);
    }
  }

  lemma {:induction false} SeparatorOrder(t: KeyType, keys: seq<KeyValue>)
    requires forall i :: 0 <= i < |keys| ==> ValidKey(t, keys[i])
    ensures KeysRise(t, keys) <==> Nondecreasing(RanksOf(keys))
  {
    var ranks := RanksOf(keys);
    forall i | 0 <= i < |keys| - 1
      ensures ranks[i] <= ranks[i + 1] <==> !KeyLess(keys[i + 1], keys[i])
    {
      RankOrders(t, keys[i + 1], keys[i]);
    }
    if KeysRise(t, keys) {
      forall i, j | 0 <= i < j < |ranks|
        ensures ranks[i] <= ranks[j]
      {
        StepsAscend(ranks, i, j);
      }
    }
  }

  /** The checks of a node on its fields are the checks of the tree on its page, with the capacities of the key type. */
  lemma {:induction false} ValidIsSound(t: KeyType, n: Node)
    requires InFormat(t, n)
    ensures ValidNode(t, n) <==> Decodes(n.id, PageOf(n), CapsOf(t))
  {
    match n
    case LeafNode(_, keys, rids, next) => LeafOrder(t, keys, rids);
    case InternalNode(id, keys, children) => SeparatorOrder(t, keys);
    case FreeNode(_, next) =>
  }

  /** Nodes that pass their checks are exactly what payloads decode to, and each has the page of a node of the tree. */
  lemma {:induction false} PayloadsArePages(t: KeyType, n: Node)
    ensures (exists p :: DecodeNode(t, p) == Just(n)) <==> InFormat(t, n) && Decodes(n.id, PageOf(n), CapsOf(t))
  {
    if ValidNode(t, n) {
      ValidIsSound(t, n);
      NodeFits(t, n);
      var h := NodeCodec.Header(Tag(n), KeyCount(n), n.id, Pointer(n)) + Body(n);
      var p := h + Zeros(NODE_PAYLOAD_SIZE - |h|);
      CodecExact(t, p, n);
    } else {
      if InFormat(t, n) {
        ValidIsSound(t, n);
      }
      forall p
        ensures DecodeNode(t, p) != Just(n)
      {
        CodecExact(t, p, n);
      }
    }
  }

  /** The pages of a file, as far as its payloads can be read. */
  ghost function ImageOf(t: KeyType, payloads: map<nat, seq<byte>>): PageMap {
    map id | id in payloads && Readable(t, payloads, id) :: PageOf(FreshRead(t, payloads, id).value)
  }

  ghost predicate Readable(t: KeyType, payloads: map<nat, seq<byte>>, id: nat)
    ensures Readable(t, payloads, id) ==> FreshRead(t, payloads, id).Just?
    ensures Readable(t, payloads, id) ==>
              var n := FreshRead(t, payloads, id).value;
              id in payloads && n.id == id && (n.LeafNode? ==> |n.keys| == |n.rids|)
  {
    var r := FreshRead(t, payloads, id);
    if r.Just? then
      CodecExact(t, payloads[id], r.value);
      true
    else false
  }

  /** Reading a node of the tree from the image is reading its payload, whatever the payloads are. */
  lemma {:induction false} ReadsAgree(t: KeyType, payloads: map<nat, seq<byte>>, id: nat)
    ensures Validation.ReadNode(ImageOf(t, payloads), CapsOf(t), id)
            == if Readable(t, payloads, id) then Just(PageOf(FreshRead(t, payloads, id).value)) else Nothing
  {
    if Readable(t, payloads, id) {
      var n := FreshRead(t, payloads, id).value;
      PayloadsArePages(t, n);
    }
  }
}
