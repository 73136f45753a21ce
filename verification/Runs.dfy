/** Whole runs of insertions and deletions, against a plain set of pairs. */
module Runs {
  import opened Entries
  import opened Trees
  import opened Pages
  import opened Headers
  import opened Locating
  import opened BPlusTree

  datatype Op = Put(e: Entry) | Drop(e: Entry)

  /** The specification: an index is a set of pairs. */
  ghost function Effect(s: set<Entry>, op: Op, unique: bool): set<Entry> {
    match op
    case Put(e) =>
      if |s| == UINT64_MAX || (unique && exists x :: x in s && x.key == e.key) then s else s + {e}
    case Drop(e) => s - {e}
  }

  ghost function Effects(s: set<Entry>, ops: seq<Op>, unique: bool): set<Entry>
    decreases |ops|
  {
    if ops == [] then s else Effects(Effect(s, ops[0], unique), ops[1..], unique)
  }

  // Page accounting: every page of the file is a node of the tree or is free.

  ghost function Nodes(t: Tree): nat
    decreases t, 1
  {
    1 + if t.Leaf? then 0 else NodesOf(t.kids)
  }

  ghost function NodesOf(ts: seq<Tree>): nat
    decreases ts, 0
  {
    if ts == [] then 0 else Nodes(ts[0]) + NodesOf(ts[1..])
  }

  ghost function ShapeNodes(s: Shape): nat {
    if s.Empty? then 0 else Nodes(s.tree)
  }

  ghost function Tally(t: Tree, n: nat): nat {
    if n == 0 then 0 else Count(t, n) + Tally(t, n - 1)
  }

  ghost function TallyOf(ts: seq<Tree>, n: nat): nat {
    if n == 0 then 0 else CountOf(ts, n) + TallyOf(ts, n - 1)
  }

  ghost function FreeTally(free: seq<nat>, n: nat): nat {
    if n == 0 then 0 else FreeCount(free, n) + FreeTally(free, n - 1)
  }

  lemma {:induction false} TallyNode(t: Tree, n: nat)
    requires t.Node?
    ensures Tally(t, n) == TallyOf(t.kids, n) + if 1 <= t.id <= n then 1 else 0
  {
    if n > 0 {
      TallyNode(t, n - 1);
    }
  }

  lemma {:induction false} TallyLeaf(t: Tree, n: nat)
    requires t.Leaf?
    ensures Tally(t, n) == if 1 <= t.id <= n then 1 else 0
  {
    if n > 0 {
      TallyLeaf(t, n - 1);
    }
  }

  lemma {:induction false} TallyCons(ts: seq<Tree>, n: nat)
    ensures ts == [] ==> TallyOf(ts, n) == 0
    ensures ts != [] ==> TallyOf(ts, n) == Tally(ts[0], n) + TallyOf(ts[1..], n)
  {
    if n > 0 {
      TallyCons(ts, n - 1);
    }
  }

  lemma {:induction false} TallyIsNodes(t: Tree, n: nat)
    requires forall x: nat :: Count(t, x) >= 1 ==> 1 <= x <= n
    ensures Tally(t, n) == Nodes(t)
    decreases t, 1
  {
    assert Count(t, t.id) >= 1;
    if t.Leaf? {
      TallyLeaf(t, n);
    } else {
      TallyNode(t, n);
      assert forall x: nat :: Count(t, x) >= CountOf(t.kids, x);
      TallyIsNodesOf(t.kids, n);
    }
  }

  lemma {:induction false} TallyIsNodesOf(ts: seq<Tree>, n: nat)
    requires forall x: nat :: CountOf(ts, x) >= 1 ==> 1 <= x <= n
    ensures TallyOf(ts, n) == NodesOf(ts)
    decreases ts, 0
  {
    TallyCons(ts, n);
    if ts != [] {
      assert forall x: nat :: CountOf(ts, x) == Count(ts[0], x) + CountOf(ts[1..], x);
      TallyIsNodes(ts[0], n);
      TallyIsNodesOf(ts[1..], n);
    }
  }

  lemma {:induction false} FreeTallyCons(free: seq<nat>, n: nat)
    ensures free == [] ==> FreeTally(free, n) == 0
    ensures free != [] ==> FreeTally(free, n) == FreeTally(free[1..], n) + if 1 <= free[0] <= n then 1 else 0
  {
    if n > 0 {
      FreeTallyCons(free, n - 1);
    }
  }

  lemma {:induction false} FreeTallyIsSize(free: seq<nat>, n: nat)
    requires forall x: nat :: FreeCount(free, x) >= 1 ==> 1 <= x <= n
    ensures FreeTally(free, n) == |free|
    decreases |free|
  {
    FreeTallyCons(free, n);
    if free != [] {
      assert FreeCount(free, free[0]) >= 1;
      assert forall x: nat :: FreeCount(free, x) >= FreeCount(free[1..], x);
      FreeTallyIsSize(free[1..], n);
    }
  }

  lemma {:induction false} TalliesFill(s: Shape, free: seq<nat>, n: nat, m: nat)
    requires Partition(s, free, n) && m <= n
    ensures (if s.Empty? then 0 else Tally(s.tree, m)) + FreeTally(free, m) == m
  {
    if m > 0 {
      assert UsedOnce(s, free, n, m);
      TalliesFill(s, free, n, m - 1);
    }
  }

  /** Conservation of pages. */
  lemma {:induction false} EveryPageIsUsed(s: Shape, free: seq<nat>, n: nat)
    requires Partition(s, free, n)
    ensures ShapeNodes(s) + |free| == n
  {
    TalliesFill(s, free, n, n);
    forall x: nat
      ensures FreeCount(free, x) >= 1 ==> 1 <= x <= n
      ensures ShapeCount(s, x) >= 1 ==> 1 <= x <= n
    {
      assert UsedOnce(s, free, n, x);
    }
    FreeTallyIsSize(free, n);
    if s.Of? {
      assert forall x: nat :: ShapeCount(s, x) == Count(s.tree, x);
      TallyIsNodes(s.tree, n);
    }
  }

  /** What can be seen of an index between two operations of a run. */
  datatype Snapshot = Snapshot(pairs: seq<Entry>, live: nat, file: nat, first: Ref)

  /** One operation: its effect on the pairs, on the size of the file, and on the first leaf. */
  ghost predicate Stepped(a: Snapshot, op: Op, b: Snapshot, unique: bool) {
    && Ordered(b.pairs, unique)
    && Elements(b.pairs) == Effect(Elements(a.pairs), op, unique)
    && a.file <= b.file && b.live <= b.file
    && (a.file < b.file ==> b.live == b.file)
    && (a.pairs != [] && b.pairs != [] ==> b.first == a.first)
  }

  ghost predicate IsRun(trace: seq<Snapshot>, ops: seq<Op>, unique: bool) {
    && |trace| == |ops| + 1
    && forall i :: 0 <= i < |ops| ==> Stepped(trace[i], ops[i], trace[i + 1], unique)
  }

  ghost function Seen(t: BPlusTree): Snapshot
    reads t
  {
    Snapshot(t.Pairs(), ShapeNodes(t.shape), t.physicalPages, t.header.first)
  }

  /** Performs one operation. */
  method Perform(t: BPlusTree, op: Op)
    requires t.Valid()
    modifies t
    ensures t.Valid() && Stepped(old(Seen(t)), op, Seen(t), t.unique)
  {
    ghost var had := t.Pairs();
    SortedSize(had);
    EveryPageIsUsed(t.shape, t.free, t.physicalPages);
    match op {
      case Put(e) =>
        InsertedElements(had, e);
        if e !in had {
          ConflictInSet(had, e);
        }
        var r := t.Insert(e);
      case Drop(e) =>
        RemovedElements(had, e);
        var r := t.Delete(e);
    }
    EveryPageIsUsed(t.shape, t.free, t.physicalPages);
  }

  /** Performs any sequence of operations. */
  method Run(t: BPlusTree, ops: seq<Op>) returns (ghost trace: seq<Snapshot>)
    requires t.Valid()
    modifies t
    ensures t.Valid() && IsRun(trace, ops, t.unique)
    ensures trace[0] == old(Seen(t)) && trace[|ops|] == Seen(t)
  {
    trace := [Seen(t)];
    for i := 0 to |ops|
      invariant t.Valid() && |trace| == i + 1
      invariant trace[0] == old(Seen(t)) && trace[i] == Seen(t)
      invariant forall j :: 0 <= j < i ==> Stepped(trace[j], ops[j], trace[j + 1], t.unique)
    {
      Perform(t, ops[i]);
      trace := trace + [Seen(t)];
    }
  }

  /** After any run the index lists the set that the operations describe, in order. */
  lemma {:induction false} RunMeetsSet(trace: seq<Snapshot>, ops: seq<Op>, unique: bool)
    requires IsRun(trace, ops, unique)
    ensures Elements(trace[|ops|].pairs) == Effects(Elements(trace[0].pairs), ops, unique)
    ensures ops != [] ==> Ordered(trace[|ops|].pairs, unique)
    decreases |ops|
  {
    if ops != [] {
      assert Stepped(trace[0], ops[0], trace[1], unique);
      RunMeetsSet(trace[1..], ops[1..], unique);
      assert Stepped(trace[|ops| - 1], ops[|ops| - 1], trace[|ops|], unique);
    }
  }

  ghost function Peak(trace: seq<Snapshot>): nat
    requires trace != []
  {
    var now := trace[|trace| - 1].live;
    if |trace| == 1 then now
    else
      var before := Peak(trace[..|trace| - 1]);
      if before < now then now else before
  }

  /**
   * The file grows only when every page is in use: its size is the peak number of live pages, unless it began larger.
   */
  lemma {:induction false} FileIsPeak(trace: seq<Snapshot>, ops: seq<Op>, unique: bool)
    requires IsRun(trace, ops, unique) && trace[0].live <= trace[0].file
    ensures var size := trace[|ops|].file;
            && size >= trace[0].file && size >= Peak(trace)
            && (size == trace[0].file || size == Peak(trace))
    decreases |ops|
  {
    if ops != [] {
      var last := |ops| - 1;
      assert Stepped(trace[last], ops[last], trace[last + 1], unique);
      FileIsPeak(trace[..last + 1], ops[..last], unique);
    }
  }

  /** As long as the index does not become empty, its first leaf stays on the same page. */
  lemma {:induction false} FirstLeafStays(trace: seq<Snapshot>, ops: seq<Op>, unique: bool)
    requires IsRun(trace, ops, unique)
    requires forall i :: 0 <= i <= |ops| ==> trace[i].pairs != []
    ensures trace[|ops|].first == trace[0].first
    decreases |ops|
  {
    if ops != [] {
      var last := |ops| - 1;
      assert Stepped(trace[last], ops[last], trace[last + 1], unique);
      FirstLeafStays(trace[..last + 1], ops[..last], unique);
    }
  }
}
