/** The adapter that keeps a clustered index equal to a sequential file whose rows may move. */
module ClusteredIndex {
  import opened Entries
  import opened Trees
  import opened Headers
  import opened Locating
  import opened Scans
  import opened BPlusTree

  datatype Record = Record(key: Key, data: nat)

  type Rows = map<Rid, Record>

  /** The pairs that an index over these rows must hold. */
  ghost function RowPairs(rows: Rows): set<Entry> {
    set rid | rid in rows :: Entry(rows[rid].key, rid)
  }

  ghost function CountIn(rows: Rows, r: Record): nat {
    |set rid | rid in rows && rows[rid] == r|
  }

  ghost predicate KeysDiffer(rows: Rows) {
    forall a, b :: a in rows && b in rows && rows[a].key == rows[b].key ==> a == b
  }

  /** The file's own part in an operation: it fails without effect, or holds these rows afterwards. */
  datatype Outcome = Fails | Holds(rows: Rows)

  /** The rows after inserting a record at rid: every other record is still there, maybe at another place. */
  ghost predicate Placed(rows: Rows, r: Record, rows': Rows, rid: Rid) {
    && rid in rows' && rows'[rid] == r
    && forall x :: CountIn(rows', x) == CountIn(rows, x) + if x == r then 1 else 0
  }

  ghost predicate Moved(rows: Rows, rows': Rows) {
    forall x :: CountIn(rows', x) == CountIn(rows, x)
  }

  /** The sequential file, as far as the adapter depends on it. */
  class SequentialFile {
    const unique: bool
    var rows: Rows

    ghost predicate Valid()
      reads this
    {
      unique ==> KeysDiffer(rows)
    }

    constructor (unique: bool, rows: Rows)
      requires unique ==> KeysDiffer(rows)
      ensures Valid() && this.unique == unique && this.rows == rows
    {
      this.unique, this.rows := unique, rows;
    }

    method Insert(r: Record, rid: Rid, o: Outcome) returns (ok: bool)
      requires o.Holds? ==> Placed(rows, r, o.rows, rid) && (unique ==> KeysDiffer(o.rows))
      requires Valid()
      modifies this
      ensures Valid() && ok == o.Holds? && rows == if ok then o.rows else old(rows)
    {
      ok := o.Holds?;
      if ok {
        rows := o.rows;
      }
    }

    method Delete(rid: Rid, fails: bool) returns (ok: bool)
      requires Valid() && rid in rows
      modifies this
      ensures Valid() && ok == !fails && rows == if ok then old(rows) - {rid} else old(rows)
    {
      ok := !fails;
      if ok {
        rows := rows - {rid};
      }
    }

    method Reorganize(o: Outcome) returns (ok: bool)
      requires o.Holds? ==> Moved(rows, o.rows) && (unique ==> KeysDiffer(o.rows))
      requires Valid()
      modifies this
      ensures Valid() && ok == o.Holds? && rows == if ok then o.rows else old(rows)
    {
      ok := o.Holds?;
      if ok {
        rows := o.rows;
      }
    }

    /** Every live row once, in some order. */
    method Scan() returns (out: seq<Rid>)
      ensures forall rid :: rid in out <==> rid in rows
      ensures forall i, j :: 0 <= i < j < |out| ==> out[i] != out[j]
    {
      out := [];
      var rest := rows.Keys;
      while rest != {}
        invariant rest <= rows.Keys
        invariant forall rid :: rid in out <==> rid in rows && rid !in rest
        invariant forall i, j :: 0 <= i < j < |out| ==> out[i] != out[j]
      {
        var rid :| rid in rest;
        out, rest := out + [rid], rest - {rid};
      }
    }
  }

  function PairOf(rows: Rows, rid: Rid): Entry
    requires rid in rows
  {
    Entry(rows[rid].key, rid)
  }

  function PairsOf(rows: Rows, rids: seq<Rid>): (r: seq<Entry>)
    requires forall i :: 0 <= i < |rids| ==> rids[i] in rows
    ensures |r| == |rids|
  {
    seq(|rids|, i requires 0 <= i < |rids| => PairOf(rows, rids[i]))
  }

  /** A scan lists the pairs of the rows, and they can be indexed. */
  lemma {:induction false} ScanPairs(rows: Rows, rids: seq<Rid>, unique: bool)
    requires forall rid :: rid in rids <==> rid in rows
    requires forall i, j :: 0 <= i < j < |rids| ==> rids[i] != rids[j]
    requires unique ==> KeysDiffer(rows)
    ensures Elements(PairsOf(rows, rids)) == RowPairs(rows)
    ensures Indexable(PairsOf(rows, rids), unique) <==> |rows| <= UINT64_MAX
    ensures |rids| == |rows|
  {
    var pairs := PairsOf(rows, rids);
    forall e
      ensures e in Elements(pairs) <==> e in RowPairs(rows)
    {
      if e in RowPairs(rows) {
        var i :| 0 <= i < |rids| && rids[i] == e.rid;
        assert pairs[i] == e;
      }
    }
    ListedSize(rids, rows.Keys);
    PrefixesIndexable(pairs, |pairs|, unique);
    assert pairs[..|pairs|] == pairs;
  }

  lemma {:induction false} PrefixesIndexable(s: seq<Entry>, i: nat, unique: bool)
    requires forall j, k :: 0 <= j < k < |s| ==> s[j] != s[k] && (unique ==> s[j].key != s[k].key)
    requires i <= |s|
    ensures Indexable(s[..i], unique) <==> i <= UINT64_MAX
  {
    if i > 0 {
      PrefixesIndexable(s, i - 1, unique);
      PrefixSize(s[..i - 1]);
      assert s[..i][..i - 1] == s[..i - 1];
    }
  }

  lemma {:induction false} PrefixSize(s: seq<Entry>)
    requires forall i, j :: 0 <= i < j < |s| ==> s[i] != s[j]
    ensures |Elements(s)| == |s|
  {
    if s == [] {
      assert Elements(s) == {};
    } else {
      PrefixSize(s[1..]);
      assert Elements(s) == {s[0]} + Elements(s[1..]);
    }
  }

  lemma {:induction false} ListedSize(rids: seq<Rid>, s: set<Rid>)
    requires forall rid :: rid in rids <==> rid in s
    requires forall i, j :: 0 <= i < j < |rids| ==> rids[i] != rids[j]
    ensures |rids| == |s|
  {
    if rids != [] {
      forall rid
        ensures rid in rids[1..] <==> rid in s - {rids[0]}
      {
        if rid in rids && rid != rids[0] {
          var i :| 0 <= i < |rids| && rids[i] == rid;
          assert rids[1..][i - 1] == rid;
        }
      }
      ListedSize(rids[1..], s - {rids[0]});
    }
  }

  /** Which steps of an operation fail. */
  datatype Faults = Faults(mark: bool, rollback: bool, readable: nat, commits: bool)

  datatype Status = Ok | NotReady | Refused | Failed

  /** One call of the adapter, with what its file does and which of its steps fail. */
  datatype Call =
    | Inserting(r: Record, rid: Rid, o: Outcome, f: Faults)
    | Deleting(rid: Rid, storageFails: bool, f: Faults)
    | Reorganizing(o: Outcome, f: Faults)
    | Rebuilding(f: Faults)
    | Marking(fails: bool)

  /** What the adapter's flags and its file say between two calls. */
  datatype State = State(usable: bool, rows: Rows)

  predicate Rebuilds(rows: Rows, f: Faults) {
    f.readable >= |rows| && |rows| <= UINT64_MAX && f.commits
  }

  ghost predicate Taken(rows: Rows, key: Key) {
    exists rid :: rid in rows && rows[rid].key == key
  }

  /** The flags and the file after a call, without the index. */
  ghost function Next(s: State, c: Call, unique: bool): State {
    match c
    case Inserting(r, rid, o, f) =>
      if !s.usable || (unique && Taken(s.rows, r.key)) || f.mark then s
      else if o.Fails? then State(false, s.rows)
      else State(Rebuilds(o.rows, f), o.rows)
    case Deleting(rid, storageFails, f) =>
      if !s.usable || rid !in s.rows then s
      else if storageFails then State(!f.rollback || f.mark, s.rows)
      else State(true, s.rows - {rid})
    case Reorganizing(o, f) =>
      if !s.usable || f.mark then s
      else if o.Fails? then State(false, s.rows)
      else State(Rebuilds(o.rows, f), o.rows)
    case Rebuilding(f) => State(s.usable || Rebuilds(s.rows, f), s.rows)
    case Marking(fails) => State(s.usable && fails, s.rows)
  }

  /** The file keeps its contract in the call. */
  ghost predicate Allowed(s: State, c: Call, unique: bool) {
    match c
    case Inserting(r, rid, o, _) => o.Holds? ==> Placed(s.rows, r, o.rows, rid) && (unique ==> KeysDiffer(o.rows))
    case Reorganizing(o, _) => o.Holds? ==> Moved(s.rows, o.rows) && (unique ==> KeysDiffer(o.rows))
    case _ => true
  }

  /** The one way to break the adapter's promise: file, roll-back and marking fail in one deletion. */
  ghost predicate TripleFailure(s: State, c: Call) {
    c.Deleting? && s.usable && c.rid in s.rows && c.storageFails && c.f.rollback && c.f.mark
  }

  ghost predicate AllowedRun(s: State, calls: seq<Call>, unique: bool)
    decreases |calls|
  {
    calls != [] ==>
      && Allowed(s, calls[0], unique)
      && !TripleFailure(s, calls[0])
      && AllowedRun(Next(s, calls[0], unique), calls[1..], unique)
  }

  ghost function After(s: State, calls: seq<Call>, unique: bool): State
    decreases |calls|
  {
    if calls == [] then s else After(Next(s, calls[0], unique), calls[1..], unique)
  }

  class ClusteredBPlusIndex {
    const tree: BPlusTree
    const sequential: SequentialFile
    var consistent: bool

    /** The flags say that the index may be used. */
    predicate Usable()
      reads this, tree
    {
      consistent && tree.header.complete
    }

    /** The index holds exactly the pairs of the live rows. */
    ghost predicate InSync()
      reads tree, sequential
    {
      Elements(tree.Pairs()) == RowPairs(sequential.rows)
    }

    function Seen(): State
      reads this, tree, sequential
    {
      State(Usable(), sequential.rows)
    }

    /** What the adapter was given: a sound tree and file with one duplicate policy. */
    ghost predicate Wired()
      reads tree, sequential
    {
      tree.Valid() && sequential.Valid() && tree.unique == sequential.unique
    }

    /** The adapter's promise: an index that may be used is in step with the file. */
    ghost predicate Valid()
      reads this, tree, sequential
    {
      Wired() && (Usable() ==> InSync())
    }

    constructor (tree: BPlusTree, sequential: SequentialFile)
      requires tree.Valid() && sequential.Valid() && tree.unique == sequential.unique
      requires tree.header.complete ==> Elements(tree.Pairs()) == RowPairs(sequential.rows)
      ensures Valid() && this.tree == tree && this.sequential == sequential && Usable() == tree.header.complete
    {
      this.tree, this.sequential, consistent := tree, sequential, tree.header.complete;
    }

    /** Recreates every association from the live rows. */
    method Rebuild(f: Faults) returns (ok: bool)
      requires Wired()
      modifies this, tree
      ensures Wired() && sequential.rows == old(sequential.rows)
      ensures ok <==> Rebuilds(sequential.rows, f)
      ensures ok ==> Usable() && InSync()
      ensures !ok ==>
                && consistent == old(consistent) && tree.header == old(tree.header)
                && tree.Pairs() == old(tree.Pairs())
    {
      var rids := sequential.Scan();
      var rows := sequential.rows;
      ScanPairs(rows, rids, tree.unique);
      ok := tree.RebuildFromStorage(PairsOf(rows, rids), f.readable, f.commits);
      if ok {
        consistent := true;
      }
    }

    /** Disables the index, first on disk and then in memory. */
    method MarkIncomplete(fails: bool) returns (ok: bool)
      requires Wired()
      modifies this, tree`header
      ensures Wired() && ok == !fails && tree.Pairs() == old(tree.Pairs())
      ensures ok ==> !Usable()
      ensures !ok ==> consistent == old(consistent) && tree.header == old(tree.header)
    {
      if fails {
        return false;
      }
      tree.SetComplete(false);
      consistent := false;
      ok := true;
    }

    /** A row of the unique file already has the key. */
    method HasKey(key: Key) returns (found: bool)
      ensures found <==> exists rid :: rid in sequential.rows && sequential.rows[rid].key == key
    {
      found := exists rid | rid in sequential.rows.Keys :: sequential.rows[rid].key == key;
    }

    /** Inserts a record, and rebuilds the index because rows may have moved. */
    method InsertRecord(r: Record, rid: Rid, o: Outcome, f: Faults) returns (status: Status)
      requires Valid()
      requires o.Holds? ==> Placed(sequential.rows, r, o.rows, rid) && (sequential.unique ==> KeysDiffer(o.rows))
      modifies this, tree, sequential
      ensures Valid()
      ensures old(Usable()) || status == NotReady
      ensures status == Ok ==> Usable() && InSync() && o.Holds? && sequential.rows == o.rows
      ensures status == NotReady || status == Refused ==>
                Usable() == old(Usable()) && sequential.rows == old(sequential.rows)
      ensures status == Refused ==>
                sequential.unique && exists x :: x in sequential.rows && sequential.rows[x].key == r.key
      ensures Seen() == Next(old(Seen()), Inserting(r, rid, o, f), tree.unique)
    {
      if !Usable() {
        return NotReady;
      }
      if tree.unique {
        var found := HasKey(r.key);
        if found {
          return Refused;
        }
      }
      var marked := MarkIncomplete(f.mark);
      if !marked {
        return Failed;
      }
      var stored := sequential.Insert(r, rid, o);
      if !stored {
        return Failed;
      }
      var rebuilt := Rebuild(f);
      status := if rebuilt then Ok else Failed;
    }

    /** Compacts the file, and rebuilds the index because rows have moved. */
    method Reorganize(o: Outcome, f: Faults) returns (status: Status)
      requires Valid()
      requires o.Holds? ==> Moved(sequential.rows, o.rows) && (sequential.unique ==> KeysDiffer(o.rows))
      modifies this, tree, sequential
      ensures Valid()
      ensures old(Usable()) || status == NotReady
      ensures status == Ok ==> Usable() && InSync() && o.Holds? && sequential.rows == o.rows
      ensures status == NotReady ==> Usable() == old(Usable()) && sequential.rows == old(sequential.rows)
      ensures Seen() == Next(old(Seen()), Reorganizing(o, f), tree.unique)
    {
      if !Usable() {
        return NotReady;
      }
      var marked := MarkIncomplete(f.mark);
      if !marked {
        return Failed;
      }
      var stored := sequential.Reorganize(o);
      if !stored {
        return Failed;
      }
      var rebuilt := Rebuild(f);
      status := if rebuilt then Ok else Failed;
    }

    /**
     * Deletes a record: takes its association out of the index, and puts it back when the file
     * then refuses. The adapter's promise is kept, unless the file, the roll-back and the marking
     * all fail in one call.
     */
    method DeleteRecord(rid: Rid, storageFails: bool, f: Faults) returns (status: Status)
      requires Valid()
      modifies this, tree, sequential
      ensures Wired()
      ensures Valid() <==> !(old(Usable()) && rid in old(sequential.rows) && storageFails && f.rollback && f.mark)
      ensures status == (if !old(Usable()) then NotReady else if rid !in old(sequential.rows) then Refused
                         else if storageFails then Failed else Ok)
      ensures Seen() == Next(old(Seen()), Deleting(rid, storageFails, f), tree.unique)
      ensures status == Ok ==> InSync()
      ensures status != Ok && Usable() && Valid() ==> tree.Pairs() == old(tree.Pairs())
    {
      if !Usable() {
        return NotReady;
      }
      if rid !in sequential.rows {
        return Refused;
      }
      var key := sequential.rows[rid].key;
      ghost var had, e := tree.Pairs(), Entry(key, rid);
      assert e in RowPairs(sequential.rows);
      assert e in had by {
        assert e in Elements(had);
      }
      RemovedElements(had, e);
      var removed := tree.Delete(Entry(key, rid));
      assert removed == Deleted;
      ghost var less := tree.Pairs();
      var stored := sequential.Delete(rid, storageFails);
      if stored {
        RowGone(old(sequential.rows), rid);
        return Ok;
      }
      assert e !in less && |less| < |had| by {
        assert e !in Elements(less);
      }
      if f.rollback {
        var marked := MarkIncomplete(f.mark);
        assert !(e in Elements(tree.Pairs()));
        return Failed;
      }
      NoClashBack(had, less, e, tree.unique);
      var added := tree.Insert(Entry(key, rid));
      assert added == Added;
      InsertedElements(less, e);
      assert Elements(tree.Pairs()) == Elements(had);
      OneListing(tree.Pairs(), had);
      status := Failed;
    }

    /** The plain index insertion accepts the pair of a live row only, and then has nothing to add. */
    method InsertAssociation(e: Entry) returns (status: Status)
      requires Valid() && |sequential.rows| < UINT64_MAX
      modifies tree
      ensures Valid() && Usable() == old(Usable()) && tree.Pairs() == old(tree.Pairs())
      ensures status == Ok <==> Usable() && e.rid in sequential.rows && sequential.rows[e.rid].key == e.key
    {
      if !Usable() {
        return NotReady;
      }
      if e.rid !in sequential.rows || sequential.rows[e.rid].key != e.key {
        return Refused;
      }
      SortedSize(tree.Pairs());
      PairsOfRows(sequential.rows);
      assert e in RowPairs(sequential.rows);
      assert e in Elements(tree.Pairs());
      var r := tree.Insert(e);
      assert r == AlreadyThere;
      status := Ok;
    }

    /**
     * The plain index deletion takes out the pair of a row that stays live. The flags still say
     * that the index may be used, but it is then always out of step with the file.
     */
    method DeleteAssociation(e: Entry) returns (status: Status)
      requires Valid()
      modifies tree
      ensures status == Ok <==> old(Usable()) && e.rid in sequential.rows && sequential.rows[e.rid].key == e.key
      ensures Wired() && Usable() == old(Usable())
      ensures Valid() <==> status != Ok
    {
      if !Usable() {
        return NotReady;
      }
      if e.rid !in sequential.rows || sequential.rows[e.rid].key != e.key {
        return Refused;
      }
      ghost var had := tree.Pairs();
      assert e in RowPairs(sequential.rows);
      assert e in Elements(had);
      RemovedElements(had, e);
      var r := tree.Delete(e);
      assert e !in Elements(tree.Pairs());
      status := Ok;
    }

    method Perform(c: Call)
      requires Valid() && Allowed(Seen(), c, tree.unique) && !TripleFailure(Seen(), c)
      modifies this, tree, sequential
      ensures Valid() && Seen() == Next(old(Seen()), c, tree.unique)
    {
      match c {
        case Inserting(r, rid, o, f) => var status := InsertRecord(r, rid, o, f);
        case Deleting(rid, storageFails, f) => var status := DeleteRecord(rid, storageFails, f);
        case Reorganizing(o, f) => var status := Reorganize(o, f);
        case Rebuilding(f) => var ok := Rebuild(f);
        case Marking(fails) => var ok := MarkIncomplete(fails);
      }
    }

    /** After any run of calls, an index that may be used is in step with the file. */
    method Run(calls: seq<Call>)
      requires Valid() && AllowedRun(Seen(), calls, tree.unique)
      modifies this, tree, sequential
      ensures Valid() && Seen() == After(old(Seen()), calls, tree.unique)
    {
      var i := 0;
      while i < |calls|
        invariant i <= |calls| && Valid() && AllowedRun(Seen(), calls[i..], tree.unique)
        invariant After(Seen(), calls[i..], tree.unique) == After(old(Seen()), calls, tree.unique)
      {
        assert calls[i..][0] == calls[i] && calls[i..][1..] == calls[i + 1..];
        Perform(calls[i]);
        i := i + 1;
      }
    }

    /** Reads the record of every pair of a range, checking it against the pair, the bounds and the record before. */
    method ResolveRecords(entries: seq<Entry>, b: Bound) returns (status: Status, out: seq<(Rid, Record)>)
      requires Selects(entries, b, sequential.rows)
      ensures status == Ok && Filtered(sequential.rows, b, out)
    {
      out := [];
      var i := 0;
      while i < |entries|
        invariant i <= |entries| && |out| == i
        invariant forall j :: 0 <= j < i ==> out[j] == (entries[j].rid, sequential.rows[entries[j].rid])
      {
        var e := entries[i];
        assert e in entries;
        var record := sequential.rows[e.rid];
        assert i > 0 ==> NotBelow(entries, i - 1, i);
        if record.key != e.key || !InBounds(record.key, b) || (i > 0 && out[i - 1].1.key > record.key) {
          return Failed, [];
        }
        out := out + [(e.rid, record)];
        i := i + 1;
      }
      FilterResolved(entries, out, b, sequential.rows);
      status := Ok;
    }

    /** Resolves the entries of a range to their records, with the checks made on each of them. */
    method RangeRecords(b: Bound) returns (status: Status, out: seq<(Rid, Record)>)
      requires Valid()
      ensures status == (if !Usable() then NotReady
                         else if b.lower.Just? && b.upper.Just? && b.lower.value > b.upper.value then Refused else Ok)
      ensures status == Ok ==> Filtered(sequential.rows, b, out)
      ensures status != Ok ==> out == []
    {
      out := [];
      if !Usable() {
        return NotReady, out;
      }
      var entries, r;
      ghost var lo, hi;
      entries, r, lo, hi := tree.SearchRange(b);
      if r == Inverted {
        return Refused, out;
      }
      SliceIsFilter(tree.Pairs(), entries, lo, hi, b, sequential.rows, tree.unique);
      status, out := ResolveRecords(entries, b);
    }

    /** Checks that tree and file agree: as many entries as rows, and every row's pair found. */
    method ValidateStructure() returns (ok: bool)
      requires Wired()
      ensures ok <==> Usable() && InSync()
    {
      if !Usable() {
        return false;
      }
      var report;
      ghost var s, fr;
      report, s, fr := Validation.ValidateStructure(tree.pages, tree.header, tree.caps, tree.unique, tree.shape,
                                                    tree.free);
      assert report.Just?;
      SortedSize(tree.Pairs());
      PairsOfRows(sequential.rows);
      if report.value.entries != |sequential.rows| {
        return false;
      }
      var rids := sequential.Scan();
      var i := 0;
      while i < |rids|
        invariant i <= |rids|
        invariant forall j :: 0 <= j < i ==> PairOf(sequential.rows, rids[j]) in tree.Pairs()
      {
        var rid := rids[i];
        assert rid in rids;
        var found := tree.SearchKey(sequential.rows[rid].key);
        if rid !in found {
          assert PairOf(sequential.rows, rid) in RowPairs(sequential.rows);
          assert PairOf(sequential.rows, rid) !in Elements(tree.Pairs());
          return false;
        }
        i := i + 1;
      }
      forall e | e in RowPairs(sequential.rows)
        ensures e in Elements(tree.Pairs())
      {
        assert e.rid in rids;
      }
      SameSize(RowPairs(sequential.rows), Elements(tree.Pairs()));
      ok := true;
    }
  }

  /** An adapter over a file of one row. */
  method OneRow(rid: Rid) returns (a: ClusteredBPlusIndex)
    ensures fresh(a) && fresh(a.tree) && fresh(a.sequential) && a.Valid() && a.Usable()
    ensures a.sequential.rows == map[rid := Record(1.0, 0)]
  {
    var rows: Rows := map[rid := Record(1.0, 0)];
    var file := new SequentialFile(false, rows);
    ScanPairs(rows, [rid], false);
    var pairs := PairsOf(rows, [rid]);
    assert |rows| == 1 by {
      assert rows.Keys == {rid};
    }
    var ok, tree := BPlusTree.BuildFromStorage(Caps(3, 2), false, pairs, 1);
    a := new ClusteredBPlusIndex(tree, file);
  }

  /** A deletion whose file, roll-back and marking all fail leaves an index that may be used and is out of step. */
  method ShowTripleFailure() returns (a: ClusteredBPlusIndex, status: Status)
    ensures status == Failed && a.Usable() && !a.InSync()
  {
    a := OneRow(Rid(1, 1));
    status := a.DeleteRecord(Rid(1, 1), true, Faults(true, true, 0, false));
  }

  /** A plain index deletion leaves an index that may be used and is out of step. */
  method ShowPlainDeletion() returns (a: ClusteredBPlusIndex, status: Status)
    ensures status == Ok && a.Usable() && !a.InSync()
  {
    a := OneRow(Rid(1, 1));
    status := a.DeleteAssociation(Entry(1.0, Rid(1, 1)));
  }

  /** What a range over the rows must yield: every row within the bounds once, in key order. */
  ghost predicate Filtered(rows: Rows, b: Bound, out: seq<(Rid, Record)>) {
    && (forall i :: 0 <= i < |out| ==> out[i].0 in rows && out[i].1 == rows[out[i].0] && InBounds(out[i].1.key, b))
    && (forall rid :: rid in rows && InBounds(rows[rid].key, b) ==> (rid, rows[rid]) in out)
    && (forall i, j :: 0 <= i < j < |out| ==> out[i].0 != out[j].0 && out[i].1.key <= out[j].1.key)
  }

  ghost predicate NotBelow(s: seq<Entry>, i: int, j: int) {
    0 <= i < j < |s| ==> s[i].key <= s[j].key && s[i] != s[j]
  }

  /** Pairs, in index order, of exactly the rows within the bounds. */
  ghost predicate Selects(entries: seq<Entry>, b: Bound, rows: Rows) {
    && (forall e :: e in entries <==> e.rid in rows && rows[e.rid].key == e.key && InBounds(e.key, b))
    && (forall i, j :: NotBelow(entries, i, j))
  }

  /** The slice of a range, when the index is in step with the rows. */
  lemma {:induction false} SliceIsFilter(pairs: seq<Entry>, out: seq<Entry>, lo: nat, hi: nat, b: Bound, rows: Rows,
                                         unique: bool)
    requires Ordered(pairs, unique) && lo <= hi <= |pairs| && out == pairs[lo..hi] && Elements(pairs) == RowPairs(rows)
    requires forall i :: 0 <= i < |pairs| ==> (lo <= i < hi <==> InBounds(pairs[i].key, b))
    ensures Selects(out, b, rows)
  {
    forall e
      ensures e in out <==> e.rid in rows && rows[e.rid].key == e.key && InBounds(e.key, b)
    {
      assert e in RowPairs(rows) <==> e.rid in rows && rows[e.rid].key == e.key;
      assert e in Elements(pairs) <==> e in pairs;
      if e in pairs {
        var i :| 0 <= i < |pairs| && pairs[i] == e;
        if InBounds(e.key, b) {
          assert out[i - lo] == e;
        }
      }
    }
    forall i, j
      ensures NotBelow(out, i, j)
    {
      assert Rises(pairs, lo + i, lo + j);
    }
  }

  lemma {:induction false} FilterResolved(entries: seq<Entry>, out: seq<(Rid, Record)>, b: Bound, rows: Rows)
    requires Selects(entries, b, rows) && |out| == |entries|
    requires forall j :: 0 <= j < |entries| ==>
               entries[j].rid in rows && out[j] == (entries[j].rid, rows[entries[j].rid])
    ensures Filtered(rows, b, out)
  {
    forall i | 0 <= i < |out|
      ensures out[i].0 in rows && out[i].1 == rows[out[i].0] && InBounds(out[i].1.key, b)
      ensures out[i].1.key == entries[i].key
    {
      assert entries[i] in entries;
    }
    forall rid | rid in rows && InBounds(rows[rid].key, b)
      ensures (rid, rows[rid]) in out
    {
      assert PairOf(rows, rid) in entries;
      var i :| 0 <= i < |entries| && entries[i] == PairOf(rows, rid);
      assert out[i] == (rid, rows[rid]);
    }
    forall i, j | 0 <= i < j < |out|
      ensures out[i].0 != out[j].0 && out[i].1.key <= out[j].1.key
    {
      assert NotBelow(entries, i, j);
    }
  }

  lemma {:induction false} PairsOfRows(rows: Rows)
    ensures |RowPairs(rows)| == |rows|
    decreases |rows|
  {
    if rows != map[] {
      var rid :| rid in rows;
      RowGone(rows, rid);
      PairsOfRows(rows - {rid});
      assert Entry(rows[rid].key, rid) in RowPairs(rows);
      assert rows.Keys == (rows - {rid}).Keys + {rid};
    }
  }

  /** A set inside another of the same size is the other. */
  lemma {:induction false} SameSize(a: set<Entry>, b: set<Entry>)
    requires a <= b && |a| == |b|
    ensures a == b
  {
    assert b == a + (b - a);
  }

  lemma {:induction false} RowGone(rows: Rows, rid: Rid)
    requires rid in rows
    ensures RowPairs(rows - {rid}) == RowPairs(rows) - {Entry(rows[rid].key, rid)}
  {
    var fewer := rows - {rid};
    forall e
      ensures e in RowPairs(fewer) <==> e in RowPairs(rows) - {Entry(rows[rid].key, rid)}
    {
      assert e in RowPairs(rows) <==> e.rid in rows && rows[e.rid].key == e.key;
      assert e in RowPairs(fewer) <==> e.rid in fewer && fewer[e.rid].key == e.key;
    }
  }

  /** A pair that was just taken out clashes with nothing that is left. */
  lemma {:induction false} NoClashBack(had: seq<Entry>, less: seq<Entry>, e: Entry, unique: bool)
    requires Ordered(had, unique) && e in had && Elements(less) == Elements(had) - {e} && e !in less
    ensures unique ==> !Conflict(less, e)
  {
    if unique && Conflict(less, e) {
      var i :| 0 <= i < |less| && less[i].key == e.key && less[i].rid != e.rid;
      assert less[i] in Elements(less);
      var j :| 0 <= j < |had| && had[j] == less[i];
      NoClash(had, e);
      assert false;
    }
  }
}
