/** UPDATE: checks on the whole new image first, then delete, reinsert and rebuild, with a restoration. */
module Updates {
  import opened Reads

  // Expressions. Integers, floats and booleans compare with each other by their numeric value.

  datatype Value = Integer(i: int) | Float(f: real) | Boolean(b: bool) | Text(s: string)

  function Numeric(v: Value): real
    requires !v.Text?
  {
    match v
    case Integer(i) => i as real
    case Float(f) => f
    case Boolean(b) => if b then 1.0 else 0.0
  }

  datatype Term = Literal(v: Value) | Column(name: string) | Unsupported

  datatype Operator = Equal | Different | Below | AtMost | Over | AtLeast | UnknownOperator

  datatype Condition =
    | Always
    | And(left: Condition, right: Condition)
    | Or(left: Condition, right: Condition)
    | Not(term: Condition)
    | Compare(op: Operator, a: Term, b: Term)
    | Other

  type Row = map<string, Value>

  predicate TextBelow(a: string, b: string) {
    b != "" && (a == "" || a[0] < b[0] || (a[0] == b[0] && TextBelow(a[1..], b[1..])))
  }

  function ValueOf(t: Term, r: Row): Option<Value> {
    match t
    case Literal(v) => Just(v)
    case Column(name) => if name in r then Just(r[name]) else Nothing
    case Unsupported => Nothing
  }

  function Smaller(x: Value, y: Value): Option<bool> {
    if x.Text? && y.Text? then Just(TextBelow(x.s, y.s))
    else if x.Text? || y.Text? then Nothing
    else Just(Numeric(x) < Numeric(y))
  }

  predicate SameValue(x: Value, y: Value) {
    if x.Text? || y.Text? then x == y else Numeric(x) == Numeric(y)
  }

  function Negated(b: Option<bool>): Option<bool> {
    if b == Nothing then Nothing else Just(!b.value)
  }

  /** Equality is defined between all values, an order only between two numbers or two texts. */
  function Compared(op: Operator, x: Value, y: Value): Option<bool> {
    match op
    case Equal => Just(SameValue(x, y))
    case Different => Just(!SameValue(x, y))
    case Below => Smaller(x, y)
    case AtMost => Negated(Smaller(y, x))
    case Over => Smaller(y, x)
    case AtLeast => Negated(Smaller(x, y))
    case UnknownOperator => Nothing
  }

  /** The truth of a condition on a row, or an error. The right side is only looked at when it matters. */
  function Holds(c: Condition, r: Row): Option<bool> {
    match c
    case Always => Just(true)
    case And(left, right) => if Holds(left, r) == Just(true) then Holds(right, r) else Holds(left, r)
    case Or(left, right) => if Holds(left, r) == Just(false) then Holds(right, r) else Holds(left, r)
    case Not(term) => Negated(Holds(term, r))
    case Compare(op, a, b) =>
      var x, y := ValueOf(a, r), ValueOf(b, r);
      if x == Nothing || y == Nothing then Nothing else Compared(op, x.value, y.value)
    case Other => Nothing
  }

  datatype Assignment = Assignment(column: string, term: Term)

  datatype Statement = Statement(assignments: seq<Assignment>, condition: Condition)

  /** The assigned values come from the old row; a column assigned twice gets the last one. */
  function Assigned(was: Row, so: Row, assignments: seq<Assignment>): Option<Row>
    decreases |assignments|
  {
    if assignments == [] then Just(so)
    else
      var v := ValueOf(assignments[0].term, was);
      if v == Nothing then Nothing else Assigned(was, so[assignments[0].column := v.value], assignments[1..])
  }

  /** What the statement makes of one row. */
  function Updated(st: Statement, r: Row): Option<Row> {
    var hit := Holds(st.condition, r);
    if hit == Nothing then Nothing
    else if hit.value then Assigned(r, r, st.assignments)
    else Just(r)
  }

  datatype ColumnType = IntegerColumn | FloatColumn | BooleanColumn | TextColumn(limit: Option<nat>)

  predicate FitsColumn(v: Value, t: ColumnType) {
    match t
    case IntegerColumn => v.Integer?
    case FloatColumn => v.Float?
    case BooleanColumn => v.Boolean?
    case TextColumn(limit) => v.Text? && (limit.Just? ==> |v.s| <= limit.value)
  }

  type Schema = map<string, ColumnType>

  /** A row that can be stored: the declared columns with values of their types. */
  predicate FitsSchema(r: Row, schema: Schema) {
    r.Keys == schema.Keys && forall name :: name in schema ==> FitsColumn(r[name], schema[name])
  }

  /** The new image of a list of rows, when every row has one that can be stored. */
  function Image(st: Statement, schema: Schema, rows: seq<Row>): Option<seq<Row>> {
    if rows == [] then Just([])
    else
      var first, rest := Updated(st, rows[0]), Image(st, schema, rows[1..]);
      if first == Nothing || !FitsSchema(first.value, schema) || rest == Nothing then Nothing
      else Just([first.value] + rest.value)
  }

  /** No two rows of a list have the same value in a column. */
  ghost predicate ColumnUnique(rows: seq<Row>, column: string) {
    forall i, j :: 0 <= i < j < |rows| && column in rows[i] && column in rows[j] ==>
        !SameValue(rows[i][column], rows[j][column])
  }

  /** How often a row occurs. */
  ghost function Copies(rows: seq<Row>, r: Row): nat {
    if rows == [] then 0 else (if rows[0] == r then 1 else 0) + Copies(rows[1..], r)
  }

  ghost function RidsOf(live: map<nat, Row>, r: Row): set<nat> {
    set rid | rid in live && live[rid] == r
  }

  ghost function Stored(live: map<nat, Row>, r: Row): nat {
    |RidsOf(live, r)|
  }

  /** The table holds exactly the rows of a list, wherever it keeps them. */
  ghost predicate HoldsRows(live: map<nat, Row>, rows: seq<Row>) {
    forall r :: Stored(live, r) == Copies(rows, r)
  }

  lemma {:induction false} StoredMore(live: map<nat, Row>, rid: nat, row: Row, r: Row)
    requires rid !in live
    ensures Stored(live[rid := row], r) == Stored(live, r) + if row == r then 1 else 0
  {
    var more := live[rid := row];
    var a, b := RidsOf(live, r), RidsOf(more, r);
    forall k
      ensures k in b <==> k in a || (row == r && k == rid)
    {
      assert k in more <==> k in live || k == rid;
    }
    assert rid !in a;
    assert b == if row == r then a + {rid} else a;
  }

  lemma {:induction false} CopiesMore(rows: seq<Row>, row: Row, r: Row)
    ensures Copies(rows + [row], r) == Copies(rows, r) + if row == r then 1 else 0
  {
    if rows == [] {
      assert rows + [row] == [row];
      assert Copies([row][1..], r) == 0;
    } else {
      assert (rows + [row])[1..] == rows[1..] + [row];
      CopiesMore(rows[1..], row, r);
    }
  }

  /** One more row on both sides. */
  lemma {:induction false} HoldsMore(live: map<nat, Row>, rid: nat, rows: seq<Row>, row: Row)
    requires HoldsRows(live, rows) && rid !in live
    ensures HoldsRows(live[rid := row], rows + [row])
  {
    forall r
      ensures Stored(live[rid := row], r) == Copies(rows + [row], r)
    {
      StoredMore(live, rid, row, r);
      CopiesMore(rows, row, r);
    }
  }

  /** Every row identifier once. */
  ghost predicate Lists(rids: seq<nat>, live: map<nat, Row>) {
    && (forall rid :: rid in rids <==> rid in live)
    && (forall i, j :: 0 <= i < j < |rids| ==> rids[i] != rids[j])
  }

  lemma {:induction false} OneLess(rids: seq<nat>, live: map<nat, Row>)
    requires rids != [] && Lists(rids, live)
    ensures Lists(rids[1..], live - {rids[0]}) && |live - {rids[0]}| == |live| - 1
  {
    var fewer := live - {rids[0]};
    assert fewer.Keys == live.Keys - {rids[0]};
    forall rid
      ensures rid in rids[1..] <==> rid in fewer
    {
      if rid in rids && rid != rids[0] {
        var i :| 0 <= i < |rids| && rids[i] == rid;
        assert rids[1..][i - 1] == rid;
      }
    }
  }

  /** What the identifiers from a position on list. */
  ghost predicate ListsFrom(rids: seq<nat>, i: nat, live: map<nat, Row>)
    requires i <= |rids|
  {
    Lists(rids[i..], live)
  }

  lemma {:induction false} AllListed(rids: seq<nat>, live: map<nat, Row>)
    ensures Lists(rids, live) <==> ListsFrom(rids, 0, live)
    ensures ListsFrom(rids, |rids|, live) <==> live == map[]
  {
    assert rids[0..] == rids;
    if ListsFrom(rids, |rids|, live) {
      assert forall rid :: rid !in live;
    }
  }

  lemma {:induction false} OneFewer(rids: seq<nat>, i: nat, live: map<nat, Row>)
    requires i < |rids| && ListsFrom(rids, i, live)
    ensures ListsFrom(rids, i + 1, live - {rids[i]}) && |live - {rids[i]}| == |live| - 1
  {
    OneLess(rids[i..], live);
    assert rids[i..][1..] == rids[i + 1..];
  }

  /**
   * How many rows a change that fails after so many steps leaves in the table: some old ones, or else some new ones.
   */
  function StillThere(left: nat, had: nat, more: nat): nat {
    if left < had then had - left else if left < had + more then left - had else more
  }

  /** A secondary index of the table: the pairs it holds. */
  datatype IndexState = IndexState(column: string, unique: bool, pairs: set<(Value, nat)>)

  ghost function PairsFor(live: map<nat, Row>, column: string): set<(Value, nat)> {
    set rid | rid in live && column in live[rid] :: (live[rid][column], rid)
  }

  datatype Outcome = Done(affected: nat) | Rejected | Aborted

  /** A table with its indexes. Every storage or index call takes one step of a countdown to a failure. */
  class SqlTable {
    const schema: Schema
    var live: map<nat, Row>
    var nextRid: nat
    var indexes: seq<IndexState>
    var available: bool

    ghost predicate Valid()
      reads this
    {
      && (forall rid :: rid in live ==> rid < nextRid)
      && (forall i :: 0 <= i < |indexes| ==> indexes[i].column in schema)
    }

    /** Every index holds the pairs of the live rows. */
    ghost predicate InStep()
      reads this
    {
      forall i :: 0 <= i < |indexes| ==> indexes[i].pairs == PairsFor(live, indexes[i].column)
    }

    constructor (schema: Schema, indexes: seq<IndexState>)
      requires forall i :: 0 <= i < |indexes| ==> indexes[i].column in schema && indexes[i].pairs == {}
      ensures Valid() && InStep() && live == map[] && available && this.schema == schema
    {
      this.schema, this.indexes := schema, indexes;
      live, nextRid, available := map[], 0, true;
    }

    /** The live rows, each with its RID, in some order. */
    method Scan() returns (rids: seq<nat>, rows: seq<Row>)
      ensures |rids| == |rows| && (forall i :: 0 <= i < |rids| ==> rids[i] in live && live[rids[i]] == rows[i])
      ensures Lists(rids, live) && |rids| == |live|
      ensures HoldsRows(live, rows)
    {
      rids, rows := [], [];
      var rest := live.Keys;
      ghost var seen: map<nat, Row> := map[];
      assert HoldsRows(seen, rows);
      while rest != {}
        invariant |rids| == |rows| && (forall i :: 0 <= i < |rids| ==> rids[i] in live && live[rids[i]] == rows[i])
        invariant |rids| + |rest| == |live| && rest <= live.Keys && seen.Keys == live.Keys - rest
        invariant (forall k :: k in seen ==> seen[k] == live[k])
        invariant forall rid :: rid in rids <==> rid in seen
        invariant forall i, j :: 0 <= i < j < |rids| ==> rids[i] != rids[j]
        invariant HoldsRows(seen, rows)
      {
        var rid :| rid in rest;
        HoldsMore(seen, rid, rows, live[rid]);
        seen := seen[rid := live[rid]];
        rids, rows, rest := rids + [rid], rows + [live[rid]], rest - {rid};
      }
      assert seen == live;
    }

    /** Deletes rows one by one, until one deletion fails. */
    method DeleteAll(rids: seq<nat>, left: int) returns (left': int)
      requires Valid() && left >= 0 && Lists(rids, live) && |rids| == |live|
      modifies this`live
      ensures Valid() && -1 <= left' && (left' >= 0 ==> live == map[])
      ensures left' == if left < |rids| then -1 else left - |rids|
      ensures left < |rids| ==> |live| == |rids| - left
    {
      AllListed(rids, live);
      hide Lists, ListsFrom;
      left' := left;
      var i := 0;
      while i < |rids|
        invariant i <= |rids| && Valid() && left' == left - i >= 0
        invariant ListsFrom(rids, i, live) && |live| == |rids| - i
      {
        if left' == 0 {
          return -1;
        }
        OneFewer(rids, i, live);
        live := live - {rids[i]};
        left', i := left' - 1, i + 1;
      }
      AllListed(rids, live);
    }

    /** Inserts rows one by one, until one insertion fails. */
    method InsertAll(rows: seq<Row>, left: int) returns (left': int)
      requires Valid() && left >= 0 && live == map[]
      modifies this`live, this`nextRid
      ensures Valid() && -1 <= left' && (left' >= 0 ==> HoldsRows(live, rows))
      ensures left' == if left < |rows| then -1 else left - |rows|
      ensures |live| == if left < |rows| then left else |rows|
    {
      left' := left;
      var i := 0;
      assert HoldsRows(live, rows[..0]);
      while i < |rows|
        invariant i <= |rows| && Valid() && left' == left - i >= 0 && HoldsRows(live, rows[..i]) && |live| == i
      {
        if left' == 0 {
          return -1;
        }
        HoldsMore(live, nextRid, rows[..i], rows[i]);
        assert rows[..i + 1] == rows[..i] + [rows[i]];
        live, nextRid := live[nextRid := rows[i]], nextRid + 1;
        left', i := left' - 1, i + 1;
      }
      assert rows[..i] == rows;
    }

    function Pairs(column: string): set<(Value, nat)>
      reads this
    {
      set rid | rid in live.Keys && column in live[rid] :: (live[rid][column], rid)
    }

    /** Rebuilds the indexes one by one, until one rebuild fails. */
    method RebuildAll(left: int) returns (left': int)
      requires Valid() && left >= 0
      modifies this`indexes
      ensures Valid() && -1 <= left' && (left' >= 0 ==> InStep())
      ensures left' == if left < |indexes| then -1 else left - |indexes|
      ensures |indexes| == |old(indexes)|
      ensures forall i :: 0 <= i < |indexes| ==>
                indexes[i].column == old(indexes)[i].column && indexes[i].unique == old(indexes)[i].unique
    {
      left' := left;
      var i := 0;
      while i < |indexes|
        invariant i <= |indexes| == |old(indexes)| && Valid() && left' == left - i >= 0
        invariant forall j :: 0 <= j < |indexes| ==>
                    indexes[j].column == old(indexes)[j].column && indexes[j].unique == old(indexes)[j].unique
        invariant forall j :: 0 <= j < i ==> indexes[j].pairs == PairsFor(live, indexes[j].column)
      {
        if left' == 0 {
          return -1;
        }
        indexes := indexes[i := indexes[i].(pairs := Pairs(indexes[i].column))];
        left', i := left' - 1, i + 1;
      }
    }

    /** The whole change of the table: all rows out, the given rows in, all indexes rebuilt, everything flushed. */
    method Replace(rids: seq<nat>, rows: seq<Row>, left: int) returns (ok: bool)
      requires Valid() && left >= 0 && Lists(rids, live) && |rids| == |live|
      modifies this`live, this`nextRid, this`indexes
      ensures Valid() && ok == (left > |rids| + |rows| + |indexes|)
      ensures |indexes| == |old(indexes)|
      ensures forall i :: 0 <= i < |indexes| ==>
                indexes[i].column == old(indexes)[i].column && indexes[i].unique == old(indexes)[i].unique
      ensures ok ==> HoldsRows(live, rows) && InStep()
      ensures !ok ==> |live| == StillThere(left, |rids|, |rows|)
    {
      var l := DeleteAll(rids, left);
      if l < 0 {
        return false;
      }
      l := InsertAll(rows, l);
      if l < 0 {
        return false;
      }
      l := RebuildAll(l);
      ok := l > 0;
    }

    /** No unique index would hold a value twice. */
    method UniqueHolds(rows: seq<Row>) returns (ok: bool)
      requires Valid() && forall i :: 0 <= i < |rows| ==> FitsSchema(rows[i], schema)
      ensures ok <==> forall i :: 0 <= i < |indexes| && indexes[i].unique ==> ColumnUnique(rows, indexes[i].column)
    {
      var i := 0;
      while i < |indexes|
        invariant i <= |indexes|
        invariant forall k :: 0 <= k < i && indexes[k].unique ==> ColumnUnique(rows, indexes[k].column)
      {
        if indexes[i].unique {
          var distinct := AllDifferent(rows, indexes[i].column);
          if !distinct {
            return false;
          }
        }
        i := i + 1;
      }
      ok := true;
    }

    method AllDifferent(rows: seq<Row>, column: string) returns (ok: bool)
      requires forall i :: 0 <= i < |rows| ==> column in rows[i]
      ensures ok <==> ColumnUnique(rows, column)
    {
      var seen: seq<Value> := [];
      var i := 0;
      while i < |rows|
        invariant i <= |rows| && |seen| == i
        invariant forall k :: 0 <= k < i ==> seen[k] == rows[k][column]
        invariant ColumnUnique(rows[..i], column)
      {
        var key := rows[i][column];
        if exists k | 0 <= k < |seen| :: SameValue(seen[k], key) {
          return false;
        }
        seen, i := seen + [key], i + 1;
      }
      assert rows[..i] == rows;
      ok := true;
    }

    /** Builds the complete new image and counts the rows that the condition selects. */
    method BuildImage(st: Statement, rows: seq<Row>) returns (image: Option<seq<Row>>, affected: nat)
      ensures image == Image(st, schema, rows)
      ensures image.Just? ==> affected == Affected(st, rows)
    {
      var out: seq<Row> := [];
      affected := 0;
      var i := 0;
      assert rows[0..] == rows;
      ghost var all := Image(st, schema, rows);
      assert all.Just? ==> [] + all.value == all.value;
      while i < |rows|
        invariant i <= |rows|
        invariant Image(st, schema, rows) == Prepended(out, Image(st, schema, rows[i..]))
        invariant Affected(st, rows) == affected + Affected(st, rows[i..])
      {
        assert rows[i..][0] == rows[i] && rows[i..][1..] == rows[i + 1..];
        var made := Updated(st, rows[i]);
        if made == Nothing || !FitsSchema(made.value, schema) {
          return Nothing, affected;
        }
        ghost var rest := Image(st, schema, rows[i + 1..]);
        assert rest.Just? ==> out + ([made.value] + rest.value) == (out + [made.value]) + rest.value;
        if Holds(st.condition, rows[i]) == Just(true) {
          affected := affected + 1;
        }
        out, i := out + [made.value], i + 1;
      }
      assert out + [] == out;
      image := Just(out);
    }

    /** The checks on the whole new image, before anything is touched. */
    method Prepare(st: Statement, rows: seq<Row>) returns (image: Option<seq<Row>>, affected: nat)
      requires Valid()
      ensures image.Just? <==> Acceptable(st, schema, rows, indexes)
      ensures image.Just? ==> image == Image(st, schema, rows) && affected == Affected(st, rows)
    {
      if exists i | 0 <= i < |st.assignments| :: st.assignments[i].column !in schema {
        return Nothing, 0;
      }
      image, affected := BuildImage(st, rows);
      if image == Nothing || affected == 0 {
        return;
      }
      ImageFits(st, schema, rows);
      var distinct := UniqueHolds(image.value);
      if !distinct {
        image := Nothing;
      }
    }

    /** Changes the table, and when that fails part-way puts the old rows back or gives the database up. */
    method ReplaceOrRestore(rids: seq<nat>, had: seq<Row>, rows: seq<Row>, left: nat, restoreLeft: nat)
      returns (ok: bool)
      requires Valid() && available && Lists(rids, live) && |rids| == |live|
      modifies this
      ensures Valid() && ok == (left > |rids| + |rows| + |indexes|)
      ensures |indexes| == |old(indexes)|
      ensures forall i :: 0 <= i < |indexes| ==>
                indexes[i].column == old(indexes)[i].column && indexes[i].unique == old(indexes)[i].unique
      ensures ok ==> available && HoldsRows(live, rows) && InStep()
      ensures !ok ==> (available <==> restoreLeft > StillThere(left, |rids|, |rows|) + |had| + |indexes|)
      ensures !ok && available ==> HoldsRows(live, had) && InStep()
    {
      hide Lists, HoldsRows;
      ok := Replace(rids, rows, left);
      if !ok {
        var now, mixed := Scan();
        available := Replace(now, had, restoreLeft);
      }
    }

    /**
     * Performs an UPDATE. left and restoreLeft say after how many storage and index steps the
     * change, and then its restoration, fails. The restoration starts by deleting what the broken
     * change has left behind.
     */
    method Update(st: Statement, left: nat, restoreLeft: nat) returns (o: Outcome, ghost rows: seq<Row>)
      requires Valid() && InStep() && available
      modifies this
      ensures Valid() && HoldsRows(old(live), rows) && |rows| == |old(live)|
      ensures o.Rejected? || (o.Done? && o.affected == 0) ==> live == old(live) && indexes == old(indexes) && available
      ensures o.Rejected? <==> rows != [] && !Acceptable(st, schema, rows, old(indexes))
      ensures o.Done? ==> available && InStep() && o.affected == Affected(st, rows)
      ensures o.Done? && rows != [] ==> Image(st, schema, rows).Just? && HoldsRows(live, Image(st, schema, rows).value)
      ensures o.Done? && o.affected > 0 ==>
                forall i :: 0 <= i < |indexes| && indexes[i].unique ==>
                    ColumnUnique(Image(st, schema, rows).value, indexes[i].column)
      ensures o.Aborted? && available ==> HoldsRows(live, rows) && InStep()
      ensures o.Aborted? <==> !o.Rejected? && rows != [] && Affected(st, rows) > 0 && left <= 2 * |rows| + |indexes|
      ensures o.Aborted? ==> (available <==> restoreLeft > StillThere(left, |rows|, |rows|) + |rows| + |indexes|)
    {
      var rids, had;
      rids, had := Scan();
      rows := had;
      if had == [] {
        return Done(0), rows;
      }
      var image, affected := Prepare(st, had);
      if image == Nothing {
        return Rejected, rows;
      }
      ImageFits(st, schema, had);
      if affected == 0 {
        NothingAffected(st, schema, had);
        return Done(0), rows;
      }
      hide Lists, HoldsRows, Image, Affected, FitsSchema, ColumnUnique;
      var ok := ReplaceOrRestore(rids, had, image.value, left, restoreLeft);
      o := if ok then Done(affected) else Aborted;
    }
  }

  ghost function Prepended(a: seq<Row>, b: Option<seq<Row>>): Option<seq<Row>> {
    if b == Nothing then Nothing else Just(a + b.value)
  }

  /** How many rows the condition selects. */
  ghost function Affected(st: Statement, rows: seq<Row>): nat {
    if rows == [] then 0 else (if Holds(st.condition, rows[0]) == Just(true) then 1 else 0) + Affected(st, rows[1..])
  }

  /** The checks that a statement must pass before anything is touched. */
  ghost predicate Acceptable(st: Statement, schema: Schema, rows: seq<Row>, indexes: seq<IndexState>) {
    && (forall i :: 0 <= i < |st.assignments| ==> st.assignments[i].column in schema)
    && Image(st, schema, rows).Just?
    && (Affected(st, rows) > 0 ==>
          forall i :: 0 <= i < |indexes| && indexes[i].unique ==>
          ColumnUnique(Image(st, schema, rows).value, indexes[i].column))
  }

  lemma {:induction false} ImageFits(st: Statement, schema: Schema, rows: seq<Row>)
    requires Image(st, schema, rows).Just?
    ensures var image := Image(st, schema, rows).value;
            |image| == |rows| && forall i :: 0 <= i < |image| ==>
                FitsSchema(image[i], schema) && Updated(st, rows[i]) == Just(image[i])
  {
    if rows != [] {
      ImageFits(st, schema, rows[1..]);
    }
  }

  /** A statement that selects no row leaves them all as they are. */
  lemma {:induction false} NothingAffected(st: Statement, schema: Schema, rows: seq<Row>)
    requires Image(st, schema, rows).Just? && Affected(st, rows) == 0
    ensures Image(st, schema, rows) == Just(rows)
  {
    if rows != [] {
      NothingAffected(st, schema, rows[1..]);
      assert rows == [rows[0]] + rows[1..];
    }
  }
}
