/**
 * One hierarchy table of the nested-set encoding: rows `(id, left, right, title, description)`
 * kept in physical order, the invariant the structural operations must keep, the primitive
 * statements the operations are made of (`UPDATE ... WHERE bound > X`, `DELETE ... WHERE left
 * BETWEEN ...`, `INSERT`), and the declarative shifts those statements amount to.
 */
module NestedSetTable {
  import opened Results

  /** One row of a hierarchy table. */
  datatype Row = Row(id: int, left: int, right: int, title: string, description: string)

  /** A `where` object of the form `{id: n}` or `{title: t}`. */
  datatype Cond = IdIs(id: int) | TitleIs(title: string)

  predicate Matches(r: Row, c: Cond) {
    match c
    case IdIs(n) => r.id == n
    case TitleIs(t) => r.title == t
  }

  /** SQL `x BETWEEN a.left AND a.right`: `a` is an ancestor-or-self of the row whose left is `x`. */
  predicate Within(x: int, a: Row) {
    a.left <= x <= a.right
  }

  /** `b` starts strictly inside `a`: in a well-nested table, `b` is a proper descendant of `a`. */
  predicate Inside(b: Row, a: Row) {
    a.left < b.left < a.right
  }

  /** The four bounds of `a` and `b` are distinct and the intervals are disjoint or strictly nested. */
  predicate ProperlyNested(a: Row, b: Row) {
    && a.left != b.left && a.left != b.right && a.right != b.left && a.right != b.right
    && (|| a.right < b.left || b.right < a.left
        || (a.left < b.left && b.right < a.right)
        || (b.left < a.left && a.right < b.right))
  }

  /** Two distinct rows of one table: different ids, properly nested intervals. */
  predicate Compatible(a: Row, b: Row) {
    a.id != b.id && ProperlyNested(a, b)
  }

  /** Every row has `left < right`. */
  predicate Ordered(rows: seq<Row>) {
    forall i :: 0 <= i < |rows| ==> rows[i].left < rows[i].right
  }

  /** Ids are unique; intervals are pairwise disjoint or strictly nested; bounds are unique. */
  predicate Pairwise(rows: seq<Row>) {
    forall i, j :: 0 <= i < |rows| && 0 <= j < |rows| && i != j ==> Compatible(rows[i], rows[j])
  }

  /** Number of rows that start strictly inside `a`, i.e. the descendants of `a`. */
  function CountInside(rows: seq<Row>, a: Row): nat {
    if rows == [] then 0
    else CountInside(rows[..|rows| - 1], a) + (if Inside(rows[|rows| - 1], a) then 1 else 0)
  }

  /** For every row, `(right - left - 1) / 2` is exactly its number of descendants. */
  predicate CountsExact(rows: seq<Row>) {
    forall i :: 0 <= i < |rows| ==> 2 * CountInside(rows, rows[i]) + 1 == rows[i].right - rows[i].left
  }

  /** The nested-set invariant of a hierarchy table. */
  predicate Valid(rows: seq<Row>) {
    Ordered(rows) && Pairwise(rows) && CountsExact(rows)
  }

  predicate HasId(rows: seq<Row>, id: int) {
    exists i :: 0 <= i < |rows| && rows[i].id == id
  }

  /** Index of the first row satisfying `c`, or `|rows|` when there is none. */
  function FirstIndex(rows: seq<Row>, c: Cond): (k: nat)
    ensures k <= |rows|
    ensures k < |rows| ==> Matches(rows[k], c)
    ensures forall j :: 0 <= j < k ==> !Matches(rows[j], c)
  {
    if rows == [] then 0
    else if Matches(rows[0], c) then 0
    else 1 + FirstIndex(rows[1..], c)
  }

  /** `SELECT ... WHERE c LIMIT 1`: the first row in table order that satisfies `c`. */
  function FirstMatch(rows: seq<Row>, c: Cond): Option<Row> {
    var k := FirstIndex(rows, c);
    if k < |rows| then Some(rows[k]) else None
  }

  /** With unique ids, looking a row up by its id finds exactly that row. */
  lemma FirstMatchById(rows: seq<Row>, k: int)
    requires Pairwise(rows) && 0 <= k < |rows|
    ensures FirstMatch(rows, IdIs(rows[k].id)) == Some(rows[k])
  {
  }

  /** An absent id is looked up as nothing. */
  lemma FirstMatchAbsent(rows: seq<Row>, id: int)
    requires !HasId(rows, id)
    ensures FirstMatch(rows, IdIs(id)) == None
  {
  }

  // ---------------------------------------------------------------------------------------------
  // Primitive statements, as the storage engine executes them

  /** The comparison of an `UPDATE ... WHERE bound > pivot` or `... WHERE bound >= pivot`. */
  datatype Cmp = Gt | Ge

  predicate Holds(c: Cmp, v: int, pivot: int) {
    match c
    case Gt => v > pivot
    case Ge => v >= pivot
  }

  /** `UPDATE t SET right = right + delta WHERE right <c> pivot` (knex increment/decrement). */
  function IncrementRight(rows: seq<Row>, c: Cmp, pivot: int, delta: int): (r: seq<Row>)
    ensures |r| == |rows|
  {
    seq(|rows|, i requires 0 <= i < |rows| =>
      if Holds(c, rows[i].right, pivot) then rows[i].(right := rows[i].right + delta) else rows[i])
  }

  /** `UPDATE t SET left = left + delta WHERE left <c> pivot`. */
  function IncrementLeft(rows: seq<Row>, c: Cmp, pivot: int, delta: int): (r: seq<Row>)
    ensures |r| == |rows|
  {
    seq(|rows|, i requires 0 <= i < |rows| =>
      if Holds(c, rows[i].left, pivot) then rows[i].(left := rows[i].left + delta) else rows[i])
  }

  /** `UPDATE t SET left = left + delta, right = right + delta WHERE left BETWEEN lo AND hi`. */
  function IncrementBetween(rows: seq<Row>, lo: int, hi: int, delta: int): (r: seq<Row>)
    ensures |r| == |rows|
  {
    seq(|rows|, i requires 0 <= i < |rows| =>
      if lo <= rows[i].left <= hi
      then rows[i].(left := rows[i].left + delta, right := rows[i].right + delta)
      else rows[i])
  }

  /** Number of rows with `lo <= left <= hi`: what `DELETE ... WHERE left BETWEEN lo AND hi` reports. */
  function CountLeftIn(rows: seq<Row>, lo: int, hi: int): nat {
    if rows == [] then 0
    else CountLeftIn(rows[..|rows| - 1], lo, hi) + (if lo <= rows[|rows| - 1].left <= hi then 1 else 0)
  }

  /** `DELETE FROM t WHERE left BETWEEN lo AND hi` (with `lo == hi`: `WHERE left = lo`). */
  function DeleteLeftIn(rows: seq<Row>, lo: int, hi: int): (r: seq<Row>)
    ensures |r| == |rows| - CountLeftIn(rows, lo, hi)
  {
    if rows == [] then []
    else
      var last := rows[|rows| - 1];
      DeleteLeftIn(rows[..|rows| - 1], lo, hi) + (if lo <= last.left <= hi then [] else [last])
  }

  /** The rows kept by `DeleteLeftIn` are exactly those whose left is outside [lo, hi]. */
  lemma {:induction false} DeleteLeftInMembers(rows: seq<Row>, lo: int, hi: int)
    ensures forall x :: x in DeleteLeftIn(rows, lo, hi) <==> x in rows && !(lo <= x.left <= hi)
  {
    if rows != [] {
      var pre := rows[..|rows| - 1];
      DeleteLeftInMembers(pre, lo, hi);
      assert rows == pre + [rows[|rows| - 1]];
    }
  }


  /** Number of rows satisfying `c`: the rows an `UPDATE ... WHERE c` reaches. */
  function CountMatching(rows: seq<Row>, c: Cond): nat {
    if rows == [] then 0
    else CountMatching(rows[..|rows| - 1], c) + (if Matches(rows[|rows| - 1], c) then 1 else 0)
  }

  /**
   * `UPDATE t SET title = ?, description = ? WHERE c`, setting only the fields that are given: the
   * rows that do not satisfy `c` are untouched, and no id or bound changes.
   */
  function EditRows(rows: seq<Row>, c: Cond, title: Option<string>, description: Option<string>): (r: seq<Row>)
    ensures |r| == |rows|
    ensures forall i :: 0 <= i < |rows| ==>
      && r[i].id == rows[i].id && r[i].left == rows[i].left && r[i].right == rows[i].right
      && (!Matches(rows[i], c) ==> r[i] == rows[i])
      && (Matches(rows[i], c) && title.Some? ==> r[i].title == title.value)
      && (Matches(rows[i], c) && title.None? ==> r[i].title == rows[i].title)
      && (Matches(rows[i], c) && description.Some? ==> r[i].description == description.value)
      && (Matches(rows[i], c) && description.None? ==> r[i].description == rows[i].description)
  {
    seq(|rows|, i requires 0 <= i < |rows| =>
      if Matches(rows[i], c)
      then rows[i].(title := if title.Some? then title.value else rows[i].title,
                    description := if description.Some? then description.value else rows[i].description)
      else rows[i])
  }

  // ---------------------------------------------------------------------------------------------
  // Declarative bound shifts

  /**
   * What a structural operation does to every remaining bound:
   *   Open(at):        bounds above `at` move up by 2, leaving room for a new row [at+1, at+2];
   *   Promote(lo, hi): the row [lo, hi] is gone, bounds inside it move down by 1, bounds above by 2;
   *   Close(hi, w):    the subtree ending at `hi`, of width `w`, is gone, bounds above move down by `w`.
   */
  datatype Shift = Open(at: int) | Promote(lo: int, hi: int) | Close(hi: int, width: int)

  function Apply(s: Shift, v: int): int {
    match s
    case Open(at) => if v > at then v + 2 else v
    case Promote(lo, hi) => if v > hi then v - 2 else if v > lo then v - 1 else v
    case Close(hi, w) => if v > hi then v - w else v
  }

  predicate ShiftOk(s: Shift) {
    match s
    case Open(_) => true
    case Promote(lo, hi) => lo < hi
    case Close(_, w) => w >= 1
  }

  /** The bounds that survive the operation (the removed row's or subtree's bounds are excluded). */
  predicate Admissible(s: Shift, v: int) {
    match s
    case Open(_) => true
    case Promote(lo, hi) => v != lo && v != hi
    case Close(hi, w) => v <= hi - w || v > hi
  }

  predicate AdmissibleRow(s: Shift, r: Row) {
    Admissible(s, r.left) && Admissible(s, r.right)
  }

  predicate AdmissibleRows(s: Shift, rows: seq<Row>) {
    forall i :: 0 <= i < |rows| ==> AdmissibleRow(s, rows[i])
  }

  function MapRow(r: Row, s: Shift): Row {
    r.(left := Apply(s, r.left), right := Apply(s, r.right))
  }

  function MapBounds(rows: seq<Row>, s: Shift): (r: seq<Row>)
    ensures |r| == |rows|
  {
    seq(|rows|, i requires 0 <= i < |rows| => MapRow(rows[i], s))
  }

  /** A shift is strictly increasing on the bounds that survive it. */
  lemma ApplyMonotone(s: Shift, x: int, y: int)
    requires ShiftOk(s) && Admissible(s, x) && Admissible(s, y) && x < y
    ensures Apply(s, x) < Apply(s, y)
  {
  }

  lemma MapKeepsNesting(s: Shift, a: Row, b: Row)
    requires ShiftOk(s) && AdmissibleRow(s, a) && AdmissibleRow(s, b)
    requires a.left < a.right && b.left < b.right && ProperlyNested(a, b)
    ensures MapRow(a, s).left < MapRow(a, s).right
    ensures ProperlyNested(MapRow(a, s), MapRow(b, s))
  {
    var xs := [a.left, a.right, b.left, b.right];
    forall i, j | 0 <= i < 4 && 0 <= j < 4 && xs[i] < xs[j]
      ensures Apply(s, xs[i]) < Apply(s, xs[j])
    {
      ApplyMonotone(s, xs[i], xs[j]);
    }
  }

  lemma MapKeepsInside(s: Shift, a: Row, b: Row)
    requires ShiftOk(s) && AdmissibleRow(s, a) && AdmissibleRow(s, b)
    ensures Inside(MapRow(b, s), MapRow(a, s)) == Inside(b, a)
  {
    var xs := [a.left, a.right, b.left];
    forall i, j | 0 <= i < 3 && 0 <= j < 3 && xs[i] < xs[j]
      ensures Apply(s, xs[i]) < Apply(s, xs[j])
    {
      ApplyMonotone(s, xs[i], xs[j]);
    }
  }

  // ---------------------------------------------------------------------------------------------
  // The table itself

  /** A hierarchy table in the database: its rows and its AUTO_INCREMENT counter. */
  class Table {
    var rows: seq<Row>
    var nextId: int

    /** Ids are unique and every id was handed out by the counter. */
    ghost predicate IdsOk()
      reads this
    {
      IdsBelow(rows, nextId)
    }

    /** A freshly created, empty table whose AUTO_INCREMENT starts at 1. */
    constructor ()
      ensures rows == [] && nextId == 1 && IdsOk()
    {
      rows := [];
      nextId := 1;
    }

    /** `INSERT INTO t (...)`: appends a row under the next AUTO_INCREMENT id and returns that id. */
    method Insert(left: int, right: int, title: string, description: string) returns (id: int)
      requires IdsOk()
      modifies this
      ensures IdsOk()
      ensures id == old(nextId) && nextId == old(nextId) + 1
      ensures rows == old(rows) + [Row(id, left, right, title, description)]
    {
      id := nextId;
      rows := rows + [Row(id, left, right, title, description)];
      nextId := nextId + 1;
    }

    /** `UPDATE t SET right = right + delta WHERE right <c> pivot`. */
    method UpdateRight(c: Cmp, pivot: int, delta: int)
      requires IdsOk()
      modifies this
      ensures IdsOk() && nextId == old(nextId)
      ensures rows == IncrementRight(old(rows), c, pivot, delta)
    {
      rows := IncrementRight(rows, c, pivot, delta);
    }

    /** `UPDATE t SET left = left + delta WHERE left <c> pivot`. */
    method UpdateLeft(c: Cmp, pivot: int, delta: int)
      requires IdsOk()
      modifies this
      ensures IdsOk() && nextId == old(nextId)
      ensures rows == IncrementLeft(old(rows), c, pivot, delta)
    {
      rows := IncrementLeft(rows, c, pivot, delta);
    }

    /** `UPDATE t SET left = left + delta, right = right + delta WHERE left BETWEEN lo AND hi`. */
    method UpdateBetween(lo: int, hi: int, delta: int)
      requires IdsOk()
      modifies this
      ensures IdsOk() && nextId == old(nextId)
      ensures rows == IncrementBetween(old(rows), lo, hi, delta)
    {
      rows := IncrementBetween(rows, lo, hi, delta);
    }

    /** `DELETE FROM t WHERE left BETWEEN lo AND hi`; returns the number of rows deleted. */
    method DeleteWhereLeftIn(lo: int, hi: int) returns (count: nat)
      requires IdsOk()
      modifies this
      ensures IdsOk() && nextId == old(nextId)
      ensures rows == DeleteLeftIn(old(rows), lo, hi)
      ensures count == CountLeftIn(old(rows), lo, hi) == |old(rows)| - |rows|
    {
      count := CountLeftIn(rows, lo, hi);
      DeleteKeepsIds(rows, lo, hi, nextId);
      rows := DeleteLeftIn(rows, lo, hi);
    }

    /** `UPDATE t SET title = ?, description = ? WHERE c`; returns the number of rows it reaches. */
    method UpdateFields(c: Cond, title: Option<string>, description: Option<string>) returns (count: nat)
      requires IdsOk()
      modifies this
      ensures IdsOk() && nextId == old(nextId)
      ensures rows == EditRows(old(rows), c, title, description)
      ensures count == CountMatching(old(rows), c)
    {
      count := CountMatching(rows, c);
      rows := EditRows(rows, c, title, description);
    }

    /** `TRUNCATE`-like `DELETE FROM t` followed by `ALTER TABLE t AUTO_INCREMENT=1`. */
    method Clear() returns (count: nat)
      modifies this
      ensures rows == [] && nextId == 1 && IdsOk()
      ensures count == |old(rows)|
    {
      count := |rows|;
      rows := [];
      nextId := 1;
    }
  }

  /** Ids are unique and all below the next AUTO_INCREMENT value. */
  ghost predicate IdsBelow(rows: seq<Row>, next: int) {
    && (forall i, j :: 0 <= i < |rows| && 0 <= j < |rows| && i != j ==> rows[i].id != rows[j].id)
    && (forall i :: 0 <= i < |rows| ==> rows[i].id < next)
  }

  lemma DeleteKeepsIds(rows: seq<Row>, lo: int, hi: int, next: int)
    requires IdsBelow(rows, next)
    ensures IdsBelow(DeleteLeftIn(rows, lo, hi), next)
  {
    if rows != [] {
      var pre := rows[..|rows| - 1];
      var last := rows[|rows| - 1];
      IdsBelowPrefix(rows, next);
      DeleteKeepsIds(pre, lo, hi, next);
      var d := DeleteLeftIn(pre, lo, hi);
      if !(lo <= last.left <= hi) {
        assert DeleteLeftIn(rows, lo, hi) == d + [last];
        DeleteLeftInMembers(pre, lo, hi);
        forall x | x in d ensures x.id != last.id {
          var j :| 0 <= j < |pre| && pre[j] == x;
          assert rows[j] == x;
        }
        IdsBelowSnoc(d, last, next);
      }
    }
  }

  lemma IdsBelowPrefix(rows: seq<Row>, next: int)
    requires IdsBelow(rows, next) && rows != []
    ensures IdsBelow(rows[..|rows| - 1], next)
  {
    var pre := rows[..|rows| - 1];
    assert forall i :: 0 <= i < |pre| ==> pre[i] == rows[i];
  }

  lemma IdsBelowSnoc(d: seq<Row>, last: Row, next: int)
    requires IdsBelow(d, next) && last.id < next
    requires forall x :: x in d ==> x.id != last.id
    ensures IdsBelow(d + [last], next)
  {
    var r := d + [last];
    assert forall i :: 0 <= i < |d| ==> r[i] == d[i] && d[i] in d;
    assert r[|d|] == last;
  }
}
