/**
 * The extended nested-set engine: the same structural operations addressed by a `where` condition
 * instead of an id, inserts that carry a title and a description, and field edits. The queries of
 * the extended engine (`pathConditional`, `childrenConditional`, `descendantsConditional`,
 * `leavesConditional`, `getIdConditional`) are the condition-taking functions of
 * `NestedSetQueries`.
 *
 * `insertChildData` and `insertSiblingData` shift the lefts above the parent's (or sibling's)
 * *left* while shifting the rights relative to its *right*. They are modelled as written, proved
 * to keep the invariant exactly when that row has no descendants, and paired with corrected
 * versions that keep it always.
 */
module NestedSetExtended {
  import opened Results
  import opened NestedSetTable
  import opened NestedSetShifts
  import opened NestedSetStatements
  import opened NestedSetQueries
  import opened NestedSetBase

  /** `(Left, Right)` of the first row satisfying `w`, or `(0, 0)` when there is none. */
  function BoundsOf(rows: seq<Row>, w: Cond): (int, int) {
    match FirstMatch(rows, w)
    case None => (0, 0)
    case Some(x) => (x.left, x.right)
  }

  // ---------------------------------------------------------------------------------------------
  // insertChildData

  /** The statements of `insertChildData` as written: rights `>= r` and lefts `> l` move up by two. */
  function ChildDataShift(rows: seq<Row>, l: int, r: int): seq<Row> {
    IncrementLeft(IncrementRight(rows, Ge, r, 2), Gt, l, 2)
  }

  /**
   * `insertChildData(where, title, description)` as written: with `(l, r)` the parent's bounds,
   * rights `>= r` and lefts `> l` move up by two and the row `[r, r + 1]` is inserted.
   */
  method InsertChildData(t: Table, w: Cond, title: string, description: string) returns (id: int)
    requires t.IdsOk()
    modifies t
    ensures t.IdsOk() && id == old(t.nextId) && t.nextId == id + 1
    ensures var (l, r) := BoundsOf(old(t.rows), w);
      t.rows == ChildDataShift(old(t.rows), l, r) + [Row(id, r, r + 1, title, description)]
  {
    var (l, r) := BoundsOf(t.rows, w);
    t.UpdateRight(Ge, r, 2);
    t.UpdateLeft(Gt, l, 2);
    id := t.Insert(r, r + 1, title, description);
  }

  /**
   * On a valid table, `insertChildData` under `rows[k]` keeps the table valid exactly when
   * `rows[k]` is a leaf: then it is the shift `Open(left)` and the new row `[left + 1, left + 2]`;
   * otherwise some leaf below `rows[k]` ends up with its left above its right.
   */
  lemma ChildDataValidIffLeaf(rows: seq<Row>, k: int, n: Row)
    requires Valid(rows) && 0 <= k < |rows| && !HasId(rows, n.id)
    requires n.left == rows[k].right && n.right == rows[k].right + 1
    ensures Valid(ChildDataShift(rows, rows[k].left, rows[k].right) + [n]) <==> IsLeaf(rows[k])
  {
    var x := rows[k];
    var u := ChildDataShift(rows, x.left, x.right);
    if IsLeaf(x) {
      ChildDataShiftLeaf(rows, k);
      OpenGapValid(rows, x.left, n);
    } else {
      var j := LeafBelow(rows, k);
      assert (u + [n])[j] == u[j];
    }
  }

  /** Under a leaf, the statements of `insertChildData` as written are the shift `Open(left)`. */
  lemma ChildDataShiftLeaf(rows: seq<Row>, k: int)
    requires Valid(rows) && 0 <= k < |rows| && IsLeaf(rows[k])
    ensures ChildDataShift(rows, rows[k].left, rows[k].right) == MapBounds(rows, Open(rows[k].left))
  {
    var x := rows[k];
    var u := ChildDataShift(rows, x.left, x.right);
    var m := MapBounds(rows, Open(x.left));
    forall i | 0 <= i < |rows| ensures u[i] == m[i] {
      if i != k {
        assert Compatible(rows[i], x);
      }
    }
  }

  /** A valid table with the root `[1, 4]` over the child `[2, 3]`. */
  function TwoLevels(): seq<Row> {
    [Row(1, 1, 4, "root", ""), Row(2, 2, 3, "child", "")]
  }

  /**
   * The defect, on an instance: adding a child under the root of `TwoLevels` turns the existing
   * child into `[4, 3]`, and the result is not a nested set.
   */
  lemma ChildDataCounterexample()
    ensures Valid(TwoLevels())
    ensures var after := ChildDataShift(TwoLevels(), 1, 4) + [Row(3, 4, 5, "new", "")];
      after[1] == Row(2, 4, 3, "child", "") && !Valid(after)
  {
    var rows := TwoLevels();
    assert rows[..1][..0] == [];
    assert CountInside(rows, rows[0]) == 1;
    assert CountInside(rows, rows[1]) == 0;
    var after := ChildDataShift(rows, 1, 4) + [Row(3, 4, 5, "new", "")];
    assert after[1].left > after[1].right;
  }

  /**
   * `insertChildData` with the left shift taken relative to the parent's right, as its right shift
   * and the position of the new row already are: rights and lefts `>= r` move up by two and the row
   * `[r, r + 1]` becomes the parent's last child.
   */
  method InsertChildDataCorrected(t: Table, w: Cond, title: string, description: string) returns (id: int)
    requires t.IdsOk()
    modifies t
    ensures t.IdsOk() && id == old(t.nextId) && t.nextId == id + 1
    ensures var r := BoundsOf(old(t.rows), w).1;
      t.rows == MapBounds(old(t.rows), Open(r - 1)) + [Row(id, r, r + 1, title, description)]
    ensures Valid(old(t.rows)) ==> Valid(t.rows)
  {
    ghost var before := t.rows;
    var (_, r) := BoundsOf(t.rows, w);
    t.UpdateRight(Ge, r, 2);
    t.UpdateLeft(Ge, r, 2);
    OpenStatements(before, Ge, r);
    id := t.Insert(r, r + 1, title, description);
    OpenGapFresh(before, id, t.rows, r, title, description);
  }

  /**
   * In a valid table, the row the corrected `insertChildData` adds under `rows[k]` is a child of the
   * (shifted) parent and its last one.
   */
  lemma ChildDataPlacement(rows: seq<Row>, k: int, n: Row)
    requires Valid(rows) && 0 <= k < |rows|
    requires n.left == rows[k].right && n.right == rows[k].right + 1
    ensures var s := Open(rows[k].right - 1);
      var t := MapBounds(rows, s) + [n];
      var p := MapRow(rows[k], s);
      && ChildOf(t, n, p)
      && (forall y :: y in t && Inside(y, p) ==> y.left <= n.left)
  {
    var s := Open(rows[k].right - 1);
    var m := MapBounds(rows, s);
    var t := m + [n];
    var p := MapRow(rows[k], s);
    forall i | 0 <= i < |m| ensures !(Inside(m[i], p) && Within(n.left, m[i])) {
      if i != k {
        assert Compatible(rows[i], rows[k]);
      }
    }
    forall y | y in t && Inside(y, p) ensures y.left <= n.left {
      if y != n {
        assert y in m;
        var i :| 0 <= i < |m| && m[i] == y;
        assert Compatible(rows[i], rows[k]);
      }
    }
  }

  // ---------------------------------------------------------------------------------------------
  // insertSiblingData

  /** The statements of `insertSiblingData` as written: rights `> r` and lefts `> l` move up by two. */
  function SiblingDataShift(rows: seq<Row>, l: int, r: int): seq<Row> {
    IncrementLeft(IncrementRight(rows, Gt, r, 2), Gt, l, 2)
  }

  /**
   * `insertSiblingData(where, title, description)` as written: with `(l, r)` the sibling's bounds,
   * rights `> r` and lefts `> l` move up by two and the row `[r + 1, r + 2]` is inserted.
   */
  method InsertSiblingData(t: Table, w: Cond, title: string, description: string) returns (id: int)
    requires t.IdsOk()
    modifies t
    ensures t.IdsOk() && id == old(t.nextId) && t.nextId == id + 1
    ensures var (l, r) := BoundsOf(old(t.rows), w);
      t.rows == SiblingDataShift(old(t.rows), l, r) + [Row(id, r + 1, r + 2, title, description)]
  {
    var (l, r) := BoundsOf(t.rows, w);
    t.UpdateRight(Gt, r, 2);
    t.UpdateLeft(Gt, l, 2);
    id := t.Insert(r + 1, r + 2, title, description);
  }

  /**
   * On a valid table, `insertSiblingData` after `rows[k]` keeps the table valid exactly when
   * `rows[k]` is a leaf: then it is the shift `Open(right)`; otherwise some leaf below `rows[k]`
   * ends up with its left above its right.
   */
  lemma SiblingDataValidIffLeaf(rows: seq<Row>, k: int, n: Row)
    requires Valid(rows) && 0 <= k < |rows| && !HasId(rows, n.id)
    requires n.left == rows[k].right + 1 && n.right == rows[k].right + 2
    ensures Valid(SiblingDataShift(rows, rows[k].left, rows[k].right) + [n]) <==> IsLeaf(rows[k])
  {
    var x := rows[k];
    var u := SiblingDataShift(rows, x.left, x.right);
    if IsLeaf(x) {
      var m := MapBounds(rows, Open(x.right));
      forall i | 0 <= i < |rows| ensures u[i] == m[i] {
        if i != k {
          assert Compatible(rows[i], x);
        }
      }
      assert u == m;
      OpenGapValid(rows, x.right, n);
    } else {
      var j := LeafBelow(rows, k);
      assert (u + [n])[j] == u[j];
    }
  }

  /** A valid table with the chain root `[1, 6]`, `[2, 5]`, `[3, 4]`. */
  function ThreeLevels(): seq<Row> {
    [Row(1, 1, 6, "root", ""), Row(2, 2, 5, "middle", ""), Row(3, 3, 4, "leaf", "")]
  }

  /**
   * The defect, on an instance: adding a sibling after the middle row of `ThreeLevels` turns its
   * child into `[5, 4]`, and the result is not a nested set.
   */
  lemma SiblingDataCounterexample()
    ensures Valid(ThreeLevels())
    ensures var after := SiblingDataShift(ThreeLevels(), 2, 5) + [Row(4, 6, 7, "new", "")];
      after[2] == Row(3, 5, 4, "leaf", "") && !Valid(after)
  {
    var rows := ThreeLevels();
    forall a | a in rows ensures CountInside(rows, a) == CountInside([], a)
      + (if Inside(rows[0], a) then 1 else 0) + (if Inside(rows[1], a) then 1 else 0)
      + (if Inside(rows[2], a) then 1 else 0)
    {
      CountInsideSnoc([], rows[0], a);
      CountInsideSnoc([rows[0]], rows[1], a);
      CountInsideSnoc([rows[0], rows[1]], rows[2], a);
      assert rows == [rows[0], rows[1]] + [rows[2]];
    }
    assert CountInside(rows, rows[0]) == 2;
    assert CountInside(rows, rows[1]) == 1;
    assert CountInside(rows, rows[2]) == 0;
    var after := SiblingDataShift(rows, 2, 5) + [Row(4, 6, 7, "new", "")];
    assert after[2].left > after[2].right;
  }

  /**
   * `insertSiblingData` with the left shift taken relative to the sibling's right, as its right
   * shift already is: the base `insertSibling` with a title and a description. A missing sibling
   * reads as `(0, 0)`, as in the source.
   */
  method InsertSiblingDataCorrected(t: Table, w: Cond, title: string, description: string) returns (id: int)
    requires t.IdsOk()
    modifies t
    ensures t.IdsOk() && id == old(t.nextId) && t.nextId == id + 1
    ensures var r := BoundsOf(old(t.rows), w).1;
      t.rows == MapBounds(old(t.rows), Open(r)) + [Row(id, r + 1, r + 2, title, description)]
    ensures Valid(old(t.rows)) ==> Valid(t.rows)
  {
    ghost var before := t.rows;
    var (_, r) := BoundsOf(t.rows, w);
    t.UpdateRight(Gt, r, 2);
    t.UpdateLeft(Gt, r, 2);
    OpenStatements(before, Gt, r);
    id := t.Insert(r + 1, r + 2, title, description);
    OpenGapFresh(before, id, t.rows, r + 1, title, description);
  }

  // ---------------------------------------------------------------------------------------------
  // A leaf below every inner node

  /** Some row strictly inside `rows[k]` has a descendant count of zero, when `rows[k]` is not a leaf. */
  lemma LeafBelow(rows: seq<Row>, k: int) returns (j: int)
    requires Valid(rows) && 0 <= k < |rows| && !IsLeaf(rows[k])
    ensures 0 <= j < |rows| && Inside(rows[j], rows[k]) && IsLeaf(rows[j])
    decreases rows[k].right - rows[k].left
  {
    var x := rows[k];
    assert CountInside(rows, x) >= 1;
    var i := SomeInside(rows, x);
    if IsLeaf(rows[i]) {
      j := i;
    } else {
      assert Compatible(rows[i], x);
      j := LeafBelow(rows, i);
    }
  }

  /** A positive descendant count is witnessed by a row. */
  lemma {:induction false} SomeInside(rows: seq<Row>, a: Row) returns (i: int)
    requires CountInside(rows, a) >= 1
    ensures 0 <= i < |rows| && Inside(rows[i], a)
  {
    var n := |rows|;
    if Inside(rows[n - 1], a) {
      i := n - 1;
    } else {
      var pre := rows[..n - 1];
      i := SomeInside(pre, a);
      assert pre[i] == rows[i];
    }
  }

  // ---------------------------------------------------------------------------------------------
  // deleteConditional, deleteSubtreeConditional, editData

  /**
   * `deleteConditional(where)`: the first row satisfying `where` (`LIMIT 1`) is removed as `delete`
   * removes a node, and the result is whether exactly one row was deleted; `false` with no change
   * when no row matches.
   */
  method DeleteConditional(t: Table, w: Cond) returns (ok: bool)
    requires t.IdsOk()
    modifies t
    ensures t.IdsOk() && t.nextId == old(t.nextId)
    ensures match FirstMatch(old(t.rows), w)
      case None => !ok && t.rows == old(t.rows)
      case Some(x) =>
        var d := DeleteLeftIn(old(t.rows), x.left, x.left);
        && ok == (CountLeftIn(old(t.rows), x.left, x.left) == 1)
        && t.rows == IncrementLeft(IncrementRight(IncrementBetween(d, x.left, x.right, -1), Gt, x.right, -2), Gt, x.right, -2)
        && (Valid(old(t.rows)) ==> ok && t.rows == MapBounds(d, Promote(x.left, x.right)))
    ensures Valid(old(t.rows)) ==> Valid(t.rows)
  {
    ghost var before := t.rows;
    ghost var k := FirstIndex(before, w);
    var s := FirstMatch(t.rows, w);
    if s.None? {
      return false;
    }
    var x := s.value;
    var cnt := RemoveNode(t, x.left, x.right);
    ok := cnt == 1;
    if Valid(before) {
      assert x == before[k];
      PromoteStatements(before, k);
      PromoteValid(before, k);
      CountLeftInSingle(before, k);
    }
  }

  /**
   * `deleteSubtreeConditional(where)`: the subtree of the first row satisfying `where` is removed as
   * `deleteSubtree` removes it, and the result is whether any row was deleted. No row matches:
   * reading the bounds throws (`Err`) and nothing changes.
   */
  method DeleteSubtreeConditional(t: Table, w: Cond) returns (res: Result<bool>)
    requires t.IdsOk()
    modifies t
    ensures t.IdsOk() && t.nextId == old(t.nextId)
    ensures match FirstMatch(old(t.rows), w)
      case None => res.Err? && t.rows == old(t.rows)
      case Some(x) =>
        && res == Ok(CountLeftIn(old(t.rows), x.left, x.right) >= 1)
        && t.rows == MapBounds(DeleteLeftIn(old(t.rows), x.left, x.right), Close(x.right, x.right - x.left + 1))
    ensures Valid(old(t.rows)) ==> Valid(t.rows)
  {
    ghost var before := t.rows;
    var s := FirstMatch(t.rows, w);
    if s.None? {
      return Err("Cannot read property 'Left' of undefined");
    }
    var x := s.value;
    var cnt := RemoveSubtree(t, x.left, x.right);
    res := Ok(cnt >= 1);
    DeleteMatchValid(before, w, x, t.rows);
  }

  /** Removing the subtree of the first matching row, and closing its gap, keeps validity. */
  lemma DeleteMatchValid(before: seq<Row>, w: Cond, x: Row, after: seq<Row>)
    requires FirstMatch(before, w) == Some(x)
    requires after == MapBounds(DeleteLeftIn(before, x.left, x.right), Close(x.right, x.right - x.left + 1))
    ensures Valid(before) ==> Valid(after)
  {
    if Valid(before) {
      var k := FirstIndex(before, w);
      assert x == before[k];
      assert after == MapBounds(DeleteLeftIn(before, before[k].left, before[k].right),
                                Close(before[k].right, before[k].right - before[k].left + 1));
      CloseValid(before, k);
    }
  }

  /** On a valid table a matched subtree deletion always reports success. */
  lemma DeleteSubtreeConditionalSucceeds(rows: seq<Row>, k: int)
    requires Valid(rows) && 0 <= k < |rows|
    ensures CountLeftIn(rows, rows[k].left, rows[k].right) >= 1
  {
    SubtreeRowCount(rows, k);
  }

  /**
   * `editData(where, toUpdate)`: the rows satisfying `where` get the given title and description;
   * returns the number of rows reached.
   */
  method EditData(t: Table, w: Cond, title: Option<string>, description: Option<string>) returns (count: nat)
    requires t.IdsOk()
    modifies t
    ensures t.IdsOk() && t.nextId == old(t.nextId)
    ensures t.rows == EditRows(old(t.rows), w, title, description)
    ensures count == CountMatching(old(t.rows), w)
    ensures Valid(old(t.rows)) ==> Valid(t.rows)
  {
    ghost var before := t.rows;
    count := t.UpdateFields(w, title, description);
    if Valid(before) {
      EditKeepsValid(before, w, title, description);
    }
  }

  /** Field edits never break the nested-set invariant: ids and bounds are untouched. */
  lemma EditKeepsValid(rows: seq<Row>, c: Cond, title: Option<string>, description: Option<string>)
    requires Valid(rows)
    ensures Valid(EditRows(rows, c, title, description))
  {
    var e := EditRows(rows, c, title, description);
    forall i | 0 <= i < |e| ensures 2 * CountInside(e, e[i]) + 1 == e[i].right - e[i].left {
      CountInsideSameBounds(e, rows, e[i], rows[i]);
    }
  }

  /** The descendant count reads bounds only. */
  lemma {:induction false} CountInsideSameBounds(a: seq<Row>, b: seq<Row>, x: Row, y: Row)
    requires |a| == |b| && x.left == y.left && x.right == y.right
    requires forall i :: 0 <= i < |a| ==> a[i].left == b[i].left
    ensures CountInside(a, x) == CountInside(b, y)
  {
    if a != [] {
      CountInsideSameBounds(a[..|a| - 1], b[..|b| - 1], x, y);
    }
  }
}
