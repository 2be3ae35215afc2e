/**
 * The structural operations of the base nested-set engine: insert a leftmost child, insert a
 * sibling after a node, delete a node promoting its children, delete a subtree. Each issues its
 * statements against the table in source order; each is proved equal to a declarative shift and
 * to keep the nested-set invariant.
 */
module NestedSetBase {
  import opened Results
  import opened NestedSetTable
  import opened NestedSetShifts
  import opened NestedSetStatements
  import opened NestedSetQueries

  /** An omitted id argument is looked up as id 0. */
  function IdOrZero(id: Option<int>): int {
    if id.Some? then id.value else 0
  }

  /** The bound `insertChild` opens its gap after: the parent's left, or 0 when there is no parent row. */
  function ParentLeft(rows: seq<Row>, pid: Option<int>): int {
    match FirstMatch(rows, IdIs(IdOrZero(pid)))
    case None => 0
    case Some(p) => p.left
  }

  /**
   * `insertChild(pid)`: every bound above the parent's left `l` moves up by two and a row
   * `[l + 1, l + 2]` is inserted; its new id is returned.
   */
  method InsertChild(t: Table, pid: Option<int>) returns (id: int)
    requires t.IdsOk()
    modifies t
    ensures t.IdsOk() && id == old(t.nextId) && t.nextId == id + 1
    ensures var l := ParentLeft(old(t.rows), pid);
      t.rows == MapBounds(old(t.rows), Open(l)) + [Row(id, l + 1, l + 2, "", "")]
    ensures Valid(old(t.rows)) ==> Valid(t.rows)
  {
    ghost var before := t.rows;
    var l := ParentLeft(t.rows, pid);
    t.UpdateRight(Gt, l, 2);
    t.UpdateLeft(Gt, l, 2);
    OpenStatements(before, Gt, l);
    id := t.Insert(l + 1, l + 2, "", "");
    OpenGapFresh(before, id, t.rows, l + 1, "", "");
  }

  /**
   * In a valid table, the row `insertChild` adds under `rows[k]` is a child of the (shifted) parent
   * and the leftmost one; the parent keeps its left and its right grows by two, as does the right of
   * every row whose interval holds the parent's left.
   */
  lemma InsertChildPlacement(rows: seq<Row>, k: int, n: Row)
    requires Valid(rows) && 0 <= k < |rows|
    requires n.left == rows[k].left + 1 && n.right == rows[k].left + 2
    ensures var l := rows[k].left;
      var t := MapBounds(rows, Open(l)) + [n];
      var p := MapRow(rows[k], Open(l));
      && ChildOf(t, n, p)
      && (forall y :: y in t && Inside(y, p) ==> n.left <= y.left)
      && p.left == rows[k].left && p.right == rows[k].right + 2
      && (forall i :: 0 <= i < |rows| && Within(l, rows[i]) ==> t[i].right == rows[i].right + 2)
  {
    var l := rows[k].left;
    var m := MapBounds(rows, Open(l));
    var t := m + [n];
    var p := MapRow(rows[k], Open(l));
    forall i | 0 <= i < |m| ensures !(Inside(m[i], p) && Within(n.left, m[i])) { }
    assert forall q :: q in t && q != n ==> q in m;
    forall i | 0 <= i < |rows| && Within(l, rows[i]) ensures t[i].right == rows[i].right + 2 {
      if i != k {
        assert Compatible(rows[i], rows[k]);
      }
    }
  }

  /**
   * `insertSibling(id)`: every bound above the sibling's right `r` moves up by two and a row
   * `[r + 1, r + 2]` is inserted. When no row has the id, reading the sibling's right throws and
   * nothing changes (`None`).
   */
  method InsertSibling(t: Table, id: Option<int>) returns (res: Option<int>)
    requires t.IdsOk()
    modifies t
    ensures t.IdsOk()
    ensures match FirstMatch(old(t.rows), IdIs(IdOrZero(id)))
      case None => res.None? && t.rows == old(t.rows) && t.nextId == old(t.nextId)
      case Some(x) =>
        && res == Some(old(t.nextId)) && t.nextId == old(t.nextId) + 1
        && t.rows == MapBounds(old(t.rows), Open(x.right)) + [Row(res.value, x.right + 1, x.right + 2, "", "")]
    ensures Valid(old(t.rows)) ==> Valid(t.rows)
  {
    ghost var before := t.rows;
    var s := FirstMatch(t.rows, IdIs(IdOrZero(id)));
    if s.None? {
      return None;
    }
    var r := s.value.right;
    t.UpdateRight(Gt, r, 2);
    t.UpdateLeft(Gt, r, 2);
    OpenStatements(before, Gt, r);
    var nid := t.Insert(r + 1, r + 2, "", "");
    OpenGapFresh(before, nid, t.rows, r + 1, "", "");
    res := Some(nid);
  }

  /**
   * In a valid table, the row `insertSibling` adds after `rows[k]` lies inside exactly the rows the
   * (shifted) sibling lies inside: it has the sibling's ancestors, hence its parent.
   */
  lemma InsertSiblingPlacement(rows: seq<Row>, k: int, n: Row)
    requires Valid(rows) && 0 <= k < |rows|
    requires n.left == rows[k].right + 1 && n.right == rows[k].right + 2
    ensures var t := MapBounds(rows, Open(rows[k].right)) + [n];
      forall i :: 0 <= i < |rows| ==> (Inside(n, t[i]) <==> Inside(t[k], t[i])) && (Inside(t[k], t[i]) <==> Inside(rows[k], rows[i]))
  {
    var s := Open(rows[k].right);
    var t := MapBounds(rows, s) + [n];
    forall i | 0 <= i < |rows|
      ensures (Inside(n, t[i]) <==> Inside(t[k], t[i])) && (Inside(t[k], t[i]) <==> Inside(rows[k], rows[i]))
    {
      MapKeepsInside(s, rows[i], rows[k]);
      if i != k {
        assert Compatible(rows[i], rows[k]);
      }
    }
  }

  /**
   * `delete(id)`: deletes the row whose left is the node's left, decrements both bounds of the rows
   * whose left lies in the node's `[left, right]`, then the rights and the lefts above its right by
   * two; returns the number of rows deleted. No row with the id: the bound lookup throws and
   * nothing changes (`None`).
   */
  method Delete(t: Table, id: int) returns (count: Option<nat>)
    requires t.IdsOk()
    modifies t
    ensures t.IdsOk() && t.nextId == old(t.nextId)
    ensures match FirstMatch(old(t.rows), IdIs(id))
      case None => count.None? && t.rows == old(t.rows)
      case Some(x) =>
        var d := DeleteLeftIn(old(t.rows), x.left, x.left);
        && count == Some(CountLeftIn(old(t.rows), x.left, x.left))
        && t.rows == IncrementLeft(IncrementRight(IncrementBetween(d, x.left, x.right, -1), Gt, x.right, -2), Gt, x.right, -2)
        && (Valid(old(t.rows)) ==> t.rows == MapBounds(d, Promote(x.left, x.right)) && count == Some(1))
    ensures Valid(old(t.rows)) ==> Valid(t.rows)
  {
    ghost var before := t.rows;
    ghost var k := FirstIndex(before, IdIs(id));
    var s := FirstMatch(t.rows, IdIs(id));
    if s.None? {
      return None;
    }
    var x := s.value;
    var cnt := RemoveNode(t, x.left, x.right);
    count := Some(cnt);
    if Valid(before) {
      assert x == before[k];
      PromoteStatements(before, k);
      PromoteValid(before, k);
      CountLeftInSingle(before, k);
    }
  }

  /**
   * The statements `delete` issues once it has the node's bounds `[lo, hi]`: delete the row whose
   * left is `lo`, decrement both bounds of the rows whose left lies in `[lo, hi]`, then the rights
   * and the lefts above `hi` by two.
   */
  method RemoveNode(t: Table, lo: int, hi: int) returns (cnt: nat)
    requires t.IdsOk()
    modifies t
    ensures t.IdsOk() && t.nextId == old(t.nextId)
    ensures cnt == CountLeftIn(old(t.rows), lo, lo)
    ensures var d := DeleteLeftIn(old(t.rows), lo, lo);
      t.rows == IncrementLeft(IncrementRight(IncrementBetween(d, lo, hi, -1), Gt, hi, -2), Gt, hi, -2)
  {
    cnt := t.DeleteWhereLeftIn(lo, lo);
    t.UpdateBetween(lo, hi, -1);
    t.UpdateRight(Gt, hi, -2);
    t.UpdateLeft(Gt, hi, -2);
  }

  /**
   * Deleting a node of a valid table keeps every other ancestor relation: among the surviving
   * rows, one lies inside another after the shift exactly when it did before.
   */
  lemma PromoteKeepsAncestry(rows: seq<Row>, k: int)
    requires Valid(rows) && 0 <= k < |rows|
    ensures var x := rows[k];
      var d := DeleteLeftIn(rows, x.left, x.left);
      forall a, b :: a in d && b in d ==>
        (Inside(MapRow(b, Promote(x.left, x.right)), MapRow(a, Promote(x.left, x.right))) <==> Inside(b, a))
  {
    var x := rows[k];
    var s := Promote(x.left, x.right);
    var d := DeleteLeftIn(rows, x.left, x.left);
    DeleteLeftInMembers(rows, x.left, x.left);
    forall a, b | a in d && b in d ensures Inside(MapRow(b, s), MapRow(a, s)) <==> Inside(b, a) {
      MemberNested(rows, k, a);
      MemberNested(rows, k, b);
      MapKeepsInside(s, a, b);
    }
  }

  /**
   * `deleteSubtree(id)`: deletes the rows whose left lies in the node's `[left, right]`, then moves
   * the rights and the lefts above its right down by the width `right - left + 1`; returns the
   * number of rows deleted. No row with the id: nothing changes (`None`).
   */
  method DeleteSubtree(t: Table, id: int) returns (count: Option<nat>)
    requires t.IdsOk()
    modifies t
    ensures t.IdsOk() && t.nextId == old(t.nextId)
    ensures match FirstMatch(old(t.rows), IdIs(id))
      case None => count.None? && t.rows == old(t.rows)
      case Some(x) =>
        && count == Some(CountLeftIn(old(t.rows), x.left, x.right))
        && t.rows == MapBounds(DeleteLeftIn(old(t.rows), x.left, x.right), Close(x.right, x.right - x.left + 1))
    ensures Valid(old(t.rows)) ==> Valid(t.rows)
  {
    ghost var before := t.rows;
    ghost var k := FirstIndex(before, IdIs(id));
    var s := FirstMatch(t.rows, IdIs(id));
    if s.None? {
      return None;
    }
    var x := s.value;
    var cnt := RemoveSubtree(t, x.left, x.right);
    count := Some(cnt);
    if Valid(before) {
      assert x == before[k];
      CloseValid(before, k);
    }
  }

  /**
   * The statements `deleteSubtree` issues once it has the node's bounds `[lo, hi]`: delete the rows
   * whose left lies in them, then move the rights and the lefts above `hi` down by the width.
   */
  method RemoveSubtree(t: Table, lo: int, hi: int) returns (cnt: nat)
    requires t.IdsOk()
    modifies t
    ensures t.IdsOk() && t.nextId == old(t.nextId)
    ensures cnt == CountLeftIn(old(t.rows), lo, hi)
    ensures t.rows == MapBounds(DeleteLeftIn(old(t.rows), lo, hi), Close(hi, hi - lo + 1))
  {
    var width := hi - lo + 1;
    cnt := t.DeleteWhereLeftIn(lo, hi);
    ghost var d := t.rows;
    t.UpdateRight(Gt, hi, -width);
    t.UpdateLeft(Gt, hi, -width);
    CloseStatements(d, hi, width);
  }

  /** In a valid table, a subtree deletion removes exactly the node and its descendants. */
  lemma SubtreeRemoved(rows: seq<Row>, k: int)
    requires Valid(rows) && 0 <= k < |rows|
    ensures var x := rows[k];
      forall y :: y in DeleteLeftIn(rows, x.left, x.right) <==> y in rows && y != x && !Inside(y, x)
  {
    var x := rows[k];
    DeleteLeftInMembers(rows, x.left, x.right);
    forall y | y in rows
      ensures (x.left <= y.left <= x.right) <==> (y == x || Inside(y, x))
    {
      if y != x {
        MemberNested(rows, k, y);
      }
    }
  }
}
