/**
 * The statement sequences the structural operations issue, in source order, proved equal to the
 * declarative shifts of `NestedSetTable`: what each sequence of `UPDATE ... WHERE bound > X`
 * statements does to the table as a whole.
 */
module NestedSetStatements {
  import opened NestedSetTable
  import opened NestedSetShifts

  /** The pivot below which a `WHERE bound <c> p` statement leaves bounds alone. */
  function OpenPivot(c: Cmp, p: int): int {
    match c
    case Gt => p
    case Ge => p - 1
  }

  /**
   * `UPDATE right += 2 WHERE right <c> p` then `UPDATE left += 2 WHERE left <c> p` opens a gap of
   * two just above the pivot: it is the shift `Open`.
   */
  lemma OpenStatements(rows: seq<Row>, c: Cmp, p: int)
    ensures IncrementLeft(IncrementRight(rows, c, p, 2), c, p, 2) == MapBounds(rows, Open(OpenPivot(c, p)))
  {
    var u := IncrementLeft(IncrementRight(rows, c, p, 2), c, p, 2);
    var m := MapBounds(rows, Open(OpenPivot(c, p)));
    forall i | 0 <= i < |rows| ensures u[i] == m[i] {
    }
  }

  /**
   * `UPDATE right -= w WHERE right > hi` then `UPDATE left -= w WHERE left > hi` closes the gap a
   * removed subtree leaves: it is the shift `Close`.
   */
  lemma CloseStatements(rows: seq<Row>, hi: int, w: int)
    ensures IncrementLeft(IncrementRight(rows, Gt, hi, -w), Gt, hi, -w) == MapBounds(rows, Close(hi, w))
  {
    var u := IncrementLeft(IncrementRight(rows, Gt, hi, -w), Gt, hi, -w);
    var m := MapBounds(rows, Close(hi, w));
    forall i | 0 <= i < |rows| ensures u[i] == m[i] {
    }
  }

  /**
   * After the row `[lo, hi]` of a valid table is deleted, decrementing both bounds of the rows whose
   * left lies in `[lo, hi]`, then the rights and the lefts above `hi` by two, is the shift `Promote`:
   * the statements run in order see no row that an earlier one moved into their range.
   */
  lemma PromoteStatements(rows: seq<Row>, k: int)
    requires Valid(rows) && 0 <= k < |rows|
    ensures var x := rows[k];
      var d := DeleteLeftIn(rows, x.left, x.left);
      IncrementLeft(IncrementRight(IncrementBetween(d, x.left, x.right, -1), Gt, x.right, -2), Gt, x.right, -2)
        == MapBounds(d, Promote(x.left, x.right))
  {
    var x := rows[k];
    var d := DeleteLeftIn(rows, x.left, x.left);
    var u := IncrementLeft(IncrementRight(IncrementBetween(d, x.left, x.right, -1), Gt, x.right, -2), Gt, x.right, -2);
    var m := MapBounds(d, Promote(x.left, x.right));
    DeleteLeftInMembers(rows, x.left, x.left);
    forall i | 0 <= i < |d| ensures u[i] == m[i] {
      assert d[i] in d;
      MemberNested(rows, k, d[i]);
    }
  }

  /**
   * The rows a subtree deletion removes from a valid table: the node itself and its descendants,
   * `(right - left + 1) / 2` rows in all.
   */
  lemma SubtreeRowCount(rows: seq<Row>, k: int)
    requires Valid(rows) && 0 <= k < |rows|
    ensures CountLeftIn(rows, rows[k].left, rows[k].right) == 1 + CountInside(rows, rows[k])
    ensures CountLeftIn(rows, rows[k].left, rows[k].right) == (rows[k].right - rows[k].left + 1) / 2
  {
    SubtreeCountLeftIn(rows, k);
  }
}
