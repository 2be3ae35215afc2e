/**
 * The three ways a structural operation reshapes a valid nested-set table, each proved to keep
 * the invariant `Valid` (proper nesting, unique ids and bounds, `left < right`, and
 * `2 * descendants + 1 == right - left` for every row):
 *   - opening a 2-wide gap above a pivot and inserting a leaf there;
 *   - removing one row and promoting its descendants one level;
 *   - removing a whole subtree and closing the gap it leaves.
 */
module NestedSetShifts {
  import opened NestedSetTable

  // ---------------------------------------------------------------------------------------------
  // Counting

  lemma CountInsideSnoc(rows: seq<Row>, r: Row, a: Row)
    ensures CountInside(rows + [r], a) == CountInside(rows, a) + (if Inside(r, a) then 1 else 0)
  {
    assert (rows + [r])[..|rows|] == rows;
  }

  /** A row one unit wide has no descendants. */
  lemma {:induction false} CountInsideLeaf(rows: seq<Row>, a: Row)
    requires a.right <= a.left + 1
    ensures CountInside(rows, a) == 0
  {
    if rows != [] {
      CountInsideLeaf(rows[..|rows| - 1], a);
    }
  }

  /** A shift that is increasing on the surviving bounds leaves every descendant count unchanged. */
  lemma {:induction false} CountInsideMapped(rows: seq<Row>, s: Shift, a: Row)
    requires ShiftOk(s) && AdmissibleRows(s, rows) && AdmissibleRow(s, a)
    ensures CountInside(MapBounds(rows, s), MapRow(a, s)) == CountInside(rows, a)
  {
    if rows != [] {
      var n := |rows|;
      assert MapBounds(rows, s)[..n - 1] == MapBounds(rows[..n - 1], s);
      CountInsideMapped(rows[..n - 1], s, a);
      MapKeepsInside(s, a, rows[n - 1]);
    }
  }

  /** Rows with `lo <= left <= hi` that are also descendants of `a`. */
  function CountInsideLeftIn(rows: seq<Row>, a: Row, lo: int, hi: int): nat {
    if rows == [] then 0
    else
      var r := rows[|rows| - 1];
      CountInsideLeftIn(rows[..|rows| - 1], a, lo, hi) + (if lo <= r.left <= hi && Inside(r, a) then 1 else 0)
  }

  /** Deleting the rows whose left lies in [lo, hi] removes exactly those of them that were inside `a`. */
  lemma {:induction false} CountInsideAfterDelete(rows: seq<Row>, a: Row, lo: int, hi: int)
    ensures CountInside(rows, a) == CountInside(DeleteLeftIn(rows, lo, hi), a) + CountInsideLeftIn(rows, a, lo, hi)
  {
    if rows != [] {
      var pre, last := rows[..|rows| - 1], rows[|rows| - 1];
      CountInsideAfterDelete(pre, a, lo, hi);
      if !(lo <= last.left <= hi) {
        CountInsideSnoc(DeleteLeftIn(pre, lo, hi), last, a);
      } else {
        assert DeleteLeftIn(rows, lo, hi) == DeleteLeftIn(pre, lo, hi);
      }
    }
  }

  lemma {:induction false} CountInsideLeftInAll(rows: seq<Row>, a: Row, lo: int, hi: int)
    requires a.left < lo && hi < a.right
    ensures CountInsideLeftIn(rows, a, lo, hi) == CountLeftIn(rows, lo, hi)
  {
    if rows != [] {
      CountInsideLeftInAll(rows[..|rows| - 1], a, lo, hi);
    }
  }

  lemma {:induction false} CountInsideLeftInNone(rows: seq<Row>, a: Row, lo: int, hi: int)
    requires hi <= a.left || a.right <= lo
    ensures CountInsideLeftIn(rows, a, lo, hi) == 0
  {
    if rows != [] {
      CountInsideLeftInNone(rows[..|rows| - 1], a, lo, hi);
    }
  }

  /** With unique bounds, exactly one row starts at a given row's left bound. */
  lemma {:induction false} CountLeftInSingle(rows: seq<Row>, k: int)
    requires Pairwise(rows) && 0 <= k < |rows|
    ensures CountLeftIn(rows, rows[k].left, rows[k].left) == 1
  {
    var n := |rows|;
    var pre := rows[..n - 1];
    if k == n - 1 {
      CountLeftInAbsent(pre, rows[k].left);
    } else {
      assert Compatible(rows[k], rows[n - 1]);
      assert pre[k] == rows[k];
      CountLeftInSingle(pre, k);
    }
  }

  lemma {:induction false} CountLeftInAbsent(rows: seq<Row>, x: int)
    requires forall i :: 0 <= i < |rows| ==> rows[i].left != x
    ensures CountLeftIn(rows, x, x) == 0
  {
    if rows != [] {
      CountLeftInAbsent(rows[..|rows| - 1], x);
    }
  }

  /** The rows starting in [left(x), right(x)] are `x`'s own row plus its descendants. */
  lemma {:induction false} CountLeftInSplit(rows: seq<Row>, x: Row)
    requires x.left < x.right
    requires forall i :: 0 <= i < |rows| ==> rows[i].left != x.right
    ensures CountLeftIn(rows, x.left, x.right) == CountLeftIn(rows, x.left, x.left) + CountInside(rows, x)
  {
    if rows != [] {
      var pre := rows[..|rows| - 1];
      assert forall i :: 0 <= i < |pre| ==> pre[i] == rows[i];
      CountLeftInSplit(pre, x);
      assert rows[|rows| - 1].left != x.right;
    }
  }

  // ---------------------------------------------------------------------------------------------
  // Sub-sequences keep the pairwise facts

  lemma {:induction false} DeleteKeepsPairwise(rows: seq<Row>, lo: int, hi: int)
    requires Ordered(rows) && Pairwise(rows)
    ensures Ordered(DeleteLeftIn(rows, lo, hi)) && Pairwise(DeleteLeftIn(rows, lo, hi))
  {
    if rows != [] {
      var n := |rows|;
      var pre, last := rows[..n - 1], rows[n - 1];
      PrefixPairwise(rows);
      DeleteKeepsPairwise(pre, lo, hi);
      var d := DeleteLeftIn(pre, lo, hi);
      if !(lo <= last.left <= hi) {
        assert DeleteLeftIn(rows, lo, hi) == d + [last];
        DeleteLeftInMembers(pre, lo, hi);
        forall i | 0 <= i < |d| ensures Compatible(d[i], last) && Compatible(last, d[i]) {
          assert d[i] in pre;
          var j :| 0 <= j < |pre| && pre[j] == d[i];
          assert rows[j] == d[i];
        }
        SnocPairwise(d, last);
      }
    }
  }

  /** Dropping the last row keeps the pairwise facts. */
  lemma PrefixPairwise(rows: seq<Row>)
    requires Ordered(rows) && Pairwise(rows) && rows != []
    ensures Ordered(rows[..|rows| - 1]) && Pairwise(rows[..|rows| - 1])
  {
    var pre := rows[..|rows| - 1];
    forall i, j | 0 <= i < |pre| && 0 <= j < |pre| && i != j ensures Compatible(pre[i], pre[j]) {
      assert pre[i] == rows[i] && pre[j] == rows[j];
    }
  }

  /** Appending a row compatible with every row keeps the pairwise facts. */
  lemma SnocPairwise(d: seq<Row>, last: Row)
    requires Ordered(d) && Pairwise(d) && last.left < last.right
    requires forall i :: 0 <= i < |d| ==> Compatible(d[i], last) && Compatible(last, d[i])
    ensures Ordered(d + [last]) && Pairwise(d + [last])
  {
    var r := d + [last];
    forall i, j | 0 <= i < |r| && 0 <= j < |r| && i != j ensures Compatible(r[i], r[j]) {
      if i < |d| && j < |d| {
        assert r[i] == d[i] && r[j] == d[j];
      } else if i < |d| {
        assert r[i] == d[i] && r[j] == last;
      } else {
        assert r[i] == last && r[j] == d[j];
      }
    }
    forall i | 0 <= i < |r| ensures r[i].left < r[i].right {
      if i < |d| { assert r[i] == d[i]; }
    }
  }

  /** A row of the table other than `rows[k]` is properly nested with it. */
  lemma MemberNested(rows: seq<Row>, k: int, x: Row)
    requires Pairwise(rows) && 0 <= k < |rows| && x in rows && x.left != rows[k].left
    ensures Compatible(x, rows[k])
  {
  }

  lemma MemberCount(rows: seq<Row>, x: Row)
    requires CountsExact(rows) && x in rows
    ensures 2 * CountInside(rows, x) + 1 == x.right - x.left
  {
  }

  /** An admissible shift keeps every row ordered and every pair properly nested. */
  lemma MapKeepsPairwise(d: seq<Row>, s: Shift)
    requires Ordered(d) && Pairwise(d) && ShiftOk(s) && AdmissibleRows(s, d)
    ensures Ordered(MapBounds(d, s)) && Pairwise(MapBounds(d, s))
  {
    var t := MapBounds(d, s);
    forall i, j | 0 <= i < |t| && 0 <= j < |t| && i != j
      ensures Compatible(t[i], t[j])
    {
      assert Compatible(d[i], d[j]);
      MapKeepsNesting(s, d[i], d[j]);
    }
    forall i | 0 <= i < |t| ensures t[i].left < t[i].right {
      ApplyMonotone(s, d[i].left, d[i].right);
    }
  }

  // ---------------------------------------------------------------------------------------------
  // The three reshapes

  /** Opening a gap above `at` and inserting the leaf [at+1, at+2] keeps the table valid. */
  lemma OpenGapValid(rows: seq<Row>, at: int, n: Row)
    requires Valid(rows) && !HasId(rows, n.id)
    requires n.left == at + 1 && n.right == at + 2
    ensures Valid(MapBounds(rows, Open(at)) + [n])
  {
    OpenGapNesting(rows, at, n);
    OpenGapCountsExact(rows, at, n);
  }

  /** A row `[r, r + 1]` with a fresh id, appended after opening the gap at `r`, keeps validity. */
  lemma OpenGapFresh(before: seq<Row>, id: int, after: seq<Row>, r: int, title: string, description: string)
    requires IdsBelow(before, id)
    requires after == MapBounds(before, Open(r - 1)) + [Row(id, r, r + 1, title, description)]
    ensures Valid(before) ==> Valid(after)
  {
    if Valid(before) {
      OpenGapValid(before, r - 1, Row(id, r, r + 1, title, description));
    }
  }

  lemma OpenGapNesting(rows: seq<Row>, at: int, n: Row)
    requires Ordered(rows) && Pairwise(rows) && !HasId(rows, n.id)
    requires n.left == at + 1 && n.right == at + 2
    ensures Ordered(MapBounds(rows, Open(at)) + [n]) && Pairwise(MapBounds(rows, Open(at)) + [n])
  {
    var s := Open(at);
    var m := MapBounds(rows, s);
    var t := m + [n];
    forall i, j | 0 <= i < |t| && 0 <= j < |t| && i != j
      ensures Compatible(t[i], t[j])
    {
      if i < |rows| && j < |rows| {
        assert Compatible(rows[i], rows[j]);
        MapKeepsNesting(s, rows[i], rows[j]);
      }
    }
    forall i | 0 <= i < |t| ensures t[i].left < t[i].right {
      if i < |rows| {
        MapKeepsNesting(s, rows[i], rows[i].(left := rows[i].right + 1, right := rows[i].right + 2));
      }
    }
  }

  lemma OpenGapCountsExact(rows: seq<Row>, at: int, n: Row)
    requires CountsExact(rows) && n.left == at + 1 && n.right == at + 2
    ensures CountsExact(MapBounds(rows, Open(at)) + [n])
  {
    var m := MapBounds(rows, Open(at));
    var t := m + [n];
    forall i | 0 <= i < |t| ensures 2 * CountInside(t, t[i]) + 1 == t[i].right - t[i].left {
      CountInsideSnoc(m, n, t[i]);
      if i < |rows| {
        CountInsideMapped(rows, Open(at), rows[i]);
      } else {
        CountInsideLeaf(m, n);
      }
    }
  }

  /**
   * Removing the row `rows[k]` = [L, R] and shifting the surviving bounds by `Promote(L, R)` keeps
   * the table valid: its descendants move up one level, its ancestors lose one descendant.
   */
  lemma PromoteValid(rows: seq<Row>, k: int)
    requires Valid(rows) && 0 <= k < |rows|
    ensures Valid(MapBounds(DeleteLeftIn(rows, rows[k].left, rows[k].left), Promote(rows[k].left, rows[k].right)))
  {
    PromoteNesting(rows, k);
    PromoteCountsExact(rows, k);
  }

  /** The rows that survive removing `rows[k]` are admissible for `Promote` and nested with it. */
  lemma PromoteSurvivors(rows: seq<Row>, k: int)
    requires Ordered(rows) && Pairwise(rows) && 0 <= k < |rows|
    ensures var x := rows[k];
      var d := DeleteLeftIn(rows, x.left, x.left);
      && Ordered(d) && Pairwise(d)
      && forall i :: 0 <= i < |d| ==> AdmissibleRow(Promote(x.left, x.right), d[i]) && Compatible(d[i], x)
  {
    var x := rows[k];
    var d := DeleteLeftIn(rows, x.left, x.left);
    DeleteKeepsPairwise(rows, x.left, x.left);
    DeleteLeftInMembers(rows, x.left, x.left);
    forall i | 0 <= i < |d| ensures AdmissibleRow(Promote(x.left, x.right), d[i]) && Compatible(d[i], x) {
      MemberNested(rows, k, d[i]);
    }
  }

  lemma PromoteNesting(rows: seq<Row>, k: int)
    requires Ordered(rows) && Pairwise(rows) && 0 <= k < |rows|
    ensures var t := MapBounds(DeleteLeftIn(rows, rows[k].left, rows[k].left), Promote(rows[k].left, rows[k].right));
      Ordered(t) && Pairwise(t)
  {
    var x := rows[k];
    var s := Promote(x.left, x.right);
    var d := DeleteLeftIn(rows, x.left, x.left);
    PromoteSurvivors(rows, k);
    MapKeepsPairwise(d, s);
  }

  lemma PromoteCountsExact(rows: seq<Row>, k: int)
    requires Valid(rows) && 0 <= k < |rows|
    ensures CountsExact(MapBounds(DeleteLeftIn(rows, rows[k].left, rows[k].left), Promote(rows[k].left, rows[k].right)))
  {
    var t := MapBounds(DeleteLeftIn(rows, rows[k].left, rows[k].left), Promote(rows[k].left, rows[k].right));
    forall i | 0 <= i < |t| ensures 2 * CountInside(t, t[i]) + 1 == t[i].right - t[i].left {
      PromoteCountAt(rows, k, i);
    }
  }

  /** The `i`-th survivor keeps its width exact: it loses `rows[k]` as a descendant exactly when it contained it. */
  lemma PromoteCountAt(rows: seq<Row>, k: int, i: int)
    requires Valid(rows) && 0 <= k < |rows|
    requires 0 <= i < |DeleteLeftIn(rows, rows[k].left, rows[k].left)|
    ensures var t := MapBounds(DeleteLeftIn(rows, rows[k].left, rows[k].left), Promote(rows[k].left, rows[k].right));
      2 * CountInside(t, t[i]) + 1 == t[i].right - t[i].left
  {
    var x := rows[k];
    var s := Promote(x.left, x.right);
    var d := DeleteLeftIn(rows, x.left, x.left);
    var b := d[i];
    PromoteSurvivors(rows, k);
    CountLeftInSingle(rows, k);
    DeleteLeftInMembers(rows, x.left, x.left);
    CountInsideMapped(d, s, b);
    CountInsideAfterDelete(rows, b, x.left, x.left);
    if Inside(x, b) {
      CountInsideLeftInAll(rows, b, x.left, x.left);
    } else {
      CountInsideLeftInNone(rows, b, x.left, x.left);
    }
    MemberCount(rows, b);
  }

  /**
   * Removing the subtree of `rows[k]` = [L, R] (every row starting in [L, R]) and shifting the
   * surviving bounds down by the width `R - L + 1` keeps the table valid.
   */
  lemma CloseValid(rows: seq<Row>, k: int)
    requires Valid(rows) && 0 <= k < |rows|
    ensures var x := rows[k];
      Valid(MapBounds(DeleteLeftIn(rows, x.left, x.right), Close(x.right, x.right - x.left + 1)))
  {
    CloseNesting(rows, k);
    CloseCountsExact(rows, k);
  }

  /** After removing the subtree of `rows[k]` and closing its gap, every width is exact again. */
  lemma CloseCountsExact(rows: seq<Row>, k: int)
    requires Valid(rows) && 0 <= k < |rows|
    ensures CountsExact(MapBounds(DeleteLeftIn(rows, rows[k].left, rows[k].right),
                                  Close(rows[k].right, rows[k].right - rows[k].left + 1)))
  {
    var t := MapBounds(DeleteLeftIn(rows, rows[k].left, rows[k].right),
                       Close(rows[k].right, rows[k].right - rows[k].left + 1));
    forall i | 0 <= i < |t| ensures 2 * CountInside(t, t[i]) + 1 == t[i].right - t[i].left {
      CloseCountAt(rows, k, i);
    }
  }

  /** `CloseCount` for the `i`-th surviving row. */
  lemma CloseCountAt(rows: seq<Row>, k: int, i: int)
    requires Valid(rows) && 0 <= k < |rows|
    requires 0 <= i < |DeleteLeftIn(rows, rows[k].left, rows[k].right)|
    ensures var t := MapBounds(DeleteLeftIn(rows, rows[k].left, rows[k].right),
                               Close(rows[k].right, rows[k].right - rows[k].left + 1));
      2 * CountInside(t, t[i]) + 1 == t[i].right - t[i].left
  {
    var d := DeleteLeftIn(rows, rows[k].left, rows[k].right);
    SubtreeCountLeftIn(rows, k);
    CloseCount(rows, k, d[i]);
  }

  /** The rows starting in [left, right] of `rows[k]` are the row itself and its descendants. */
  lemma SubtreeCountLeftIn(rows: seq<Row>, k: int)
    requires Ordered(rows) && Pairwise(rows) && 0 <= k < |rows|
    ensures CountLeftIn(rows, rows[k].left, rows[k].right) == 1 + CountInside(rows, rows[k])
  {
    var x := rows[k];
    forall i | 0 <= i < |rows| ensures rows[i].left != x.right {
      if i != k {
        assert Compatible(rows[i], x);
      }
    }
    CountLeftInSplit(rows, x);
    CountLeftInSingle(rows, k);
  }

  /** A row that survives the removal of the subtree [L, R] is an ancestor of it or disjoint from it. */
  lemma CloseSurvivor(rows: seq<Row>, k: int, b: Row)
    requires Ordered(rows) && Pairwise(rows) && 0 <= k < |rows|
    requires b in DeleteLeftIn(rows, rows[k].left, rows[k].right)
    ensures b in rows
    ensures var x := rows[k];
      && AdmissibleRow(Close(x.right, x.right - x.left + 1), b)
      && ((b.left < x.left && x.right < b.right) || b.right < x.left || x.right < b.left)
  {
    var x := rows[k];
    DeleteLeftInMembers(rows, x.left, x.right);
    assert b in rows && !(x.left <= b.left <= x.right);
    assert b.left < b.right && x.left < x.right;
    MemberNested(rows, k, b);
  }

  lemma CloseAdmissible(rows: seq<Row>, k: int)
    requires Ordered(rows) && Pairwise(rows) && 0 <= k < |rows|
    ensures var x := rows[k];
      AdmissibleRows(Close(x.right, x.right - x.left + 1), DeleteLeftIn(rows, x.left, x.right))
  {
    var x := rows[k];
    var d := DeleteLeftIn(rows, x.left, x.right);
    forall i | 0 <= i < |d| ensures AdmissibleRow(Close(x.right, x.right - x.left + 1), d[i]) {
      CloseSurvivor(rows, k, d[i]);
    }
  }

  lemma CloseNesting(rows: seq<Row>, k: int)
    requires Ordered(rows) && Pairwise(rows) && 0 <= k < |rows|
    ensures Ordered(MapBounds(DeleteLeftIn(rows, rows[k].left, rows[k].right),
                              Close(rows[k].right, rows[k].right - rows[k].left + 1)))
    ensures Pairwise(MapBounds(DeleteLeftIn(rows, rows[k].left, rows[k].right),
                               Close(rows[k].right, rows[k].right - rows[k].left + 1)))
  {
    var d := DeleteLeftIn(rows, rows[k].left, rows[k].right);
    var s := Close(rows[k].right, rows[k].right - rows[k].left + 1);
    assert ShiftOk(s) by {
      assert rows[k].left < rows[k].right;
    }
    DeleteKeepsPairwise(rows, rows[k].left, rows[k].right);
    CloseAdmissible(rows, k);
    MapKeepsPairwise(d, s);
  }

  /** Removing the subtree of `rows[k]` takes its row and all its descendants from each ancestor. */
  lemma CloseRemoved(rows: seq<Row>, k: int, b: Row)
    requires Valid(rows) && 0 <= k < |rows|
    requires CountLeftIn(rows, rows[k].left, rows[k].right) == 1 + CountInside(rows, rows[k])
    requires b in DeleteLeftIn(rows, rows[k].left, rows[k].right)
    ensures var x := rows[k];
      CountInside(rows, b) == CountInside(DeleteLeftIn(rows, x.left, x.right), b)
        + (if b.left < x.left && x.right < b.right then 1 + CountInside(rows, x) else 0)
  {
    var x := rows[k];
    CloseSurvivor(rows, k, b);
    CountInsideAfterDelete(rows, b, x.left, x.right);
    if b.left < x.left && x.right < b.right {
      CountInsideLeftInAll(rows, b, x.left, x.right);
    } else {
      CountInsideLeftInNone(rows, b, x.left, x.right);
    }
  }

  lemma CloseCount(rows: seq<Row>, k: int, b: Row)
    requires Valid(rows) && 0 <= k < |rows|
    requires CountLeftIn(rows, rows[k].left, rows[k].right) == 1 + CountInside(rows, rows[k])
    requires b in DeleteLeftIn(rows, rows[k].left, rows[k].right)
    ensures var x := rows[k];
      var s := Close(x.right, x.right - x.left + 1);
      var t := MapBounds(DeleteLeftIn(rows, x.left, x.right), s);
      2 * CountInside(t, MapRow(b, s)) + 1 == MapRow(b, s).right - MapRow(b, s).left
  {
    var x := rows[k];
    var s := Close(x.right, x.right - x.left + 1);
    var d := DeleteLeftIn(rows, x.left, x.right);
    CloseMapped(rows, k, b);
    CloseSurvivor(rows, k, b);
    CloseRemoved(rows, k, b);
    MemberCount(rows, b);
    MemberCount(rows, x);
    var cb, cd, cx := CountInside(rows, b), CountInside(d, b), CountInside(rows, x);
    CloseWidth(b, x, cb, cd, cx);
  }

  /** Closing the gap renumbers a surviving row and its descendants alike, so its count is kept. */
  lemma CloseMapped(rows: seq<Row>, k: int, b: Row)
    requires Ordered(rows) && Pairwise(rows) && 0 <= k < |rows|
    requires b in DeleteLeftIn(rows, rows[k].left, rows[k].right)
    ensures var x := rows[k];
      var s := Close(x.right, x.right - x.left + 1);
      var d := DeleteLeftIn(rows, x.left, x.right);
      CountInside(MapBounds(d, s), MapRow(b, s)) == CountInside(d, b)
  {
    var x := rows[k];
    var s := Close(x.right, x.right - x.left + 1);
    var d := DeleteLeftIn(rows, x.left, x.right);
    CloseAdmissible(rows, k);
    CloseSurvivor(rows, k, b);
    CountInsideMapped(d, s, b);
  }

  /** The width bookkeeping of `CloseCount`, on bare numbers. */
  lemma CloseWidth(b: Row, x: Row, cb: nat, cd: nat, cx: nat)
    requires 2 * cb + 1 == b.right - b.left && 2 * cx + 1 == x.right - x.left
    requires (b.left < x.left && x.right < b.right) || b.right < x.left || x.right < b.left
    requires b.left < b.right
    requires cb == cd + (if b.left < x.left && x.right < b.right then 1 + cx else 0)
    ensures var s := Close(x.right, x.right - x.left + 1);
      2 * cd + 1 == MapRow(b, s).right - MapRow(b, s).left
  {
  }
}
