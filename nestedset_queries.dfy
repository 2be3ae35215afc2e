/**
 * The read-only queries of the nested-set engine: path, depth, parent, children, descendants,
 * leaves, the full tree and the descendant count, each as the rows its SQL selects. A query with
 * `ORDER BY left` is the filtered rows sorted by `left`; one without it keeps table order.
 */
module NestedSetQueries {
  import opened Results
  import opened NestedSetTable

  // ---------------------------------------------------------------------------------------------
  // Filtering and counting

  /** The rows satisfying `f`, in table order (a `WHERE` clause without `ORDER BY`). */
  function Filter(rows: seq<Row>, f: Row -> bool): (r: seq<Row>)
    ensures |r| <= |rows|
  {
    if rows == [] then []
    else
      var last := rows[|rows| - 1];
      Filter(rows[..|rows| - 1], f) + (if f(last) then [last] else [])
  }

  lemma {:induction false} FilterMembers(rows: seq<Row>, f: Row -> bool)
    ensures forall x :: x in Filter(rows, f) <==> x in rows && f(x)
  {
    if rows != [] {
      var pre := rows[..|rows| - 1];
      FilterMembers(pre, f);
      assert rows == pre + [rows[|rows| - 1]];
    }
  }

  /** A filter keeps every copy of a row it accepts and no copy of a row it rejects. */
  lemma {:induction false} FilterCount(rows: seq<Row>, f: Row -> bool, x: Row)
    ensures multiset(Filter(rows, f))[x] == if f(x) then multiset(rows)[x] else 0
  {
    if rows != [] {
      var pre := rows[..|rows| - 1];
      FilterCount(pre, f, x);
      assert rows == pre + [rows[|rows| - 1]];
    }
  }

  /** Two filters that agree on every row select the same rows. */
  lemma {:induction false} FilterSame(rows: seq<Row>, f: Row -> bool, g: Row -> bool)
    requires forall i :: 0 <= i < |rows| ==> f(rows[i]) == g(rows[i])
    ensures Filter(rows, f) == Filter(rows, g)
  {
    if rows != [] {
      FilterSame(rows[..|rows| - 1], f, g);
    }
  }

  /** When `f` splits into the disjoint cases `g` and `h`, the counts add up. */
  lemma {:induction false} FilterSplit(rows: seq<Row>, f: Row -> bool, g: Row -> bool, h: Row -> bool)
    requires forall i :: 0 <= i < |rows| ==> f(rows[i]) == (g(rows[i]) || h(rows[i]))
    requires forall i :: 0 <= i < |rows| ==> !(g(rows[i]) && h(rows[i]))
    ensures |Filter(rows, f)| == |Filter(rows, g)| + |Filter(rows, h)|
  {
    if rows != [] {
      FilterSplit(rows[..|rows| - 1], f, g, h);
    }
  }

  /** No row occurs twice. */
  predicate NoDup(s: seq<Row>) {
    forall i, j :: 0 <= i < |s| && 0 <= j < |s| && i != j ==> s[i] != s[j]
  }

  lemma {:induction false} FilterNoDup(rows: seq<Row>, f: Row -> bool)
    requires NoDup(rows)
    ensures NoDup(Filter(rows, f))
  {
    if rows != [] {
      var pre := rows[..|rows| - 1];
      FilterNoDup(pre, f);
      FilterMembers(pre, f);
      assert rows[|rows| - 1] !in pre;
    }
  }

  /** The test "is the row `x`". */
  function Only(x: Row): Row -> bool {
    (p: Row) => p == x
  }

  /** A row occurring once in the table is selected once. */
  lemma {:induction false} FilterOnly(rows: seq<Row>, k: int)
    requires NoDup(rows) && 0 <= k < |rows|
    ensures |Filter(rows, Only(rows[k]))| == 1
  {
    var n := |rows|;
    var pre := rows[..n - 1];
    if k == n - 1 {
      FilterEmpty(pre, Only(rows[k]));
    } else {
      assert pre[k] == rows[k];
      FilterOnly(pre, k);
    }
  }

  /** Two different members make a sequence at least two long. */
  lemma AtLeastTwo(s: seq<Row>, x: Row, y: Row)
    requires x in s && y in s && x != y
    ensures |s| >= 2
  {
  }

  lemma {:induction false} FilterEmpty(rows: seq<Row>, f: Row -> bool)
    requires forall i :: 0 <= i < |rows| ==> !f(rows[i])
    ensures Filter(rows, f) == []
  {
    if rows != [] {
      FilterEmpty(rows[..|rows| - 1], f);
    }
  }

  lemma {:induction false} FilterInsideCount(rows: seq<Row>, a: Row)
    ensures |Filter(rows, (p: Row) => Inside(p, a))| == CountInside(rows, a)
  {
    if rows != [] {
      FilterInsideCount(rows[..|rows| - 1], a);
    }
  }

  // ---------------------------------------------------------------------------------------------
  // ORDER BY left

  predicate SortedByLeft(s: seq<Row>) {
    forall i, j :: 0 <= i < j < |s| ==> s[i].left <= s[j].left
  }

  function InsertByLeft(r: Row, s: seq<Row>): (t: seq<Row>)
    ensures multiset(t) == multiset(s) + multiset{r}
  {
    if s == [] || r.left <= s[0].left then [r] + s
    else
      assert s == [s[0]] + s[1..];
      [s[0]] + InsertByLeft(r, s[1..])
  }

  lemma {:induction false} InsertByLeftSorted(r: Row, s: seq<Row>)
    requires SortedByLeft(s)
    ensures SortedByLeft(InsertByLeft(r, s))
  {
    if s != [] && r.left > s[0].left {
      var u := InsertByLeft(r, s[1..]);
      InsertByLeftSorted(r, s[1..]);
      forall i | 0 <= i < |s[1..]| ensures s[0].left <= s[1..][i].left {
        assert s[1..][i] == s[i + 1];
      }
      InsertByLeftAbove(r, s[1..], s[0].left);
      var t := [s[0]] + u;
      assert InsertByLeft(r, s) == t;
      forall i, j | 0 <= i < j < |t| ensures t[i].left <= t[j].left {
        if i > 0 {
          assert t[i] == u[i - 1] && t[j] == u[j - 1];
        } else {
          assert t[j] == u[j - 1];
        }
      }
    }
  }

  /** Inserting a row keeps a lower bound every row's `left` already respects. */
  lemma {:induction false} InsertByLeftAbove(r: Row, s: seq<Row>, lo: int)
    requires lo <= r.left && forall i :: 0 <= i < |s| ==> lo <= s[i].left
    ensures forall i :: 0 <= i < |InsertByLeft(r, s)| ==> lo <= InsertByLeft(r, s)[i].left
  {
    if s != [] && r.left > s[0].left {
      var u := InsertByLeft(r, s[1..]);
      forall i | 0 <= i < |s[1..]| ensures lo <= s[1..][i].left {
        assert s[1..][i] == s[i + 1];
      }
      InsertByLeftAbove(r, s[1..], lo);
      var t := [s[0]] + u;
      assert InsertByLeft(r, s) == t;
      forall i | 0 <= i < |t| ensures lo <= t[i].left {
        if i > 0 {
          assert t[i] == u[i - 1];
        }
      }
    }
  }

  lemma {:induction false} InsertByLeftNoDup(r: Row, s: seq<Row>)
    requires NoDup(s) && r !in s
    ensures NoDup(InsertByLeft(r, s))
  {
    if s != [] && r.left > s[0].left {
      var u := InsertByLeft(r, s[1..]);
      assert s == [s[0]] + s[1..];
      InsertByLeftNoDup(r, s[1..]);
      if s[0] in u {
        assert s[0] in multiset(u);
      }
    }
  }

  /** The rows of `s` in ascending `left` order (insertion sort). */
  function SortByLeft(s: seq<Row>): (t: seq<Row>)
    ensures multiset(t) == multiset(s)
  {
    if s == [] then []
    else
      assert s == [s[0]] + s[1..];
      InsertByLeft(s[0], SortByLeft(s[1..]))
  }

  /** The sort yields ascending lefts and keeps the length. */
  lemma {:induction false} SortByLeftSorted(s: seq<Row>)
    ensures SortedByLeft(SortByLeft(s)) && |SortByLeft(s)| == |s|
  {
    assert |multiset(SortByLeft(s))| == |s|;
    if s != [] {
      SortByLeftSorted(s[1..]);
      InsertByLeftSorted(s[0], SortByLeft(s[1..]));
    }
  }

  /** The sort keeps a duplicate-free input duplicate-free. */
  lemma {:induction false} SortByLeftNoDup(s: seq<Row>)
    requires NoDup(s)
    ensures NoDup(SortByLeft(s))
  {
    if s != [] {
      var u := SortByLeft(s[1..]);
      assert s == [s[0]] + s[1..];
      SortByLeftNoDup(s[1..]);
      assert s[0] !in multiset(u);
      InsertByLeftNoDup(s[0], u);
    }
  }

  lemma SortMembers(s: seq<Row>)
    ensures forall x :: x in SortByLeft(s) <==> x in s
  {
    forall x ensures x in SortByLeft(s) <==> x in s {
      assert x in SortByLeft(s) <==> x in multiset(SortByLeft(s));
    }
  }

  // ---------------------------------------------------------------------------------------------
  // Selections

  /** `SELECT * FROM t WHERE c`, in table order. */
  function Select(rows: seq<Row>, c: Cond): seq<Row> {
    Filter(rows, (r: Row) => Matches(r, c))
  }

  /** With unique ids, selecting by a row's id yields exactly that row. */
  lemma {:induction false} SelectById(rows: seq<Row>, k: int)
    requires Pairwise(rows) && 0 <= k < |rows|
    ensures Select(rows, IdIs(rows[k].id)) == [rows[k]]
  {
    var n := |rows|;
    var pre := rows[..n - 1];
    if k == n - 1 {
      forall j | 0 <= j < n - 1 ensures pre[j].id != rows[k].id {
        assert Compatible(rows[j], rows[k]);
      }
      FilterEmpty(pre, (r: Row) => Matches(r, IdIs(rows[k].id)));
    } else {
      assert Compatible(rows[k], rows[n - 1]);
      assert pre[k] == rows[k];
      SelectById(pre, k);
    }
  }

  lemma SelectAbsent(rows: seq<Row>, id: int)
    requires !HasId(rows, id)
    ensures Select(rows, IdIs(id)) == []
  {
    FilterEmpty(rows, (r: Row) => Matches(r, IdIs(id)));
  }

  // ---------------------------------------------------------------------------------------------
  // Ancestors and depth

  /** The rows whose interval contains `v`: for `v` a row's left, its ancestors-or-self. */
  function AncestorsOf(rows: seq<Row>, v: int): seq<Row> {
    Filter(rows, (p: Row) => Within(v, p))
  }

  /** The rows whose interval strictly encloses `x`: its proper ancestors. */
  function Enclosing(rows: seq<Row>, x: Row): seq<Row> {
    Filter(rows, (p: Row) => Inside(x, p))
  }

  /** `COUNT(parent.id) - 1` over `node.left BETWEEN parent.left AND parent.right`. */
  function DepthOf(rows: seq<Row>, x: Row): int {
    |AncestorsOf(rows, x.left)| - 1
  }

  /** For a row of a valid table, its ancestors-or-self are its proper ancestors and itself. */
  lemma AncestorsSplit(rows: seq<Row>, k: int)
    requires Valid(rows) && 0 <= k < |rows|
    ensures forall p :: p in AncestorsOf(rows, rows[k].left) <==> p in Enclosing(rows, rows[k]) || p == rows[k]
    ensures |AncestorsOf(rows, rows[k].left)| == |Enclosing(rows, rows[k])| + 1
  {
    var x := rows[k];
    var f := (p: Row) => Within(x.left, p);
    var g := (p: Row) => Inside(x, p);
    var h := Only(x);
    forall i | 0 <= i < |rows| ensures f(rows[i]) == (g(rows[i]) || h(rows[i])) && !(g(rows[i]) && h(rows[i])) {
      if i != k {
        assert Compatible(rows[i], x);
      }
    }
    FilterSplit(rows, f, g, h);
    FilterMembers(rows, f);
    FilterMembers(rows, g);
    PairwiseNoDup(rows);
    FilterOnly(rows, k);
  }

  lemma PairwiseNoDup(rows: seq<Row>)
    requires Pairwise(rows)
    ensures NoDup(rows)
  {
    forall i, j | 0 <= i < |rows| && 0 <= j < |rows| && i != j ensures rows[i] != rows[j] {
      assert Compatible(rows[i], rows[j]);
    }
  }

  /** The depth of a row is the number of its proper ancestors. */
  lemma DepthCountsEnclosing(rows: seq<Row>, k: int)
    requires Valid(rows) && 0 <= k < |rows|
    ensures DepthOf(rows, rows[k]) == |Enclosing(rows, rows[k])|
  {
    AncestorsSplit(rows, k);
  }

  /** Rows strictly inside `x` whose interval contains `v`: the rows between `x` and the row at `v`. */
  function Between(rows: seq<Row>, x: Row, v: int): seq<Row> {
    Filter(rows, (p: Row) => Inside(p, x) && Within(v, p))
  }

  /** Below `x`, a row's depth exceeds `x`'s by the number of rows from `x` (excluded) down to it. */
  lemma DepthBelow(rows: seq<Row>, k: int, j: int)
    requires Valid(rows) && 0 <= k < |rows| && 0 <= j < |rows|
    requires Inside(rows[j], rows[k])
    ensures DepthOf(rows, rows[j]) == DepthOf(rows, rows[k]) + |Between(rows, rows[k], rows[j].left)|
    ensures rows[j] in Between(rows, rows[k], rows[j].left)
  {
    var x, r := rows[k], rows[j];
    var f := (p: Row) => Within(r.left, p);
    var g := (p: Row) => Within(x.left, p);
    var h := (p: Row) => Inside(p, x) && Within(r.left, p);
    assert j != k;
    assert Compatible(r, x);
    forall i | 0 <= i < |rows| ensures f(rows[i]) == (g(rows[i]) || h(rows[i])) && !(g(rows[i]) && h(rows[i])) {
      if i != k {
        assert Compatible(rows[i], x);
      }
    }
    FilterSplit(rows, f, g, h);
    FilterMembers(rows, h);
  }

  // ---------------------------------------------------------------------------------------------
  // path, depth, parentNode

  /** For each node, in order, its ancestors-or-self: the join `node x parent` of the path query. */
  function JoinAncestors(rows: seq<Row>, nodes: seq<Row>): seq<Row> {
    if nodes == [] then []
    else JoinAncestors(rows, nodes[..|nodes| - 1]) + AncestorsOf(rows, nodes[|nodes| - 1].left)
  }

  /**
   * `SELECT parent.* FROM t AS node, t AS parent WHERE node.left BETWEEN parent.left AND
   * parent.right AND node.<c> ORDER BY parent.left`; `None` (JavaScript `null`) when empty.
   */
  function PathWhere(rows: seq<Row>, c: Cond): Option<seq<Row>> {
    var j := JoinAncestors(rows, Select(rows, c));
    if j == [] then None else Some(SortByLeft(j))
  }

  /** `depth`: the path's length minus one. */
  function DepthWhere(rows: seq<Row>, c: Cond): Option<int> {
    match PathWhere(rows, c)
    case None => None
    case Some(p) => Some(|p| - 1)
  }

  /** `parentNode`: the second-to-last row of the path, `None` for a root or an absent node. */
  function ParentWhere(rows: seq<Row>, c: Cond): Option<Row> {
    match PathWhere(rows, c)
    case None => None
    case Some(p) => if |p| < 2 then None else Some(p[|p| - 2])
  }

  lemma PathOfRow(rows: seq<Row>, k: int)
    requires Valid(rows) && 0 <= k < |rows|
    ensures PathWhere(rows, IdIs(rows[k].id)) == Some(SortByLeft(AncestorsOf(rows, rows[k].left)))
  {
    SelectById(rows, k);
    assert [rows[k]][..0] == [];
    assert JoinAncestors(rows, [rows[k]]) == AncestorsOf(rows, rows[k].left);
    AncestorsSplit(rows, k);
  }

  /**
   * The path of a row of a valid table: exactly its ancestors-or-self, without repetition, in
   * ascending `left` order, so root first and the row itself last.
   */
  lemma PathById(rows: seq<Row>, k: int)
    requires Valid(rows) && 0 <= k < |rows|
    ensures PathWhere(rows, IdIs(rows[k].id)).Some?
    ensures var p := PathWhere(rows, IdIs(rows[k].id)).value;
      && |p| == |Enclosing(rows, rows[k])| + 1 && p[|p| - 1] == rows[k]
      && SortedByLeft(p) && NoDup(p)
      && (forall y :: y in p <==> y in rows && Within(rows[k].left, y))
  {
    var x := rows[k];
    PathOfRow(rows, k);
    AncestorsSplit(rows, k);
    var a := AncestorsOf(rows, x.left);
    var p := SortByLeft(a);
    FilterMembers(rows, (q: Row) => Within(x.left, q));
    SortMembers(a);
    PairwiseNoDup(rows);
    FilterNoDup(rows, (q: Row) => Within(x.left, q));
    SortByLeftSorted(a);
    SortByLeftNoDup(a);
    PathLast(rows, k, p);
  }

  /** In a sorted list of `x`'s ancestors-or-self, `x` itself comes last. */
  lemma PathLast(rows: seq<Row>, k: int, p: seq<Row>)
    requires Valid(rows) && 0 <= k < |rows|
    requires SortedByLeft(p) && forall y :: y in p <==> y in rows && Within(rows[k].left, y)
    ensures |p| >= 1 && p[|p| - 1] == rows[k]
  {
    var x := rows[k];
    assert x in p;
    var e := p[|p| - 1];
    var i :| 0 <= i < |p| && p[i] == x;
    assert x.left <= e.left;
    assert e in p;
    var ie :| 0 <= ie < |rows| && rows[ie] == e;
    assert ie == k;
  }

  /** An absent id has no path, no depth and no parent. */
  lemma PathAbsent(rows: seq<Row>, id: int)
    requires !HasId(rows, id)
    ensures PathWhere(rows, IdIs(id)) == None
    ensures DepthWhere(rows, IdIs(id)) == None && ParentWhere(rows, IdIs(id)) == None
  {
    SelectAbsent(rows, id);
  }

  /** `depth` counts the proper ancestors of the row. */
  lemma DepthById(rows: seq<Row>, k: int)
    requires Valid(rows) && 0 <= k < |rows|
    ensures DepthWhere(rows, IdIs(rows[k].id)) == Some(|Enclosing(rows, rows[k])|)
    ensures DepthWhere(rows, IdIs(rows[k].id)) == Some(DepthOf(rows, rows[k]))
  {
    var a := AncestorsOf(rows, rows[k].left);
    PathOfRow(rows, k);
    assert |SortByLeft(a)| == |a| by {
      assert |multiset(SortByLeft(a))| == |multiset(a)|;
    }
    AncestorsSplit(rows, k);
  }

  /** `r` is a child of `x`: strictly inside it, with no row strictly between them. */
  predicate ChildOf(rows: seq<Row>, r: Row, x: Row) {
    && Inside(r, x)
    && forall p :: p in rows && Inside(p, x) && Within(r.left, p) ==> p == r
  }

  /**
   * `parentNode` finds the innermost proper ancestor: it is `None` exactly for a row with no
   * proper ancestor, and otherwise a row that `rows[k]` is a child of.
   */
  lemma ParentById(rows: seq<Row>, k: int)
    requires Valid(rows) && 0 <= k < |rows|
    ensures ParentWhere(rows, IdIs(rows[k].id)).None? <==> Enclosing(rows, rows[k]) == []
    ensures ParentWhere(rows, IdIs(rows[k].id)).Some? ==>
      var q := ParentWhere(rows, IdIs(rows[k].id)).value;
      q in rows && ChildOf(rows, rows[k], q)
  {
    PathById(rows, k);
    var p := PathWhere(rows, IdIs(rows[k].id)).value;
    if |p| >= 2 {
      ParentInnermost(rows, k, p);
    }
  }

  /** The second-to-last row of `x`'s path is a proper ancestor with nothing between it and `x`. */
  lemma ParentInnermost(rows: seq<Row>, k: int, p: seq<Row>)
    requires Valid(rows) && 0 <= k < |rows|
    requires |p| >= 2 && p[|p| - 1] == rows[k] && SortedByLeft(p) && NoDup(p)
    requires forall y :: y in p <==> y in rows && Within(rows[k].left, y)
    ensures p[|p| - 2] in rows && ChildOf(rows, rows[k], p[|p| - 2])
  {
    var x, n := rows[k], |p|;
    var q := p[n - 2];
    assert q in p;
    var iq :| 0 <= iq < |rows| && rows[iq] == q;
    assert iq != k;
    assert Compatible(q, x);
    forall y | y in rows && Inside(y, q) && Within(x.left, y) ensures y == x {
      assert y in p;
      var j :| 0 <= j < n && p[j] == y;
      assert j == n - 1;
    }
  }

  /** A row's parent is `rows[j]` exactly when the row is a child of `rows[j]`. */
  lemma ParentIsChildOf(rows: seq<Row>, k: int, j: int)
    requires Valid(rows) && 0 <= k < |rows| && 0 <= j < |rows|
    ensures ParentWhere(rows, IdIs(rows[k].id)) == Some(rows[j]) <==> ChildOf(rows, rows[k], rows[j])
  {
    var x, y := rows[k], rows[j];
    ParentById(rows, k);
    AncestorsSplit(rows, k);
    FilterMembers(rows, (p: Row) => Inside(x, p));
    if ChildOf(rows, x, y) {
      assert y in Enclosing(rows, x);
      var q := ParentWhere(rows, IdIs(x.id)).value;
      var iq :| 0 <= iq < |rows| && rows[iq] == q;
    }
  }

  // ---------------------------------------------------------------------------------------------
  // children, descendants, fullTree

  /** A row together with the `Depth` column of the query that produced it. */
  datatype Ranked = Ranked(row: Row, depth: int)

  function WithDepths(s: seq<Row>, depth: Row -> int): (r: seq<Ranked>)
    ensures |r| == |s|
    ensures forall i :: 0 <= i < |s| ==> r[i].row == s[i] && r[i].depth == depth(s[i])
  {
    seq(|s|, i requires 0 <= i < |s| => Ranked(s[i], depth(s[i])))
  }

  /**
   * `children`: the rows of the first row matching `c`'s subtree whose depth is one more than its
   * own (`HAVING Depth = 1`), ordered by `left`.
   */
  function ChildrenWhere(rows: seq<Row>, c: Cond): seq<Row> {
    match FirstMatch(rows, c)
    case None => []
    case Some(x) =>
      SortByLeft(Filter(rows, OneLevelBelow(rows, x)))
  }

  /** The test of `children`: a row whose left bound lies in `x` and one level deeper. */
  function OneLevelBelow(rows: seq<Row>, x: Row): Row -> bool {
    (n: Row) => Within(n.left, x) && DepthOf(rows, n) == DepthOf(rows, x) + 1
  }

  /** The children of a row of a valid table are exactly the rows it is the parent of. */
  lemma ChildrenById(rows: seq<Row>, k: int, j: int)
    requires Valid(rows) && 0 <= k < |rows| && 0 <= j < |rows|
    ensures rows[j] in ChildrenWhere(rows, IdIs(rows[k].id)) <==> ChildOf(rows, rows[j], rows[k])
    ensures SortedByLeft(ChildrenWhere(rows, IdIs(rows[k].id)))
  {
    var x := rows[k];
    FirstMatchById(rows, k);
    var f := OneLevelBelow(rows, x);
    FilterMembers(rows, f);
    SortMembers(Filter(rows, f));
    SortByLeftSorted(Filter(rows, f));
    OneLevelBelowIsChild(rows, k, j);
  }

  /** On a valid table the test of `children` holds of exactly the children of `x`. */
  lemma OneLevelBelowIsChild(rows: seq<Row>, k: int, j: int)
    requires Valid(rows) && 0 <= k < |rows| && 0 <= j < |rows|
    ensures OneLevelBelow(rows, rows[k])(rows[j]) <==> ChildOf(rows, rows[j], rows[k])
  {
    var x, r := rows[k], rows[j];
    if Inside(r, x) {
      ChildDepth(rows, k, j);
    } else if j != k {
      assert Compatible(r, x);
    }
  }

  /** Below `x`, being one level deeper than `x` is being a child of `x`. */
  lemma ChildDepth(rows: seq<Row>, k: int, j: int)
    requires Valid(rows) && 0 <= k < |rows| && 0 <= j < |rows|
    requires Inside(rows[j], rows[k])
    ensures DepthOf(rows, rows[j]) == DepthOf(rows, rows[k]) + 1 <==> ChildOf(rows, rows[j], rows[k])
  {
    var x, r := rows[k], rows[j];
    DepthBelow(rows, k, j);
    var h := (p: Row) => Inside(p, x) && Within(r.left, p);
    FilterMembers(rows, h);
    if ChildOf(rows, r, x) {
      forall i | 0 <= i < |rows| ensures h(rows[i]) == Only(r)(rows[i]) {
      }
      FilterSame(rows, h, Only(r));
      PairwiseNoDup(rows);
      FilterOnly(rows, j);
    } else {
      var p :| p in rows && Inside(p, x) && Within(r.left, p) && p != r;
      AtLeastTwo(Between(rows, x, r.left), r, p);
    }
  }


  /**
   * `descendants`: the rows of the first matching row's subtree with a positive `Depth`, ordered by
   * `left`; `Depth` is relative to that row when `relative` (the source's `absoluteDepths` argument
   * given) and absolute otherwise.
   */
  function DescendantsWhere(rows: seq<Row>, c: Cond, relative: bool): seq<Ranked> {
    match FirstMatch(rows, c)
    case None => []
    case Some(x) =>
      var base := if relative then DepthOf(rows, x) else 0;
      WithDepths(
        SortByLeft(Filter(rows, (n: Row) => Within(n.left, x) && DepthOf(rows, n) - base > 0)),
        (n: Row) => DepthOf(rows, n) - base)
  }

  /** The rows of a ranked result. */
  function RowsOf(s: seq<Ranked>): (r: seq<Row>)
    ensures |r| == |s| && forall i :: 0 <= i < |s| ==> r[i] == s[i].row
  {
    seq(|s|, i requires 0 <= i < |s| => s[i].row)
  }

  /**
   * With relative depths (`absoluteDepths` passed), the descendants of a row of a valid table are
   * exactly the rows strictly inside it, each at its number of levels below the row, and there are
   * `(right - left - 1) / 2` of them.
   */
  lemma DescendantsById(rows: seq<Row>, k: int)
    requires Valid(rows) && 0 <= k < |rows|
    ensures var d := DescendantsWhere(rows, IdIs(rows[k].id), true);
      && (forall y :: y in RowsOf(d) <==> y in rows && Inside(y, rows[k]))
      && (forall i :: 0 <= i < |d| ==>
            d[i].depth == |Enclosing(rows, d[i].row)| - |Enclosing(rows, rows[k])| >= 1)
      && |d| == CountInside(rows, rows[k]) == (rows[k].right - rows[k].left - 1) / 2
      && SortedByLeft(RowsOf(d))
  {
    var x := rows[k];
    FirstMatchById(rows, k);
    var base := DepthOf(rows, x);
    var f := (n: Row) => Within(n.left, x) && DepthOf(rows, n) - base > 0;
    var g := (p: Row) => Inside(p, x);
    forall i | 0 <= i < |rows| ensures f(rows[i]) == g(rows[i]) {
      if Inside(rows[i], x) {
        DepthBelow(rows, k, i);
        FilterMembers(rows, (p: Row) => Inside(p, x) && Within(rows[i].left, p));
      } else if i != k {
        assert Compatible(rows[i], x);
      }
    }
    FilterSame(rows, f, g);
    FilterMembers(rows, g);
    FilterInsideCount(rows, x);
    var s := SortByLeft(Filter(rows, f));
    SortMembers(Filter(rows, f));
    SortByLeftSorted(Filter(rows, f));
    var d := DescendantsWhere(rows, IdIs(x.id), true);
    assert RowsOf(d) == s;
    DepthCountsEnclosing(rows, k);
    forall i | 0 <= i < |d| ensures d[i].depth == |Enclosing(rows, d[i].row)| - |Enclosing(rows, x)| >= 1 {
      assert s[i] in s;
      var j :| 0 <= j < |rows| && rows[j] == s[i];
      DepthCountsEnclosing(rows, j);
    }
  }

  /**
   * With absolute depths (the default call `descendants(id)`), `Depth > 0` keeps every row strictly
   * inside the node and also the node itself unless it is a root; each comes with its number of
   * proper ancestors.
   */
  lemma DescendantsAbsolute(rows: seq<Row>, k: int)
    requires Valid(rows) && 0 <= k < |rows|
    ensures var d := DescendantsWhere(rows, IdIs(rows[k].id), false);
      && (forall y :: y in RowsOf(d) <==>
            y in rows && (Inside(y, rows[k]) || (y == rows[k] && |Enclosing(rows, rows[k])| > 0)))
      && (forall i :: 0 <= i < |d| ==> d[i].depth == |Enclosing(rows, d[i].row)|)
      && SortedByLeft(RowsOf(d))
  {
    var x := rows[k];
    FirstMatchById(rows, k);
    DepthCountsEnclosing(rows, k);
    var f := (n: Row) => Within(n.left, x) && DepthOf(rows, n) - 0 > 0;
    var g := (p: Row) => Inside(p, x) || (p == x && |Enclosing(rows, x)| > 0);
    forall i | 0 <= i < |rows| ensures f(rows[i]) == g(rows[i]) {
      if Inside(rows[i], x) {
        DepthBelow(rows, k, i);
        FilterMembers(rows, (p: Row) => Inside(p, x) && Within(rows[i].left, p));
      } else if i != k {
        assert Compatible(rows[i], x);
      }
    }
    FilterSame(rows, f, g);
    FilterMembers(rows, g);
    var s := SortByLeft(Filter(rows, f));
    SortMembers(Filter(rows, f));
    SortByLeftSorted(Filter(rows, f));
    var d := DescendantsWhere(rows, IdIs(x.id), false);
    assert RowsOf(d) == s;
    forall i | 0 <= i < |d| ensures d[i].depth == |Enclosing(rows, d[i].row)| {
      assert s[i] in s;
      var j :| 0 <= j < |rows| && rows[j] == s[i];
      DepthCountsEnclosing(rows, j);
    }
  }

  /** `fullTree`: every row with its absolute depth, ordered by `left`. */
  function FullTree(rows: seq<Row>): seq<Ranked> {
    WithDepths(SortByLeft(rows), (n: Row) => DepthOf(rows, n))
  }

  /** The full tree lists each row of the table once, in `left` order, at its number of proper ancestors. */
  lemma FullTreeExact(rows: seq<Row>)
    requires Valid(rows)
    ensures var t := FullTree(rows);
      && multiset(RowsOf(t)) == multiset(rows) && SortedByLeft(RowsOf(t))
      && forall i :: 0 <= i < |t| ==> t[i].depth == |Enclosing(rows, t[i].row)|
  {
    var t := FullTree(rows);
    var s := SortByLeft(rows);
    SortByLeftSorted(rows);
    assert RowsOf(t) == s;
    forall i | 0 <= i < |t| ensures t[i].depth == |Enclosing(rows, t[i].row)| {
      assert s[i] in multiset(rows);
      var k :| 0 <= k < |rows| && rows[k] == s[i];
      DepthCountsEnclosing(rows, k);
    }
  }

  // ---------------------------------------------------------------------------------------------
  // leaves, descendantCount, getIdConditional

  predicate IsLeaf(r: Row) {
    r.right == r.left + 1
  }

  /**
   * `leaves`: rows with `right = left + 1`, in table order; with a `where` row, only those whose
   * left lies within that row's bounds. The bounds come from scalar subqueries, so no matching row
   * selects nothing and more than one is an SQL error.
   */
  function LeavesWhere(rows: seq<Row>, w: Option<Cond>): Result<seq<Row>> {
    match w
    case None => Ok(Filter(rows, IsLeaf))
    case Some(c) =>
      var m := Select(rows, c);
      if |m| > 1 then Err("Subquery returns more than 1 row")
      else if m == [] then Ok([])
      else Ok(Filter(rows, (r: Row) => IsLeaf(r) && Within(r.left, m[0])))
  }

  /** In a valid table, the leaves are exactly the rows without descendants. */
  lemma LeavesExact(rows: seq<Row>)
    requires Valid(rows)
    ensures LeavesWhere(rows, None).Ok?
    ensures forall y :: y in LeavesWhere(rows, None).value <==> y in rows && CountInside(rows, y) == 0
  {
    FilterMembers(rows, IsLeaf);
  }

  /** Under a given row of a valid table, the leaves are its childless descendants-or-self. */
  lemma LeavesById(rows: seq<Row>, k: int)
    requires Valid(rows) && 0 <= k < |rows|
    ensures LeavesWhere(rows, Some(IdIs(rows[k].id))).Ok?
    ensures forall y :: y in LeavesWhere(rows, Some(IdIs(rows[k].id))).value <==>
      y in rows && CountInside(rows, y) == 0 && Within(y.left, rows[k])
  {
    SelectById(rows, k);
    FilterMembers(rows, (r: Row) => IsLeaf(r) && Within(r.left, rows[k]));
  }

  /**
   * `descendantCount`: `(right - left - 1) / 2` of the row with that id. For an id with no row the
   * query yields an empty array, which the `!result` test lets through, and reading
   * `result[0].count` throws.
   */
  function DescendantCount(rows: seq<Row>, id: int): Result<int> {
    match FirstMatch(rows, IdIs(id))
    case None => Err("Cannot read property 'count' of undefined")
    case Some(x) => Ok((x.right - x.left - 1) / 2)
  }

  /** `descendantCount` throws exactly for an id that no row has. */
  lemma DescendantCountFails(rows: seq<Row>, id: int)
    ensures DescendantCount(rows, id).Err? <==> !HasId(rows, id)
  {
    if HasId(rows, id) {
      var k :| 0 <= k < |rows| && rows[k].id == id;
      assert Matches(rows[k], IdIs(id));
    } else {
      FirstMatchAbsent(rows, id);
    }
  }

  /** In a valid table the formula is exactly the number of rows strictly inside the node. */
  lemma DescendantCountExact(rows: seq<Row>, k: int)
    requires Valid(rows) && 0 <= k < |rows|
    ensures DescendantCount(rows, rows[k].id) == Ok(CountInside(rows, rows[k]))
  {
    FirstMatchById(rows, k);
    DescendantCountOf(rows, rows[k], CountInside(rows, rows[k]));
  }

  /** A node found by its id and `2c + 1` wide has `c` descendants by the formula. */
  lemma DescendantCountOf(rows: seq<Row>, x: Row, c: nat)
    requires FirstMatch(rows, IdIs(x.id)) == Some(x) && 2 * c + 1 == x.right - x.left
    ensures DescendantCount(rows, x.id) == Ok(c)
  {
    assert x.right - x.left - 1 == 2 * c;
  }

  /** `getIdConditional`: the id of the first row matching `c`; `None` stands for `false`. */
  function GetIdWhere(rows: seq<Row>, c: Cond): (r: Option<int>)
    ensures r.None? <==> forall i :: 0 <= i < |rows| ==> !Matches(rows[i], c)
    ensures r.Some? ==>
      exists i :: (0 <= i < |rows| && Matches(rows[i], c) && rows[i].id == r.value
        && forall j :: 0 <= j < i ==> !Matches(rows[j], c))
  {
    var k := FirstIndex(rows, c);
    if k < |rows| then Some(rows[k].id) else None
  }
}
