/**
 * The two flat assignment tables: role-permission rows `(role, permission)` and user-role rows
 * `(user, role)`. Neither has a uniqueness constraint, so both are sequences of pairs in table
 * order; the assignment date column is not part of the model.
 */
module Assignments {

  /** One assignment row: `(role, permission)` or `(user, role)`. */
  datatype Link = Link(first: int, second: int)

  /** The rows that satisfy `f`, in table order: `SELECT ... WHERE f`. */
  function Where(rows: seq<Link>, f: Link -> bool): (r: seq<Link>)
    ensures |r| <= |rows|
    ensures forall x :: x in r <==> x in rows && f(x)
  {
    if rows == [] then []
    else Where(rows[..|rows| - 1], f) + (if f(rows[|rows| - 1]) then [rows[|rows| - 1]] else [])
  }

  /** The rows that do not satisfy `f`: what `DELETE ... WHERE f` leaves behind. */
  function Without(rows: seq<Link>, f: Link -> bool): (r: seq<Link>)
    ensures |r| + |Where(rows, f)| == |rows|
    ensures forall x :: x in r <==> x in rows && !f(x)
  {
    if rows == [] then []
    else Without(rows[..|rows| - 1], f) + (if f(rows[|rows| - 1]) then [] else [rows[|rows| - 1]])
  }

  /** Selecting from a table with one more row selects that row too when it satisfies `f`. */
  lemma WhereSnoc(rows: seq<Link>, x: Link, f: Link -> bool)
    ensures Where(rows + [x], f) == Where(rows, f) + (if f(x) then [x] else [])
  {
    assert (rows + [x])[..|rows|] == rows;
  }

  /** `SELECT COUNT(*) ... WHERE f`. */
  function CountWhere(rows: seq<Link>, f: Link -> bool): nat {
    |Where(rows, f)|
  }

  /** `row.first = v`. */
  function FirstIs(v: int): Link -> bool {
    (l: Link) => l.first == v
  }

  /** `row.second = v`. */
  function SecondIs(v: int): Link -> bool {
    (l: Link) => l.second == v
  }

  /** `row.first = a AND row.second = b`. */
  function PairIs(a: int, b: int): Link -> bool {
    (l: Link) => l.first == a && l.second == b
  }

  /** The second column of each row, in order. */
  function Seconds(rows: seq<Link>): (r: seq<int>)
    ensures |r| == |rows| && forall i :: 0 <= i < |rows| ==> r[i] == rows[i].second
  {
    seq(|rows|, i requires 0 <= i < |rows| => rows[i].second)
  }

  /** The first column of each row, in order. */
  function Firsts(rows: seq<Link>): (r: seq<int>)
    ensures |r| == |rows| && forall i :: 0 <= i < |rows| ==> r[i] == rows[i].first
  {
    seq(|rows|, i requires 0 <= i < |rows| => rows[i].first)
  }

  // ---------------------------------------------------------------------------------------------
  // ORDER BY on id columns

  predicate Ascending(s: seq<int>) {
    forall i, j :: 0 <= i < j < |s| ==> s[i] <= s[j]
  }

  function InsertSorted(x: int, s: seq<int>): (r: seq<int>)
    requires Ascending(s)
    ensures Ascending(r) && multiset(r) == multiset(s) + multiset{x}
  {
    if s == [] then [x]
    else if x <= s[0] then [x] + s
    else
      AscendingTail(s);
      var t := InsertSorted(x, s[1..]);
      assert s == [s[0]] + s[1..];
      LowerBound(s[0], x, s[1..], t);
      AscendingCons(s[0], t);
      [s[0]] + t
  }

  /** The tail of an ascending sequence is ascending and bounded below by the head. */
  lemma AscendingTail(s: seq<int>)
    requires Ascending(s) && s != []
    ensures Ascending(s[1..]) && forall i :: 0 <= i < |s[1..]| ==> s[0] <= s[1..][i]
  {
    forall i | 0 <= i < |s[1..]| ensures s[0] <= s[1..][i] {
      assert s[1..][i] == s[i + 1];
    }
  }

  /** A head no larger than any element of an ascending tail gives an ascending sequence. */
  lemma AscendingCons(a: int, t: seq<int>)
    requires Ascending(t) && forall i :: 0 <= i < |t| ==> a <= t[i]
    ensures Ascending([a] + t)
  {
    var r := [a] + t;
    forall i, j | 0 <= i < j < |r| ensures r[i] <= r[j] {
      assert r[j] == t[j - 1];
      if i > 0 {
        assert r[i] == t[i - 1];
      }
    }
  }

  /** Every element of `t`, made of `x` and the elements of `s`, is at least `lo` when they are. */
  lemma LowerBound(lo: int, x: int, s: seq<int>, t: seq<int>)
    requires lo <= x && (forall i :: 0 <= i < |s| ==> lo <= s[i])
    requires multiset(t) == multiset(s) + multiset{x}
    ensures forall i :: 0 <= i < |t| ==> lo <= t[i]
  {
    forall i | 0 <= i < |t| ensures lo <= t[i] {
      assert t[i] in multiset(t);
      if t[i] != x {
        assert t[i] in multiset(s);
        assert t[i] in s;
      }
    }
  }

  /** `ORDER BY` an integer column: the same ids, ascending. */
  function Sort(s: seq<int>): (r: seq<int>)
    ensures Ascending(r) && multiset(r) == multiset(s)
  {
    if s == [] then []
    else
      assert s == s[..|s| - 1] + [s[|s| - 1]];
      InsertSorted(s[|s| - 1], Sort(s[..|s| - 1]))
  }

  /** An assignment table in the database. */
  class Relation {
    var rows: seq<Link>

    constructor ()
      ensures rows == []
    {
      rows := [];
    }

    /** `INSERT`: appends one row. */
    method Insert(l: Link)
      modifies this
      ensures rows == old(rows) + [l]
    {
      rows := rows + [l];
    }

    /** `DELETE ... WHERE f`; returns the number of rows deleted. */
    method DeleteWhere(f: Link -> bool) returns (count: nat)
      modifies this
      ensures rows == Without(old(rows), f)
      ensures count == CountWhere(old(rows), f) == |old(rows)| - |rows|
    {
      count := CountWhere(rows, f);
      rows := Without(rows, f);
    }

    /** `DELETE FROM t` followed by `ALTER TABLE t AUTO_INCREMENT=1`. */
    method Clear() returns (count: nat)
      modifies this
      ensures rows == [] && count == |old(rows)|
    {
      count := |rows|;
      rows := [];
    }
  }
}
