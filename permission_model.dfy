/**
 * The permission side of the bookkeeping: removing a permission with its role assignments and
 * listing the roles a permission is assigned to. Role-permission rows are `Link(role, permission)`.
 */
module PermissionModel {
  import opened Results
  import opened JsonValues
  import opened NestedSetTable
  import opened NestedSetExtended
  import opened Assignments
  import opened RbacBase

  // ---------------------------------------------------------------------------------------------
  // remove, unassignRoles

  /** `unassignRoles(id)`: deletes the permission's role-permission rows; returns how many. */
  method UnassignRoles(rolePermissions: Relation, id: int) returns (count: nat)
    modifies rolePermissions
    ensures rolePermissions.rows == Without(old(rolePermissions.rows), SecondIs(id))
    ensures count == CountWhere(old(rolePermissions.rows), SecondIs(id))
  {
    count := rolePermissions.DeleteWhere(SecondIs(id));
  }

  /** `unassignRoles` leaves the rows of every other permission as they were, in order. */
  lemma {:induction false} UnassignRolesKeepsOthers(rows: seq<Link>, id: int, other: int)
    requires other != id
    ensures Where(Without(rows, SecondIs(id)), SecondIs(other)) == Where(rows, SecondIs(other))
  {
    if rows != [] {
      var pre, last := rows[..|rows| - 1], rows[|rows| - 1];
      assert rows == pre + [last];
      UnassignRolesKeepsOthers(pre, id, other);
      WhereSnoc(pre, last, SecondIs(other));
      var kept := Without(pre, SecondIs(id));
      if last.second == id {
        assert Without(rows, SecondIs(id)) == kept;
        assert Where(rows, SecondIs(other)) == Where(pre, SecondIs(other));
      } else {
        assert Without(rows, SecondIs(id)) == kept + [last];
        WhereSnoc(kept, last, SecondIs(other));
      }
    }
  }

  /**
   * `remove(id, recursive)`: drops the permission's role assignments, then deletes it from the
   * tree, promoting its children when `recursive` is not passed and removing its whole subtree
   * when it is.
   */
  method Remove(t: Table, rolePermissions: Relation, id: int, recursive: bool) returns (res: Result<bool>)
    requires t.IdsOk()
    modifies t, rolePermissions
    ensures rolePermissions.rows == Without(old(rolePermissions.rows), SecondIs(id))
    ensures t.IdsOk() && t.nextId == old(t.nextId)
    ensures Removed(old(t.rows), t.rows, id, recursive, res)
    ensures Valid(old(t.rows)) ==> Valid(t.rows)
  {
    var removed := UnassignRoles(rolePermissions, id);
    assert t.rows == old(t.rows) && t.nextId == old(t.nextId);
    res := RemoveEntry(t, id, recursive);
  }

  // ---------------------------------------------------------------------------------------------
  // roles

  /**
   * The id a permission argument names: one whose decimal text is all digits (`/^\d+$/`) is used
   * as it is; any other is handed to `resolve`, the lookup by name.
   */
  function PermissionOf(x: Ident, resolve: Ident -> Option<int>): (r: Option<int>)
    ensures x.IdNum? && x.n >= 0 ==> r == Some(x.n)
    ensures x.IdText? && |x.s| >= 1 && AllDigits(x.s) ==> r == Some(DigitsValue(x.s))
    ensures (x.IdNum? && x.n < 0) || (x.IdText? && !(|x.s| >= 1 && AllDigits(x.s))) ==> r == resolve(x)
  {
    match x
    case IdNum(n) => if n >= 0 then Some(n) else resolve(x)
    case IdText(s) => if |s| >= 1 && AllDigits(s) then Some(DigitsValue(s)) else resolve(x)
  }

  /** The non-zero elements of `s`, in order: the `if (result.ID)` filter. */
  function NonZero(s: seq<int>): (r: seq<int>)
    ensures forall x :: x in r <==> x in s && x != 0
    ensures Ascending(s) ==> Ascending(r)
  {
    if s == [] then []
    else
      var rest := NonZero(s[1..]);
      assert forall x :: x in s <==> x == s[0] || x in s[1..];
      if s[0] == 0 then rest
      else
        assert Ascending(s) ==> Ascending([s[0]] + rest) by {
          if Ascending(s) {
            assert Ascending(s[1..]);
            forall j | 0 <= j < |rest| ensures s[0] <= rest[j] {
              assert rest[j] in s[1..];
            }
          }
        }
        [s[0]] + rest
  }
  /** `NonZero` drops every zero and keeps every other element as many times as it occurs. */
  lemma {:induction false} NonZeroCount(s: seq<int>)
    ensures multiset(NonZero(s)) == multiset(s)[0 := 0]
  {
    if s != [] {
      NonZeroCount(s[1..]);
      assert s == [s[0]] + s[1..];
      if s[0] != 0 {
        assert NonZero(s) == [s[0]] + NonZero(s[1..]);
      }
    }
  }


  /**
   * `roles(permission)`: the role ids of the permission's assignment rows, ascending, without the
   * falsy id `0`. A permission that resolves to nothing matches no row.
   */
  function RoleIds(rp: seq<Link>, permission: Option<int>): (r: seq<int>)
    ensures Ascending(r)
    ensures permission.None? ==> r == []
    ensures permission.Some? ==> forall x :: x in r <==> x != 0 && Link(x, permission.value) in rp
    ensures permission.Some? ==> multiset(r) == multiset(Firsts(Where(rp, SecondIs(permission.value))))[0 := 0]
  {
    if permission.None? then []
    else
      var w := Where(rp, SecondIs(permission.value));
      var s := Sort(Firsts(w));
      NonZeroCount(s);
      forall x ensures x in s <==> Link(x, permission.value) in rp {
        assert x in s <==> x in multiset(Firsts(w));
        if x in Firsts(w) {
          var i :| 0 <= i < |w| && Firsts(w)[i] == x;
          assert w[i] in w;
        }
        if Link(x, permission.value) in rp {
          assert Link(x, permission.value) in w;
          var i :| 0 <= i < |w| && w[i] == Link(x, permission.value);
          assert Firsts(w)[i] == x;
        }
      }
      NonZero(s)
  }

  /**
   * `roles(permission, onlyIDs)` with `onlyIDs` passed: the role rows joined with the permission's
   * assignment rows, ordered by role id.
   */
  function RoleRows(roles: seq<Row>, rp: seq<Link>, permission: Option<int>): (r: seq<Row>)
    ensures permission.None? ==> r == []
    ensures permission.Some? ==> forall x :: x in r <==> x in roles && Link(x.id, permission.value) in rp
    ensures permission.Some? ==> forall x ::
      multiset(r)[x] == multiset(Firsts(Where(rp, SecondIs(permission.value))))[x.id] * multiset(roles)[x]
    ensures forall i, j :: 0 <= i < j < |r| ==> r[i].id <= r[j].id
  {
    if permission.None? then []
    else
      var w := Where(rp, SecondIs(permission.value));
      var ids := Sort(Firsts(w));
      RowsByIdsAscending(roles, ids);
      RowsByIdsCounts(roles, ids, Firsts(w));
      forall x ensures x in ids <==> Link(x, permission.value) in rp {
        assert x in ids <==> x in multiset(Firsts(w));
        if x in Firsts(w) {
          var i :| 0 <= i < |w| && Firsts(w)[i] == x;
          assert w[i] in w;
        }
        if Link(x, permission.value) in rp {
          assert Link(x, permission.value) in w;
          var i :| 0 <= i < |w| && w[i] == Link(x, permission.value);
          assert Firsts(w)[i] == x;
        }
      }
      RowsByIds(roles, ids)
  }
}
