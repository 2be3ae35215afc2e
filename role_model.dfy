/**
 * The role side of the access decisions. Roles and permissions are two nested-set hierarchies;
 * role-permission rows are `Link(role, permission)` and user-role rows `Link(user, role)`.
 * A role holds a permission when it, or one of its juniors (a descendant in the role tree), is
 * assigned that permission or one of its ancestors in the permission tree: hierarchical RBAC,
 * section 5.2 of ANSI INCITS 359-2004.
 */
module RoleModel {
  import opened Results
  import opened JsonValues
  import opened NestedSetTable
  import opened NestedSetQueries
  import opened NestedSetExtended
  import opened Assignments
  import opened RbacBase

  // ---------------------------------------------------------------------------------------------
  // hasPermission

  /** A role row with id `id` starts within `x` (`TR.left BETWEEN x.left AND x.right`). */
  predicate JuniorWithId(roles: seq<Row>, x: Row, id: int) {
    exists j :: 0 <= j < |roles| && roles[j].id == id && Within(roles[j].left, x)
  }

  /**
   * `id` is in the `IN (SELECT parent.id ...)` set: a permission row with id `id` holds the left
   * of a permission row with id `permission`.
   */
  predicate AboveWithId(perms: seq<Row>, permission: int, id: int) {
    exists i, q :: 0 <= i < |perms| && 0 <= q < |perms| && perms[i].id == id && perms[q].id == permission
      && Within(perms[q].left, perms[i])
  }

  /**
   * `hasPermission(role, permission)` as its comments describe it: some assignment joins a junior
   * of the role (`TR.id = TRel.roleId`) with an ancestor of the permission. A role id with no row
   * makes the bound subqueries empty, so nothing is counted.
   */
  predicate HasPermission(roles: seq<Row>, perms: seq<Row>, rp: seq<Link>, role: int, permission: int) {
    match FirstMatch(roles, IdIs(role))
    case None => false
    case Some(x) =>
      exists n :: 0 <= n < |rp| && JuniorWithId(roles, x, rp[n].first) && AboveWithId(perms, permission, rp[n].second)
  }

  /**
   * `hasPermission(role, permission)` as the query is written: the role table is joined on the
   * assignment's permission column (`TR.id = TRel.permissionId`).
   */
  predicate HasPermissionAsWritten(roles: seq<Row>, perms: seq<Row>, rp: seq<Link>, role: int, permission: int) {
    match FirstMatch(roles, IdIs(role))
    case None => false
    case Some(x) =>
      exists n :: 0 <= n < |rp| && JuniorWithId(roles, x, rp[n].second) && AboveWithId(perms, permission, rp[n].second)
  }

  /**
   * A role holds every permission at or below one assigned to it or to one of its juniors: the
   * assignment `(roles[j], perms[i])` grants `perms[q]` to `roles[k]` when `roles[j]` starts within
   * `roles[k]` and `perms[q]` starts within `perms[i]`.
   */
  lemma HasPermissionInherited(roles: seq<Row>, perms: seq<Row>, rp: seq<Link>, k: int, j: int, i: int, q: int)
    requires Pairwise(roles)
    requires 0 <= k < |roles| && 0 <= j < |roles| && 0 <= i < |perms| && 0 <= q < |perms|
    requires Link(roles[j].id, perms[i].id) in rp
    requires Within(roles[j].left, roles[k]) && Within(perms[q].left, perms[i])
    ensures HasPermission(roles, perms, rp, roles[k].id, perms[q].id)
  {
    FirstMatchById(roles, k);
    var n :| 0 <= n < |rp| && rp[n] == Link(roles[j].id, perms[i].id);
    assert JuniorWithId(roles, roles[k], rp[n].first);
    assert AboveWithId(perms, perms[q].id, rp[n].second);
  }

  /**
   * With unique ids in both tables, `roles[k]` holds `perms[q]` exactly when some assignment row
   * pairs a junior-or-self of `roles[k]` with an ancestor-or-self of `perms[q]`.
   */
  lemma HasPermissionIff(roles: seq<Row>, perms: seq<Row>, rp: seq<Link>, k: int, q: int)
    requires Pairwise(roles) && Pairwise(perms) && 0 <= k < |roles| && 0 <= q < |perms|
    ensures HasPermission(roles, perms, rp, roles[k].id, perms[q].id) <==>
      exists n, j, i :: 0 <= n < |rp| && 0 <= j < |roles| && 0 <= i < |perms|
        && rp[n] == Link(roles[j].id, perms[i].id)
        && Within(roles[j].left, roles[k]) && Within(perms[q].left, perms[i])
  {
    if HasPermission(roles, perms, rp, roles[k].id, perms[q].id) {
      HasPermissionWitness(roles, perms, rp, k, q);
    }
    if exists n, j, i :: 0 <= n < |rp| && 0 <= j < |roles| && 0 <= i < |perms|
        && rp[n] == Link(roles[j].id, perms[i].id)
        && Within(roles[j].left, roles[k]) && Within(perms[q].left, perms[i]) {
      var n, j, i :| 0 <= n < |rp| && 0 <= j < |roles| && 0 <= i < |perms|
        && rp[n] == Link(roles[j].id, perms[i].id)
        && Within(roles[j].left, roles[k]) && Within(perms[q].left, perms[i]);
      HasPermissionInherited(roles, perms, rp, k, j, i, q);
    }
  }

  /** The forward half of `HasPermissionIff`: a held permission has an assignment row behind it. */
  lemma HasPermissionWitness(roles: seq<Row>, perms: seq<Row>, rp: seq<Link>, k: int, q: int)
    requires Pairwise(roles) && Pairwise(perms) && 0 <= k < |roles| && 0 <= q < |perms|
    requires HasPermission(roles, perms, rp, roles[k].id, perms[q].id)
    ensures exists n, j, i ::
      && 0 <= n < |rp| && 0 <= j < |roles| && 0 <= i < |perms|
      && rp[n] == Link(roles[j].id, perms[i].id)
      && Within(roles[j].left, roles[k]) && Within(perms[q].left, perms[i])
  {
    FirstMatchById(roles, k);
    var n :| 0 <= n < |rp| && JuniorWithId(roles, roles[k], rp[n].first)
      && AboveWithId(perms, perms[q].id, rp[n].second);
    var j :| 0 <= j < |roles| && roles[j].id == rp[n].first && Within(roles[j].left, roles[k]);
    var i, q' :| 0 <= i < |perms| && 0 <= q' < |perms| && perms[i].id == rp[n].second
      && perms[q'].id == perms[q].id && Within(perms[q'].left, perms[i]);
    assert q' == q;
    assert rp[n] == Link(roles[j].id, perms[i].id);
  }

  /** A senior role holds every permission its juniors hold. */
  lemma SeniorInherits(roles: seq<Row>, perms: seq<Row>, rp: seq<Link>, a: int, b: int, permission: int)
    requires Valid(roles) && 0 <= a < |roles| && 0 <= b < |roles| && Within(roles[b].left, roles[a])
    requires HasPermission(roles, perms, rp, roles[b].id, permission)
    ensures HasPermission(roles, perms, rp, roles[a].id, permission)
  {
    FirstMatchById(roles, a);
    FirstMatchById(roles, b);
    var x, y := roles[a], roles[b];
    SeniorContains(roles, a, b);
    var n :| 0 <= n < |rp| && JuniorWithId(roles, y, rp[n].first) && AboveWithId(perms, permission, rp[n].second);
    var j :| 0 <= j < |roles| && roles[j].id == rp[n].first && Within(roles[j].left, y);
    assert JuniorWithId(roles, x, rp[n].first);
  }

  /** A role whose left bound lies within another's lies wholly within it. */
  lemma SeniorContains(roles: seq<Row>, a: int, b: int)
    requires Ordered(roles) && Pairwise(roles) && 0 <= a < |roles| && 0 <= b < |roles|
    requires Within(roles[b].left, roles[a])
    ensures roles[a].left <= roles[b].left && roles[b].right <= roles[a].right
  {
    if a != b {
      assert Compatible(roles[a], roles[b]);
    }
  }

  /** A role id with no row holds no permission. */
  lemma UnknownRoleHoldsNothing(roles: seq<Row>, perms: seq<Row>, rp: seq<Link>, role: int, permission: int)
    requires !HasId(roles, role)
    ensures !HasPermission(roles, perms, rp, role, permission)
  {
    FirstMatchAbsent(roles, role);
  }

  /** Permissions `root` `[0, 5]` with the leaves `read` (id 2) and `write` (id 5). */
  function ReadWritePermissions(): seq<Row> {
    [Row(1, 0, 5, "root", "root"), Row(2, 1, 2, "read", ""), Row(5, 3, 4, "write", "")]
  }

  /**
   * The written join disagrees with the intended one both ways: `editor` is assigned `write` yet
   * is refused it, and a role 7 that has no row's assignment of `read` is credited to `editor`.
   */
  lemma HasPermissionJoinCounterexample()
    ensures HasPermission(EditorRoles(), ReadWritePermissions(), [Link(2, 5)], 2, 5)
    ensures !HasPermissionAsWritten(EditorRoles(), ReadWritePermissions(), [Link(2, 5)], 2, 5)
    ensures !HasPermission(EditorRoles(), ReadWritePermissions(), [Link(7, 2)], 2, 2)
    ensures HasPermissionAsWritten(EditorRoles(), ReadWritePermissions(), [Link(7, 2)], 2, 2)
  {
    var roles, perms := EditorRoles(), ReadWritePermissions();
    assert Pairwise(roles) by {
      forall i, j | 0 <= i < |roles| && 0 <= j < |roles| && i != j ensures Compatible(roles[i], roles[j]) { }
    }
    FirstMatchById(roles, 1);
    assert JuniorWithId(roles, roles[1], 2);
    assert AboveWithId(perms, 5, 5) by { assert Within(perms[2].left, perms[2]); }
    assert AboveWithId(perms, 2, 2) by { assert Within(perms[1].left, perms[1]); }
    assert !JuniorWithId(roles, roles[1], 5);
    assert !JuniorWithId(roles, roles[1], 7);
    var granted, stray := [Link(2, 5)], [Link(7, 2)];
    assert JuniorWithId(roles, roles[1], granted[0].first) && AboveWithId(perms, 5, granted[0].second);
    assert JuniorWithId(roles, roles[1], stray[0].second) && AboveWithId(perms, 2, stray[0].second);
  }

  /**
   * `hasPermission(role, permission)` as written: its first statement, `this.get('config')`, calls
   * a `get` that neither the role builder nor `RbacBase` defines, so every call throws a TypeError
   * before any query runs.
   */
  function HasPermissionCall(roles: seq<Row>, perms: seq<Row>, rp: seq<Link>, role: int, permission: int): (r: Result<bool>)
    ensures r.Err?
  {
    Err("this.get is not a function")
  }

  /** `editor`, assigned `write`, holds it by the intended decision; the call as written throws. */
  lemma HasPermissionCallCounterexample()
    ensures HasPermission(EditorRoles(), ReadWritePermissions(), [Link(2, 5)], 2, 5)
    ensures HasPermissionCall(EditorRoles(), ReadWritePermissions(), [Link(2, 5)], 2, 5).Err?
  {
    HasPermissionJoinCounterexample();
  }

  /** The one row of `SELECT COUNT(*) AS Result`. */
  function CountRow(count: nat): Json {
    Obj([Prop("Result", Num(count))])
  }

  /**
   * JavaScript's `1 <= v` for the values read here: a number compares as itself, `undefined` as
   * NaN, so false.
   */
  predicate AtLeastOne(v: Json) {
    match v
    case Num(n) => 1 <= n
    case Bool(b) => b
    case _ => false
  }

  /** hasPermission's read of the reply as written: `1 <= result[0].Result`. */
  function HasPermissionRead(result: Json): Result<bool> {
    match Member(result, "0")
    case Err(e) => Err(e)
    case Ok(rows) =>
      if rows.Null? || rows.Undefined? then Err("Cannot read property 'Result'")
      else
        match Member(rows, "Result")
        case Err(e) => Err(e)
        case Ok(v) => Ok(AtLeastOne(v))
  }

  /** The evidently intended read: the count of the first row, `1 <= result[0][0].Result`. */
  function HasPermissionReadCorrected(result: Json): Result<bool> {
    match Member(result, "0")
    case Err(e) => Err(e)
    case Ok(rows) =>
      if rows.Null? || rows.Undefined? then Err("Cannot read property '0'")
      else
        match Member(rows, "0")
        case Err(e) => Err(e)
        case Ok(row) =>
          if row.Null? || row.Undefined? then Err("Cannot read property 'Result'")
          else
            match Member(row, "Result")
            case Err(e) => Err(e)
            case Ok(v) => Ok(AtLeastOne(v))
  }

  /** As written, `.Result` is read off the array of rows, which has no such property: always false. */
  lemma HasPermissionReadAlwaysFalse(count: nat)
    ensures HasPermissionRead(RawReply([CountRow(count)])) == Ok(false)
  {
    assert IndexOfKey("Result").None? by {
      assert "Result"[0] == 'R' && !IsDigit('R');
    }
  }

  /** The corrected read answers true exactly when the count is at least one. */
  lemma HasPermissionReadCounts(count: nat)
    ensures HasPermissionReadCorrected(RawReply([CountRow(count)])) == Ok(1 <= count)
  {
    assert IsIndexKey("0", 0);
  }

  // ---------------------------------------------------------------------------------------------
  // remove, unassignPermissions, unassignUsers

  /** `unassignPermissions(id)`: deletes the role's role-permission rows; returns how many. */
  method UnassignPermissions(rolePermissions: Relation, id: int) returns (count: nat)
    modifies rolePermissions
    ensures rolePermissions.rows == Without(old(rolePermissions.rows), FirstIs(id))
    ensures count == CountWhere(old(rolePermissions.rows), FirstIs(id))
  {
    count := rolePermissions.DeleteWhere(FirstIs(id));
  }

  /** `unassignUsers(id)`: deletes the user-role rows naming the role; returns how many. */
  method UnassignUsers(userRoles: Relation, id: int) returns (count: nat)
    modifies userRoles
    ensures userRoles.rows == Without(old(userRoles.rows), SecondIs(id))
    ensures count == CountWhere(old(userRoles.rows), SecondIs(id))
  {
    count := userRoles.DeleteWhere(SecondIs(id));
  }

  /**
   * `remove(id, recursive)`: drops the role's permission and user assignments, then deletes the
   * role from the tree, promoting its children when `recursive` is not passed and removing its
   * whole subtree when it is. Assignments of every other role, descendants included, stay.
   */
  method Remove(t: Table, rolePermissions: Relation, userRoles: Relation, id: int, recursive: bool)
    returns (res: Result<bool>)
    requires t.IdsOk() && rolePermissions != userRoles
    modifies t, rolePermissions, userRoles
    ensures rolePermissions.rows == Without(old(rolePermissions.rows), FirstIs(id))
    ensures userRoles.rows == Without(old(userRoles.rows), SecondIs(id))
    ensures t.IdsOk() && t.nextId == old(t.nextId)
    ensures Removed(old(t.rows), t.rows, id, recursive, res)
    ensures Valid(old(t.rows)) ==> Valid(t.rows)
  {
    var removedPermissions := UnassignPermissions(rolePermissions, id);
    var removedUsers := UnassignUsers(userRoles, id);
    assert t.rows == old(t.rows) && t.nextId == old(t.nextId);
    res := RemoveEntry(t, id, recursive);
  }

  // ---------------------------------------------------------------------------------------------
  // permissions

  /** `permissions(role)`: the permission ids of the role's assignment rows, ascending. */
  function Permissions(rp: seq<Link>, role: int): (r: seq<int>)
    ensures Ascending(r) && multiset(r) == multiset(Seconds(Where(rp, FirstIs(role))))
  {
    Sort(Seconds(Where(rp, FirstIs(role))))
  }

  /** A permission id is listed for a role exactly when an assignment row pairs them. */
  lemma PermissionsMembers(rp: seq<Link>, role: int, p: int)
    ensures p in Permissions(rp, role) <==> Link(role, p) in rp
  {
    var w := Where(rp, FirstIs(role));
    var s := Seconds(w);
    assert p in Permissions(rp, role) <==> p in s by {
      assert p in multiset(Permissions(rp, role)) <==> p in multiset(s);
    }
    if p in s {
      var i :| 0 <= i < |s| && s[i] == p;
      assert w[i] in w;
      assert w[i] == Link(role, p);
    }
    if Link(role, p) in rp {
      assert Link(role, p) in w;
      var i :| 0 <= i < |w| && w[i] == Link(role, p);
      assert s[i] == p;
    }
  }

  /**
   * `permissions(role, onlyIDs)` with `onlyIDs` passed: the permission rows of the role's
   * assignments, ordered by id.
   */
  function PermissionRows(perms: seq<Row>, rp: seq<Link>, role: int): (r: seq<Row>)
    ensures forall x :: x in r <==> x in perms && Link(role, x.id) in rp
    ensures forall i, j :: 0 <= i < j < |r| ==> r[i].id <= r[j].id
  {
    var ids := Permissions(rp, role);
    RowsByIdsAscending(perms, ids);
    forall p ensures p in ids <==> Link(role, p) in rp {
      PermissionsMembers(rp, role, p);
    }
    RowsByIds(perms, ids)
  }

  /** Each permission row is listed once per assignment row pairing the role with its id. */
  lemma PermissionRowsCount(perms: seq<Row>, rp: seq<Link>, role: int)
    ensures forall x ::
      multiset(PermissionRows(perms, rp, role))[x] == multiset(Seconds(Where(rp, FirstIs(role))))[x.id] * multiset(perms)[x]
  {
    RowsByIdsCounts(perms, Permissions(rp, role), Seconds(Where(rp, FirstIs(role))));
  }
}
