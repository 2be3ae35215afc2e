/**
 * The user side of the access decisions: user-role rows `Link(user, role)` over the role
 * hierarchy. A user has a role when one of the user's directly assigned roles is that role or a
 * senior of it, so the role is reached through the assignment by going down the tree.
 */
module UserModel {
  import opened Results
  import opened JsonValues
  import opened NestedSetTable
  import opened NestedSetQueries
  import opened SlashPaths
  import opened Assignments
  import opened RbacBase

  // ---------------------------------------------------------------------------------------------
  // Role identifiers

  /** The decimal text of an integer (`-?(0|[1-9][0-9]*)`), as the validator's `isInt` accepts it. */
  predicate Canonical(s: string) {
    |s| >= 1 && AllDigits(s) && (|s| > 1 ==> s[0] != '0')
  }

  predicate IntText(s: string) {
    Canonical(s) || (|s| >= 2 && s[0] == '-' && Canonical(s[1..]))
  }

  function IntValue(s: string): int
    requires IntText(s)
  {
    if Canonical(s) then DigitsValue(s) else 0 - DigitsValue(s[1..]) as int
  }

  /** How a role argument is looked up. */
  datatype RoleIdentifier = ById(id: int) | ByPath(path: string) | ByTitle(title: string)

  /**
   * The role-identifier dispatch of `hasRole` and `assign`: an integer, or the text of one, is the
   * id; other text starting with `/` is a path; anything else is a title.
   */
  function Classify(role: Ident): (r: RoleIdentifier)
    ensures role.IdNum? ==> r == ById(role.n)
    ensures role.IdText? && IntText(role.s) ==> r == ById(IntValue(role.s))
    ensures role.IdText? && !IntText(role.s) ==>
      (r.ByPath? <==> |role.s| >= 1 && role.s[0] == '/') && (r.ByPath? ==> r.path == role.s)
      && (r.ByTitle? ==> r.title == role.s)
  {
    match role
    case IdNum(n) => ById(n)
    case IdText(s) =>
      if IntText(s) then ById(IntValue(s))
      else if |s| >= 1 && s[0] == '/' then ByPath(s)
      else ByTitle(s)
  }

  /** Integer text names the integer it spells. */
  lemma ClassifyDecimal(n: nat)
    ensures Classify(IdText(DecimalString(n))) == ById(n)
  {
    DecimalRoundTrip(n);
  }

  /**
   * The id a role argument resolves to: a path through `pathId` (whose length guard counts
   * `ownCount` rows), a title through the first row with that title.
   */
  function ResolveRole(roles: seq<Row>, ownCount: nat, role: Ident): (r: Result<Option<int>>)
    ensures Classify(role).ById? ==> r == Ok(Some(Classify(role).id))
    ensures Classify(role).ByPath? ==> r == PathId(roles, Classify(role).path, ownCount)
    ensures Classify(role).ByTitle? ==> r == Ok(GetIdWhere(roles, TitleIs(Classify(role).title)))
  {
    match Classify(role)
    case ById(id) => Ok(Some(id))
    case ByPath(path) => PathId(roles, path, ownCount)
    case ByTitle(title) => Ok(GetIdWhere(roles, TitleIs(title)))
  }

  /** A path argument that names a row resolves to that row's id. */
  lemma ResolveRoleByPath(roles: seq<Row>, k: int, path: string, ownCount: nat)
    requires Valid(roles) && 0 <= k < |roles| && NoSlash(roles[k].title)
    requires |path| >= 1 && path[0] == '/' && !IntText(path)
    requires NormalizePath(path) == TitlePath(roles, roles[k])
    requires forall i :: 0 <= i < |roles| && i != k ==> TitlePath(roles, roles[i]) != TitlePath(roles, roles[k])
    requires TitleLengthSum(roles) + ownCount <= PathLimit + 1
    ensures ResolveRole(roles, ownCount, IdText(path)) == Ok(Some(roles[k].id))
  {
    PathIdOfNode(roles, k, path, ownCount);
  }

  // ---------------------------------------------------------------------------------------------
  // hasRole

  /**
   * The join of `hasRole`: a user-role row of `user` names a role row `TRdirect` whose interval
   * holds the left of a role row with id `role`.
   */
  predicate Reaches(roles: seq<Row>, ur: seq<Link>, user: int, role: int) {
    exists n, d, r :: 0 <= n < |ur| && 0 <= d < |roles| && 0 <= r < |roles|
      && ur[n].first == user && roles[d].id == ur[n].second
      && roles[r].id == role && Within(roles[r].left, roles[d])
  }

  /**
   * `hasRole(role, userId)`: throws without a user; a role that resolves to nothing is not held;
   * otherwise the role is held when some assignment of the user reaches it.
   */
  function HasRole(roles: seq<Row>, ur: seq<Link>, role: Ident, userId: Option<int>): (r: Result<bool>)
    ensures userId.None? ==> r.Err?
    ensures userId.Some? ==> match ResolveRole(roles, |ur|, role)
      case Err(e) => r == Err(e)
      case Ok(None) => r == Ok(false)
      case Ok(Some(id)) => r == Ok(Reaches(roles, ur, userId.value, id))
  {
    if userId.None? then Err("userId is a required argument")
    else
      match ResolveRole(roles, |ur|, role)
      case Err(e) => Err(e)
      case Ok(None) => Ok(false)
      case Ok(Some(id)) => Ok(Reaches(roles, ur, userId.value, id))
  }

  /** A user holds every role at or below one assigned to them. */
  lemma HasRoleInherited(roles: seq<Row>, ur: seq<Link>, user: int, d: int, r: int)
    requires 0 <= d < |roles| && 0 <= r < |roles| && Link(user, roles[d].id) in ur
    requires Within(roles[r].left, roles[d])
    ensures HasRole(roles, ur, IdNum(roles[r].id), Some(user)) == Ok(true)
  {
    var n :| 0 <= n < |ur| && ur[n] == Link(user, roles[d].id);
    assert ur[n].first == user && roles[d].id == ur[n].second;
  }

  /**
   * Holding is not inherited upwards: when every assignment of the user names `roles[d]`, a proper
   * ancestor of `roles[d]` is not held.
   */
  lemma HasRoleNotSenior(roles: seq<Row>, ur: seq<Link>, user: int, d: int, a: int)
    requires Valid(roles) && 0 <= d < |roles| && 0 <= a < |roles| && Inside(roles[d], roles[a])
    requires forall n :: 0 <= n < |ur| && ur[n].first == user ==> ur[n].second == roles[d].id
    ensures HasRole(roles, ur, IdNum(roles[a].id), Some(user)) == Ok(false)
  {
    forall n, d', r | 0 <= n < |ur| && 0 <= d' < |roles| && 0 <= r < |roles|
        && ur[n].first == user && roles[d'].id == ur[n].second && roles[r].id == roles[a].id
      ensures !Within(roles[r].left, roles[d'])
    {
      assert d' == d && r == a;
    }
  }

  /**
   * hasRole's test of the reply as written, `_.isObject(result[0])`: `result[0]` is the array of
   * rows, which is an object whether or not it holds any.
   */
  function HasRoleTest(result: Json): Result<bool> {
    match Member(result, "0")
    case Err(e) => Err(e)
    case Ok(v) => Ok(IsObject(v))
  }

  /** The evidently intended test: the join returned a row (`result[0].length` is truthy). */
  function HasRoleTestCorrected(result: Json): Result<bool> {
    match Member(result, "0")
    case Err(e) => Err(e)
    case Ok(v) =>
      if v.Null? || v.Undefined? then Err("Cannot read property 'length'")
      else
        match Member(v, "length")
        case Err(e) => Err(e)
        case Ok(n) => Ok(Truthy(n))
  }

  /** As written, the test answers true on every reply, an empty one included. */
  lemma HasRoleTestAlwaysTrue(rows: seq<Json>)
    ensures HasRoleTest(RawReply(rows)) == Ok(true)
  {
  }

  /** The corrected test answers true exactly when the reply holds a row. */
  lemma HasRoleTestCorrectedRows(rows: seq<Json>)
    ensures HasRoleTestCorrected(RawReply(rows)) == Ok(rows != [])
  {
  }

  /**
   * The rows hasRole's join yields for `user` and `role`, as far as the decision depends on them:
   * one row when some assignment reaches the role, none otherwise.
   */
  function ReachRows(roles: seq<Row>, ur: seq<Link>, user: int, role: int): (rows: seq<Json>)
    ensures rows != [] <==> Reaches(roles, ur, user, role)
  {
    if Reaches(roles, ur, user, role) then [Obj([])] else []
  }

  /**
   * `hasRole(role, userId)` as written: throws without a user; a role that is not integer text
   * reaches `self.pathId` or `self.titleId` with `self` undeclared and throws a ReferenceError;
   * an integer role runs the join and answers `HasRoleTest` of the reply.
   */
  function HasRoleAsWritten(roles: seq<Row>, ur: seq<Link>, role: Ident, userId: Option<int>): (r: Result<bool>)
    ensures userId.None? ==> r.Err?
    ensures userId.Some? && Classify(role).ById? ==> r == Ok(true)
    ensures userId.Some? && !Classify(role).ById? ==> r.Err?
  {
    if userId.None? then Err("userId is a required argument")
    else
      match Classify(role)
      case ById(id) => HasRoleTest(RawReply(ReachRows(roles, ur, userId.value, id)))
      case _ => Err("self is not defined")
  }

  /** With the corrected test, the reply to the join decides exactly what `HasRole` states. */
  lemma HasRoleCorrectedTest(roles: seq<Row>, ur: seq<Link>, user: int, id: int)
    ensures HasRole(roles, ur, IdNum(id), Some(user)) == HasRoleTestCorrected(RawReply(ReachRows(roles, ur, user, id)))
  {
    assert Classify(IdNum(id)) == ById(id);
  }

  /** User 1 without any user-role row is refused the root by `HasRole`, yet granted it as written. */
  lemma HasRoleTestCounterexample()
    ensures HasRole(ResetRows(), [], IdNum(RootId), Some(1)) == Ok(false)
    ensures HasRoleAsWritten(ResetRows(), [], IdNum(RootId), Some(1)) == Ok(true)
  {
    assert Classify(IdNum(RootId)) == ById(RootId);
    assert !Reaches(ResetRows(), [], 1, RootId);
  }

  // ---------------------------------------------------------------------------------------------
  // assign, unassign

  /**
   * `assign(role, userId)`: throws without a user, when the role's lookup fails, and with
   * "The provided role is not available." when it resolves to nothing, inserting nothing in each
   * case; otherwise inserts one `(userId, role)` row and returns `true`.
   */
  method Assign(roles: seq<Row>, userRoles: Relation, role: Ident, userId: Option<int>) returns (res: Result<bool>)
    modifies userRoles
    ensures var resolved := ResolveRole(roles, |old(userRoles.rows)|, role);
      if userId.Some? && resolved.Ok? && resolved.value.Some? then
        res == Ok(true) && userRoles.rows == old(userRoles.rows) + [Link(userId.value, resolved.value.value)]
      else
        res.Err? && userRoles.rows == old(userRoles.rows)
    ensures userId.Some? && ResolveRole(roles, |old(userRoles.rows)|, role) == Ok(None) ==>
      res == Err("The provided role is not available.")
  {
    if userId.None? {
      return Err("userId is a required argument.");
    }
    var resolved := ResolveRole(roles, |userRoles.rows|, role);
    if resolved.Err? {
      return Err(resolved.message);
    }
    if resolved.value.None? {
      return Err("The provided role is not available.");
    }
    userRoles.Insert(Link(userId.value, resolved.value.value));
    res := Ok(true);
  }

  /** After assigning a role, the user holds it and every role below it. */
  lemma AssignGrants(roles: seq<Row>, ur: seq<Link>, user: int, d: int, r: int)
    requires 0 <= d < |roles| && 0 <= r < |roles| && Within(roles[r].left, roles[d])
    ensures HasRole(roles, ur + [Link(user, roles[d].id)], IdNum(roles[r].id), Some(user)) == Ok(true)
  {
    HasRoleInherited(roles, ur + [Link(user, roles[d].id)], user, d, r);
  }

  /**
   * `unassign(role, userId)`: throws without a user; otherwise deletes the rows pairing the user
   * with the role and returns whether any was deleted.
   */
  method Unassign(userRoles: Relation, role: int, userId: Option<int>) returns (res: Result<bool>)
    modifies userRoles
    ensures userId.None? ==> res.Err? && userRoles.rows == old(userRoles.rows)
    ensures userId.Some? ==>
      && userRoles.rows == Without(old(userRoles.rows), PairIs(userId.value, role))
      && res == Ok(Link(userId.value, role) in old(userRoles.rows))
  {
    if userId.None? {
      return Err("userId is a required argument");
    }
    ghost var matching := Where(userRoles.rows, PairIs(userId.value, role));
    var count := userRoles.DeleteWhere(PairIs(userId.value, role));
    if |matching| >= 1 {
      assert matching[0] in matching;
    }
    res := Ok(count >= 1);
  }

  // ---------------------------------------------------------------------------------------------
  // allRoles, roleCount

  /** `allRoles(userId)`: throws without a user; otherwise the role rows the user is assigned. */
  function AllRoles(roles: seq<Row>, ur: seq<Link>, userId: Option<int>): (r: Result<seq<Row>>)
    ensures userId.None? <==> r.Err?
    ensures r.Ok? ==> forall x :: x in r.value <==> x in roles && Link(userId.value, x.id) in ur
    ensures r.Ok? ==> forall x ::
      multiset(r.value)[x] == multiset(Seconds(Where(ur, FirstIs(userId.value))))[x.id] * multiset(roles)[x]
  {
    if userId.None? then Err("userId is a required argument")
    else
      var w := Where(ur, FirstIs(userId.value));
      RowsByIdsCounts(roles, Seconds(w), Seconds(w));
      forall x ensures x in Seconds(w) <==> Link(userId.value, x) in ur {
        if x in Seconds(w) {
          var i :| 0 <= i < |w| && Seconds(w)[i] == x;
          assert w[i] in w;
        }
        if Link(userId.value, x) in ur {
          assert Link(userId.value, x) in w;
          var i :| 0 <= i < |w| && w[i] == Link(userId.value, x);
          assert Seconds(w)[i] == x;
        }
      }
      Ok(RowsByIds(roles, Seconds(w)))
  }

  /** `roleCount(userId)`: throws without a user; otherwise the number of the user's rows. */
  function RoleCount(ur: seq<Link>, userId: Option<int>): (r: Result<nat>)
    ensures userId.None? <==> r.Err?
    ensures r.Ok? ==> r.value == CountWhere(ur, FirstIs(userId.value))
  {
    if userId.None? then Err("userId is a required argument") else Ok(CountWhere(ur, FirstIs(userId.value)))
  }

  /** Assigning a role to a user adds one to that user's count and leaves other users' counts alone. */
  lemma RoleCountAfterAssign(ur: seq<Link>, user: int, role: int, other: int)
    ensures RoleCount(ur + [Link(user, role)], Some(other)).value
      == RoleCount(ur, Some(other)).value + (if other == user then 1 else 0)
  {
    WhereSnoc(ur, Link(user, role), FirstIs(other));
  }

  // ---------------------------------------------------------------------------------------------
  // resetAssignments

  /**
   * `resetAssignments(ensure)`: throws unless `ensure` is exactly `true`, leaving the table as it
   * was. Otherwise empties the table and assigns the root path `/` to user 1; the result is
   * whether any row was deleted, or the failure of that assignment.
   */
  method ResetAssignments(roles: seq<Row>, userRoles: Relation, ensure: Json) returns (res: Result<bool>)
    modifies userRoles
    ensures ensure != Bool(true) ==> res.Err? && userRoles.rows == old(userRoles.rows)
    ensures ensure == Bool(true) ==>
      var root := PathId(roles, "/", 0);
      if root.Ok? && root.value.Some? then
        res == Ok(|old(userRoles.rows)| >= 1) && userRoles.rows == [Link(1, root.value.value)]
      else
        res.Err? && userRoles.rows == []
  {
    if ensure != Bool(true) {
      return Err("You must pass true to this function, otherwise it won't work");
    }
    var deleted := userRoles.Clear();
    var outcome := Assign(roles, userRoles, IdText("/"), Some(1));
    if outcome.Err? {
      return Err(outcome.message);
    }
    res := Ok(deleted >= 1);
  }

  /** After both resets, user 1 holds exactly the root role. */
  lemma ResetAssignmentsGivesRoot()
    ensures PathId(ResetRows(), "/", 0) == Ok(Some(RootId))
    ensures HasRole(ResetRows(), [Link(1, RootId)], IdNum(RootId), Some(1)) == Ok(true)
  {
    ResetRootPath(0);
    HasRoleInherited(ResetRows(), [Link(1, RootId)], 1, 0, 0);
  }
}
