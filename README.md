# rbacjs nested-set RBAC core, modelled in Dafny

This project models the core of the `rbacjs` library. The library implements hierarchical
role-based access control (NIST RBAC "Level 2", section 5.2 of ANSI INCITS 359-2004). Roles and
permissions are two trees, and each tree is stored as one table of nested-set rows
`(id, left, right, title, description)`. A node's interval `[left, right]` contains the intervals
of all its descendants. Two flat relations hold the assignments: user↔role and role↔permission.

The model has these parts:

- **Table** (`nestedset_table.dfy`). A `class Table` holds the rows as a `seq<Row>` in physical
  order, so "the first matching row" is meaningful, plus the auto-increment counter `nextId`.
  Every SQL statement the engine issues is a method on it. `UPDATE … SET right = right + 2 WHERE
  right > X` is `UpdateRight`, `DELETE … WHERE left BETWEEN a AND b` is `DeleteWhereLeftIn`, and
  so on. Each method states its new rows as a function of the old ones.
  `Valid(rows)` is the nested-set invariant:
  - `left < right`;
  - all bounds are distinct;
  - every two intervals are disjoint or strictly nested;
  - ids are unique;
  - `2 * (number of rows strictly inside) + 1 == right - left`, which is the source's
    `(right - left - 1) / 2` descendant count.
- **Shifts** (`nestedset_shifts.dfy`, `nestedset_statements.dfy`). Three bound renumberings exist:
  open a gap (`Open`), promote children (`Promote`) and close a gap (`Close`). Each is proved to keep
  `Valid`. The sequences of `UPDATE` statements each operation issues, in source order, are proved
  equal to those renumberings.
- **Base engine** (`nestedset_base.dfy`). `insertChild`, `insertSibling`, `delete` and
  `deleteSubtree` are methods on `Table`. **Extended engine** (`nestedset_extended.dfy`) has the
  `where`-addressed variants: `insertChildData`, `insertSiblingData`, `deleteConditional`,
  `deleteSubtreeConditional` and `editData`.
- **Queries** (`nestedset_queries.dfy`). These are pure functions over the rows: path, depth,
  parent, children, descendants, leaves, full tree, descendant count and `getIdConditional`.
  Each one is related by lemmas to the tree the intervals encode.
- **RBAC base** (`slash_paths.dfy`, `rbac_base.dfy`): slash-path addressing (`pathId`), `add`,
  `addPath`, `edit`, `reset`, `count`, `assign`, and the tree step of `remove`.
- **Access decisions and bookkeeping** (`role_model.dfy`, `permission_model.dfy`,
  `user_model.dfy`, `assignments.dfy`). A `class Relation` stores each assignment table as a
  `seq<Link>`, because the source enforces no uniqueness.
- **Helpers** (`json_values.dfy`, `configuration.dfy`, `common.dfy`). JavaScript values are a
  `Json` datatype, with objects kept as ordered property lists. On top of it sit the
  configuration's `get`/`merge` and the property bag.

Thrown errors and rejected promises become `Result.Err`. An argument the caller may leave
`undefined` becomes `Option`. Each operation runs its statements in source order, atomically.

### Where the model follows the code rather than its documentation

- `add` calls the extended `insertChildData` as written (see "## Findings"). The new row goes at
  the parent's old right `[R, R+1]`, but the lefts above the parent's *left* move too. So the table
  stays a nested set exactly when the parent had no children, and `addPath` inherits this. The
  corrected `add` (`RbacBase.AddCorrected`) makes the new row the parent's *last* child under every
  parent. Neither makes it the leftmost child, as the base `insertChild` and the doc comment say.
- `pathId`'s length guard adds up the titles of the *whole* table. It then adds one separator per
  row, minus one, and counts those rows in the *caller's own* table (`self.count()`). It does not
  add up the titles on the queried path.
- `delete`/`deleteSubtree` do not refuse the root. A missing id makes the bound lookup throw
  before any statement runs, so the table is left unchanged.
- `descendantCount` on an id with no row: the query yields an empty array, which the `!result`
  test (lib/basenestedset.js:84) does not catch, so reading `result[0].count` throws. The model
  returns an error there (`NestedSetQueries.DescendantCountFails`), not `null`.
- The `onlyIDs` argument of the role model's `permissions` and the permission model's `roles`
  works the other way round from their doc comments (lib/helpers/rolemodel.js:205-206,
  lib/helpers/permissionmodel.js:129-130). The code returns ids when `onlyIDs` is *omitted* and
  rows when it is passed. The model follows the code (`Permissions`/`RoleIds` for ids,
  `PermissionRows`/`RoleRows` for rows).

The code has defects with an evident intent. The model follows that intent in these places:

- **Decrement statements written as string literals.** Two updates set a bound to a string such
  as `"left-1"` (lib/basenestedset.js:179, lib/extendednestedset.js:118-120). They are modelled
  as decrements by one.
- **The undefined `width`.** `deleteSubtree` uses a `width` it never defines
  (lib/basenestedset.js:225,231). It is modelled as the selected `right - left + 1`.
- **String comparisons in `leaves`.** The condition `right = "left+1"`
  (lib/basenestedset.js:438,454; lib/extendednestedset.js:349) is modelled as `right == left + 1`.
- **Helpers the base engine calls but never defines.** `getId`, `getLeft`, `getRight` and
  `getTable` are modelled as the matching field getters.
- **Calls that would throw or misread as written.** These operations are modelled by intent:
  - `addPath` assigns the undeclared `parts` in strict mode and calls `pathId` with one argument.
  - `edit` calls `editData`, which `RbacBase` does not have, and compares the promise it would
    return with `1`.
  - `hasRole` uses an undeclared `self` (lib/helpers/usermodel.js:161, 164), so a path or title
    role throws a ReferenceError (`UserModel.HasRoleAsWritten`). Even with `self` declared, it
    puts what `self.pathId(…)` returns, a promise, straight into its SQL as `"TR.id="+roleId`
    (line 171). That gives `TR.id=[object Object]`, which MySQL rejects. `assign` waits on the
    same promise with `Q.when`. The model resolves a path through `PathId`, as `assign` does
    (`UserModel.ResolveRole`).
  - `hasRole` answers `_.isObject(result[0])` (lib/helpers/usermodel.js:173-175). `result[0]` is
    the array of rows, which is an object even when empty, so every integer role is held by every
    user. The model answers whether the join returned a row (see "## Findings").
  - `hasPermission` starts with `this.get('config')` (lib/helpers/rolemodel.js:154). Neither the
    role builder nor `RbacBase` defines `get`, so every call throws a TypeError
    (`RoleModel.HasPermissionCall`). Past that, `1 <= result[0].Result` (line 191) reads `.Result`
    off the array of rows, which is `undefined`, so it always answers false. The model reads the
    count of the first row (see "## Findings").
  - The role model's `permissions` uses the undeclared names `rpId`, `rpPermissionId` and
    `returns`. Its `onlyIDs` branch uses the undeclared `permissions`, `rpRoleId` and
    `ptPermissionId` (lib/helpers/rolemodel.js:238-240). That branch also builds
    `"FROM"+rolepermissions` without a space, which is invalid SQL. It returns the driver's whole
    raw result rather than its rows (`[0]`, as the permission model's `roles` does). Its error
    callback swallows the error. The model gives the joined rows.
  - `delete` assigns the undeclared `promises` in strict mode (lib/basenestedset.js:166).
  - `descendants` runs `var promises = descendants = []`, assigning an undeclared name
    (lib/basenestedset.js:261), which throws in strict mode. Past that, it returns
    `Q.all(…).then(…).done()` (line 268), which is `undefined`, so its final `return descendants`
    never runs. The model returns the query's rows.
  - `descendantsConditional` repeats `var promises = descendants = []`
    (lib/extendednestedset.js:192).
  - `children` assigns the undeclared `result` (lib/basenestedset.js:330). It also reads the
    undeclared `condition` (line 340) where its id belongs. The model looks the node up by the id.
  - `descendantCount`, `delete` and `deleteSubtree` select `knex.raw("SELECT …")`
    (lib/basenestedset.js:82, 168, 207), which produces `select SELECT …`, invalid SQL. The
    model reads the bounds (and the width) the raw text names.
  - `depth` and `parentNode` read `.length` and elements of the promise `path` returns
    (lib/basenestedset.js:100, 146). They are modelled over the rows of the path. For an id with
    no row the path is `null`, which they would fail to read; the model gives no depth and no
    parent (`None`).
  - `pathConditional`, `childrenConditional` and `descendantsConditional` call
    `this.getLeftField` (lib/extendednestedset.js:186, 244, 310). `ExtendedNestedSet`'s prototype
    lacks it, because line 40 extends it with the `BaseNestedSet` constructor, not its prototype.
    They are modelled with the field getters of the base engine.
- **Return values lost in callbacks.**
  - The inner callbacks of `delete` and `deleteSubtree` return nothing
    (lib/basenestedset.js:183-186, 234-237), so both resolve to `[undefined]`. The model returns
    the deleted-row count `cnt` those callbacks hold.
  - `editData` returns `result[0]` of the number of rows the update reached
    (lib/extendednestedset.js:494-495), which is `undefined`. The model returns that number.

## Model

| member | source | states |
|---|---|---|
| NestedSetTable.Table.Insert | lib/basenestedset.js:587 | a row insert appends exactly one row with the next auto-increment id and advances the counter |
| NestedSetTable.Table.DeleteWhereLeftIn | lib/basenestedset.js:218 | a range delete removes exactly the rows whose left lies in the range and returns how many it removed |
| NestedSetTable.Table.UpdateFields | lib/extendednestedset.js:489-498 | a field update reaches only the matching rows and returns their number |
| NestedSetTable.EditRows | lib/extendednestedset.js:489-498 | only the matching rows change, only in the fields passed; ids and bounds never change |
| NestedSetTable.DeleteLeftInMembers | lib/basenestedset.js:218 | the rows surviving a range delete are exactly the rows whose left lies outside the range |
| NestedSetTable.MapKeepsNesting | lib/basenestedset.js:559-586 | a monotone renumbering of bounds keeps two properly nested intervals properly nested |
| NestedSetShifts.OpenGapValid | lib/basenestedset.js:541-590 | opening a two-wide gap after a bound and inserting a row into it keeps a valid table valid |
| NestedSetShifts.PromoteValid | lib/basenestedset.js:153-181 | deleting one node, with its inner bounds dropped by 1 and the outer ones by 2, keeps a valid table valid |
| NestedSetShifts.CloseValid | lib/basenestedset.js:193-232 | deleting a subtree and closing its gap keeps a valid table valid |
| NestedSetShifts.CountInsideAfterDelete | lib/basenestedset.js:193-232 | the rows inside a node after a range delete are the rows inside before, minus those removed |
| NestedSetStatements.OpenStatements | lib/basenestedset.js:570-578 | the right update followed by the left update is exactly the gap-opening renumbering |
| NestedSetStatements.CloseStatements | lib/basenestedset.js:224-232 | the two "minus width above right" updates are exactly the gap-closing renumbering |
| NestedSetStatements.PromoteStatements | lib/basenestedset.js:176-181 | the statements of delete, in source order, are exactly the promoting renumbering |
| NestedSetStatements.SubtreeRowCount | lib/basenestedset.js:218-221 | in a valid table a subtree holds 1 + (descendants) = (R - L + 1) / 2 rows |
| NestedSetBase.InsertChild | lib/basenestedset.js:547-599 | bounds above the parent's left (0 with no parent) move up by 2 and a row [L+1, L+2] is added; validity is kept |
| NestedSetBase.InsertChildPlacement | lib/basenestedset.js:559-586 | the new row is the parent's leftmost child; the parent and each ancestor gain exactly 2 on the right |
| NestedSetBase.InsertSibling | lib/basenestedset.js:480-535 | bounds above the sibling's right R move up by 2 and a row [R+1, R+2] is added; a missing sibling changes nothing; validity is kept |
| NestedSetBase.InsertSiblingPlacement | lib/basenestedset.js:474-522 | the new row has exactly the ancestors of the sibling, so it has the same parent |
| NestedSetBase.Delete | lib/basenestedset.js:153-190 | removes the row with the node's left, drops inner bounds by 1 and outer ones by 2, keeps a valid table valid and reports the 1 row deleted (the count, by intent); a missing id changes nothing |
| NestedSetBase.PromoteKeepsAncestry | lib/basenestedset.js:153-181 | after delete, every surviving pair of rows keeps its ancestor relation, so children are promoted one level |
| NestedSetBase.DeleteSubtree | lib/basenestedset.js:193-240 | removes the rows with left in [L, R], shifts bounds above R down by R-L+1, reports the deleted count (by intent), keeps validity |
| NestedSetBase.SubtreeRemoved | lib/basenestedset.js:218 | the rows removed are exactly the node and its descendants |
| NestedSetQueries.PathById | lib/basenestedset.js:380-415 | the path of a node holds exactly its ancestors-or-self, ordered by left, without duplicates, and ends with the node |
| NestedSetQueries.PathAbsent | lib/basenestedset.js:380-415 | path is null for an id with no row; depth and parent give nothing (by intent) |
| NestedSetQueries.DepthById | lib/basenestedset.js:92-110 | depth is the number of proper ancestors, i.e. len(path) - 1 |
| NestedSetQueries.ParentById | lib/basenestedset.js:136-151 | parentNode is null exactly for a root, and otherwise the row the node is a child of |
| NestedSetQueries.ParentIsChildOf | lib/basenestedset.js:136-151 | parentNode returns a row exactly when the node is that row's direct child |
| NestedSetQueries.ChildrenById | lib/basenestedset.js:311-378 | children returns exactly the direct children, ordered by left |
| NestedSetQueries.ChildDepth | lib/basenestedset.js:311-349 | a descendant is one level deeper exactly when it is a direct child |
| NestedSetQueries.DescendantsById | lib/basenestedset.js:243-305 | with absoluteDepths passed: exactly the rows strictly inside the node, ordered by left, each at its number of levels below the node (at least 1); there are (R-L-1)/2 of them |
| NestedSetQueries.DescendantsAbsolute | lib/basenestedset.js:251-283 | the default call: the rows strictly inside the node plus the node itself unless it is a root, ordered by left, each at its number of proper ancestors |
| NestedSetQueries.FullTreeExact | lib/basenestedset.js:605-640 | fullTree lists every row once, ordered by left, at its number of proper ancestors |
| NestedSetQueries.LeavesExact | lib/basenestedset.js:418-471 | leaves with no argument are exactly the rows without descendants |
| NestedSetQueries.LeavesById | lib/basenestedset.js:418-471 | leaves under a node are exactly the childless rows whose left lies within the node |
| NestedSetQueries.DescendantCountExact | lib/basenestedset.js:73-89 | (right - left - 1) / 2 is exactly the number of rows strictly inside the node |
| NestedSetQueries.DescendantCountFails | lib/basenestedset.js:80-89 | descendantCount throws exactly for an id that no row has (the empty result passes the `!result` test and `result[0].count` fails) |
| NestedSetQueries.GetIdWhere | lib/extendednestedset.js:59-77 | the id of the first matching row; nothing (false) exactly when no row matches |
| NestedSetExtended.InsertChildData | lib/extendednestedset.js:436-481 | as written: rights >= Rp and lefts > Lp move up by 2 and [Rp, Rp+1] is added with the title and description; a missing parent reads as (0, 0) |
| NestedSetExtended.ChildDataValidIffLeaf | lib/extendednestedset.js:452-453 | the as-written insert keeps a valid table valid if and only if the parent is a leaf |
| NestedSetExtended.ChildDataCounterexample | lib/extendednestedset.js:452-453 | adding under a parent that has a child yields a row [4, 3], which is not a nested set |
| NestedSetExtended.InsertChildDataCorrected | lib/extendednestedset.js:436-461 | with both shifts relative to Rp, the row [Rp, Rp+1] is added and validity is kept for every parent |
| NestedSetExtended.ChildDataPlacement | lib/extendednestedset.js:436-461 | the corrected insert makes the new row the parent's last child |
| NestedSetExtended.InsertSiblingData | lib/extendednestedset.js:383-426 | as written: rights > Rs and lefts > Ls move up by 2 and [Rs+1, Rs+2] is added |
| NestedSetExtended.SiblingDataValidIffLeaf | lib/extendednestedset.js:399-400 | the as-written sibling insert keeps validity if and only if the sibling is a leaf |
| NestedSetExtended.SiblingDataCounterexample | lib/extendednestedset.js:399-400 | adding after a sibling that has a child yields a row [5, 4], which is not a nested set |
| NestedSetExtended.InsertSiblingDataCorrected | lib/extendednestedset.js:383-410 | with both shifts relative to Rs, the row [Rs+1, Rs+2] is added and validity is kept |
| NestedSetExtended.DeleteConditional | lib/extendednestedset.js:102-135 | no match: false and the table is unchanged; otherwise the node is removed with its children promoted, and the result is true iff exactly one row went |
| NestedSetExtended.DeleteSubtreeConditional | lib/extendednestedset.js:144-172 | removes the rows with left in [L, R], shifts bounds above R by R-L+1, and returns whether any row went |
| NestedSetExtended.DeleteSubtreeConditionalSucceeds | lib/extendednestedset.js:160-164 | on a valid table a matched subtree delete always removes at least one row |
| NestedSetExtended.EditData | lib/extendednestedset.js:489-498 | only the matching rows and the fields passed change, bounds are untouched, and validity is kept |
| NestedSetExtended.EditKeepsValid | lib/extendednestedset.js:489-498 | editing titles and descriptions never breaks the nested-set invariant |
| SlashPaths.NormalizePath | lib/rbacbase.js:194-211 | the normalised path always starts with 'root'; a path with a leading and no trailing '/' (such as '/a/b') becomes 'root' + path, and one with neither (such as 'a/b') becomes 'root/' + path |
| SlashPaths.NormalizeRoot | lib/rbacbase.js:194-211 | '/' and '' both normalise to 'root', the root's own title path |
| SlashPaths.NormalizeLeadingSlash | lib/rbacbase.js:195-197 | a missing leading '/' is added: p and '/' + p normalise alike |
| SlashPaths.NormalizeTrailingSlash | lib/rbacbase.js:209-211 | one trailing '/' is stripped |
| SlashPaths.JoinSplit | lib/rbacbase.js:213 | joining the '/'-split parts with '/' gives back the string |
| RbacBase.PathId | lib/rbacbase.js:221-235 | fails with the limit error iff total title length + (row count - 1) > 1024 |
| RbacBase.PathIdMeaning | lib/rbacbase.js:237-251 | a found id is a row titled with the last segment whose ancestor titles joined by '/' equal the normalised path; null only when no row is |
| RbacBase.PathIdOfNode | lib/rbacbase.js:194-251 | round trip: a path normalising to a node's unique title path resolves to that node |
| RbacBase.EditorPath | lib/rbacbase.js:194-251 | below the root: in a root with one child `editor`, '/editor', 'editor' and 'editor/' all resolve to the child |
| RbacBase.EditorChildPath | lib/rbacbase.js:194-251 | in that table, every path normalising to 'root/editor' resolves to the child |
| RbacBase.FindOnPathMeaning | lib/rbacbase.js:246-251 | the search is null iff no row matches, and otherwise returns a matching row's id |
| RbacBase.Add | lib/rbacbase.js:104-122 | an omitted parent is rootId() = 1; the row is inserted by the as-written insertChildData; on a valid table with the parent present, the result is valid if and only if the parent was a leaf |
| RbacBase.AddValidIffLeaf | lib/rbacbase.js:104-116 | the as-written add under a present parent keeps validity if and only if the parent is a leaf |
| RbacBase.AddTwiceUnderRoot | lib/rbacbase.js:104-116 | after reset, a first add under the root gives a valid table and a second add under the root does not |
| RbacBase.AddLeafAgrees | lib/rbacbase.js:104-116 | under a leaf, the as-written and the corrected add leave the same table |
| RbacBase.AddPlacesChild | lib/rbacbase.js:104-116 | under a leaf, the added row carries the id, title and description and is a child of the parent |
| RbacBase.AddCorrected | lib/rbacbase.js:104-116 | add through the corrected insertChildData: the same row is added and validity is kept under every parent |
| RbacBase.AddCorrectedPlacesChild | lib/rbacbase.js:104-116 | the corrected add makes the new row the parent's last child, whatever children it had |
| RbacBase.AddPathFromValid | lib/rbacbase.js:326-347 | the steps of addPath keep a valid table valid when every missing part is added under a leaf; with the corrected add, always |
| RbacBase.AddPath | lib/rbacbase.js:311-350 | a path without a leading '/' is rejected and changes nothing; otherwise each prefix is looked up and missing ones are added under the previous prefix by the as-written add; validity is kept when every part is added under a leaf |
| RbacBase.AddPathWalk | lib/rbacbase.js:318-347 | the loop over the parts ends in the state and result of the step-by-step specification with the as-written add |
| RbacBase.AddPathLoop | lib/rbacbase.js:318-347 | each pass of the loop keeps the remaining walk's outcome fixed, so the loop ends in that outcome, a failed lookup included |
| RbacBase.AddPathStep | lib/rbacbase.js:326-346 | one part: an existing prefix is reused, a missing one is added under the current parent by the as-written add |
| RbacBase.AddPathReuses | lib/rbacbase.js:336-344 | when every prefix already exists, addPath changes nothing and returns the node of the whole path |
| RbacBase.Edit | lib/rbacbase.js:356-367 | only the title and/or description passed change, only on the row with the id; true iff exactly one row was reached |
| RbacBase.CountMatchingId | lib/rbacbase.js:367 | with unique ids, edit reaches one row if the id exists and none otherwise |
| RbacBase.RemoveEntry | lib/helpers/rolemodel.js:97-101 | without recursive: single-node delete with children promoted; with it: subtree delete; a missing id changes nothing |
| RbacBase.Count | lib/rbacbase.js:130-140 | count() is the number of rows |
| RbacBase.RowsByIds | lib/helpers/permissionmodel.js:170-184 | a row is listed exactly when its id is among the given ids |
| RbacBase.RowsByIdsCount | lib/helpers/permissionmodel.js:170-184 | the join lists each row once for every occurrence of its id among the given ids (times its own copies) |
| RbacBase.RowsByIdsCounts | lib/helpers/permissionmodel.js:170-184 | the same count for every row, with the ids counted in any list holding the same ids |
| RbacBase.RowsByIdsAscending | lib/helpers/permissionmodel.js:170-184 | ascending ids give rows ordered by id |
| RbacBase.Reset | lib/rbacbase.js:378-408 | anything but true throws and leaves the table alone; true leaves only root [0, 1] with id 1 |
| RbacBase.ResetRootPath | lib/rbacbase.js:378-398 | after reset the table is valid, has one row, and '/' resolves to the root |
| RbacBase.Assign | lib/rbacbase.js:410-418 | assign appends exactly one (role, permission) row |
| RbacBase.AssignCounts | lib/rbacbase.js:410-418 | assign adds one row for its pair and leaves other pairs' counts alone |
| RoleModel.HasPermissionIff | lib/helpers/rolemodel.js:167-188 | intended semantics: true iff some assignment pairs a junior-or-self of the role with an ancestor-or-self of the permission |
| RoleModel.HasPermissionInherited | lib/helpers/rolemodel.js:175-188 | assigning (role, P) grants every permission at or below P to that role and to every senior of it |
| RoleModel.SeniorInherits | lib/helpers/rolemodel.js:175-176 | a senior role holds every permission its juniors hold |
| RoleModel.UnknownRoleHoldsNothing | lib/helpers/rolemodel.js:171-174 | a role id with no row holds no permission |
| RoleModel.HasPermissionJoinCounterexample | lib/helpers/rolemodel.js:168-170 | the as-written join refuses a directly assigned permission and credits another role's assignment |
| RoleModel.HasPermissionCall | lib/helpers/rolemodel.js:153-154 | as written, every call throws, because `this.get` does not exist on the role builder |
| RoleModel.HasPermissionCallCounterexample | lib/helpers/rolemodel.js:153-154 | a role directly assigned a permission holds it by the intended decision, yet the call as written throws |
| RoleModel.HasPermissionReadAlwaysFalse | lib/helpers/rolemodel.js:189-191 | as written, the read of the count reply answers false whatever the count |
| RoleModel.HasPermissionReadCounts | lib/helpers/rolemodel.js:189-191 | the corrected read of the count reply answers true exactly when the count is at least one |
| RoleModel.UnassignPermissions | lib/helpers/rolemodel.js:115-125 | deletes exactly the role's role-permission rows and returns their number |
| RoleModel.UnassignUsers | lib/helpers/rolemodel.js:132-140 | deletes exactly the user-role rows naming the role and returns their number |
| RoleModel.Remove | lib/helpers/rolemodel.js:85-108 | drops the role's assignments only, then deletes it from the tree (promoting or subtree) and keeps validity |
| RoleModel.Permissions | lib/helpers/rolemodel.js:215-236 | the permission ids of the role's rows, ascending, as a permutation of them |
| RoleModel.PermissionsMembers | lib/helpers/rolemodel.js:215-236 | an id is listed exactly when the role is assigned it |
| RoleModel.PermissionRows | lib/helpers/rolemodel.js:237-253 | with onlyIDs: exactly the role's permission rows, ordered by id |
| RoleModel.PermissionRowsCount | lib/helpers/rolemodel.js:237-253 | with onlyIDs: each permission row is listed once per assignment row pairing the role with its id |
| PermissionModel.UnassignRoles | lib/helpers/permissionmodel.js:111-125 | deletes exactly the permission's rows and returns their number |
| PermissionModel.UnassignRolesKeepsOthers | lib/helpers/permissionmodel.js:111-123 | rows of other permissions stay, in order |
| PermissionModel.Remove | lib/helpers/permissionmodel.js:84-105 | drops the permission's assignments, then deletes it from the tree (promoting or subtree) |
| PermissionModel.PermissionOf | lib/helpers/permissionmodel.js:137-139 | an all-digit identifier is the id; anything else goes to name resolution |
| PermissionModel.NonZero | lib/helpers/permissionmodel.js:151-155 | falsy (zero) ids are skipped and order is kept |
| PermissionModel.NonZeroCount | lib/helpers/permissionmodel.js:151-155 | every zero is dropped and every other id kept as often as it occurs |
| PermissionModel.RoleIds | lib/helpers/permissionmodel.js:143-158 | the non-zero role ids assigned the permission, ascending, each once per assignment row; nothing for an unresolved permission |
| PermissionModel.RoleRows | lib/helpers/permissionmodel.js:170-184 | with onlyIDs: exactly the role rows assigned the permission, ordered by id, each once per assignment row |
| UserModel.Classify | lib/helpers/usermodel.js:154-166 | an integer is the id, a string starting with '/' a path, anything else a title |
| UserModel.ClassifyDecimal | lib/helpers/usermodel.js:154-156 | the decimal text of a number is taken as that id |
| UserModel.ResolveRole | lib/helpers/usermodel.js:202-212 | ids are used as given, paths go through pathId, titles to the first row with that title |
| UserModel.ResolveRoleByPath | lib/helpers/usermodel.js:158-162 | a path naming a row resolves to that row's id |
| UserModel.HasRole | lib/helpers/usermodel.js:136-176 | by intent: throws without a user; otherwise true iff a directly assigned role's interval holds the target role's left |
| UserModel.HasRoleAsWritten | lib/helpers/usermodel.js:136-176 | as written: throws without a user; a path or title role throws on the undeclared `self`; any integer role is held |
| UserModel.HasRoleTestAlwaysTrue | lib/helpers/usermodel.js:173-175 | the written test of the reply is true for every reply, an empty one included |
| UserModel.HasRoleTestCorrectedRows | lib/helpers/usermodel.js:173-175 | the corrected test is true exactly when the reply holds a row |
| UserModel.HasRoleCorrectedTest | lib/helpers/usermodel.js:167-175 | the corrected test of the join's reply gives exactly `HasRole`'s decision |
| UserModel.HasRoleTestCounterexample | lib/helpers/usermodel.js:173-175 | a user with no user-role row is refused the root by intent, yet granted it as written |
| UserModel.HasRoleInherited | lib/helpers/usermodel.js:168-174 | a user holds every role at or below an assigned one |
| UserModel.HasRoleNotSenior | lib/helpers/usermodel.js:168-174 | holding is not inherited upwards to seniors |
| UserModel.Assign | lib/helpers/usermodel.js:189-240 | throws without a user or with 'The provided role is not available.' for an unresolved role, inserting nothing; otherwise inserts one (user, role) row |
| UserModel.AssignGrants | lib/helpers/usermodel.js:214-227 | after assign, the user holds that role and every role below it |
| UserModel.Unassign | lib/helpers/usermodel.js:248-268 | throws without a user; deletes exactly the (user, role) rows; true iff one existed |
| UserModel.AllRoles | lib/helpers/usermodel.js:277-305 | throws without a user; exactly the role rows assigned to the user, each once per assignment row |
| UserModel.RoleCount | lib/helpers/usermodel.js:312-333 | throws without a user; the number of the user's assignment rows |
| UserModel.RoleCountAfterAssign | lib/helpers/usermodel.js:320-324 | assigning adds one to that user's count and nothing to others |
| UserModel.ResetAssignments | lib/helpers/usermodel.js:340-360 | anything but true throws and changes nothing; true clears the table and leaves only (user 1, root) and reports whether anything was deleted |
| UserModel.ResetAssignmentsGivesRoot | lib/helpers/usermodel.js:340-355 | after both resets, user 1 holds the root role |
| Configuration.MergeNull | lib/configuration.js:84-87 | merging a null source leaves the target unchanged |
| Configuration.MergeArrays | lib/configuration.js:94-98 | merging arrays appends the source elements after the target's, in order |
| Configuration.MergeObjects | lib/configuration.js:100-108 | merged objects have the union of keys; source keys merge recursively, target-only keys stay |
| Configuration.MergeIndexesAt | lib/configuration.js:100-104 | an object merged into an array merges each element with the value under its decimal index key, and leaves elements without such a key alone |
| Configuration.MergeWellFormed | lib/configuration.js:83-108 | merging well-formed values gives a well-formed value |
| Configuration.MergeTwice | lib/configuration.js:83-108 | merging the same array-free source twice is the same as merging it once |
| Configuration.GetPathAppend | lib/configuration.js:56-79 | get walks the keys one at a time and stops with undefined at the first missing key |
| Configuration.GetMissingKey | lib/configuration.js:66-76 | a missing key on the way yields undefined whatever follows |
| Configuration.DefaultsLeftField | lib/configuration.js:14-29 | the defaults give basenestedset.leftField = 'lft' |
| Configuration.DefaultsPort | lib/configuration.js:14-29 | the defaults give node-rbac.port = 3306 |
| Configuration.Config.constructor | lib/configuration.js:7-29 | a new configuration holds the defaults |
| Configuration.Config.Merge | lib/configuration.js:81-108 | an object source is deep-merged into the data; the object itself is returned |
| Configuration.Config.Get | lib/configuration.js:56-79 | get returns the value at the key path; an empty path returns the whole data |
| Common.SetReadsBack | lib/common.js:72-92 | after set, each non-undefined value reads back, undefined values and other keys keep their old value |
| Common.ChangesExact | lib/common.js:72-92 | previous maps exactly the keys whose value changed (compared as values) to their old values |
| Common.SetTwice | lib/common.js:72-98 | setting the same values again changes nothing and fires no change |
| Common.OmitReads | lib/common.js:104-107 | unset removes exactly the given keys |
| Common.GetField | lib/common.js:109-120 | config[table][id], or null when the table is missing or the value is falsy |
| Common.PropertyBag.Get | lib/common.js:44-52 | the stored property if not undefined, else the default |
| Common.PropertyBag.Has | lib/common.js:57-59 | true iff the property is not undefined |
| Common.PropertyBag.Set | lib/common.js:64-98 | writes changed keys, returns previous values, and reports a change iff previous is non-empty |
| Common.PropertyBag.SetProperty | lib/common.js:64-70 | set(key, value) behaves as set({key: value}) |
| Common.PropertyBag.Unset | lib/common.js:104-107 | the properties become the old ones without the given keys |

## Left out

- Query building, raw SQL text and MySQL specifics (`GROUP_CONCAT`, `char_length`,
  `AUTO_INCREMENT`): only what each query means over the in-memory table is modelled.
- The promise arrays that fire statements in parallel, table locks and transactions: each
  operation is modelled as its statements run in source order, atomically.
- Logging, and the assignment timestamps built from the clock: an assignment row is the pair alone.
- `rbac.js`: connection setup and builder dispatch; its `assign`/`check`/`enforce` are empty stubs.
- Configuration file and YAML loading (`lib/configuration.js:111-148`): file I/O.
- `sibling` (`lib/basenestedset.js:112-134`): its `return` sits inside a callback, so the function
  always returns null. The empty stubs `depthConditional`, `siblingConditional` and
  `parentNodeConditional` (`lib/extendednestedset.js:79-93`) and `titleId`
  (`lib/rbacbase.js:291-295`) are left out too; a title is resolved by the first row carrying it.
- `instance`, `options` and `handleResponse` of `lib/common.js`: they depend on fields that are
  never defined. Change events in `set` are reduced to whether anything changed.
- `getTitle`, `getDescription` and `getRecord` (`lib/rbacbase.js:272-310`): single-field reads
  outside the core.
- A permission name lookup (`permissionId`) is called by `roles` but does not exist in the source.
  `PermissionModel.PermissionOf` takes the name resolution as a function parameter.
- `RbacBase.AddPath`: `descriptions[index]` past the end of the array is `undefined` in the
  source and the empty string in the model.
- `RbacBase.AddPath`: the source fires the per-part lookups without waiting and returns the
  initial parent. The model runs the steps in order and returns the last prefix's node, which is
  what the loop's variables `parent` and `index` are evidently for.
- `NestedSetBase.InsertChild`, `NestedSetBase.InsertSibling`: ids are modelled as unbounded
  integers, and the inserted row carries empty title and description.
- `Configuration.MergeValue`: an object merged into an array writes only the keys that spell an
  existing index in decimal. In the source (lib/configuration.js:100-103), a key past the end
  lengthens the array. The key `length` sets the array's length, which truncates or extends it,
  or throws a RangeError for a value that is not a valid length, such as -1. Any other key
  becomes a property of the array. The model drops all of these keys: a `Json` array holds
  neither gaps nor named properties, and the model has no RangeError there.
- `Common.ChangesExact`, `Common.PropertyBag.Set`: `!==` compares objects and arrays by
  reference in the source, so a fresh but equal object counts as a change there. `Json` values
  have no identity, so the model compares them structurally and such a write is not a change.
- `NestedSetQueries.ChildrenWhere`, `NestedSetQueries.DescendantsWhere`: when the condition
  matches several rows, the SQL of `childrenConditional`/`descendantsConditional`
  (lib/extendednestedset.js:213-222, 252-262) joins every match's subtree through `sub_tree`. A
  row inside several matches is then counted once per enclosing match, and its `Depth` comes from
  whichever `sub_tree` row the grouping keeps. The model takes the first matching row only, which
  is exact for a condition that matches one row, as an id does for `children(id)` and
  `descendants(id)`.
- `Configuration.MergeValue`, `Configuration.Config.Merge`: `helper` returns the source itself
  where the target is not an object (lib/configuration.js:89-92), so the data then shares the
  caller's objects and arrays. Later merges push into those arrays or write through those
  objects (lines 96, 100-103), changing the caller's values as well. `Json` values have no
  identity, so the model copies.
- `Common.PropertyBag.Get`, `Common.PropertyBag.Has`, `Common.PropertyBag.Set`:
  `this.properties[key]` also finds inherited members such as `constructor` and `toString`
  (lib/common.js:45), and `_.each` walks an object with a numeric `length` as if it were an
  array (line 75). The model's property list holds own keys only, and it walks an object by its
  keys whatever they are.
- `NestedSetQueries.DescendantCount`: MySQL's `/` in `(right - left - 1) / 2`
  (lib/basenestedset.js:82) is exact decimal division, and gives a fraction such as 0.5 for a row
  whose width `right - left` is even. The model divides integers, rounding down. The two agree on
  every valid table (`DescendantCountExact`), so a row of even width is not modelled.
- SQL errors other than "a scalar subquery returns more than one row" in `leaves` are not
  modelled; with unique ids they cannot arise.

## Findings

| source | as written | input that shows it | evidently intended | confidence | as-written member | corrected member |
|---|---|---|---|---|---|---|
| lib/extendednestedset.js:452-453 | `insertChildData` shifts rights `>= Rp` but lefts `> Lp`, the parent's left | root [1, 4] over child [2, 3]; add a child under the root: the old child becomes [4, 3] | shift lefts `>= Rp` as well, so the new row [Rp, Rp+1] becomes the last child | high (proved; not executed) | NestedSetExtended.ChildDataCounterexample | NestedSetExtended.InsertChildDataCorrected |
| lib/extendednestedset.js:399-400 | `insertSiblingData` shifts rights `> Rs` but lefts `> Ls`, the sibling's left | chain [1, 6] ⊃ [2, 5] ⊃ [3, 4]; add a sibling after [2, 5]: the leaf becomes [5, 4] | shift lefts `> Rs` as well, as the base `insertSibling` does | high (proved; not executed) | NestedSetExtended.SiblingDataCounterexample | NestedSetExtended.InsertSiblingDataCorrected |
| lib/helpers/rolemodel.js:168-170 | `hasPermission` joins roles on the assignment's permission-id column | roles root [0, 3] ⊃ editor(2) [1, 2]; permission write(5); assignment (2, 5): editor is refused write | join on the role-id column, as the comments at lines 175-176 and 185-188 describe | high (proved; not executed) | RoleModel.HasPermissionJoinCounterexample | RoleModel.HasPermissionIff |
| lib/helpers/usermodel.js:173-175 | `hasRole` answers `_.isObject(result[0])`, and `result[0]` is the array of rows, an object even when empty | after both resets, user 1 has no user-role row and asks for role 1: the answer is true | true exactly when the join returns a row | high (proved; not executed) | UserModel.HasRoleTestCounterexample | UserModel.HasRoleCorrectedTest |
| lib/helpers/rolemodel.js:189-191 | `hasPermission` answers `1 <= result[0].Result`, reading `.Result` off the array of rows, which is `undefined` | a count of 1: the answer is false | `1 <= result[0][0].Result`, the count of the first row | high (proved; not executed) | RoleModel.HasPermissionReadAlwaysFalse | RoleModel.HasPermissionReadCounts |
| lib/helpers/rolemodel.js:154 | `hasPermission` calls `this.get('config')`, and neither the role builder nor `RbacBase` defines `get` | any call, e.g. role `editor` (id 2) assigned permission `write` (id 5): a TypeError | read the table and field names as the other members do (`getField`) and decide as `HasPermission` | high (proved; not executed) | RoleModel.HasPermissionCallCounterexample | RoleModel.HasPermissionIff |
