/**
 * The operations every RBAC builder (roles, permissions) shares on top of its nested-set table:
 * slash-path addressing (`pathId`), `add` under a parent, `addPath`, `edit`, `reset`, and
 * `assign` of a permission to a role. `path` is `NestedSetQueries.PathWhere` and `count` is the
 * number of rows of the table.
 */
module RbacBase {
  import opened Results
  import opened JsonValues
  import opened NestedSetTable
  import opened NestedSetShifts
  import opened NestedSetQueries
  import opened NestedSetExtended
  import opened SlashPaths
  import opened Assignments

  /** `rootId()`: the id of the root row of every hierarchy. */
  const RootId := 1

  /** The largest path `pathId` accepts, counted over the whole table. */
  const PathLimit := 1024

  /** A role or permission argument as callers pass it: a number, or a string of digits, a path or a title. */
  datatype Ident = IdNum(n: int) | IdText(s: string)

  // ---------------------------------------------------------------------------------------------
  // pathId

  /** The titles of `s`, in order. */
  function Titles(s: seq<Row>): (r: seq<string>)
    ensures |r| == |s| && forall i :: 0 <= i < |s| ==> r[i] == s[i].title
  {
    seq(|s|, i requires 0 <= i < |s| => s[i].title)
  }

  /**
   * `GROUP_CONCAT(parent.title ORDER BY parent.left SEPARATOR '/')` over the rows whose interval
   * holds `x`'s left: the titles of `x`'s ancestors-or-self, root first, joined by `/`.
   */
  function TitlePath(rows: seq<Row>, x: Row): string {
    var chain := SortByLeft(AncestorsOf(rows, x.left));
    if chain == [] then "" else Join(Titles(chain))
  }

  /** `x` is a row the path query selects: titled with the last segment, with that title path. */
  predicate OnPath(rows: seq<Row>, x: Row, norm: string) {
    x.title == LastSegment(norm) && TitlePath(rows, x) == norm
  }

  /** `sum(char_length(title))` over the table, `0` for an empty table. */
  function TitleLengthSum(rows: seq<Row>): nat {
    if rows == [] then 0 else TitleLengthSum(rows[..|rows| - 1]) + |rows[|rows| - 1].title|
  }

  /** The id of the first row from `from` on that the path query selects. */
  function FindOnPath(rows: seq<Row>, from: nat, norm: string): Option<int>
    requires from <= |rows|
    decreases |rows| - from
  {
    if from == |rows| then None
    else if OnPath(rows, rows[from], norm) then Some(rows[from].id)
    else FindOnPath(rows, from + 1, norm)
  }

  /** The search finds nothing exactly when no row from `from` on matches, else a matching row's id. */
  lemma {:induction false} FindOnPathMeaning(rows: seq<Row>, from: nat, norm: string)
    requires from <= |rows|
    ensures var r := FindOnPath(rows, from, norm);
      && (r.None? <==> forall i :: from <= i < |rows| ==> !OnPath(rows, rows[i], norm))
      && (r.Some? ==> exists i :: from <= i < |rows| && rows[i].id == r.value && OnPath(rows, rows[i], norm))
    decreases |rows| - from
  {
    if from < |rows| && !OnPath(rows, rows[from], norm) {
      FindOnPathMeaning(rows, from + 1, norm);
    }
  }

  /**
   * `pathId(path)`: fails when the titles of the whole table plus one separator per row but one
   * exceed the limit, `ownCount` being the row count of the calling builder's own table (`count()`).
   * Otherwise the normalised path is matched against every row's title path: the id of the first
   * row that matches, `None` (`null`) when none does.
   */
  function PathId(rows: seq<Row>, path: string, ownCount: nat): (r: Result<Option<int>>)
    ensures r.Err? <==> TitleLengthSum(rows) + ownCount - 1 > PathLimit
  {
    if TitleLengthSum(rows) + ownCount - 1 > PathLimit then Err("Path exceeds character count limit.")
    else Ok(FindOnPath(rows, 0, NormalizePath(path)))
  }

  /**
   * What `pathId` finds: a row titled with the path's last segment whose title path is the
   * normalised path; `None` only when no row is.
   */
  lemma PathIdMeaning(rows: seq<Row>, path: string, ownCount: nat)
    ensures var r := PathId(rows, path, ownCount);
      && (r.Ok? && r.value.Some? ==>
        exists i :: 0 <= i < |rows| && rows[i].id == r.value.value && OnPath(rows, rows[i], NormalizePath(path)))
      && (r.Ok? && r.value.None? ==> forall i :: 0 <= i < |rows| ==> !OnPath(rows, rows[i], NormalizePath(path)))
  {
    FindOnPathMeaning(rows, 0, NormalizePath(path));
  }

  /**
   * Path addressing round-trips: when a path normalises to the title path of a row of a valid table
   * whose title holds no `/`, and no other row has that title path, `pathId` finds that row.
   */
  lemma PathIdOfNode(rows: seq<Row>, k: int, path: string, ownCount: nat)
    requires Valid(rows) && 0 <= k < |rows| && NoSlash(rows[k].title)
    requires NormalizePath(path) == TitlePath(rows, rows[k])
    requires forall j :: 0 <= j < |rows| && j != k ==> TitlePath(rows, rows[j]) != TitlePath(rows, rows[k])
    requires TitleLengthSum(rows) + ownCount <= PathLimit + 1
    ensures PathId(rows, path, ownCount) == Ok(Some(rows[k].id))
  {
    var x := rows[k];
    assert OnPath(rows, x, NormalizePath(path)) by {
      PathById(rows, k);
      PathOfRow(rows, k);
      var titles := Titles(SortByLeft(AncestorsOf(rows, x.left)));
      assert titles[|titles| - 1] == x.title;
      LastSegmentOfJoin(titles);
    }
    var norm := NormalizePath(path);
    forall j | 0 <= j < |rows| && j != k ensures !OnPath(rows, rows[j], norm) {
      assert TitlePath(rows, rows[j]) != TitlePath(rows, x);
    }
    FindOnPathOnly(rows, 0, norm, k);
  }

  /** When `rows[k]` is the only row from `from` on that the path query selects, the search finds it. */
  lemma {:induction false} FindOnPathOnly(rows: seq<Row>, from: nat, norm: string, k: int)
    requires from <= k < |rows| && OnPath(rows, rows[k], norm)
    requires forall j :: 0 <= j < |rows| && j != k ==> !OnPath(rows, rows[j], norm)
    ensures FindOnPath(rows, from, norm) == Some(rows[k].id)
    decreases |rows| - from
  {
    if from != k {
      FindOnPathOnly(rows, from + 1, norm, k);
    }
  }

  // ---------------------------------------------------------------------------------------------
  // add

  /** Which `insertChildData` an `add` goes through: the engine's, as written, or the corrected one. */
  datatype ChildInsert = AsWritten | Corrected

  /**
   * The table after `add(title, description, parent)` gave the new row the id `id`: `insertChildData`
   * under the row with id `parent`, whose bounds are `(l, r)` (`(0, 0)` when there is no such row).
   * The new row is `[r, r + 1]`. As written, rights `>= r` and lefts `> l` move up by two; corrected,
   * every bound `>= r` does.
   */
  function AddRows(ins: ChildInsert, rows: seq<Row>, parent: int, id: int, title: string, description: string): seq<Row> {
    var bounds := BoundsById(rows, parent);
    AddShift(ins, rows, bounds.0, bounds.1) + [Row(id, bounds.1, bounds.1 + 1, title, description)]
  }

  /** The bounds of the first row with the id, `(0, 0)` when there is none. */
  function BoundsById(rows: seq<Row>, id: int): (int, int) {
    if rows == [] then (0, 0)
    else if rows[0].id == id then (rows[0].left, rows[0].right)
    else BoundsById(rows[1..], id)
  }

  /** `BoundsById` reads the same bounds as the `where` lookup of `insertChildData`. */
  lemma {:induction false} BoundsByIdOf(rows: seq<Row>, id: int)
    ensures BoundsById(rows, id) == BoundsOf(rows, IdIs(id))
  {
    if rows != [] && rows[0].id != id {
      BoundsByIdOf(rows[1..], id);
    }
  }

  /** The bound updates of `add` under a parent with bounds `(l, r)`. */
  function AddShift(ins: ChildInsert, rows: seq<Row>, l: int, r: int): seq<Row> {
    if ins == AsWritten then ChildDataShift(rows, l, r) else MapBounds(rows, Open(r - 1))
  }

  /** With unique ids, `add` under the id of `rows[k]` works with the bounds of `rows[k]`. */
  lemma AddRowsAt(ins: ChildInsert, rows: seq<Row>, k: int, id: int, title: string, description: string)
    requires Pairwise(rows) && 0 <= k < |rows|
    ensures AddRows(ins, rows, rows[k].id, id, title, description)
      == AddShift(ins, rows, rows[k].left, rows[k].right) + [Row(id, rows[k].right, rows[k].right + 1, title, description)]
  {
    FirstMatchById(rows, k);
    BoundsByIdOf(rows, rows[k].id);
  }

  /** The parent `add` works under: the one passed, or `rootId()` when it is omitted. */
  function ParentOrRoot(parentId: Option<int>): int {
    if parentId.Some? then parentId.value else RootId
  }

  /** The first row with the id exists and has no descendants. */
  predicate LeafId(rows: seq<Row>, id: int) {
    var m := FirstMatch(rows, IdIs(id));
    m.Some? && IsLeaf(m.value)
  }

  /**
   * `add(title, description, parentId)`: inserts the row through the engine's `insertChildData`,
   * as written. On a valid table with the parent present, the result is valid exactly when the
   * parent had no children.
   */
  method Add(t: Table, title: string, description: string, parentId: Option<int>) returns (id: int)
    requires t.IdsOk()
    modifies t
    ensures t.IdsOk() && id == old(t.nextId) && t.nextId == id + 1
    ensures t.rows == AddRows(AsWritten, old(t.rows), ParentOrRoot(parentId), id, title, description)
    ensures Valid(old(t.rows)) && HasId(old(t.rows), ParentOrRoot(parentId)) ==>
      (Valid(t.rows) <==> LeafId(old(t.rows), ParentOrRoot(parentId)))
  {
    ghost var before := t.rows;
    var parent := ParentOrRoot(parentId);
    BoundsByIdOf(t.rows, parent);
    id := InsertChildData(t, IdIs(parent), title, description);
    if Valid(before) && HasId(before, parent) {
      AddValidIffLeaf(before, parent, id, title, description);
    }
  }

  /**
   * The as-written `add` under a present parent of a valid table keeps it valid if and only if the
   * parent is a leaf.
   */
  lemma AddValidIffLeaf(rows: seq<Row>, parent: int, id: int, title: string, description: string)
    requires Valid(rows) && HasId(rows, parent) && !HasId(rows, id)
    ensures Valid(AddRows(AsWritten, rows, parent, id, title, description)) <==> LeafId(rows, parent)
  {
    var k :| 0 <= k < |rows| && rows[k].id == parent;
    var n := Row(id, rows[k].right, rows[k].right + 1, title, description);
    AddRowsAt(AsWritten, rows, k, id, title, description);
    assert LeafId(rows, parent) == IsLeaf(rows[k]) by {
      FirstMatchById(rows, k);
    }
    ChildDataValidIffLeaf(rows, k, n);
  }

  /** Under a leaf, the as-written and the corrected `add` leave the same table. */
  lemma AddLeafAgrees(rows: seq<Row>, k: int, id: int, title: string, description: string)
    requires Valid(rows) && 0 <= k < |rows| && IsLeaf(rows[k])
    ensures AddRows(AsWritten, rows, rows[k].id, id, title, description)
      == AddRows(Corrected, rows, rows[k].id, id, title, description)
  {
    AddRowsAt(AsWritten, rows, k, id, title, description);
    AddRowsAt(Corrected, rows, k, id, title, description);
    ChildDataShiftLeaf(rows, k);
  }

  /**
   * The defect reaches `add`: after a reset, a first `add` under the root gives a valid table, and a
   * second one under the root, which now has a child, does not.
   */
  lemma AddTwiceUnderRoot()
    ensures Valid(AddRows(AsWritten, ResetRows(), RootId, 2, "a", ""))
    ensures !Valid(AddRows(AsWritten, AddRows(AsWritten, ResetRows(), RootId, 2, "a", ""), RootId, 3, "b", ""))
  {
    var rows := ResetRows();
    var once := AddRows(AsWritten, rows, RootId, 2, "a", "");
    assert Valid(once) by {
      ResetValid();
      FirstMatchById(rows, 0);
      AddValidIffLeaf(rows, RootId, 2, "a", "");
    }
    assert !LeafId(once, RootId) && HasId(once, RootId) && !HasId(once, 3) by {
      AddOnceUnderRoot();
      FirstMatchById(once, 0);
    }
    AddValidIffLeaf(once, RootId, 3, "b", "");
  }

  /** After a reset, the first `add` under the root widens the root to `[0, 3]` around `[1, 2]`. */
  lemma AddOnceUnderRoot()
    ensures AddRows(AsWritten, ResetRows(), RootId, 2, "a", "") == [Row(RootId, 0, 3, "root", "root"), Row(2, 1, 2, "a", "")]
  {
    var rows := ResetRows();
    assert BoundsById(rows, RootId) == (0, 1);
    var raised := IncrementRight(rows, Ge, 1, 2);
    assert raised[0] == Row(RootId, 0, 3, "root", "root");
    var shifted := IncrementLeft(raised, Gt, 0, 2);
    assert shifted[0] == raised[0];
    assert shifted == [raised[0]];
  }

  /**
   * In a valid table, the row `add` puts under the leaf `rows[k]` carries the given id, title and
   * description and is a child of the (shifted) parent, after all its other descendants.
   */
  lemma AddPlacesChild(rows: seq<Row>, k: int, id: int, title: string, description: string)
    requires Valid(rows) && 0 <= k < |rows| && IsLeaf(rows[k])
    ensures var t := AddRows(AsWritten, rows, rows[k].id, id, title, description);
      && |t| == |rows| + 1
      && t[|rows|].id == id && t[|rows|].title == title && t[|rows|].description == description
      && t[k].id == rows[k].id
      && ChildOf(t, t[|rows|], t[k])
      && (forall y :: y in t && Inside(y, t[k]) ==> y.left <= t[|rows|].left)
  {
    AddLeafAgrees(rows, k, id, title, description);
    AddCorrectedPlacesChild(rows, k, id, title, description);
  }

  /** `add` through the corrected `insertChildData`: validity is kept under every parent. */
  method AddCorrected(t: Table, title: string, description: string, parentId: Option<int>) returns (id: int)
    requires t.IdsOk()
    modifies t
    ensures t.IdsOk() && id == old(t.nextId) && t.nextId == id + 1
    ensures t.rows == AddRows(Corrected, old(t.rows), ParentOrRoot(parentId), id, title, description)
    ensures Valid(old(t.rows)) ==> Valid(t.rows)
  {
    BoundsByIdOf(t.rows, ParentOrRoot(parentId));
    id := InsertChildDataCorrected(t, IdIs(ParentOrRoot(parentId)), title, description);
  }

  /**
   * In a valid table, the row the corrected `add` puts under any `rows[k]` carries the given id,
   * title and description, is a child of the (shifted) parent and comes after all its other
   * descendants.
   */
  lemma AddCorrectedPlacesChild(rows: seq<Row>, k: int, id: int, title: string, description: string)
    requires Valid(rows) && 0 <= k < |rows|
    ensures var t := AddRows(Corrected, rows, rows[k].id, id, title, description);
      && |t| == |rows| + 1
      && t[|rows|].id == id && t[|rows|].title == title && t[|rows|].description == description
      && t[k].id == rows[k].id
      && ChildOf(t, t[|rows|], t[k])
      && (forall y :: y in t && Inside(y, t[k]) ==> y.left <= t[|rows|].left)
  {
    var r := rows[k].right;
    var n := Row(id, r, r + 1, title, description);
    var s := Open(r - 1);
    var t := MapBounds(rows, s) + [n];
    AddRowsAt(Corrected, rows, k, id, title, description);
    assert t[k] == MapRow(rows[k], s) && t[|rows|] == n;
    ChildDataPlacement(rows, k, n);
  }

  // ---------------------------------------------------------------------------------------------
  // addPath

  /** `descriptions[index]` when `descriptions` is an array that has it, the empty string otherwise. */
  function DescriptionAt(descriptions: Option<seq<string>>, index: nat): string {
    if descriptions.Some? && index < |descriptions.value| then descriptions.value[index] else ""
  }

  /** The table, its next id and the result after `addPath` has run. */
  datatype Outcome = Outcome(rows: seq<Row>, nextId: int, result: Result<int>)

  /**
   * The steps of `addPath` from the `i`-th part on, `parent` being the node the previous prefix
   * resolved to: look the next prefix up; reuse the node it names, or `add` the part under `parent`
   * (through the `insertChildData` that `ins` names).
   */
  function AddPathFrom(ins: ChildInsert, rows: seq<Row>, nextId: int, parts: seq<string>, i: nat, current: string,
                       parent: int, descriptions: Option<seq<string>>): Outcome
    requires i <= |parts|
    decreases |parts| - i
  {
    if i == |parts| then Outcome(rows, nextId, Ok(parent))
    else
      var next := current + "/" + parts[i];
      match PathId(rows, next, |rows|)
      case Err(e) => Outcome(rows, nextId, Err(e))
      case Ok(None) =>
        var added := AddRows(ins, rows, parent, nextId, parts[i], DescriptionAt(descriptions, i));
        AddPathFrom(ins, added, nextId + 1, parts, i + 1, next, nextId, descriptions)
      case Ok(Some(found)) => AddPathFrom(ins, rows, nextId, parts, i + 1, next, found, descriptions)
  }

  /** Every part the as-written walk of `addPath` adds from the `i`-th on goes under a present leaf. */
  predicate AddsUnderLeaves(rows: seq<Row>, nextId: int, parts: seq<string>, i: nat, current: string, parent: int,
                            descriptions: Option<seq<string>>)
    requires i <= |parts|
    decreases |parts| - i
  {
    i == |parts| ||
      (var next := current + "/" + parts[i];
       match PathId(rows, next, |rows|)
       case Err(_) => true
       case Ok(None) =>
         && LeafId(rows, parent)
         && AddsUnderLeaves(AddRows(AsWritten, rows, parent, nextId, parts[i], DescriptionAt(descriptions, i)),
                            nextId + 1, parts, i + 1, next, nextId, descriptions)
       case Ok(Some(found)) => AddsUnderLeaves(rows, nextId, parts, i + 1, next, found, descriptions))
  }

  /** The corrected `add` with a fresh id keeps a valid table valid, and its ids below the next one. */
  lemma AddRowsValid(rows: seq<Row>, parent: int, id: int, title: string, description: string)
    requires Valid(rows) && forall k :: 0 <= k < |rows| ==> rows[k].id < id
    ensures var added := AddRows(Corrected, rows, parent, id, title, description);
      && Valid(added)
      && forall k :: 0 <= k < |added| ==> added[k].id < id + 1
  {
    var r := BoundsById(rows, parent).1;
    OpenGapValid(rows, r - 1, Row(id, r, r + 1, title, description));
  }

  /**
   * Every step of `addPath` keeps a valid table valid: always with the corrected `add`, and with
   * the as-written one as long as each part is added under a leaf.
   */
  lemma {:induction false} AddPathFromValid(ins: ChildInsert, rows: seq<Row>, nextId: int, parts: seq<string>, i: nat,
                                            current: string, parent: int, descriptions: Option<seq<string>>)
    requires i <= |parts| && Valid(rows) && forall k :: 0 <= k < |rows| ==> rows[k].id < nextId
    requires ins == Corrected || AddsUnderLeaves(rows, nextId, parts, i, current, parent, descriptions)
    ensures Valid(AddPathFrom(ins, rows, nextId, parts, i, current, parent, descriptions).rows)
    decreases |parts| - i
  {
    if i < |parts| {
      var next := current + "/" + parts[i];
      match PathId(rows, next, |rows|)
      case Err(_) =>
      case Ok(None) =>
        var description := DescriptionAt(descriptions, i);
        var added := AddRows(ins, rows, parent, nextId, parts[i], description);
        if ins == AsWritten {
          var k := FirstIndex(rows, IdIs(parent));
          AddLeafAgrees(rows, k, nextId, parts[i], description);
        }
        AddRowsValid(rows, parent, nextId, parts[i], description);
        AddPathFromValid(ins, added, nextId + 1, parts, i + 1, next, nextId, descriptions);
      case Ok(Some(found)) =>
        AddPathFromValid(ins, rows, nextId, parts, i + 1, next, found, descriptions);
    }
  }

  /** `addPath(path, descriptions)`: a path must start with `/`; its parts are walked from the root. */
  function AddPathSpec(ins: ChildInsert, rows: seq<Row>, nextId: int, path: string, descriptions: Option<seq<string>>): Outcome {
    if |path| == 0 || path[0] != '/' then Outcome(rows, nextId, Err("Path is not valid"))
    else AddPathFrom(ins, rows, nextId, Split(path[1..]), 0, "", RootId, descriptions)
  }

  /**
   * `addPath(path, descriptions)`: creates each prefix of the path that does not resolve yet as a
   * child of the previous prefix's node, through the as-written `add`, and returns the node of the
   * whole path. Validity is kept when every part is added under a leaf.
   */
  method AddPath(t: Table, path: string, descriptions: Option<seq<string>>) returns (res: Result<int>)
    requires t.IdsOk()
    modifies t
    ensures t.IdsOk()
    ensures var o := AddPathSpec(AsWritten, old(t.rows), old(t.nextId), path, descriptions);
      t.rows == o.rows && t.nextId == o.nextId && res == o.result
    ensures (|path| == 0 || path[0] != '/') ==>
      res == Err("Path is not valid") && t.rows == old(t.rows) && t.nextId == old(t.nextId)
    ensures Valid(old(t.rows)) && |path| > 0 && path[0] == '/'
      && AddsUnderLeaves(old(t.rows), old(t.nextId), Split(path[1..]), 0, "", RootId, descriptions)
      ==> Valid(t.rows)
  {
    if |path| == 0 || path[0] != '/' {
      return Err("Path is not valid");
    }
    var parts := Split(path[1..]);
    if Valid(t.rows) && AddsUnderLeaves(t.rows, t.nextId, parts, 0, "", RootId, descriptions) {
      AddPathFromValid(AsWritten, t.rows, t.nextId, parts, 0, "", RootId, descriptions);
    }
    res := AddPathWalk(t, parts, descriptions);
  }

  /** The walk of `addPath` over the parts of a path, from the root. */
  method AddPathWalk(t: Table, parts: seq<string>, descriptions: Option<seq<string>>) returns (res: Result<int>)
    requires t.IdsOk()
    modifies t
    ensures t.IdsOk()
    ensures Outcome(t.rows, t.nextId, res) == AddPathFrom(AsWritten, old(t.rows), old(t.nextId), parts, 0, "", RootId, descriptions)
  {
    ghost var goal := AddPathFrom(AsWritten, t.rows, t.nextId, parts, 0, "", RootId, descriptions);
    res := AddPathLoop(t, parts, descriptions, goal);
  }

  /** The loop of `addPath`: walks the parts from the root, updating `parent` and `index`. */
  method AddPathLoop(t: Table, parts: seq<string>, descriptions: Option<seq<string>>, ghost goal: Outcome)
    returns (res: Result<int>)
    requires t.IdsOk() && AddPathFrom(AsWritten, t.rows, t.nextId, parts, 0, "", RootId, descriptions) == goal
    modifies t
    ensures t.IdsOk() && Outcome(t.rows, t.nextId, res) == goal
  {
    var parent := RootId;
    var index := 0;
    var currentPath := "";
    while index < |parts|
      invariant 0 <= index <= |parts| && t.IdsOk()
      invariant AddPathFrom(AsWritten, t.rows, t.nextId, parts, index, currentPath, parent, descriptions) == goal
    {
      var found, next := AddPathStep(t, parts, index, currentPath, parent, descriptions, goal);
      if found.Err? {
        return Err(found.message);
      }
      parent := next;
      currentPath := currentPath + "/" + parts[index];
      index := index + 1;
    }
    AddPathFromDone(t.rows, t.nextId, parts, currentPath, parent, descriptions);
    res := Ok(parent);
  }

  /** With every part walked, `AddPathFrom` leaves the table as it is and yields the last node. */
  lemma AddPathFromDone(rows: seq<Row>, nextId: int, parts: seq<string>, current: string, parent: int,
                        descriptions: Option<seq<string>>)
    ensures AddPathFrom(AsWritten, rows, nextId, parts, |parts|, current, parent, descriptions)
      == Outcome(rows, nextId, Ok(parent))
  {
  }

  /**
   * One step of `addPath`: look the next prefix up, then reuse the node it names or add the part
   * under `parent`; `next` is the node the following step works under.
   */
  method AddPathStep(t: Table, parts: seq<string>, i: nat, current: string, parent: int,
                     descriptions: Option<seq<string>>, ghost goal: Outcome)
    returns (found: Result<Option<int>>, next: int)
    requires t.IdsOk() && i < |parts|
    requires AddPathFrom(AsWritten, t.rows, t.nextId, parts, i, current, parent, descriptions) == goal
    modifies t
    ensures t.IdsOk()
    ensures found.Err? ==>
      t.rows == old(t.rows) && t.nextId == old(t.nextId) && goal == Outcome(t.rows, t.nextId, Err(found.message))
    ensures found.Ok? ==>
      AddPathFrom(AsWritten, t.rows, t.nextId, parts, i + 1, current + "/" + parts[i], next, descriptions) == goal
  {
    AddPathFromUnfold(t.rows, t.nextId, parts, i, current, parent, descriptions);
    var path := current + "/" + parts[i];
    found := PathId(t.rows, path, |t.rows|);
    next := parent;
    if found.Ok? {
      if found.value.None? {
        next := AddPathNode(t, parts, i, current, parent, descriptions);
      } else {
        next := found.value.value;
      }
    }
  }

  /** The step of `addPath` whose prefix names no node yet: the part is added under `parent`. */
  method AddPathNode(t: Table, parts: seq<string>, i: nat, current: string, parent: int,
                     descriptions: Option<seq<string>>) returns (next: int)
    requires t.IdsOk() && i < |parts|
    requires PathId(t.rows, current + "/" + parts[i], |t.rows|) == Ok(None)
    modifies t
    ensures t.IdsOk()
    ensures AddPathFrom(AsWritten, t.rows, t.nextId, parts, i + 1, current + "/" + parts[i], next, descriptions)
      == AddPathFrom(AsWritten, old(t.rows), old(t.nextId), parts, i, current, parent, descriptions)
  {
    ghost var rows, nextId := t.rows, t.nextId;
    next := Add(t, parts[i], DescriptionAt(descriptions, i), Some(parent));
    AddPathFromAdded(rows, nextId, parts, i, current, parent, descriptions, t.rows, t.nextId, next);
  }

  /** When the lookup finds nothing, `AddPathFrom` goes on from the table with the part added. */
  lemma AddPathFromAdded(rows: seq<Row>, nextId: int, parts: seq<string>, i: nat, current: string, parent: int,
                         descriptions: Option<seq<string>>, added: seq<Row>, addedNext: int, id: int)
    requires i < |parts| && PathId(rows, current + "/" + parts[i], |rows|) == Ok(None)
    requires added == AddRows(AsWritten, rows, parent, nextId, parts[i], DescriptionAt(descriptions, i))
    requires addedNext == nextId + 1 && id == nextId
    ensures AddPathFrom(AsWritten, added, addedNext, parts, i + 1, current + "/" + parts[i], id, descriptions)
      == AddPathFrom(AsWritten, rows, nextId, parts, i, current, parent, descriptions)
  {
    AddPathFromUnfold(rows, nextId, parts, i, current, parent, descriptions);
  }

  /** One step of the as-written `AddPathFrom`, unfolded by the outcome of the lookup. */
  lemma AddPathFromUnfold(rows: seq<Row>, nextId: int, parts: seq<string>, i: nat, current: string, parent: int,
                          descriptions: Option<seq<string>>)
    requires i < |parts|
    ensures var next := current + "/" + parts[i];
      var found := PathId(rows, next, |rows|);
      var o := AddPathFrom(AsWritten, rows, nextId, parts, i, current, parent, descriptions);
      && (found.Err? ==> o == Outcome(rows, nextId, Err(found.message)))
      && (found == Ok(None) ==>
            o == AddPathFrom(AsWritten, AddRows(AsWritten, rows, parent, nextId, parts[i], DescriptionAt(descriptions, i)),
                             nextId + 1, parts, i + 1, next, nextId, descriptions))
      && (found.Ok? && found.value.Some? ==>
            o == AddPathFrom(AsWritten, rows, nextId, parts, i + 1, next, found.value.value, descriptions))
  {
  }

  /** `current` followed by `"/" + parts[k]` for each `k` from `i` on: the path `addPath` ends at. */
  function Extend(current: string, parts: seq<string>, i: nat): string
    requires i <= |parts|
    decreases |parts| - i
  {
    if i == |parts| then current else Extend(current + "/" + parts[i], parts, i + 1)
  }

  /** Every prefix `addPath` looks up from the `i`-th part on, after `current`, already resolves. */
  predicate PrefixesResolve(rows: seq<Row>, parts: seq<string>, i: nat, current: string)
    requires i <= |parts|
    decreases |parts| - i
  {
    i == |parts| ||
      (var next := current + "/" + parts[i];
       var r := PathId(rows, next, |rows|);
       r.Ok? && r.value.Some? && PrefixesResolve(rows, parts, i + 1, next))
  }

  /**
   * When every remaining prefix already resolves, `addPath` reuses them all: the table is not
   * touched and the result is the node of the whole path.
   */
  lemma {:induction false} AddPathReuses(rows: seq<Row>, nextId: int, parts: seq<string>, i: nat, current: string,
                                         parent: int, descriptions: Option<seq<string>>)
    requires i <= |parts| && PrefixesResolve(rows, parts, i, current)
    ensures var o := AddPathFrom(AsWritten, rows, nextId, parts, i, current, parent, descriptions);
      && o.rows == rows && o.nextId == nextId
      && (i == |parts| ==> o.result == Ok(parent))
      && (i < |parts| ==> o.result.Ok? && PathId(rows, Extend(current, parts, i), |rows|) == Ok(Some(o.result.value)))
    decreases |parts| - i
  {
    if i < |parts| {
      var next := current + "/" + parts[i];
      var found := PathId(rows, next, |rows|).value.value;
      AddPathReuses(rows, nextId, parts, i + 1, next, found, descriptions);
    }
  }

  // ---------------------------------------------------------------------------------------------
  // edit

  /**
   * `edit(id, newTitle, newDescription)`: updates only the fields that were passed, of the row with
   * that id; the result is whether exactly one row was reached.
   */
  method Edit(t: Table, id: int, newTitle: Option<string>, newDescription: Option<string>) returns (ok: bool)
    requires t.IdsOk()
    modifies t
    ensures t.IdsOk() && t.nextId == old(t.nextId)
    ensures t.rows == EditRows(old(t.rows), IdIs(id), newTitle, newDescription)
    ensures ok <==> CountMatching(old(t.rows), IdIs(id)) == 1
    ensures Valid(old(t.rows)) ==> Valid(t.rows)
  {
    var count := EditData(t, IdIs(id), newTitle, newDescription);
    ok := count == 1;
  }

  /** With unique ids, an id reaches one row when it is present and none otherwise. */
  lemma {:induction false} CountMatchingId(rows: seq<Row>, id: int)
    requires Pairwise(rows)
    ensures CountMatching(rows, IdIs(id)) == if HasId(rows, id) then 1 else 0
  {
    if rows != [] {
      var n := |rows|;
      var pre := rows[..n - 1];
      assert Pairwise(pre) by {
        forall i, j | 0 <= i < |pre| && 0 <= j < |pre| && i != j ensures Compatible(pre[i], pre[j]) {
          assert pre[i] == rows[i] && pre[j] == rows[j];
        }
      }
      CountMatchingId(pre, id);
      if rows[n - 1].id == id {
        forall i | 0 <= i < n - 1 ensures pre[i].id != id {
          assert Compatible(rows[i], rows[n - 1]);
        }
      } else {
        assert HasId(rows, id) ==> HasId(pre, id) by {
          if HasId(rows, id) {
            var i :| 0 <= i < n && rows[i].id == id;
            assert pre[i] == rows[i];
          }
        }
      }
    }
  }

  // ---------------------------------------------------------------------------------------------
  // The tree step of remove

  /**
   * What `remove` does to the tree: a missing id leaves it alone (an error when `recursive` is
   * passed, `false` otherwise); on a valid tree an existing node is deleted, with its whole subtree
   * and the gap closed when `recursive`, alone and its children promoted one level otherwise.
   */
  ghost predicate Removed(before: seq<Row>, after: seq<Row>, id: int, recursive: bool, res: Result<bool>) {
    match FirstMatch(before, IdIs(id))
    case None => after == before && (if recursive then res.Err? else res == Ok(false))
    case Some(x) =>
      Valid(before) ==>
        && res == Ok(true)
        && after == if recursive
          then MapBounds(DeleteLeftIn(before, x.left, x.right), Close(x.right, x.right - x.left + 1))
          else MapBounds(DeleteLeftIn(before, x.left, x.left), Promote(x.left, x.right))
  }

  /**
   * The last step of a role's or a permission's `remove(id, recursive)`: the node with that id is
   * deleted with its children promoted when `recursive` is not passed, and with its whole subtree
   * when it is. An absent id changes nothing: `false`, or a failure in the subtree case.
   */
  method RemoveEntry(t: Table, id: int, recursive: bool) returns (res: Result<bool>)
    requires t.IdsOk()
    modifies t
    ensures t.IdsOk() && t.nextId == old(t.nextId)
    ensures Removed(old(t.rows), t.rows, id, recursive, res)
    ensures Valid(old(t.rows)) ==> Valid(t.rows)
  {
    ghost var before := t.rows;
    if Valid(before) && FirstMatch(before, IdIs(id)).Some? {
      DeleteSubtreeConditionalSucceeds(before, FirstIndex(before, IdIs(id)));
    }
    if !recursive {
      var ok := DeleteConditional(t, IdIs(id));
      res := Ok(ok);
    } else {
      res := DeleteSubtreeConditional(t, IdIs(id));
    }
  }

  // ---------------------------------------------------------------------------------------------
  // count, rows by id

  /** `count()`: `SELECT COUNT(*)` over the table. */
  method Count(t: Table) returns (n: nat)
    ensures n == |t.rows|
  {
    n := |t.rows|;
  }

  /**
   * The rows carrying each id of `ids` in turn: what a join of a table with a list of ids yields
   * when it is ordered by that list.
   */
  function RowsByIds(rows: seq<Row>, ids: seq<int>): (r: seq<Row>)
    ensures forall x :: x in r <==> x in rows && x.id in ids
  {
    if ids == [] then []
    else
      var last := ids[|ids| - 1];
      assert ids == ids[..|ids| - 1] + [last];
      FilterMembers(rows, (x: Row) => Matches(x, IdIs(last)));
      RowsByIds(rows, ids[..|ids| - 1]) + Select(rows, IdIs(last))
  }

  /**
   * Each id of the list contributes every row that carries it, once per occurrence in the list:
   * with unique rows, a row is listed as often as its id is.
   */
  lemma {:induction false} RowsByIdsCount(rows: seq<Row>, ids: seq<int>, x: Row)
    ensures multiset(RowsByIds(rows, ids))[x] == multiset(ids)[x.id] * multiset(rows)[x]
  {
    if ids != [] {
      var last := ids[|ids| - 1];
      var pre := ids[..|ids| - 1];
      assert ids == pre + [last];
      var front, back := RowsByIds(rows, pre), Select(rows, IdIs(last));
      var a, m := multiset(pre)[x.id], multiset(rows)[x];
      var one := x.id == last;
      assert multiset(RowsByIds(rows, ids))[x] == multiset(front)[x] + multiset(back)[x] by {
        assert RowsByIds(rows, ids) == front + back;
      }
      assert multiset(front)[x] == a * m by {
        RowsByIdsCount(rows, pre, x);
      }
      assert multiset(back)[x] == if one then m else 0 by {
        FilterCount(rows, (r: Row) => Matches(r, IdIs(last)), x);
      }
      assert multiset(ids)[x.id] == a + if one then 1 else 0;
      CountsCombine(multiset(RowsByIds(rows, ids))[x], multiset(front)[x], multiset(back)[x],
                    multiset(ids)[x.id], a, m, one);
    }
  }

  /** `RowsByIdsCount` for every row at once, with the ids counted in any list holding the same ids. */
  lemma RowsByIdsCounts(rows: seq<Row>, ids: seq<int>, counted: seq<int>)
    requires multiset(ids) == multiset(counted)
    ensures forall x :: multiset(RowsByIds(rows, ids))[x] == multiset(counted)[x.id] * multiset(rows)[x]
  {
    forall x ensures multiset(RowsByIds(rows, ids))[x] == multiset(counted)[x.id] * multiset(rows)[x] {
      RowsByIdsCount(rows, ids, x);
    }
  }

  /** The arithmetic step of `RowsByIdsCount`: one more occurrence of the id adds `m` copies. */
  lemma CountsCombine(total: int, front: int, back: int, n: int, a: int, m: int, one: bool)
    requires total == front + back && front == a * m && back == (if one then m else 0)
    requires n == a + (if one then 1 else 0)
    ensures total == n * m
  {
    if one {
      assert n * m == a * m + m;
    }
  }

  /** Ordered ids give rows ordered by id. */
  lemma {:induction false} RowsByIdsAscending(rows: seq<Row>, ids: seq<int>)
    requires Ascending(ids)
    ensures forall i, j :: 0 <= i < j < |RowsByIds(rows, ids)| ==> RowsByIds(rows, ids)[i].id <= RowsByIds(rows, ids)[j].id
  {
    if ids != [] {
      var last := ids[|ids| - 1];
      var pre := ids[..|ids| - 1];
      assert Ascending(pre);
      RowsByIdsAscending(rows, pre);
      var a, b := RowsByIds(rows, pre), Select(rows, IdIs(last));
      FilterMembers(rows, (x: Row) => Matches(x, IdIs(last)));
      var r := a + b;
      forall i, j | 0 <= i < j < |r| ensures r[i].id <= r[j].id {
        if j >= |a| {
          assert r[j] in b && Matches(r[j], IdIs(last));
          if i >= |a| {
            assert r[i] in b && Matches(r[i], IdIs(last));
            assert r[i].id == last;
            assert r[j].id == last;
          } else {
            assert r[i] in a;
            var k :| 0 <= k < |pre| && pre[k] == r[i].id;
            assert ids[k] == pre[k] && ids[k] <= ids[|ids| - 1];
            assert r[i].id <= last;
            assert r[j].id == last;
          }
        } else {
          assert r[i] == a[i] && r[j] == a[j];
          assert a[i].id <= a[j].id;
        }
      }
    }
  }

  // ---------------------------------------------------------------------------------------------
  // reset, assign

  /** The table `reset` leaves behind: the root alone, at `[0, 1]`. */
  function ResetRows(): seq<Row> {
    [Row(RootId, 0, 1, "root", "root")]
  }

  /**
   * `reset(ensure)`: throws unless `ensure` is exactly `true`. Otherwise deletes every row, restarts
   * the ids at 1 and inserts the root; the result is `true`.
   */
  method Reset(t: Table, ensure: Json) returns (res: Result<bool>)
    modifies t
    ensures ensure != Bool(true) ==> res.Err? && t.rows == old(t.rows) && t.nextId == old(t.nextId)
    ensures ensure == Bool(true) ==> res == Ok(true) && t.rows == ResetRows() && t.nextId == RootId + 1 && t.IdsOk()
  {
    if ensure != Bool(true) {
      return Err("This function requires true as attribute else it won't work");
    }
    var count := t.Clear();
    var id := t.Insert(0, 1, "root", "root");
    res := Ok(count >= 0);
  }

  /** The table `reset` leaves is a valid one-row hierarchy. */
  lemma ResetValid()
    ensures Valid(ResetRows())
  {
    var rows := ResetRows();
    assert rows[..0] == [];
    assert CountInside(rows, rows[0]) == 0;
  }

  /** After `reset`, the table is a valid one-row hierarchy and the path `/` names its root. */
  lemma ResetRootPath(ownCount: nat)
    requires ownCount <= PathLimit - 3
    ensures Valid(ResetRows()) && |ResetRows()| == 1
    ensures PathId(ResetRows(), "/", ownCount) == Ok(Some(RootId))
  {
    ResetValid();
    ResetTitles();
    ResetRootTitlePath();
    PathIdOfNode(ResetRows(), 0, "/", ownCount);
  }

  /** A role hierarchy of two rows: `root` `[0, 3]` with `editor` `[1, 2]` under it. */
  function EditorRoles(): seq<Row> {
    [Row(RootId, 0, 3, "root", "root"), Row(2, 1, 2, "editor", "")]
  }

  /** Below the root, a path resolves too: `/editor`, `editor` and `editor/` name the child. */
  lemma EditorPath(ownCount: nat)
    requires ownCount <= PathLimit - 9
    ensures PathId(EditorRoles(), "/editor", ownCount) == Ok(Some(2))
    ensures PathId(EditorRoles(), "editor", ownCount) == Ok(Some(2))
    ensures PathId(EditorRoles(), "editor/", ownCount) == Ok(Some(2))
  {
    EditorNormalForms();
    EditorChildPath("/editor", ownCount);
    EditorChildPath("editor", ownCount);
    EditorChildPath("editor/", ownCount);
  }

  /** The three spellings normalise alike. */
  lemma EditorNormalForms()
    ensures NormalizePath("/editor") == "root/editor"
    ensures NormalizePath("editor") == "root/editor"
    ensures NormalizePath("editor/") == "root/editor"
  {
    assert NormalizePath("editor") == "root/editor";
    NormalizeTrailingSlash("editor");
  }

  /** Every path that normalises to `root/editor` resolves to the child. */
  lemma EditorChildPath(path: string, ownCount: nat)
    requires ownCount <= PathLimit - 9
    requires NormalizePath(path) == "root/editor"
    ensures PathId(EditorRoles(), path, ownCount) == Ok(Some(2))
  {
    var rows := EditorRoles();
    EditorValid();
    EditorTitlePaths();
    assert forall j :: 0 <= j < |rows| && j != 1 ==> TitlePath(rows, rows[j]) != TitlePath(rows, rows[1]) by {
      assert "root" != "root/editor" by { assert |"root"| != |"root/editor"|; }
    }
    assert NoSlash(rows[1].title);
    PathIdOfNode(rows, 1, path, ownCount);
  }

  /** The two-row hierarchy is a nested set. */
  lemma EditorValid()
    ensures Valid(EditorRoles())
  {
    var rows := EditorRoles();
    assert Pairwise(rows) by {
      forall i, j | 0 <= i < |rows| && 0 <= j < |rows| && i != j ensures Compatible(rows[i], rows[j]) { }
    }
    assert rows[..1][..0] == [];
    assert CountInside(rows, rows[0]) == 1;
    assert CountInside(rows, rows[1]) == 0;
  }

  /** The title paths of the two rows, `root` and `root/editor`, and their title lengths. */
  lemma EditorTitlePaths()
    ensures TitleLengthSum(EditorRoles()) == 10
    ensures TitlePath(EditorRoles(), EditorRoles()[0]) == "root"
    ensures TitlePath(EditorRoles(), EditorRoles()[1]) == "root/editor"
  {
    var rows := EditorRoles();
    assert rows[..1][..0] == [];
    assert AncestorsOf(rows, 1) == rows by {
      assert Filter(rows[..1], (p: Row) => Within(1, p)) == [rows[0]];
    }
    assert AncestorsOf(rows, 0) == [rows[0]] by {
      assert Filter(rows[..1], (p: Row) => Within(0, p)) == [rows[0]];
    }
    assert SortByLeft(rows) == rows by {
      assert rows[1..] == [rows[1]];
      assert SortByLeft([rows[1]]) == [rows[1]];
    }
    assert SortByLeft([rows[0]]) == [rows[0]];
    assert Titles(rows) == ["root", "editor"];
    assert Titles([rows[0]]) == ["root"];
  }

  /** The one title of the reset table, `root`, has four characters. */
  lemma ResetTitles()
    ensures TitleLengthSum(ResetRows()) == 4
  {
    var rows := ResetRows();
    assert rows[..0] == [];
  }

  /** The root's title path in the reset table is the normal form of `/`. */
  lemma ResetRootTitlePath()
    ensures |ResetRows()| == 1 && NormalizePath("/") == TitlePath(ResetRows(), ResetRows()[0])
  {
    var rows := ResetRows();
    NormalizeRoot();
    assert AncestorsOf(rows, 0) == [rows[0]] by {
      assert Filter(rows[..0], (p: Row) => Within(0, p)) == [];
    }
    assert SortByLeft([rows[0]]) == [rows[0]];
  }

  /** `assign(role, permission)`: inserts one role-permission row. */
  method Assign(rolePermissions: Relation, role: int, permission: int)
    modifies rolePermissions
    ensures rolePermissions.rows == old(rolePermissions.rows) + [Link(role, permission)]
  {
    rolePermissions.Insert(Link(role, permission));
  }

  /** An assignment adds exactly one row for its pair and leaves the other pairs' counts alone. */
  lemma AssignCounts(rows: seq<Link>, role: int, permission: int, a: int, b: int)
    ensures |rows + [Link(role, permission)]| == |rows| + 1
    ensures CountWhere(rows + [Link(role, permission)], PairIs(a, b))
      == CountWhere(rows, PairIs(a, b)) + (if a == role && b == permission then 1 else 0)
  {
    assert (rows + [Link(role, permission)])[..|rows|] == rows;
  }
}
