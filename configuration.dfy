/**
 * The configuration store: a tree of values built by deep-merging objects into `data`, read back
 * by walking a path of keys.
 */
module Configuration {
  import opened Results
  import opened JsonValues

  /** Every object in `v`, at any depth, has distinct keys. */
  predicate WellFormed(v: Json)
    decreases v
  {
    match v
    case Obj(ps) => KeysDistinct(ps) && forall i :: 0 <= i < |ps| ==> WellFormed(ps[i].value)
    case Arr(items) => forall i :: 0 <= i < |items| ==> WellFormed(items[i])
    case _ => true
  }

  /** `v` holds no array at any depth. */
  predicate ArrayFree(v: Json)
    decreases v
  {
    match v
    case Obj(ps) => forall i :: 0 <= i < |ps| ==> ArrayFree(ps[i].value)
    case Arr(_) => false
    case _ => true
  }

  // ---------------------------------------------------------------------------------------------
  // merge

  /**
   * The merge helper: `null` keeps the target, a non-object on either side gives the source, two
   * arrays concatenate, and an object source is merged into the target key by key, recursively.
   * An array source merged into an object target writes its elements under the keys "0", "1", ...;
   * an object source merged into an array target merges each key naming an element into it.
   */
  function MergeValue(target: Json, source: Json): Json
    decreases source, 1
  {
    if source.Null? then target
    else if !IsObject(target) || !IsObject(source) then source
    else match (target, source)
      case (Arr(a), Arr(b)) => Arr(a + b)
      case (Obj(t), Obj(s)) => Obj(MergeProps(t, s))
      case (Obj(t), Arr(b)) => Obj(MergeItems(t, b))
      case (Arr(a), Obj(s)) => Arr(MergeIndexes(a, s))
  }

  /** `for (prop in source) target[prop] = helper(target[prop], source[prop])`, in key order. */
  function MergeProps(t: seq<Prop>, s: seq<Prop>): seq<Prop>
    decreases s, 0
  {
    if s == [] then t
    else
      var m, p := MergeProps(t, s[..|s| - 1]), s[|s| - 1];
      Put(m, p.key, MergeValue(Lookup(m, p.key), p.value))
  }

  /** The same loop over an array source, whose keys are its indexes spelled in decimal. */
  function MergeItems(t: seq<Prop>, b: seq<Json>): seq<Prop>
    decreases b, 0
  {
    if b == [] then t
    else
      var m, k := MergeItems(t, b[..|b| - 1]), DecimalString(|b| - 1);
      Put(m, k, MergeValue(Lookup(m, k), b[|b| - 1]))
  }

  /**
   * The same loop over an object source into an array target: a key spelling an index of the array
   * in decimal merges into that element.
   */
  function MergeIndexes(a: seq<Json>, s: seq<Prop>): (r: seq<Json>)
    ensures |r| == |a|
    decreases s, 0
  {
    if s == [] then a
    else
      var m, p := MergeIndexes(a, s[..|s| - 1]), s[|s| - 1];
      match IndexNamed(p.key, |m|)
      case Some(i) => m[i := MergeValue(m[i], p.value)]
      case None => m
  }

  /** The index below `n` whose decimal spelling is `key`, if there is one. */
  function IndexNamed(key: string, n: nat): (r: Option<nat>)
    ensures r.Some? ==> r.value < n && DecimalString(r.value) == key
    ensures r.None? ==> forall i :: 0 <= i < n ==> DecimalString(i) != key
  {
    if n == 0 then None
    else if DecimalString(n - 1) == key then Some(n - 1)
    else IndexNamed(key, n - 1)
  }

  /** Distinct indexes have distinct decimal spellings. */
  lemma DecimalInjective(i: nat, j: nat)
    requires DecimalString(i) == DecimalString(j)
    ensures i == j
  {
    DecimalRoundTrip(i);
    DecimalRoundTrip(j);
  }

  /**
   * Merging an object into an array: the element at each index is merged with the value under that
   * index's decimal key, and left alone when the object has no such key.
   */
  lemma {:induction false} MergeIndexesAt(a: seq<Json>, s: seq<Prop>, i: nat)
    requires KeysDistinct(s) && i < |a|
    ensures MergeIndexes(a, s)[i] ==
      if HasKey(s, DecimalString(i)) then MergeValue(a[i], Lookup(s, DecimalString(i))) else a[i]
  {
    if s != [] {
      var init, p := s[..|s| - 1], s[|s| - 1];
      assert s == init + [p];
      assert KeysDistinct(init);
      MergeIndexesAt(a, init, i);
      LookupSnoc(init, p);
      match IndexNamed(p.key, |a|)
      case Some(j) =>
        if j != i {
          if p.key == DecimalString(i) {
            DecimalInjective(i, j);
          }
        } else {
          assert !HasKey(init, p.key);
        }
      case None =>
    }
  }

  /** Merging `null` leaves the target as it was. */
  lemma MergeNull(target: Json)
    ensures MergeValue(target, Null) == target
  {
  }

  /** Two arrays merge by appending the source's elements, in order, after the target's. */
  lemma MergeArrays(a: seq<Json>, b: seq<Json>)
    ensures MergeValue(Arr(a), Arr(b)).Arr?
    ensures var r := MergeValue(Arr(a), Arr(b)).items;
      |r| == |a| + |b| && r[..|a|] == a && r[|a|..] == b
  {
    assert (a + b)[..|a|] == a && (a + b)[|a|..] == b;
  }

  /**
   * Merging one object into another: every key of the source holds the merge of the two values
   * under it, every key only in the target keeps its value, and no key appears twice.
   */
  lemma {:induction false} MergeObjects(t: seq<Prop>, s: seq<Prop>)
    requires KeysDistinct(t) && KeysDistinct(s)
    ensures KeysDistinct(MergeProps(t, s))
    ensures forall k :: HasKey(MergeProps(t, s), k) <==> HasKey(t, k) || HasKey(s, k)
    ensures forall k :: (Lookup(MergeProps(t, s), k) ==
      if HasKey(s, k) then MergeValue(Lookup(t, k), Lookup(s, k)) else Lookup(t, k))
  {
    if s != [] {
      var init, p := s[..|s| - 1], s[|s| - 1];
      assert s == init + [p];
      assert KeysDistinct(init);
      MergeObjects(t, init);
      LookupSnoc(init, p);
      assert !HasKey(init, p.key);
    }
  }

  /** Merging an object without `null` values into an empty object gives that object. */
  lemma {:induction false} MergeIntoEmpty(s: seq<Prop>)
    requires KeysDistinct(s) && forall i :: 0 <= i < |s| ==> !s[i].value.Null?
    ensures MergeProps([], s) == s
  {
    if s != [] {
      var init, p := s[..|s| - 1], s[|s| - 1];
      assert s == init + [p];
      MergeIntoEmpty(init);
      assert !HasKey(init, p.key);
    }
  }

  /** Merging keeps every object's keys distinct. */
  lemma {:induction false} MergeWellFormed(target: Json, source: Json)
    requires WellFormed(target) && WellFormed(source)
    ensures WellFormed(MergeValue(target, source))
    decreases source, 1
  {
    if source.Null? || !IsObject(target) || !IsObject(source) {
    } else if target.Arr? && source.Arr? {
      var r := target.items + source.items;
      assert forall i :: 0 <= i < |r| ==> r[i] in target.items || r[i] in source.items;
    } else if target.Obj? && source.Obj? {
      MergePropsWellFormed(target.props, source.props);
    } else if target.Obj? && source.Arr? {
      MergeItemsWellFormed(target.props, source.items);
    } else {
      MergeIndexesWellFormed(target.items, source.props);
    }
  }

  lemma {:induction false} MergeIndexesWellFormed(a: seq<Json>, s: seq<Prop>)
    requires WellFormed(Arr(a)) && WellFormed(Obj(s))
    ensures WellFormed(Arr(MergeIndexes(a, s)))
    decreases s, 0
  {
    if s != [] {
      var init, p := s[..|s| - 1], s[|s| - 1];
      assert forall i :: 0 <= i < |init| ==> init[i] == s[i];
      MergeIndexesWellFormed(a, init);
      var m := MergeIndexes(a, init);
      match IndexNamed(p.key, |m|)
      case Some(j) =>
        MergeWellFormed(m[j], p.value);
      case None =>
    }
  }

  lemma {:induction false} MergePropsWellFormed(t: seq<Prop>, s: seq<Prop>)
    requires WellFormed(Obj(t)) && WellFormed(Obj(s))
    ensures WellFormed(Obj(MergeProps(t, s)))
    decreases s, 0
  {
    if s != [] {
      var init, p := s[..|s| - 1], s[|s| - 1];
      assert forall i :: 0 <= i < |init| ==> init[i] == s[i];
      MergePropsWellFormed(t, init);
      var m := MergeProps(t, init);
      LookupWellFormed(m, p.key);
      MergeWellFormed(Lookup(m, p.key), p.value);
      PutWellFormed(m, p.key, MergeValue(Lookup(m, p.key), p.value));
    }
  }

  lemma {:induction false} MergeItemsWellFormed(t: seq<Prop>, b: seq<Json>)
    requires WellFormed(Obj(t)) && WellFormed(Arr(b))
    ensures WellFormed(Obj(MergeItems(t, b)))
    decreases b, 0
  {
    if b != [] {
      var init, k := b[..|b| - 1], DecimalString(|b| - 1);
      assert forall i :: 0 <= i < |init| ==> init[i] == b[i];
      MergeItemsWellFormed(t, init);
      var m := MergeItems(t, init);
      LookupWellFormed(m, k);
      MergeWellFormed(Lookup(m, k), b[|b| - 1]);
      PutWellFormed(m, k, MergeValue(Lookup(m, k), b[|b| - 1]));
    }
  }

  lemma {:induction false} LookupWellFormed(ps: seq<Prop>, k: string)
    requires WellFormed(Obj(ps))
    ensures WellFormed(Lookup(ps, k))
  {
    if ps != [] && ps[|ps| - 1].key != k {
      var init := ps[..|ps| - 1];
      assert forall i :: 0 <= i < |init| ==> init[i] == ps[i];
      LookupWellFormed(init, k);
    }
  }

  lemma {:induction false} PutWellFormed(ps: seq<Prop>, k: string, v: Json)
    requires WellFormed(Obj(ps)) && WellFormed(v)
    ensures WellFormed(Obj(Put(ps, k, v)))
  {
    if ps != [] {
      var init, last := ps[..|ps| - 1], ps[|ps| - 1];
      assert forall i :: 0 <= i < |init| ==> init[i] == ps[i];
      if last.key != k {
        PutWellFormed(init, k, v);
        var r := Put(init, k, v) + [last];
        assert forall i :: 0 <= i < |r| - 1 ==> r[i] == Put(init, k, v)[i];
      }
    }
  }

  /** Writing back the value a key already holds changes nothing. */
  lemma {:induction false} PutSame(ps: seq<Prop>, k: string)
    requires KeysDistinct(ps) && HasKey(ps, k)
    ensures Put(ps, k, Lookup(ps, k)) == ps
  {
    var init, last := ps[..|ps| - 1], ps[|ps| - 1];
    assert ps == init + [last];
    if last.key != k {
      assert forall i :: 0 <= i < |init| ==> init[i] == ps[i];
      PutSame(init, k);
    }
  }

  /** An array-free value merged into itself is unchanged. */
  lemma {:induction false} MergeSelf(s: Json)
    requires WellFormed(s) && ArrayFree(s)
    ensures MergeValue(s, s) == s
    decreases s, 1
  {
    if s.Obj? {
      MergePropsSelf(s.props, |s.props|);
      assert s.props[..|s.props|] == s.props;
    }
  }

  lemma {:induction false} MergePropsSelf(s: seq<Prop>, n: nat)
    requires WellFormed(Obj(s)) && ArrayFree(Obj(s)) && n <= |s|
    ensures MergeProps(s, s[..n]) == s
    decreases s, 0, n
  {
    if n > 0 {
      var p := s[n - 1];
      assert s[..n][..n - 1] == s[..n - 1];
      MergePropsSelf(s, n - 1);
      assert Lookup(s, p.key) == p.value;
      MergeSelf(p.value);
      PutSame(s, p.key);
    }
  }

  /**
   * Merging the same array-free source a second time changes nothing further: only arrays,
   * which append, make merge non-idempotent.
   */
  lemma {:induction false} MergeTwice(target: Json, source: Json)
    requires WellFormed(target) && WellFormed(source) && ArrayFree(source)
    ensures MergeValue(MergeValue(target, source), source) == MergeValue(target, source)
    decreases source, 1
  {
    if source.Null? {
    } else if !IsObject(target) || !IsObject(source) {
      MergeSelf(source);
    } else if target.Obj? && source.Obj? {
      MergePropsTwice(target.props, source.props, |source.props|);
      assert source.props[..|source.props|] == source.props;
    } else if target.Arr? && source.Obj? {
      MergeIndexesTwice(target.items, source.props);
    }
  }

  lemma {:induction false} MergeIndexesTwice(a: seq<Json>, s: seq<Prop>)
    requires WellFormed(Arr(a)) && WellFormed(Obj(s)) && ArrayFree(Obj(s))
    ensures MergeIndexes(MergeIndexes(a, s), s) == MergeIndexes(a, s)
    decreases s, 0
  {
    var m := MergeIndexes(a, s);
    forall i | 0 <= i < |a| ensures MergeIndexes(m, s)[i] == m[i] {
      MergeIndexesAt(a, s, i);
      MergeIndexesAt(m, s, i);
      var k := DecimalString(i);
      if HasKey(s, k) {
        var q :| 0 <= q < |s| && s[q].key == k;
        MergeTwice(a[i], s[q].value);
      }
    }
  }

  lemma {:induction false} MergePropsTwice(t: seq<Prop>, s: seq<Prop>, n: nat)
    requires WellFormed(Obj(t)) && WellFormed(Obj(s)) && ArrayFree(Obj(s)) && n <= |s|
    ensures MergeProps(MergeProps(t, s), s[..n]) == MergeProps(t, s)
    decreases s, 0, n
  {
    if n > 0 {
      var m := MergeProps(t, s);
      var p := s[n - 1];
      assert s[..n][..n - 1] == s[..n - 1];
      MergePropsTwice(t, s, n - 1);
      MergeObjects(t, s);
      assert HasKey(s, p.key) && Lookup(s, p.key) == p.value;
      LookupWellFormed(t, p.key);
      MergeTwice(Lookup(t, p.key), p.value);
      PutSame(m, p.key);
    }
  }

  // ---------------------------------------------------------------------------------------------
  // get

  /**
   * Walking `path` down from `v`: each step reads one key; the walk stops with `undefined` as soon
   * as a key is missing, and a step into `null` throws.
   */
  function GetPath(v: Json, path: seq<string>): Result<Json>
    decreases |path|
  {
    if path == [] then Ok(v)
    else match Member(v, path[0])
      case Err(e) => Err(e)
      case Ok(next) => if next.Undefined? then Ok(Undefined) else GetPath(next, path[1..])
  }

  /**
   * Walking `p + q` is walking `p`, then `q` from where `p` ended; a walk that already stopped on
   * a missing key stays stopped.
   */
  lemma {:induction false} GetPathAppend(v: Json, p: seq<string>, q: seq<string>)
    requires !v.Undefined?
    ensures GetPath(v, p + q) ==
      match GetPath(v, p)
      case Err(e) => Err(e)
      case Ok(w) => if w.Undefined? then Ok(Undefined) else GetPath(w, q)
    decreases |p|
  {
    if p != [] {
      assert (p + q)[0] == p[0] && (p + q)[1..] == p[1..] + q;
      match Member(v, p[0])
      case Err(_) =>
      case Ok(next) =>
        if !next.Undefined? {
          GetPathAppend(next, p[1..], q);
        }
    } else {
      assert p + q == q;
    }
  }

  /** A key that the walk reaches but that is missing makes the whole lookup `undefined`. */
  lemma GetMissingKey(v: Json, p: seq<string>, k: string, q: seq<string>)
    requires !v.Undefined?
    requires GetPath(v, p) == Ok(Obj([])) || (exists ps :: GetPath(v, p) == Ok(Obj(ps)) && !HasKey(ps, k))
    ensures GetPath(v, p + [k] + q) == Ok(Undefined)
  {
    GetPathAppend(v, p, [k] + q);
    assert p + [k] + q == p + ([k] + q);
  }

  /** The built-in defaults the store starts from. */
  function Defaults(): Json {
    Obj([Prop("node-rbac", DefaultConnection()), Prop("basenestedset", DefaultColumns())])
  }

  /** The default MySQL connection settings, under `node-rbac`. */
  function DefaultConnection(): Json {
    Obj([
      Prop("adapter", Str("mysql")),
      Prop("host", Str("0.0.0.0")),
      Prop("port", Num(3306)),
      Prop("database", Str("node-rbac")),
      Prop("password", Str("changeme")),
      Prop("charset", Str("utf8")),
      Prop("user", Str("node-rbac"))])
  }

  /** The default column names of a hierarchy table, under `basenestedset`. */
  function DefaultColumns(): Json {
    Obj([
      Prop("idField", Str("id")),
      Prop("leftField", Str("lft")),
      Prop("rightField", Str("rght"))])
  }

  /** The defaults are well formed: no object of theirs repeats a key. */
  lemma DefaultsWellFormed()
    ensures WellFormed(Defaults())
  {
    DefaultConnectionWellFormed();
    DefaultColumnsWellFormed();
    var top := Defaults().props;
    assert top[0].key[0] == 'n' && top[1].key[0] == 'b';
  }

  lemma DefaultConnectionWellFormed()
    ensures WellFormed(DefaultConnection())
  {
    var ps := DefaultConnection().props;
    assert ps[0].key[0] == 'a' && ps[1].key[0] == 'h' && ps[2].key[0] == 'p' && ps[3].key[0] == 'd';
    assert ps[4].key[0] == 'p' && ps[5].key[0] == 'c' && ps[6].key[0] == 'u';
    assert ps[2].key[1] == 'o' && ps[4].key[1] == 'a';
    forall i, j | 0 <= i < j < |ps| ensures ps[i].key != ps[j].key {
      if i == 2 && j == 4 {
        assert ps[i].key[1] != ps[j].key[1];
      } else {
        assert ps[i].key[0] != ps[j].key[0];
      }
    }
  }

  lemma DefaultColumnsWellFormed()
    ensures WellFormed(DefaultColumns())
  {
    var ps := DefaultColumns().props;
    assert ps[0].key[0] == 'i' && ps[1].key[0] == 'l' && ps[2].key[0] == 'r';
  }

  /** The store the constructor builds: the defaults merged into an empty object. */
  lemma DefaultsMerged()
    ensures MergeValue(Obj([]), Defaults()) == Defaults()
  {
    MergeIntoEmpty(Defaults().props);
  }

  /** The defaults name the left-bound column `lft`. */
  lemma DefaultsLeftField()
    ensures GetPath(Defaults(), ["basenestedset", "leftField"]) == Ok(Str("lft"))
  {
    var top := Defaults().props;
    var nested := DefaultColumns().props;
    LookupAt(top, 1, "basenestedset");
    assert nested[2].key[0] == 'r';
    LookupAt(nested, 1, "leftField");
    assert ["basenestedset", "leftField"][1..] == ["leftField"];
    assert GetPath(Str("lft"), []) == Ok(Str("lft"));
  }

  /** The defaults connect to MySQL on port 3306. */
  lemma DefaultsPort()
    ensures GetPath(Defaults(), ["node-rbac", "port"]) == Ok(Num(3306))
  {
    var top := Defaults().props;
    var rbac := DefaultConnection().props;
    assert top[1].key[0] == 'b';
    LookupAt(top, 0, "node-rbac");
    assert rbac[3].key[0] == 'd' && rbac[4].key[1] == 'a' && rbac[5].key[0] == 'c' && rbac[6].key[0] == 'u';
    LookupAt(rbac, 2, "port");
    assert ["node-rbac", "port"][1..] == ["port"];
    assert GetPath(Num(3306), []) == Ok(Num(3306));
  }

  /** The configuration object: its `data` tree, updated in place by `merge`. */
  class Config {
    var data: Json

    ghost predicate Valid()
      reads this
    {
      data.Obj? && WellFormed(data)
    }

    /** Starts from an empty object and merges the defaults into it. */
    constructor ()
      ensures Valid() && data == Defaults()
      ensures GetPath(data, ["basenestedset", "leftField"]) == Ok(Str("lft"))
      ensures GetPath(data, ["node-rbac", "port"]) == Ok(Num(3306))
    {
      data := Obj([]);
      new;
      DefaultsWellFormed();
      var self := Merge(Defaults());
      DefaultsMerged();
      DefaultsLeftField();
      DefaultsPort();
    }

    /**
     * `merge(source)`: the helper updates `data` in place when the source is an object or an array
     * and returns `this`; any other source leaves `data` as it was.
     */
    method Merge(source: Json) returns (self: Config)
      requires Valid() && WellFormed(source)
      modifies this
      ensures self == this && Valid()
      ensures data == if IsObject(source) then MergeValue(old(data), source) else old(data)
    {
      self := this;
      if IsObject(source) {
        MergeWellFormed(data, source);
        data := MergeValue(data, source);
      }
    }

    /** `get(path)`: the loop that reads one key per step while the value is not `undefined`. */
    method Get(path: seq<string>) returns (r: Result<Json>)
      requires Valid()
      ensures r == GetPath(data, path)
      ensures path == [] ==> r == Ok(data)
    {
      var current := data;
      var i := 0;
      while i < |path|
        invariant 0 <= i <= |path| && !current.Undefined?
        invariant GetPath(data, path) == GetPath(current, path[i..])
      {
        assert path[i..][0] == path[i] && path[i..][1..] == path[i + 1..];
        var m := Member(current, path[i]);
        if m.Err? {
          return Err(m.message);
        }
        if m.value.Undefined? {
          return Ok(Undefined);
        }
        current := m.value;
        i := i + 1;
      }
      return Ok(current);
    }
  }
}
