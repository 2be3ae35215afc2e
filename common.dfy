/**
 * The property bag every builder mixes in: `get`/`has` read a property unless it is `undefined`,
 * `set` writes the properties whose value changes and reports their previous values, `unset`
 * drops properties; and `getField`, the two-level configuration lookup.
 */
module Common {
  import opened Results
  import opened JsonValues
  import opened Configuration

  /** `properties[key]`: the stored value, `undefined` for a key never set. */
  function Stored(p: map<string, Json>, key: string): Json {
    if key in p then p[key] else Undefined
  }

  /** The properties after `set` has run over `entries` in order: undefined values are skipped. */
  function Assigned(p: map<string, Json>, entries: seq<Prop>): map<string, Json>
    decreases |entries|
  {
    if entries == [] then p
    else
      var q, e := Assigned(p, entries[..|entries| - 1]), entries[|entries| - 1];
      if e.value.Undefined? then q else q[e.key := e.value]
  }

  /**
   * The `previous` object `set` builds over `entries`: each key whose new value differs from the
   * value it held when its turn came, mapped to that old value.
   */
  function Changes(p: map<string, Json>, entries: seq<Prop>): map<string, Json>
    decreases |entries|
  {
    if entries == [] then map[]
    else
      var init, e := entries[..|entries| - 1], entries[|entries| - 1];
      var q, c := Assigned(p, init), Changes(p, init);
      if e.value.Undefined? || e.value == Stored(q, e.key) then c else c[e.key := Stored(q, e.key)]
  }

  /** `set(key, undefined)` hands the key string itself to the loop, which visits its characters. */
  function CharEntries(s: string): (r: seq<Prop>)
    ensures |r| == |s|
    ensures forall i :: 0 <= i < |s| ==> r[i] == Prop(DecimalString(i), Str([s[i]]))
  {
    seq(|s|, i requires 0 <= i < |s| => Prop(DecimalString(i), Str([s[i]])))
  }

  /** `_.omit(properties, keys)`. */
  function Omit(p: map<string, Json>, keys: seq<string>): map<string, Json> {
    map k | k in p && k !in keys :: p[k]
  }

  /**
   * After `set`, every entry with a defined value reads back as that value, an entry whose value
   * is `undefined` leaves its key as it was, and keys not mentioned are untouched.
   */
  lemma {:induction false} SetReadsBack(p: map<string, Json>, entries: seq<Prop>)
    requires KeysDistinct(entries)
    ensures forall i :: 0 <= i < |entries| && !entries[i].value.Undefined? ==>
      Stored(Assigned(p, entries), entries[i].key) == entries[i].value
    ensures forall i :: 0 <= i < |entries| && entries[i].value.Undefined? ==>
      Stored(Assigned(p, entries), entries[i].key) == Stored(p, entries[i].key)
    ensures forall k :: !HasKey(entries, k) ==> Stored(Assigned(p, entries), k) == Stored(p, k)
    decreases |entries|
  {
    if entries != [] {
      var init, e := entries[..|entries| - 1], entries[|entries| - 1];
      assert forall i :: 0 <= i < |init| ==> init[i] == entries[i];
      SetReadsBack(p, init);
      forall k | HasKey(init, k) ensures HasKey(entries, k) {
        var i :| 0 <= i < |init| && init[i].key == k;
        assert entries[i].key == k;
      }
    }
  }

  /**
   * With distinct keys, `previous` holds exactly the keys given a defined value that differs from
   * the old one, each mapped to its old value (`undefined` when it had none).
   */
  lemma {:induction false} ChangesExact(p: map<string, Json>, entries: seq<Prop>)
    requires KeysDistinct(entries)
    ensures forall k :: k in Changes(p, entries) <==>
      exists i :: 0 <= i < |entries| && entries[i].key == k && !entries[i].value.Undefined? && entries[i].value != Stored(p, k)
    ensures forall k :: k in Changes(p, entries) ==> Changes(p, entries)[k] == Stored(p, k)
    decreases |entries|
  {
    if entries != [] {
      var init, e := entries[..|entries| - 1], entries[|entries| - 1];
      assert forall i :: 0 <= i < |init| ==> init[i] == entries[i];
      ChangesExact(p, init);
      SetReadsBack(p, init);
      assert !HasKey(init, e.key);
    }
  }

  /** Setting the same properties a second time changes nothing and reports no change. */
  lemma {:induction false} SetTwice(p: map<string, Json>, entries: seq<Prop>)
    requires KeysDistinct(entries)
    ensures Assigned(Assigned(p, entries), entries) == Assigned(p, entries)
    ensures Changes(Assigned(p, entries), entries) == map[]
  {
    var q := Assigned(p, entries);
    SetReadsBack(p, entries);
    ChangesExact(q, entries);
    AssignedKeeps(q, entries, |entries|);
    assert entries[..|entries|] == entries;
    assert Changes(q, entries).Keys == {};
  }

  /** Re-setting values a map already holds leaves it unchanged, prefix by prefix. */
  lemma {:induction false} AssignedKeeps(q: map<string, Json>, entries: seq<Prop>, n: nat)
    requires n <= |entries|
    requires forall i :: 0 <= i < |entries| && !entries[i].value.Undefined? ==> Stored(q, entries[i].key) == entries[i].value
    ensures Assigned(q, entries[..n]) == q
  {
    if n > 0 {
      assert entries[..n][..n - 1] == entries[..n - 1];
      AssignedKeeps(q, entries, n - 1);
      var e := entries[n - 1];
      if !e.value.Undefined? {
        assert Stored(q, e.key) == e.value;
        assert q[e.key := e.value] == q;
      }
    }
  }

  /** After `unset`, the dropped keys read as `undefined` and every other key is untouched. */
  lemma OmitReads(p: map<string, Json>, keys: seq<string>, k: string)
    ensures Stored(Omit(p, keys), k) == if k in keys then Undefined else Stored(p, k)
  {
  }

  /**
   * `getField(table, id)`: `config[table][id]` when both the table entry and the field are
   * truthy, else `null`; it agrees with walking the path `[table, id]` through the configuration
   * object, any falsy result reading as `null`.
   */
  function GetField(config: seq<Prop>, table: string, id: string): (r: Json)
    ensures r.Null? || Truthy(r)
    ensures r == match GetPath(Obj(config), [table, id])
      case Ok(v) => if Truthy(v) then v else Null
      case Err(_) => Null
  {
    var tbl := Lookup(config, table);
    assert Member(Obj(config), table) == Ok(tbl);
    assert [table, id][1..] == [id];
    if !Truthy(tbl) then
      FalsyMember(tbl, id);
      assert GetPath(Obj(config), [table, id]) == if tbl.Undefined? then Ok(Undefined) else GetPath(tbl, [id]);
      assert Member(tbl, id).Ok? ==> GetPath(Member(tbl, id).value, []) == Ok(Member(tbl, id).value);
      Null
    else
      var v := Member(tbl, id).value;
      assert GetPath(tbl, [id]) == if v.Undefined? then Ok(Undefined) else GetPath(v, []);
      if !Truthy(v) then Null else v
  }

  /** Reading any key of a falsy value other than `null` and `undefined` gives a falsy value. */
  lemma FalsyMember(v: Json, key: string)
    requires !Truthy(v)
    ensures match Member(v, key)
      case Ok(w) => !Truthy(w)
      case Err(_) => v.Null? || v.Undefined?
  {
    if v.Str? {
      assert v.s == [];
    }
  }

  /** A builder's property bag. */
  class PropertyBag {
    var properties: map<string, Json>

    constructor ()
      ensures properties == map[]
    {
      properties := map[];
    }

    /** `get(property, def)`: the stored value unless it is `undefined`, else the default. */
    function Get(property: string, def: Json): (r: Json)
      reads this
      ensures Stored(properties, property).Undefined? ==> r == def
      ensures !Stored(properties, property).Undefined? ==> r == properties[property]
    {
      var v := Stored(properties, property);
      if !v.Undefined? then v else def
    }

    /** `has(property)`: whether `get` without a default finds a value. */
    function Has(property: string): (r: bool)
      reads this
      ensures r <==> !Get(property, Undefined).Undefined?
      ensures r ==> forall d :: Get(property, d) == Get(property, Undefined)
    {
      property in properties && !properties[property].Undefined?
    }

    /**
     * `set(properties)`: writes each defined value that differs from the current one and returns
     * the `previous` object; `changed` says whether the change events fire.
     */
    method Set(entries: seq<Prop>) returns (previous: map<string, Json>, changed: bool)
      modifies this
      ensures properties == Assigned(old(properties), entries)
      ensures previous == Changes(old(properties), entries)
      ensures changed <==> previous != map[]
    {
      previous := map[];
      var i := 0;
      while i < |entries|
        invariant 0 <= i <= |entries|
        invariant properties == Assigned(old(properties), entries[..i])
        invariant previous == Changes(old(properties), entries[..i])
      {
        assert entries[..i + 1][..i] == entries[..i];
        var e := entries[i];
        if !e.value.Undefined? {
          var prev := Get(e.key, Undefined);
          if e.value != prev {
            previous := previous[e.key := prev];
            properties := properties[e.key := e.value];
          } else {
            assert properties[e.key := e.value] == properties;
          }
        }
        i := i + 1;
      }
      assert entries[..i] == entries;
      changed := previous != map[];
    }

    /**
     * `set(key, value)`: the same as `set({key: value})`; with `value` undefined, the loop runs
     * over the characters of `key` instead.
     */
    method SetProperty(key: string, value: Json) returns (previous: map<string, Json>, changed: bool)
      modifies this
      ensures var entries := if value.Undefined? then CharEntries(key) else [Prop(key, value)];
        && properties == Assigned(old(properties), entries)
        && previous == Changes(old(properties), entries)
      ensures changed <==> previous != map[]
    {
      if value.Undefined? {
        previous, changed := Set(CharEntries(key));
      } else {
        previous, changed := Set([Prop(key, value)]);
      }
    }

    /** `unset(keys)`: drops exactly the given keys. */
    method Unset(keys: seq<string>)
      modifies this
      ensures properties == Omit(old(properties), keys)
    {
      properties := Omit(properties, keys);
    }
  }
}
