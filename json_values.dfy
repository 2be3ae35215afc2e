/**
 * JavaScript values as the configuration store and the property bag hold them: `undefined`,
 * `null`, booleans, numbers (integers here), strings, arrays and plain objects whose properties
 * keep their insertion order. Also the decimal spelling of array indexes and identifiers.
 */
module JsonValues {
  import opened Results

  datatype Json =
    | Undefined
    | Null
    | Bool(b: bool)
    | Num(n: int)
    | Str(s: string)
    | Arr(items: seq<Json>)
    | Obj(props: seq<Prop>)

  /** One own property of a plain object. */
  datatype Prop = Prop(key: string, value: Json)

  /** `_.isObject`: arrays and plain objects, not `null` and not primitives. */
  predicate IsObject(v: Json) {
    v.Arr? || v.Obj?
  }

  /** JavaScript truthiness: `undefined`, `null`, `false`, `0` and `""` are falsy. */
  predicate Truthy(v: Json) {
    match v
    case Undefined => false
    case Null => false
    case Bool(b) => b
    case Num(n) => n != 0
    case Str(s) => |s| > 0
    case Arr(_) => true
    case Obj(_) => true
  }

  /** An object has each key at most once. */
  predicate KeysDistinct(props: seq<Prop>) {
    forall i, j :: 0 <= i < j < |props| ==> props[i].key != props[j].key
  }

  predicate HasKey(props: seq<Prop>, key: string) {
    exists i :: 0 <= i < |props| && props[i].key == key
  }

  /** `obj[key]` on a plain object: the property's value, `undefined` when it has none. */
  function Lookup(props: seq<Prop>, key: string): (v: Json)
    ensures !HasKey(props, key) ==> v == Undefined
    ensures forall i :: 0 <= i < |props| && props[i].key == key && KeysDistinct(props) ==> v == props[i].value
  {
    if props == [] then Undefined
    else if props[|props| - 1].key == key then props[|props| - 1].value
    else Lookup(props[..|props| - 1], key)
  }

  /**
   * `obj[key] = v`: an existing property keeps its place and takes the new value, a new one is
   * added after all others.
   */
  function Put(props: seq<Prop>, key: string, v: Json): (r: seq<Prop>)
    ensures HasKey(r, key)
    ensures forall k :: HasKey(r, k) <==> HasKey(props, k) || k == key
    ensures KeysDistinct(props) ==> KeysDistinct(r)
    ensures KeysDistinct(props) ==> Lookup(r, key) == v
    ensures forall k :: k != key ==> Lookup(r, k) == Lookup(props, k)
  {
    if !HasKey(props, key) then
      LookupSnoc(props, Prop(key, v));
      props + [Prop(key, v)]
    else
      var init, last := props[..|props| - 1], props[|props| - 1];
      assert props == init + [last];
      LookupSnoc(init, last);
      if last.key == key then
        LookupSnoc(init, Prop(key, v));
        init + [Prop(key, v)]
      else
        var m := Put(init, key, v);
        PutPastLast(init, m, last, key, v);
        m + [last]
  }

  /**
   * The step of `Put` past a last property with another key: `m` is `init` with the key put, and
   * appending `last` to both keeps every promise of `Put`.
   */
  lemma PutPastLast(init: seq<Prop>, m: seq<Prop>, last: Prop, key: string, v: Json)
    requires last.key != key && HasKey(m, key)
    requires forall k :: HasKey(m, k) <==> HasKey(init, k) || k == key
    requires KeysDistinct(init) ==> KeysDistinct(m) && Lookup(m, key) == v
    requires forall k :: k != key ==> Lookup(m, k) == Lookup(init, k)
    ensures HasKey(m + [last], key)
    ensures forall k :: HasKey(m + [last], k) <==> HasKey(init + [last], k) || k == key
    ensures KeysDistinct(init + [last]) ==> KeysDistinct(m + [last]) && Lookup(m + [last], key) == v
    ensures forall k :: k != key ==> Lookup(m + [last], k) == Lookup(init + [last], k)
  {
    LookupSnoc(m, last);
    LookupSnoc(init, last);
    if KeysDistinct(init + [last]) {
      KeysDistinctSnoc(init, last);
      KeysDistinctSnoc(m, last);
    }
  }

  /** An object extended by one property has distinct keys when the new key is new. */
  lemma KeysDistinctSnoc(props: seq<Prop>, p: Prop)
    ensures KeysDistinct(props + [p]) <==> KeysDistinct(props) && !HasKey(props, p.key)
  {
    var q := props + [p];
    assert forall i :: 0 <= i < |props| ==> q[i] == props[i];
    assert q[|props|] == p;
  }

  /** The last property with the key is the one `obj[key]` reads. */
  lemma {:induction false} LookupAt(props: seq<Prop>, i: int, key: string)
    requires 0 <= i < |props| && props[i].key == key
    requires forall j :: i < j < |props| ==> props[j].key != key
    ensures Lookup(props, key) == props[i].value
  {
    if i < |props| - 1 {
      var front := props[..|props| - 1];
      forall j | i < j < |front| ensures front[j].key != key {
        assert front[j] == props[j];
      }
      LookupAt(front, i, key);
    }
  }

  /** Looking a key up in an object extended by one property. */
  lemma LookupSnoc(props: seq<Prop>, p: Prop)
    ensures forall k :: Lookup(props + [p], k) == if p.key == k then p.value else Lookup(props, k)
    ensures forall k :: HasKey(props + [p], k) <==> HasKey(props, k) || p.key == k
  {
    var q := props + [p];
    assert q[..|props|] == props && q[|props|] == p;
    forall k ensures Lookup(q, k) == if p.key == k then p.value else Lookup(props, k) {
      assert q != [] && q[|q| - 1] == p;
    }
    forall k ensures HasKey(q, k) <==> HasKey(props, k) || p.key == k {
      if HasKey(props, k) {
        var i :| 0 <= i < |props| && props[i].key == k;
        assert q[i] == props[i];
      }
      if HasKey(q, k) && p.key != k {
        var i :| 0 <= i < |q| && q[i].key == k;
        assert i < |props| && q[i] == props[i];
      }
    }
  }

  // ---------------------------------------------------------------------------------------------
  // Decimal spellings

  function DigitChar(d: nat): char
    requires d < 10
  {
    "0123456789"[d]
  }

  predicate IsDigit(c: char) {
    '0' <= c <= '9'
  }

  predicate AllDigits(s: string) {
    forall i :: 0 <= i < |s| ==> IsDigit(s[i])
  }

  /** The value of a string of decimal digits, leading zeros allowed. */
  function DigitsValue(s: string): nat
    requires AllDigits(s)
  {
    if s == [] then 0 else 10 * DigitsValue(s[..|s| - 1]) + ((s[|s| - 1] as int) - ('0' as int))
  }

  /** The canonical decimal spelling of `n`: no leading zero, `"0"` for zero. */
  function DecimalString(n: nat): (s: string)
    ensures |s| >= 1 && AllDigits(s)
    ensures |s| > 1 ==> s[0] != '0'
  {
    if n < 10 then [DigitChar(n)] else DecimalString(n / 10) + [DigitChar(n % 10)]
  }

  /** Reading the canonical spelling of `n` gives `n` back. */
  lemma {:induction false} DecimalRoundTrip(n: nat)
    ensures DigitsValue(DecimalString(n)) == n
  {
    var s := DecimalString(n);
    if n >= 10 {
      DecimalRoundTrip(n / 10);
      assert s[..|s| - 1] == DecimalString(n / 10);
    }
  }

  /** The canonical spelling of a digit string's value is the string itself, leading zeros aside. */
  lemma {:induction false} DecimalCanonical(s: string)
    requires |s| >= 1 && AllDigits(s) && (|s| > 1 ==> s[0] != '0')
    ensures DecimalString(DigitsValue(s)) == s
  {
    var init, d := s[..|s| - 1], (s[|s| - 1] as int) - ('0' as int);
    if |s| == 1 {
      assert DigitsValue(s) == d;
    } else {
      assert init[0] == s[0];
      DecimalCanonical(init);
      DigitsPositive(init);
      assert DigitsValue(s) / 10 == DigitsValue(init) && DigitsValue(s) % 10 == d;
    }
  }

  /** A digit string that does not start with `0` has a positive value. */
  lemma {:induction false} DigitsPositive(s: string)
    requires |s| >= 1 && AllDigits(s) && s[0] != '0'
    ensures DigitsValue(s) > 0
  {
    if |s| > 1 {
      assert s[..|s| - 1][0] == s[0];
      DigitsPositive(s[..|s| - 1]);
    }
  }

  /** `key` names the array index `j`: it is the canonical spelling of `j`. */
  predicate IsIndexKey(key: string, j: nat) {
    key == DecimalString(j)
  }

  /** The index an array-index key names, when it is one. */
  function IndexOfKey(key: string): (r: Option<nat>)
    ensures forall j: nat :: IsIndexKey(key, j) <==> r == Some(j)
  {
    if |key| >= 1 && AllDigits(key) && (|key| > 1 ==> key[0] != '0') then
      DecimalCanonical(key);
      forall j: nat | IsIndexKey(key, j) ensures DigitsValue(key) == j {
        DecimalRoundTrip(j);
      }
      Some(DigitsValue(key))
    else
      None
  }

  /**
   * Property access `v[key]` on a value that is not `undefined`: `null` throws a TypeError, an
   * object gives its property, an array or a string its element or its `length`, and the other
   * primitives give `undefined`.
   */
  function Member(v: Json, key: string): (r: Result<Json>)
    ensures r.Err? <==> v.Null? || v.Undefined?
    ensures v.Obj? ==> r == Ok(Lookup(v.props, key))
    ensures v.Arr? ==> forall j: nat :: j < |v.items| && IsIndexKey(key, j) ==> r == Ok(v.items[j])
  {
    match v
    case Undefined => Err("Cannot read property '" + key + "' of undefined")
    case Null => Err("Cannot read property '" + key + "' of null")
    case Obj(props) => Ok(Lookup(props, key))
    case Arr(items) =>
      if key == "length" then Ok(Num(|items|))
      else
        var j := IndexOfKey(key);
        if j.Some? && j.value < |items| then Ok(items[j.value]) else Ok(Undefined)
    case Str(s) =>
      if key == "length" then Ok(Num(|s|))
      else
        var j := IndexOfKey(key);
        if j.Some? && j.value < |s| then Ok(Str([s[j.value]])) else Ok(Undefined)
    case _ => Ok(Undefined)
  }

  /**
   * What a raw query resolves to on MySQL: the pair `[rows, fields]`, each row an object. The
   * field descriptions play no part here and are left empty.
   */
  function RawReply(rows: seq<Json>): (r: Json)
    ensures Member(r, "0") == Ok(Arr(rows))
  {
    assert IsIndexKey("0", 0);
    Arr([Arr(rows), Arr([])])
  }
}
