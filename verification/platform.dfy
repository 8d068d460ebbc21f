/** Java and Android value types the wizard is built on: the 32-bit `int`,
    nullable references, and `android.os.Bundle`, the string-keyed bag that
    every step writes its answer into and reads it back from.

    The getters follow Android's documented `Bundle` behaviour: a missing key,
    a key mapped to `null`, or a key holding a value of another type all yield
    the getter's default. */
module Platform {

  const IntMin: int := -0x8000_0000
  const IntMax: int := 0x7fff_ffff

  /** A Java `int`. */
  type Int32 = x: int | IntMin <= x <= IntMax

  /** The two's-complement wrap-around of Java `int` arithmetic. */
  function Wrap32(x: int): (r: Int32)
    ensures IntMin <= x <= IntMax ==> r == x
    ensures (x - r) % 0x1_0000_0000 == 0
  {
    (x - IntMin) % 0x1_0000_0000 + IntMin
  }

  /** `String.length()`: the number of UTF-16 code units, a character
      outside the Basic Multilingual Plane taking a surrogate pair. */
  function Utf16Length(s: string): (n: nat)
    ensures n == |s| + Supplementary(s)
    ensures |s| <= n <= 2 * |s|
    ensures (forall i :: 0 <= i < |s| ==> s[i] as int < 0x1_0000) <==> n == |s|
  {
    if s == [] then 0
    else
      SupplementaryAppend(s[..|s| - 1], [s[|s| - 1]]);
      assert s[..|s| - 1] + [s[|s| - 1]] == s;
      (if s[|s| - 1] as int < 0x1_0000 then 1 else 2) + Utf16Length(s[..|s| - 1])
  }

  /** How many characters of `s` lie outside the Basic Multilingual Plane,
      counted from the front. */
  function Supplementary(s: string): (k: nat)
    ensures k <= |s|
    ensures k == 0 <==> forall i :: 0 <= i < |s| ==> s[i] as int < 0x1_0000
  {
    if s == [] then 0
    else (if s[0] as int < 0x1_0000 then 0 else 1) + Supplementary(s[1..])
  }

  lemma {:induction false} SupplementaryAppend(a: string, b: string)
    ensures Supplementary(a + b) == Supplementary(a) + Supplementary(b)
  {
    if a == [] {
      assert a + b == b;
    } else {
      assert (a + b)[1..] == a[1..] + b;
      SupplementaryAppend(a[1..], b);
    }
  }

  /** Concatenation adds lengths: `(a + b).length() == a.length() + b.length()`. */
  lemma Utf16LengthAppend(a: string, b: string)
    ensures Utf16Length(a + b) == Utf16Length(a) + Utf16Length(b)
  {
    SupplementaryAppend(a, b);
  }

  /** A Java reference that may be `null`. */
  datatype Option<+T> = None | Some(value: T)

  /** Either a value or the exception the Java code would throw. */
  datatype Result<+T, +E> = Ok(value: T) | Err(error: E)

  /** A value stored in a `Bundle`; `NullV` is a key explicitly mapped to `null`. */
  datatype Value =
    | BoolV(b: bool)
    | IntV(i: Int32)
    | StringV(s: string)
    | BundleV(bundle: map<string, Value>)
    | NullV

  type Bundle = map<string, Value>

  /** `getInt(key, defaultValue)` */
  function GetInt(b: Bundle, key: string, default: Int32): Int32 {
    if key in b && b[key].IntV? then b[key].i else default
  }

  /** `getBoolean(key, defaultValue)` */
  function GetBoolean(b: Bundle, key: string, default: bool): bool {
    if key in b && b[key].BoolV? then b[key].b else default
  }

  /** `getString(key)`: `null` unless a string is stored. */
  function GetString(b: Bundle, key: string): Option<string> {
    if key in b && b[key].StringV? then Some(b[key].s) else None
  }

  /** `getBundle(key)`: `null` unless a nested bundle is stored. */
  function GetBundle(b: Bundle, key: string): Option<Bundle> {
    if key in b && b[key].BundleV? then Some(b[key].bundle) else None
  }

  /** A possibly-null outer bundle holds a nested bundle under `key`. */
  predicate HasNested(data: Option<Bundle>, key: string) {
    data.Some? && key in data.value && data.value[key].BundleV?
  }

  function Nested(data: Option<Bundle>, key: string): Bundle
    requires HasNested(data, key)
  {
    data.value[key].bundle
  }

  /** The read-back pattern shared by the steps' static accessors: an int
      field of the nested bundle under `key`, or `sentinel` when the outer
      bundle is null, the key is absent, the nested bundle is null, or the
      field is missing or holds no int. */
  function NestedInt(data: Option<Bundle>, key: string, field: string, sentinel: Int32): (r: Int32)
    ensures !HasNested(data, key) ==> r == sentinel
    ensures HasNested(data, key) && !(field in Nested(data, key) && Nested(data, key)[field].IntV?)
            ==> r == sentinel
    ensures HasNested(data, key) && field in Nested(data, key) && Nested(data, key)[field].IntV?
            ==> r == Nested(data, key)[field].i
  {
    if data.Some? && key in data.value then
      match GetBundle(data.value, key)
      case Some(nested) => GetInt(nested, field, sentinel)
      case None => sentinel
    else
      sentinel
  }

  /** `a` and `b` hold the same entries except possibly under `keys`. */
  ghost predicate AgreeExcept(a: Bundle, b: Bundle, keys: set<string>) {
    forall k :: k !in keys ==> (k in a <==> k in b) && (k in a ==> a[k] == b[k])
  }

  /** Putting `key` into a bundle and changing nothing else adds exactly
      that key. */
  lemma KeysAfterPut(a: Bundle, b: Bundle, key: string)
    requires AgreeExcept(a, b, {key})
    requires key in b
    ensures b.Keys == a.Keys + {key}
  {
    forall k | k in b.Keys
      ensures k in a.Keys + {key}
    {
      if k != key {
        assert k in a;
      }
    }
  }
}
