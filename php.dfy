/**
  The slice of PHP and Laravel value semantics that the wizard store relies on:
  decoded JSON values, `isset`, `is_numeric`, string truthiness, `explode('.', ...)`
  and the dotted-path helpers `Arr::get` / `Arr::set`.
 */
module Php {

  datatype Option<T> = None | Some(value: T)

  /** A decoded JSON value as `json_decode($text, true)` produces it.
      PHP `null` doubles as "absent": a missing key and a stored null read the same. */
  datatype Value =
    | Null
    | Bool(b: bool)
    | Int(i: int)
    | Str(s: string)
    | Arr(fields: map<string, Value>)

  /** `isset($m[$k])`: the key is present and its value is not null. */
  predicate Isset(m: map<string, Value>, k: string)
  {
    k in m && m[k] != Null
  }

  /** Truthiness of a string in a PHP condition: "" and "0" are false. */
  predicate TruthyString(s: string)
  {
    s != "" && s != "0"
  }

  predicate IsDigit(c: char)
  {
    '0' <= c <= '9'
  }

  predicate AllDigits(s: string)
  {
    forall i :: 0 <= i < |s| ==> IsDigit(s[i])
  }

  /** `is_numeric($v)` for the integers and integer strings the store meets. */
  function IsNumeric(v: Value): (r: bool)
    ensures v.Int? ==> r
    ensures r ==> v.Int? || (v.Str? && |v.s| > 0 && IsDigit(v.s[|v.s| - 1]))
    ensures v.Str? && |v.s| > 0 && AllDigits(v.s) ==> r
  {
    match v
    case Int(_) => true
    case Str(s) =>
      if |s| > 0 && (s[0] == '-' || s[0] == '+') then |s| > 1 && AllDigits(s[1..])
      else |s| > 0 && AllDigits(s)
    case _ => false
  }

  /** Joins the pieces with '.', the inverse of `explode('.', ...)`. */
  function Implode(parts: seq<string>): string
    requires |parts| >= 1
  {
    if |parts| == 1 then parts[0] else parts[0] + "." + Implode(parts[1..])
  }

  /** `explode('.', $s)`: the pieces between the dots, in order; never empty. */
  function Explode(s: string): (parts: seq<string>)
    ensures |parts| >= 1
    ensures forall i :: 0 <= i < |parts| ==> '.' !in parts[i]
    ensures Implode(parts) == s
    ensures '.' !in s ==> parts == [s]
  {
    if |s| == 0 then [""]
    else
      var rest := Explode(s[1..]);
      assert s == [s[0]] + s[1..];
      if s[0] == '.' then
        [""] + rest
      else
        var parts := [[s[0]] + rest[0]] + rest[1..];
        assert parts[1..] == rest[1..];
        parts
  }

  /** `explode` peels off a dot-free first segment. */
  lemma {:induction false} ExplodeFirstSegment(a: string, b: string)
    requires '.' !in a
    ensures Explode(a + "." + b) == [a] + Explode(b)
  {
    var s := a + "." + b;
    if |a| == 0 {
      assert s[1..] == b;
    } else {
      assert s[1..] == a[1..] + "." + b;
      ExplodeFirstSegment(a[1..], b);
      assert [a[0]] + a[1..] == a;
    }
  }

  /** The descent loop of `Arr::get`: follow the segments through nested arrays,
      falling back to null as soon as a segment is missing or the value is not an array. */
  function Walk(v: Value, path: seq<string>): Value
  {
    if |path| == 0 then v
    else
      match v
      case Arr(f) => if path[0] in f then Walk(f[path[0]], path[1..]) else Null
      case _ => Null
  }

  /** `Arr::get($v, $key)`: a literal key wins, otherwise the dotted path is followed. */
  function ArrGet(v: Value, key: string): (r: Value)
    ensures !v.Arr? ==> r == Null
    ensures v.Arr? && '.' !in key ==> r == (if key in v.fields then v.fields[key] else Null)
    ensures v.Arr? && key !in v.fields ==> r == Walk(v, Explode(key))
  {
    match v
    case Arr(f) => if key in f then f[key] else Walk(v, Explode(key))
    case _ => Null
  }

  /** The write loop of `Arr::set` on an array: every intermediate segment that is not
      set to an array is replaced by an empty array, the last segment gets the value. */
  function SetIn(f: map<string, Value>, path: seq<string>, x: Value): (r: map<string, Value>)
    requires |path| >= 1
    ensures r.Keys == f.Keys + {path[0]}
    ensures forall k :: k in f && k != path[0] ==> r[k] == f[k]
    decreases |path|
  {
    if |path| == 1 then f[path[0] := x]
    else
      var child := if path[0] in f && f[path[0]].Arr? then f[path[0]].fields else map[];
      f[path[0] := Arr(SetIn(child, path[1..], x))]
  }

  /** `Arr::set($v, $key, $x)` on a by-reference variable. Null and false turn into an
      array; an array is updated; any other scalar raises an Error (None). */
  function ArrSet(v: Value, key: string, x: Value): (r: Option<map<string, Value>>)
    ensures r.Some? <==> v.Arr? || v == Null || v == Bool(false)
    ensures r.Some? ==> Walk(Arr(r.value), Explode(key)) == x
  {
    match v
    case Arr(f) =>
      WalkSetIn(f, Explode(key), x);
      Some(SetIn(f, Explode(key), x))
    case Null =>
      WalkSetIn(map[], Explode(key), x);
      Some(SetIn(map[], Explode(key), x))
    case Bool(false) =>
      WalkSetIn(map[], Explode(key), x);
      Some(SetIn(map[], Explode(key), x))
    case _ => None
  }

  /** Following the path just written gives back the value written. */
  lemma {:induction false} WalkSetIn(f: map<string, Value>, path: seq<string>, x: Value)
    requires |path| >= 1
    ensures Walk(Arr(SetIn(f, path, x)), path) == x
    decreases |path|
  {
    if |path| > 1 {
      var child := if path[0] in f && f[path[0]].Arr? then f[path[0]].fields else map[];
      WalkSetIn(child, path[1..], x);
    }
  }

  /** Two paths diverge when they differ at some position both of them have. */
  predicate Diverge(p: seq<string>, q: seq<string>)
  {
    exists i :: 0 <= i < |p| && i < |q| && p[i] != q[i]
  }

  /** Writing one path leaves every diverging path reading what it read before. */
  lemma {:induction false} WalkSetInOther(f: map<string, Value>, path: seq<string>, x: Value, q: seq<string>)
    requires |path| >= 1
    requires Diverge(path, q)
    ensures Walk(Arr(SetIn(f, path, x)), q) == Walk(Arr(f), q)
    decreases |path|
  {
    if path[0] != q[0] {
    } else {
      var i :| 0 <= i < |path| && i < |q| && path[i] != q[i];
      assert i >= 1;
      assert path[1..][i - 1] != q[1..][i - 1];
      var child := if path[0] in f && f[path[0]].Arr? then f[path[0]].fields else map[];
      WalkSetInOther(child, path[1..], x, q[1..]);
    }
  }

  /** `Arr::get` reads back what the write loop of `Arr::set` wrote, unless the key
      contains a dot and the array already had that dotted string as a literal key. */
  lemma ArrGetAfterSetIn(f: map<string, Value>, key: string, x: Value)
    requires '.' in key ==> key !in f
    ensures ArrGet(Arr(SetIn(f, Explode(key), x)), key) == x
  {
    var parts := Explode(key);
    WalkSetIn(f, parts, x);
    if '.' in key {
      assert key != parts[0];
    } else {
      assert parts == [key];
    }
  }

  /** `Arr::get` of a key whose path diverges from the one written reads what it read before. */
  lemma ArrGetAfterSetInOther(f: map<string, Value>, key: string, x: Value, other: string)
    requires Diverge(Explode(key), Explode(other))
    ensures ArrGet(Arr(SetIn(f, Explode(key), x)), other) == ArrGet(Arr(f), other)
  {
    var parts := Explode(key);
    assert other != parts[0];
    WalkSetInOther(f, parts, x, Explode(other));
  }

  /** Writing a top-level key that is neither the key read nor its first segment does not
      change what `Arr::get` reads. */
  lemma ArrGetAfterOtherUpdate(f: map<string, Value>, k: string, v: Value, key: string)
    requires k != key && k != Explode(key)[0]
    ensures ArrGet(Arr(f[k := v]), key) == ArrGet(Arr(f), key)
  {
  }

  /** `Arr::get` reads back what `Arr::set` wrote, with the same proviso on literal keys. */
  lemma ArrGetAfterArrSet(v: Value, key: string, x: Value)
    requires ArrSet(v, key, x).Some?
    requires v.Arr? && '.' in key ==> key !in v.fields
    ensures ArrGet(Arr(ArrSet(v, key, x).value), key) == x
  {
    var base := if v.Arr? then v.fields else map[];
    ArrGetAfterSetIn(base, key, x);
  }
}
