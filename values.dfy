/** The value tree the parser builds (the Python objects `dict`, `list`, `str`,
    `int`, `float`, `True`/`False` and `None` that src/parser.py returns). */
module Values {
  import opened Exceptions

  /** A Python `str` is a sequence of code points; `\uD800` decodes to a lone
      surrogate, which is not a Dafny `char`, so decoded strings are code points. */
  type CodePoint = c: int | 0 <= c < 0x11_0000

  type JString = seq<CodePoint>

  /** Fractional and exponent numbers are kept as their lexeme; `float()` is not
      modelled. An object is the list of its entries in insertion order. */
  datatype Value =
    | Null
    | Bool(b: bool)
    | Int(i: int)
    | Frac(lexeme: string)
    | Str(s: JString)
    | Arr(items: seq<Value>)
    | Obj(members: seq<(JString, Value)>)

  /** The code points of a string of text. */
  function Codes(s: string): (r: JString)
    ensures |r| == |s|
    ensures forall i :: 0 <= i < |s| ==> r[i] == s[i] as int
  {
    seq(|s|, i requires 0 <= i < |s| => s[i] as int)
  }

  /** Python dicts have no repeated key. */
  predicate DistinctKeys(ms: seq<(JString, Value)>)
  {
    forall i, j :: 0 <= i < j < |ms| ==> ms[i].0 != ms[j].0
  }

  /** `key in d` / `d[key]` */
  function Lookup(ms: seq<(JString, Value)>, key: JString): (r: Option<Value>)
    ensures r.None? <==> forall i :: 0 <= i < |ms| ==> ms[i].0 != key
    ensures r.Some? ==> exists i :: 0 <= i < |ms| && ms[i] == (key, r.value)
  {
    if ms == [] then None
    else if ms[0].0 == key then Some(ms[0].1)
    else Lookup(ms[1..], key)
  }

  /** `d[key] = value`: an existing key keeps its place and takes the new value,
      a new key is appended. */
  function Put(ms: seq<(JString, Value)>, key: JString, value: Value): (r: seq<(JString, Value)>)
    ensures Lookup(r, key) == Some(value)
    ensures forall k :: k != key ==> Lookup(r, k) == Lookup(ms, k)
    ensures Lookup(ms, key).None? ==> r == ms + [(key, value)]
    ensures |r| == |ms| || |r| == |ms| + 1
    ensures forall i :: 0 <= i < |r| ==> r[i] == (key, value) || r[i] in ms
  {
    if ms == [] then [(key, value)]
    else if ms[0].0 == key then [(key, value)] + ms[1..]
    else
      var t := Put(ms[1..], key, value);
      assert forall i :: 1 <= i < |[ms[0]] + t| ==> ([ms[0]] + t)[i] == t[i - 1];
      [ms[0]] + t
  }

  /** Assignment keeps the keys of a dict distinct. */
  lemma {:induction false} PutDistinct(ms: seq<(JString, Value)>, key: JString, value: Value)
    requires DistinctKeys(ms)
    ensures DistinctKeys(Put(ms, key, value))
  {
    if ms != [] && ms[0].0 != key {
      PutDistinct(ms[1..], key, value);
    }
  }

  /** Number of nested objects and arrays on the deepest path of `v`. */
  function Depth(v: Value): nat
  {
    match v
    case Arr(items) => 1 + Max(seq(|items|, i requires 0 <= i < |items| => Depth(items[i])))
    case Obj(ms) => 1 + Max(seq(|ms|, i requires 0 <= i < |ms| => Depth(ms[i].1)))
    case _ => 0
  }

  function Max(s: seq<nat>): (r: nat)
    ensures forall i :: 0 <= i < |s| ==> s[i] <= r
    ensures s == [] ==> r == 0
    ensures s != [] ==> exists i :: 0 <= i < |s| && s[i] == r
  {
    if s == [] then 0
    else var m := Max(s[1..]); if s[0] >= m then s[0] else m
  }

  /** Every object and array of `v`, entered at nesting level `depth` (the
      level of `v` itself) and below, is entered at a level under `maxDepth`:
      the condition the parser's depth guard checks on each entry. */
  predicate Fits(v: Value, depth: int, maxDepth: int)
  {
    match v
    case Arr(items) => depth < maxDepth && forall i :: 0 <= i < |items| ==> Fits(items[i], depth + 1, maxDepth)
    case Obj(ms) => depth < maxDepth && forall i :: 0 <= i < |ms| ==> Fits(ms[i].1, depth + 1, maxDepth)
    case _ => true
  }

  /** Every object in `v` has distinct keys, as a Python dict does. */
  predicate DictsOnly(v: Value)
  {
    match v
    case Arr(items) => forall i :: 0 <= i < |items| ==> DictsOnly(items[i])
    case Obj(ms) => DistinctKeys(ms) && forall i :: 0 <= i < |ms| ==> DictsOnly(ms[i].1)
    case _ => true
  }

  /** The depth guard in terms of the nesting depth: a value fits at level
      `depth` exactly when it has no container or its deepest path ends at or
      below `maxDepth`. */
  lemma {:induction false} FitsIffDepth(v: Value, depth: int, maxDepth: int)
    ensures Fits(v, depth, maxDepth) <==> Depth(v) == 0 || depth + Depth(v) <= maxDepth
  {
    match v
    case Arr(items) =>
      var ds := seq(|items|, i requires 0 <= i < |items| => Depth(items[i]));
      assert Depth(v) == 1 + Max(ds);
      forall i | 0 <= i < |items| {
        FitsIffDepth(items[i], depth + 1, maxDepth);
      }
      if items != [] {
        var k :| 0 <= k < |ds| && ds[k] == Max(ds);
        if Fits(v, depth, maxDepth) {
          assert Fits(items[k], depth + 1, maxDepth);
        }
        if depth + Depth(v) <= maxDepth {
          forall i | 0 <= i < |items| ensures Fits(items[i], depth + 1, maxDepth) {
            assert ds[i] <= Max(ds);
          }
        }
      }
    case Obj(ms) =>
      var ds := seq(|ms|, i requires 0 <= i < |ms| => Depth(ms[i].1));
      assert Depth(v) == 1 + Max(ds);
      forall i | 0 <= i < |ms| {
        FitsIffDepth(ms[i].1, depth + 1, maxDepth);
      }
      if ms != [] {
        var k :| 0 <= k < |ds| && ds[k] == Max(ds);
        if Fits(v, depth, maxDepth) {
          assert Fits(ms[k].1, depth + 1, maxDepth);
        }
        if depth + Depth(v) <= maxDepth {
          forall i | 0 <= i < |ms| ensures Fits(ms[i].1, depth + 1, maxDepth) {
            assert ds[i] <= Max(ds);
          }
        }
      }
    case _ =>
  }
}
