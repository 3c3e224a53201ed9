/** Small shared vocabulary: optional values and the integer arithmetic of
    the JavaScript and PHP sources (truncating remainder, powers of two,
    clamping, rounding of exact reals). */
module Common {

  /** An optional value; stands for JavaScript's null/undefined and
      PHP's unset. */
  datatype Option<+T> = None | Some(value: T) {
    function GetOr(default: T): T {
      match this
      case Some(v) => v
      case None => default
    }
  }

  function Min(a: int, b: int): int { if a <= b then a else b }
  function Max(a: int, b: int): int { if a >= b then a else b }

  /** Math.max(lo, Math.min(hi, v)) */
  function Clamp(v: int, lo: int, hi: int): (r: int)
    requires lo <= hi
    ensures lo <= r <= hi
    ensures lo <= v <= hi ==> r == v
    ensures v < lo ==> r == lo
    ensures v > hi ==> r == hi
  {
    Max(lo, Min(hi, v))
  }

  function Abs(a: int): nat { if a < 0 then -a else a }

  function Pow2(k: nat): (r: nat)
    ensures r >= 1
  {
    if k == 0 then 1 else 2 * Pow2(k - 1)
  }

  lemma {:induction false} Pow2Monotone(a: nat, b: nat)
    requires a <= b
    ensures Pow2(a) <= Pow2(b)
    decreases b
  {
    if a < b {
      Pow2Monotone(a, b - 1);
    }
  }

  /** The JavaScript quotient Math.trunc(a / b) for a positive divisor. */
  function JsQuot(a: int, b: int): int
    requires b > 0
  {
    if a >= 0 then a / b else -((-a) / b)
  }

  /** The JavaScript remainder `a % b` for a positive divisor: the sign of
      the result follows the dividend (truncating division), unlike
      Dafny's Euclidean `%`. */
  function JsRem(a: int, b: int): (r: int)
    requires b > 0
    ensures a >= 0 ==> 0 <= r < b
    ensures a < 0 ==> -b < r <= 0
    ensures a == JsQuot(a, b) * b + r
  {
    if a >= 0 then a % b else -((-a) % b)
  }

  lemma {:induction false} MulAwayFromZero(d: int, b: int)
    requires b > 0
    ensures d >= 1 ==> d * b >= b
    ensures d <= -1 ==> d * b <= -b
    decreases if d < 0 then -d else d
  {
    if d > 1 {
      MulAwayFromZero(d - 1, b);
      assert d * b == (d - 1) * b + b;
    } else if d < -1 {
      MulAwayFromZero(d + 1, b);
      assert d * b == (d + 1) * b - b;
    }
  }

  /** Dafny's `%` is the unique remainder in [0, b). */
  lemma ModUnique(x: int, q: int, m: int, b: int)
    requires b > 0 && 0 <= m < b && x == q * b + m
    ensures x % b == m
  {
    var d := q - x / b;
    assert d * b == x % b - m;
    MulAwayFromZero(d, b);
  }

  lemma ModAddMultiple(x: int, k: int, b: int)
    requires b > 0
    ensures (x + k * b) % b == x % b
  {
    ModUnique(x + k * b, x / b + k, x % b, b);
  }

  /** Math.floor(a / b) for a positive divisor is Dafny's `/`: the unique
      q with q * b <= a < (q + 1) * b. */
  lemma FloorDiv(a: int, b: int, c: int)
    requires b > 0
    ensures c <= a / b <==> c * b <= a
  {
    var q := a / b;
    assert a == q * b + a % b;
    MulAwayFromZero(c - q, b);
    assert (c - q) * b == c * b - q * b;
  }

  /** Math.ceil(a / b) for a positive divisor. */
  function CeilDiv(a: int, b: int): (q: int)
    requires b > 0
    ensures (q - 1) * b < a <= q * b
  {
    var f := (-a) / b;
    FloorDiv(-a, b, f);
    FloorDiv(-a, b, f + 1);
    -f
  }

  /** Math.round on an exact real: round half up. */
  function Round(x: real): int
  {
    (x + 0.5).Floor
  }

  lemma RoundOfInt(n: int)
    ensures Round(n as real) == n
  {
  }

  /** Strictly ascending: the order in which JavaScript enumerates the
      integer keys of an object. */
  predicate Ascending(s: seq<int>)
  {
    forall i, j :: 0 <= i < j < |s| ==> s[i] < s[j]
  }

  lemma MinExists(s: set<int>)
    requires s != {}
    ensures exists m :: m in s && forall x | x in s :: m <= x
    decreases |s|
  {
    var y := PickOne(s);
    if s != {y} {
      MinExists(s - {y});
      var m :| m in s - {y} && forall x | x in s - {y} :: m <= x;
      var least := if y < m then y else m;
      forall x | x in s
        ensures least <= x
      {
        if x != y {
          assert x in s - {y};
        }
      }
    } else {
      forall x | x in s
        ensures y <= x
      {
        assert x in {y};
      }
    }
  }

  lemma PickOne(s: set<int>) returns (y: int)
    requires s != {}
    ensures y in s
  {
    if forall z :: z !in s {
      assert false;
    }
    y :| y in s;
  }

  /** The least element of a finite non-empty set of integers. */
  function SetMin(s: set<int>): (m: int)
    requires s != {}
    ensures m in s
    ensures forall x | x in s :: m <= x
  {
    MinExists(s);
    var m :| m in s && forall x | x in s :: m <= x;
    m
  }

  /** The keys of an object with integer keys, in enumeration order. */
  function SortedKeys(s: set<int>): (r: seq<int>)
    ensures Ascending(r)
    ensures forall x :: x in r <==> x in s
    ensures |r| == |s|
    decreases |s|
  {
    if s == {} then []
    else
      var m := SetMin(s);
      var rest := SortedKeys(s - {m});
      assert forall i | 0 <= i < |rest| :: m < rest[i] by {
        forall i | 0 <= i < |rest| ensures m < rest[i] {
          assert rest[i] in s - {m};
        }
      }
      [m] + rest
  }

  lemma AscendingCons(k: int, s: seq<int>)
    requires Ascending(s)
    requires forall x | x in s :: k < x
    ensures Ascending([k] + s)
  {
    var t := [k] + s;
    forall i, j | 0 <= i < j < |t| ensures t[i] < t[j] {
      if i > 0 {
        assert t[i] == s[i - 1] && t[j] == s[j - 1];
      } else {
        assert t[j] == s[j - 1] && t[j] in s;
      }
    }
  }

  /** The images under f of the values at the listed keys that satisfy p,
      in list order: what a for-in loop pushing each selected entry builds. */
  function Collect<V, R(!new)>(m: map<int, V>, keys: seq<int>, p: V -> bool, f: V -> R): (r: seq<R>)
    requires forall i | 0 <= i < |keys| :: keys[i] in m
    ensures forall e :: e in r <==> exists i | 0 <= i < |keys| :: p(m[keys[i]]) && e == f(m[keys[i]])
    ensures |r| == 0 <==> forall i | 0 <= i < |keys| :: !p(m[keys[i]])
    ensures |r| <= |keys|
    decreases |keys|
  {
    if keys == [] then []
    else
      var rest := Collect(m, keys[1..], p, f);
      assert forall i | 1 <= i < |keys| :: keys[i] == keys[1..][i - 1];
      assert forall j | 0 <= j < |keys| - 1 :: keys[1..][j] == keys[j + 1];
      if p(m[keys[0]]) then [f(m[keys[0]])] + rest else rest
  }

  /** A property fails at every listed key exactly when it fails at every
      key of the map, when the list holds exactly the map's keys. */
  lemma NoneAtKeys<V>(m: map<int, V>, keys: seq<int>, p: V -> bool)
    requires forall i | 0 <= i < |keys| :: keys[i] in m
    requires forall k | k in m :: k in keys
    ensures (forall i | 0 <= i < |keys| :: !p(m[keys[i]])) <==> forall k | k in m :: !p(m[k])
  {
    if forall i | 0 <= i < |keys| :: !p(m[keys[i]]) {
      forall k | k in m ensures !p(m[k]) {
        assert k in keys;
        var i :| 0 <= i < |keys| && keys[i] == k;
      }
    } else {
      var i :| 0 <= i < |keys| && p(m[keys[i]]);
      var k := keys[i];
      assert k in m && p(m[k]);
    }
  }

  lemma CollectAllMembers<V, R(!new)>(m: map<int, V>, p: V -> bool, f: V -> R, e: R)
    ensures e in Collect(m, SortedKeys(m.Keys), p, f) <==> exists k | k in m :: p(m[k]) && e == f(m[k])
  {
    var keys := SortedKeys(m.Keys);
    if e in Collect(m, keys, p, f) {
      var i :| 0 <= i < |keys| && p(m[keys[i]]) && e == f(m[keys[i]]);
      assert keys[i] in m;
    }
    if exists k | k in m :: p(m[k]) && e == f(m[k]) {
      var k :| k in m && p(m[k]) && e == f(m[k]);
      assert k in keys;
      var i :| 0 <= i < |keys| && keys[i] == k;
    }
  }

  /** Collecting over all keys of a map, in ascending order: an element is
      collected exactly when some selected value maps to it, and nothing is
      collected exactly when no value is selected. */
  lemma CollectAll<V, R(!new)>(m: map<int, V>, p: V -> bool, f: V -> R, e: R)
    ensures e in Collect(m, SortedKeys(m.Keys), p, f) <==> exists k | k in m :: p(m[k]) && e == f(m[k])
    ensures |Collect(m, SortedKeys(m.Keys), p, f)| == 0 <==> forall k | k in m :: !p(m[k])
  {
    NoneAtKeys(m, SortedKeys(m.Keys), p);
    CollectAllMembers(m, p, f, e);
  }
}
