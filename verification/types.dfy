/**
 Shared vocabulary of the overlay engine: optional values, overlay
 identifiers, hat states, the per-frame joystick snapshot, profile keys and
 the two pieces of Python arithmetic the resolvers rely on (abs and the
 truncating int() conversion).
 */
module Types {

  datatype Option<+T> = None | Some(value: T) {
    function GetOr(default: T): T {
      match this
      case Some(v) => v
      case None => default
    }
  }

  /** An overlay surface, identified by the asset it was loaded from. The
      engine never looks inside a surface; it only selects and orders them. */
  type Surface = string

  /** A POV-hat reading (x, y), each component normally in {-1, 0, 1}. */
  type Hat = (int, int)

  /** One frame of joystick state: button i is pressed iff buttons[i],
      hat h reads hats[h], axis a reads axes[a] (normally in [-1, 1]). */
  datatype Snapshot = Snapshot(buttons: seq<bool>, hats: seq<Hat>, axes: seq<real>)

  /** A dictionary key as it can appear in a loaded profile: an int, a
      string, or a tuple of ints. */
  datatype Key = IntKey(i: int) | StrKey(s: string) | TupleKey(items: seq<int>)

  function HatKey(h: Hat): Key {
    TupleKey([h.0, h.1])
  }

  function Abs(v: real): (r: real)
    ensures r >= 0.0
    ensures r == v || r == -v
  {
    if v < 0.0 then -v else v
  }

  /** Python's int() on a float: truncation toward zero. */
  function Trunc(v: real): (r: int)
    ensures v >= 0.0 ==> 0 <= r && r as real <= v < r as real + 1.0
    ensures v < 0.0 ==> r <= 0 && r as real - 1.0 < v <= r as real
  {
    if v >= 0.0 then v.Floor else -((-v).Floor)
  }

  predicate IsInteger(v: real) {
    v.Floor as real == v
  }

  lemma TruncOfInteger(v: real)
    requires IsInteger(v)
    ensures Trunc(v) as real == v
  {
    var n := v.Floor;
    if v < 0.0 {
      assert -v == (-n) as real;
      assert (-v).Floor == -n;
    }
  }

  /** Truncation never moves a value past an integer bound on either side. */
  lemma TruncBetween(v: real, lo: int, hi: int)
    requires lo as real <= v <= hi as real
    ensures lo <= Trunc(v) <= hi
  {
  }

  /** Four lists drawn one after another, and where each part sits in the
      result. */
  function Stack4<T>(b: seq<T>, d: seq<T>, c: seq<T>, h: seq<T>): (r: seq<T>)
    ensures r == b + d + c + h
    ensures |r| == |b| + |d| + |c| + |h|
    ensures r[..|b|] == b
    ensures r[|b|..|b| + |d|] == d
    ensures r[|b| + |d|..|b| + |d| + |c|] == c
    ensures r[|r| - |h|..] == h
    ensures c == [] ==> r == b + d + h
  {
    var r := b + d + c + h;
    var i, j, k := |b|, |b| + |d|, |b| + |d| + |c|;
    assert r[..i] == b && r[i..j] == d && r[j..k] == c && r[k..] == h by {
      forall n | 0 <= n < |b| ensures r[..i][n] == b[n] { }
      forall n | 0 <= n < |d| ensures r[i..j][n] == d[n] { }
      forall n | 0 <= n < |c| ensures r[j..k][n] == c[n] { }
      forall n | 0 <= n < |h| ensures r[k..][n] == h[n] { }
    }
    assert c == [] ==> b + d + c == b + d;
    r
  }

  predicate EndsWith(s: string, suffix: string) {
    |suffix| <= |s| && s[|s| - |suffix|..] == suffix
  }

  /** [s[k]] when k is a key of s, nothing otherwise. */
  function LookupIf<K, V>(cond: bool, s: map<K, V>, k: K): (r: seq<V>)
    ensures |r| <= 1
    ensures |r| == 1 <==> cond && k in s
    ensures |r| == 1 ==> r[0] == s[k]
  {
    if cond && k in s then [s[k]] else []
  }
}
