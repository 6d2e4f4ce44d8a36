/** The few Python built-in behaviours the simulation scripts rely on:
    `int()` on a number, list subscripts with negative indices, slicing
    with clamped bounds, and `reversed`. */
module PyBuiltins {

  datatype Option<T> = None | Some(value: T)

  /** A value, or the IndexError a bad subscript raises. */
  datatype Result<T> = Ok(value: T) | IndexError

  function Min(a: int, b: int): int { if a <= b then a else b }

  function Max(a: int, b: int): int { if a <= b then b else a }

  /** Python's `int(x)` on a number: truncation toward zero. */
  function TruncToInt(x: real): (r: int)
    ensures 0.0 <= x ==> r as real <= x < r as real + 1.0
    ensures x < 0.0 ==> r as real - 1.0 < x <= r as real
  {
    if x >= 0.0 then x.Floor else -((-x).Floor)
  }

  /** The position a Python subscript `s[k]` reads in a list of length n:
      a negative k counts from the end, anything else out of range is an
      IndexError (None). */
  function ResolveIndex(n: nat, k: int): (r: Option<nat>)
    ensures r.Some? <==> -(n as int) <= k < n
    ensures r.Some? ==> r.value < n && r.value as int == (if k < 0 then n + k else k)
  {
    if 0 <= k < n then Some(k)
    else if -(n as int) <= k < 0 then Some(n + k)
    else None
  }

  /** Python's `s[lo:hi]` for non-negative bounds: both bounds are clamped
      to the length, and an inverted range is empty. */
  function Slice<T>(s: seq<T>, lo: nat, hi: nat): (r: seq<T>)
    ensures |r| == Max(0, Min(hi, |s|) - Min(lo, |s|))
    ensures forall k :: 0 <= k < |r| ==> r[k] == s[lo + k]
  {
    var a := Min(lo, |s|);
    var b := Min(hi, |s|);
    if a <= b then s[a..b] else []
  }

  /** Python's `list(reversed(s))`. */
  function Reversed<T>(s: seq<T>): (r: seq<T>)
    ensures |r| == |s|
    ensures forall k :: 0 <= k < |s| ==> r[k] == s[|s| - 1 - k]
  {
    if s == [] then [] else Reversed(s[1..]) + [s[0]]
  }
}
