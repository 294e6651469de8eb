/** Python runtime behaviour the engine relies on: list indexing with negative
    indices, slicing, round() on floats, int() truncation, str.upper(), and the
    exceptions that escape the engine's methods. */
module PyRuntime {

  datatype Option<+T> = None | Some(value: T)

  /** Exceptions the engine's code can raise. */
  datatype Fault =
    | IndexError        // list index out of range
    | ValueError        // min()/max() of an empty sequence
    | TypeError         // iterating None, an unexpected keyword argument
    | AttributeError    // attribute missing on an object (e.g. None)
    | CantControlObject // the controller's own validation error

  datatype Result<+T> = Ok(value: T) | Err(fault: Fault)

  /** Position that Python's `xs[i]` reaches in a list of length `n`:
      negative indices count from the back, anything else raises IndexError. */
  function ResolveIndex(i: int, n: nat): (r: Option<nat>)
    ensures r.Some? <==> 0 <= i + n && i < n
    ensures r.Some? ==> r.value == if i < 0 then i + n else i
    ensures 0 <= i < n ==> r == Some(i)
  {
    if 0 <= i < n then Some(i)
    else if 0 <= i + n && i < 0 then Some(i + n)
    else None
  }

  /** Python's `xs[:n]`. */
  function SliceTo<T>(xs: seq<T>, n: int): (r: seq<T>)
    ensures r <= xs
    ensures 0 <= n ==> |r| == if n < |xs| then n else |xs|
    ensures n < 0 ==> |r| == if |xs| + n < 0 then 0 else |xs| + n
  {
    if 0 <= n then (if n < |xs| then xs[..n] else xs)
    else if |xs| + n < 0 then []
    else xs[..|xs| + n]
  }

  predicate IsIntegral(x: real) {
    x.Floor as real == x
  }

  /** Python's `round(x)` for a float: nearest integer, ties to the even one. */
  function RoundHalfEven(x: real): (r: int)
    ensures -0.5 <= r as real - x <= 0.5
    ensures (r as real - x == 0.5 || x - r as real == 0.5) ==> r % 2 == 0
  {
    var f := x.Floor;
    var frac := x - f as real;
    if frac < 0.5 then f
    else if frac > 0.5 then f + 1
    else if f % 2 == 0 then f
    else f + 1
  }

  /** The two clauses of RoundHalfEven's contract pin the result down. */
  lemma RoundHalfEvenUnique(x: real, k: int)
    requires -0.5 <= k as real - x <= 0.5
    requires (k as real - x == 0.5 || x - k as real == 0.5) ==> k % 2 == 0
    ensures k == RoundHalfEven(x)
  {
  }

  /** Rounding leaves whole numbers alone. */
  lemma RoundIntegral(x: real)
    requires IsIntegral(x)
    ensures RoundHalfEven(x) as real == x
  {
    RoundHalfEvenUnique(x, x.Floor);
  }

  /** Python's `int(x)` for a float: truncation toward zero. */
  function Truncate(x: real): (r: int)
    ensures 0.0 <= x ==> 0 <= r && r as real <= x < r as real + 1.0
    ensures x < 0.0 ==> r <= 0 && r as real - 1.0 < x <= r as real
  {
    if 0.0 <= x then x.Floor else -((-x).Floor)
  }

  /** Python's `str.upper()` restricted to ASCII: lower-case letters become
      upper-case, every other character is kept. */
  function AsciiUpper(s: string): (r: string)
    ensures |r| == |s|
    ensures forall i :: 0 <= i < |s| && 'a' <= s[i] <= 'z' ==> r[i] as int == s[i] as int - 32
    ensures forall i :: 0 <= i < |s| && !('a' <= s[i] <= 'z') ==> r[i] == s[i]
  {
    if |s| == 0 then ""
    else
      var c := if 'a' <= s[0] <= 'z' then (s[0] as int - 32) as char else s[0];
      [c] + AsciiUpper(s[1..])
  }
}
