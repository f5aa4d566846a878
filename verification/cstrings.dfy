/** NUL-terminated character buffers and C integer division, as the engine's C code uses them. */
module CStrings {

  /** `strlen`: the index of the first NUL in `buf`, or `|buf|` when there is none. */
  function StrLen(buf: seq<char>): (n: nat)
    ensures n <= |buf|
    ensures forall i :: 0 <= i < n ==> buf[i] != '\0'
    ensures n < |buf| ==> buf[n] == '\0'
  {
    if buf == [] || buf[0] == '\0' then 0 else 1 + StrLen(buf[1..])
  }

  /** The two facts above determine `strlen` completely. */
  lemma StrLenIs(buf: seq<char>, n: nat)
    requires n <= |buf|
    requires forall i :: 0 <= i < n ==> buf[i] != '\0'
    requires n < |buf| ==> buf[n] == '\0'
    ensures StrLen(buf) == n
  {
  }

  /** `strlen` on a buffer that holds a NUL: walks up to the first one. */
  method CStrLen(buf: array<char>) returns (n: nat)
    requires StrLen(buf[..]) < buf.Length
    ensures n == StrLen(buf[..])
  {
    n := 0;
    while buf[n] != '\0'
      invariant n <= StrLen(buf[..])
      decreases StrLen(buf[..]) - n
    {
      n := n + 1;
    }
  }

  /** C's `/` on `int`: the quotient truncated toward zero (Dafny's `/` rounds toward negative infinity here). */
  function CDiv(a: int, b: int): (q: int)
    requires b > 0
    ensures 0 <= a ==> 0 <= q && q * b <= a < q * b + b
    ensures a < 0 ==> q <= 0 && q * b - b < a <= q * b
  {
    if a >= 0 then a / b else -((-a) / b)
  }

  /** C's `round`: the nearest integer, with halves rounded away from zero. */
  function Round(r: real): (n: int)
    ensures n as real - 0.5 <= r <= n as real + 0.5
    ensures 0.0 <= r ==> r < n as real + 0.5
    ensures r <= 0.0 ==> n as real - 0.5 < r
  {
    if r >= 0.0 then (r + 0.5).Floor else -((-r + 0.5).Floor)
  }

  /** A C conversion from `float` to `int`: truncation toward zero. */
  function Trunc(r: real): (n: int)
    ensures 0.0 <= r ==> n as real <= r < n as real + 1.0
    ensures r < 0.0 ==> n as real - 1.0 < r <= n as real
  {
    if r >= 0.0 then r.Floor else -((-r).Floor)
  }
}
