/** Unsigned fixed-width integers as the AVR C++ compiler sees them: `uint64_t`
    arithmetic wraps modulo 2^64, and the 16-bit timer registers hold `uint16_t`. */
module Uint64 {

  const Modulus: int := 0x1_0000_0000_0000_0000

  type u64 = x: int | 0 <= x < Modulus
  type u16 = x: int | 0 <= x < 0x1_0000

  /** `a + b` on `uint64_t`: exact unless the sum passes 2^64, then it wraps once. */
  function Add(a: u64, b: u64): (r: u64)
    ensures a + b < Modulus ==> r == a + b
    ensures a + b >= Modulus ==> r == a + b - Modulus
  {
    (a + b) % Modulus
  }

  /** `a - b` on `uint64_t`: exact when `b <= a`, otherwise it wraps to a huge value. */
  function Sub(a: u64, b: u64): (r: u64)
    ensures b <= a ==> r == a - b
    ensures a < b ==> r == a - b + Modulus
  {
    (a - b) % Modulus
  }

  /** Adding a multiple of the modulus does not change the residue. */
  lemma ModShift(x: int, q: int)
    ensures (x + q * Modulus) % Modulus == x % Modulus
  {
    var r := x % Modulus;
    assert x == (x / Modulus) * Modulus + r;
    assert x + q * Modulus == (x / Modulus + q) * Modulus + r;
  }

  /** Reducing the left operand first gives the same residue. */
  lemma ModAddLeft(a: int, b: int)
    ensures (a % Modulus + b) % Modulus == (a + b) % Modulus
  {
    var q := a / Modulus;
    assert a == a % Modulus + q * Modulus;
    ModShift(a % Modulus + b, q);
  }

  /** Two wrapping additions are one wrapping addition of the exact sum. */
  lemma AddAdd(a: u64, b: u64, c: u64)
    ensures Add(Add(a, b), c) == (a + b + c) % Modulus
  {
    ModAddLeft(a + b, c);
  }

  /** Subtraction undoes addition, whether or not the addition wrapped. */
  lemma SubAddRoundTrip(a: u64, b: u64)
    ensures Sub(Add(a, b), b) == a
  {
  }

  /** Addition undoes subtraction, whether or not the subtraction wrapped. */
  lemma AddSubRoundTrip(a: u64, b: u64)
    ensures Add(Sub(a, b), b) == a
  {
  }
}
