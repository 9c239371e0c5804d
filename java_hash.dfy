/**
 * Java's String.hashCode, which the Java parser appends to every output file
 * name. Characters are taken as their code points (one UTF-16 unit each).
 */
module JavaHash {

  const Modulus: int := 0x1_0000_0000

  /** The Java int whose 32 bits are the low 32 bits of x (two's complement wrap-around). */
  function Wrap(x: int): (r: int)
    ensures -0x8000_0000 <= r < 0x8000_0000
    ensures (x - r) % Modulus == 0
  {
    var m := x % Modulus;
    if m < 0x8000_0000 then m else m - Modulus
  }

  /** String.hashCode as the JDK computes it: h = 31 * h + c in int arithmetic, one character at a time. */
  function HashCode(s: string): (h: int)
    ensures -0x8000_0000 <= h < 0x8000_0000
    decreases |s|
  {
    if s == [] then 0 else Wrap(31 * HashCode(s[..|s| - 1]) + s[|s| - 1] as int)
  }

  /** The documented value s[0]*31^(n-1) + ... + s[n-1] over unbounded integers, in Horner form. */
  function Polynomial(s: string): int
    decreases |s|
  {
    if s == [] then 0 else 31 * Polynomial(s[..|s| - 1]) + s[|s| - 1] as int
  }

  /** Numbers congruent modulo 2^32 wrap to the same int. */
  lemma WrapCongruent(x: int, y: int)
    requires (x - y) % Modulus == 0
    ensures Wrap(x) == Wrap(y)
  {
    assert x % Modulus == y % Modulus;
  }

  lemma MultipleOfModulus(k: int)
    ensures (k * Modulus) % Modulus == 0
  {
  }

  /**
   * Wrapping after every step gives the documented polynomial wrapped once:
   * the hash code is the polynomial's value in 32-bit arithmetic.
   */
  lemma {:induction false} HashCodeIsWrappedPolynomial(s: string)
    ensures HashCode(s) == Wrap(Polynomial(s))
    decreases |s|
  {
    if s != [] {
      var init, c := s[..|s| - 1], s[|s| - 1] as int;
      HashCodeIsWrappedPolynomial(init);
      var p := Polynomial(init);
      var q := (p - Wrap(p)) / Modulus;
      assert p - Wrap(p) == q * Modulus;
      assert (31 * p + c) - (31 * Wrap(p) + c) == (31 * q) * Modulus;
      MultipleOfModulus(31 * q);
      WrapCongruent(31 * p + c, 31 * Wrap(p) + c);
    }
  }
}
