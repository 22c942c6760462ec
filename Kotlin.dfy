/** The parts of Kotlin's standard library that the trading core relies on:
    32-bit `Int` arithmetic, `String.uppercase()` and `String.take(n)`. */
module Kotlin {

  /** The range of Kotlin's `Int`, a 32-bit two's-complement integer. */
  predicate InIntRange(x: int) {
    -0x8000_0000 <= x < 0x8000_0000
  }

  /** A value of Kotlin type `Int`. */
  type Int32 = x: int | InIntRange(x)

  const INT_MODULUS: int := 0x1_0000_0000

  /** The `Int` that an `Int` operation yields when its exact result is `x`:
      Kotlin arithmetic on `Int` wraps around silently. */
  function Wrap(x: int): (r: Int32)
    ensures InIntRange(x) ==> r == x
    ensures (x - r) % INT_MODULUS == 0
  {
    (x + 0x8000_0000) % INT_MODULUS - 0x8000_0000
  }

  /** Euclidean remainder is determined by any decomposition `y == q * 2^32 + r`. */
  lemma ModulusUnique(y: int, q: int, r: int)
    requires y == q * INT_MODULUS + r && 0 <= r < INT_MODULUS
    ensures y % INT_MODULUS == r
  {
  }

  /** Adding a multiple of 2^32 to an exact result does not change the wrapped `Int`. */
  lemma WrapShift(x: int, k: int)
    ensures Wrap(x + k * INT_MODULUS) == Wrap(x)
  {
    var y := x + 0x8000_0000;
    ModulusUnique(y + k * INT_MODULUS, y / INT_MODULUS + k, y % INT_MODULUS);
  }

  /** `Int` addition of two wrapped values gives the wrapped exact sum, which is why a
      running `Int` sum equals the wrapped exact sum. */
  lemma WrapSum(a: int, b: int)
    ensures Wrap(Wrap(a) + Wrap(b)) == Wrap(a + b)
  {
    var qa := (a + 0x8000_0000) / INT_MODULUS;
    var qb := (b + 0x8000_0000) / INT_MODULUS;
    assert Wrap(a) + Wrap(b) == (a + b) + (-(qa + qb)) * INT_MODULUS;
    WrapShift(a + b, -(qa + qb));
  }

  /** `Char.uppercaseChar()` on the ASCII letters; every other character is kept. */
  function UpperChar(c: char): char {
    if 'a' <= c <= 'z' then (c as int - 32) as char else c
  }

  /** The lower-case ASCII letter for an upper-case one; every other character is kept. */
  function LowerChar(c: char): char {
    if 'A' <= c <= 'Z' then (c as int + 32) as char else c
  }

  /** `String.uppercase()`: the same string, letter by letter in upper case. */
  function Uppercase(s: string): (r: string)
    ensures |r| == |s|
    ensures forall i :: 0 <= i < |s| ==> r[i] == UpperChar(s[i])
  {
    if s == [] then [] else [UpperChar(s[0])] + Uppercase(s[1..])
  }

  /** A word made only of the upper-case ASCII letters, such as "MARKET" or "LIMIT". */
  predicate IsUpperWord(w: string) {
    forall i :: 0 <= i < |w| ==> 'A' <= w[i] <= 'Z'
  }

  /** An upper-case letter is what `uppercaseChar` makes of itself and of its lower-case form only. */
  lemma UpperCharMatches(c: char, u: char)
    requires 'A' <= u <= 'Z'
    ensures UpperChar(c) == u <==> c == u || c == LowerChar(u)
  {
  }

  /** Comparing `s.uppercase()` with an upper-case word is a case-insensitive match:
      `s` has the word's length and each character is that letter in either case. */
  lemma UppercaseMatchesIgnoringCase(s: string, w: string)
    requires IsUpperWord(w)
    ensures Uppercase(s) == w <==>
      |s| == |w| && forall i :: 0 <= i < |s| ==> s[i] == w[i] || s[i] == LowerChar(w[i])
  {
    var u := Uppercase(s);
    if |s| == |w| {
      forall i | 0 <= i < |s|
        ensures u[i] == w[i] <==> s[i] == w[i] || s[i] == LowerChar(w[i])
      {
        UpperCharMatches(s[i], w[i]);
      }
      assert u == w <==> forall i :: 0 <= i < |s| ==> u[i] == w[i];
    }
  }

  /** `String.take(n)`: the first `n` characters, or the whole string when it is shorter. */
  function Take(s: string, n: nat): (r: string)
    ensures |r| == if |s| < n then |s| else n
    ensures r == s[..|r|]
  {
    if |s| < n then s else s[..n]
  }
}
