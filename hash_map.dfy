/**
 * The hash map's constructor and its string hash (src/hash-map.js).
 *
 * A key is the sequence of its UTF-16 code units. The hash is the
 * polynomial rolling hash `h = (h * 31 + c) mod 1000000007`, folded from the
 * left starting at 0.
 */
module HashMaps {

  const MOD: int := 1000000007
  const PRIME: int := 31
  const INITIAL_CAPACITY: int := 16

  /** 2^53, the bound below which every JavaScript number integer is exact. */
  const EXACT_LIMIT: int := 0x20_0000_0000_0000

  /** What `charCodeAt` yields: one UTF-16 code unit. */
  type CodeUnit = c: int | 0 <= c < 0x1_0000

  /** One step of the hash, as the loop body writes it. */
  function Step(h: int, c: CodeUnit): (r: int)
    requires 0 <= h < MOD
    ensures 0 <= r < MOD
  {
    (h * PRIME + c) % MOD
  }

  /** The hash of `key`, defined by its last code unit. */
  function HashOf(key: seq<CodeUnit>): (h: int)
    ensures 0 <= h < MOD
  {
    if key == [] then 0 else Step(HashOf(key[..|key| - 1]), key[|key| - 1])
  }

  function Pow(b: int, n: nat): int {
    if n == 0 then 1 else b * Pow(b, n - 1)
  }

  /**
   * The textbook polynomial of a key, without reduction:
   * the sum of key[i] * 31^(|key| - 1 - i).
   */
  function Polynomial(key: seq<CodeUnit>): int {
    if key == [] then 0 else key[0] * Pow(PRIME, |key| - 1) + Polynomial(key[1..])
  }

  lemma HashOfEmpty()
    ensures HashOf([]) == 0
  {
  }

  /** Extending a key by one code unit takes one more step of the fold. */
  lemma HashAppend(s: seq<CodeUnit>, c: CodeUnit)
    ensures HashOf(s + [c]) == (HashOf(s) * PRIME + c) % MOD
  {
    assert (s + [c])[..|s|] == s;
  }

  /** Each step multiplies the polynomial by 31 and adds the new code unit. */
  lemma {:induction false} PolynomialAppend(s: seq<CodeUnit>, c: CodeUnit)
    ensures Polynomial(s + [c]) == Polynomial(s) * PRIME + c
  {
    if s == [] {
      assert Polynomial([c]) == c * Pow(PRIME, 0) + Polynomial([]);
    } else {
      assert (s + [c])[1..] == s[1..] + [c];
      PolynomialAppend(s[1..], c);
      var n := |s|;
      calc {
        Polynomial(s + [c]);
        s[0] * Pow(PRIME, n) + Polynomial(s[1..] + [c]);
        s[0] * Pow(PRIME, n) + Polynomial(s[1..]) * PRIME + c;
        { assert Pow(PRIME, n) == PRIME * Pow(PRIME, n - 1); }
        (s[0] * Pow(PRIME, n - 1) + Polynomial(s[1..])) * PRIME + c;
        Polynomial(s) * PRIME + c;
      }
    }
  }

  /** Reducing before the step gives the same residue as reducing after it. */
  lemma StepMod(a: int, c: CodeUnit)
    ensures (a % MOD * PRIME + c) % MOD == (a * PRIME + c) % MOD
  {
    var q, r := a / MOD, a % MOD;
    var x := r * PRIME + c;
    assert a * PRIME + c == x + (q * PRIME) * MOD;
    ModMultiple(x, q * PRIME);
  }

  /** Adding a multiple of the modulus does not change the residue. */
  lemma ModMultiple(x: int, m: int)
    ensures (x + m * MOD) % MOD == x % MOD
  {
    var y := x + m * MOD;
    assert y == (x / MOD + m) * MOD + x % MOD;
    assert 0 <= x % MOD < MOD;
  }

  /** The rolling hash is the polynomial of the key reduced modulo 1000000007. */
  lemma {:induction false} HashIsPolynomial(key: seq<CodeUnit>)
    ensures HashOf(key) == Polynomial(key) % MOD
  {
    if key != [] {
      var s, c := key[..|key| - 1], key[|key| - 1];
      assert key == s + [c];
      HashIsPolynomial(s);
      HashAppend(s, c);
      PolynomialAppend(s, c);
      StepMod(Polynomial(s), c);
    }
  }

  /**
   * Every intermediate `hashCode * 31 + c` of the loop stays below 2^53, so
   * JavaScript's floating-point arithmetic computes it exactly.
   */
  lemma StepIsExact(h: int, c: CodeUnit)
    requires 0 <= h < MOD
    ensures 0 <= h * PRIME + c < PRIME * MOD + 0x1_0000 <= EXACT_LIMIT
  {
  }

  class HashMap {
    var capacity: int

    /** A new map starts with 16 buckets' worth of capacity. */
    constructor ()
      ensures capacity == INITIAL_CAPACITY
    {
      capacity := INITIAL_CAPACITY;
    }

    /** The loop of the source: the left fold of `Step` over the code units. */
    method Hash(key: seq<CodeUnit>) returns (hashCode: int)
      ensures hashCode == HashOf(key)
      ensures 0 <= hashCode < MOD
    {
      hashCode := 0;
      for i := 0 to |key|
        invariant hashCode == HashOf(key[..i])
      {
        StepIsExact(hashCode, key[i]);
        assert key[..i + 1] == key[..i] + [key[i]];
        HashAppend(key[..i], key[i]);
        hashCode := (hashCode * PRIME + key[i]) % MOD;
      }
      assert key[..|key|] == key;
    }
  }
}
