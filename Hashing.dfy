/** The bucket-index hash of the vehicle table: a base-31 polynomial rolling
    hash over the characters of a registration number, reduced modulo the
    bucket count after every step. */
module Hashing {

  /** The multiplier of the rolling hash. */
  const Base: nat := 31

  /** The hash `hash_function` computes: start from 0 and, for each character
      from left to right, multiply by 31, add the character's code point and
      reduce modulo `size`. Written on the last character so that it unfolds
      in the order the loop runs. */
  function Hash(key: string, size: nat): (r: nat)
    requires size > 0
    ensures r < size
  {
    if |key| == 0 then 0
    else (Hash(key[..|key| - 1], size) * Base + key[|key| - 1] as int) % size
  }

  /** The same polynomial without any reduction: the value of `key` read as a
      base-31 numeral whose digits are code points. */
  function Polynomial(key: string): (r: nat)
  {
    if |key| == 0 then 0
    else Polynomial(key[..|key| - 1]) * Base + key[|key| - 1] as int
  }

  /** Taking the remainder of `y` is determined by any decomposition of `y`
      into a multiple of `n` and a remainder in range. */
  lemma ModUnique(y: int, n: int, q: int, r: int)
    requires n > 0 && 0 <= r < n && y == q * n + r
    ensures y % n == r
  {
    var d := y / n - q;
    assert d * n == r - y % n;
  }

  /** Reducing before one step of the hash does not change the reduced
      result. */
  lemma ReduceBeforeStep(a: nat, c: int, n: nat)
    requires n > 0
    ensures ((a % n) * Base + c) % n == (a * Base + c) % n
  {
    var q, r := a / n, a % n;
    var t := (r * Base + c) % n;
    var u := (r * Base + c) / n;
    assert r * Base + c == u * n + t;
    assert a * Base + c == (q * Base + u) * n + t;
    ModUnique(a * Base + c, n, q * Base + u, t);
  }

  /** Reducing at every step gives the same index as reducing the whole
      polynomial once: the per-step `% size` only keeps the numbers small.
      Hence the index depends on nothing but the key and the bucket count. */
  lemma {:induction false} HashIsPolynomialMod(key: string, size: nat)
    requires size > 0
    ensures Hash(key, size) == Polynomial(key) % size
  {
    if |key| > 0 {
      var prefix := key[..|key| - 1];
      HashIsPolynomialMod(prefix, size);
      ReduceBeforeStep(Polynomial(prefix), key[|key| - 1] as int, size);
    }
  }

  /** Appending one character takes one more step from the hash of the
      prefix: the hash can be computed by a single left-to-right pass. */
  lemma HashAppend(key: string, c: char, size: nat)
    requires size > 0
    ensures Hash(key + [c], size) == (Hash(key, size) * Base + c as int) % size
  {
    assert (key + [c])[..|key|] == key;
  }

  /** A fixed regression vector: "AB12CD" lands in bucket 55 of a
      100-bucket table. */
  lemma HashVector()
    ensures Hash("AB12CD", 100) == 55
  {
    var s0, s1, s2, s3, s4, s5 := "", "A", "AB", "AB1", "AB12", "AB12C";
    HashAppend(s0, 'A', 100);
    assert s0 + ['A'] == s1 && Hash(s1, 100) == 65;
    HashAppend(s1, 'B', 100);
    assert s1 + ['B'] == s2 && Hash(s2, 100) == 81;
    HashAppend(s2, '1', 100);
    assert s2 + ['1'] == s3 && Hash(s3, 100) == 60;
    HashAppend(s3, '2', 100);
    assert s3 + ['2'] == s4 && Hash(s4, 100) == 10;
    HashAppend(s4, 'C', 100);
    assert s4 + ['C'] == s5 && Hash(s5, 100) == 77;
    HashAppend(s5, 'D', 100);
    assert s5 + ['D'] == "AB12CD";
  }
}
