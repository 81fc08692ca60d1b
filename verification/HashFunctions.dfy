/**
 The hash functions of `apr_hash.c` and the masking that picks a bucket.
 */
module HashFunctions {
  import opened Basics
  import opened Octets

  type Key = seq<Byte>

  const WORD := 0x1_0000_0000   // an unsigned int holds 32 bits

  function Pow33(n: nat): nat {
    if n == 0 then 1 else 33 * Pow33(n - 1)
  }

  /** The bytes of the key, each weighted with 33 to the power of how many follow it. */
  function Weighted(key: Key): nat {
    if key == [] then 0 else key[0] * Pow33(|key| - 1) + Weighted(key[1..])
  }

  /** What `hashfunc_default` computes with its 32-bit wrap-around: the weighted sum of seed and bytes. */
  function Times33(key: Key, seed: nat): (h: nat)
    ensures h < WORD
  {
    (seed * Pow33(|key|) + Weighted(key)) % WORD
  }

  /** Wrapping around at each step or at the end makes no difference. */
  lemma WrapEarly(x: nat, p: nat, w: nat)
    ensures (x % WORD * p + w) % WORD == (x * p + w) % WORD
  {
    var q, r := x / WORD, x % WORD;
    assert x * p == (q * WORD + r) * p == q * p * WORD + r * p;
    WholeWords(q * p, r * p + w);
  }

  lemma WholeWords(q: nat, r: nat)
    ensures (q * WORD + r) % WORD == r % WORD
  {
  }

  lemma Times33Step(key: Key, seed: nat)
    requires key != []
    ensures Times33(key, seed) == Times33(key[1..], (seed * 33 + key[0]) % WORD)
  {
    var p, x := Pow33(|key| - 1), seed * 33 + key[0];
    assert seed * (33 * p) + key[0] * p == x * p;
    WrapEarly(x, p, Weighted(key[1..]));
  }

  /** The loop of `hashfunc_default` over a key of known length. */
  method HashDefault(key: Key, seed: nat) returns (hash: nat)
    requires seed < WORD
    ensures hash == Times33(key, seed)
  {
    hide Times33;
    hash := seed;
    var p := 0;
    assert key[p..] == key;
    while p < |key|
      invariant 0 <= p <= |key| && hash < WORD
      invariant Times33(key[p..], hash) == Times33(key, seed)
    {
      Times33Step(key[p..], hash);
      assert key[p..][1..] == key[p + 1..];
      hash := (hash * 33 + key[p]) % WORD;
      p := p + 1;
    }
    Times33Nothing(hash);
    assert key[p..] == [];
  }

  lemma Times33Nothing(seed: nat)
    requires seed < WORD
    ensures Times33([], seed) == seed
  {
  }

  lemma {:induction false} WeightedMore(key: Key, b: Byte)
    ensures Weighted(key + [b]) == 33 * Weighted(key) + b
  {
    if key == [] {
      assert [b][1..] == [];
    } else {
      WeightedMore(key[1..], b);
      assert (key + [b])[1..] == key[1..] + [b];
      assert key[0] * Pow33(|key|) == 33 * (key[0] * Pow33(|key| - 1));
    }
  }

  /** Each further byte: the hash so far, 32 bits wide, times 33 plus the byte. */
  lemma HashLaw(key: Key, b: Byte, seed: nat)
    ensures Times33([], seed) == seed % 0x1_0000_0000
    ensures Times33(key + [b], seed) == (Times33(key, seed) * 33 + b) % 0x1_0000_0000
  {
    WeightedMore(key, b);
    var x := seed * Pow33(|key|) + Weighted(key);
    assert seed * Pow33(|key| + 1) == 33 * (seed * Pow33(|key|));
    WrapEarly(x, 33, b);
  }

  /** The bitwise `&` of two unsigned numbers. */
  function And(x: nat, y: nat): (a: nat)
    ensures a <= x && a <= y
  {
    if x == 0 || y == 0 then 0
    else 2 * And(x / 2, y / 2) + (if x % 2 == 1 && y % 2 == 1 then 1 else 0)
  }

  /** Masking with an odd mask keeps the last bit. */
  lemma AndOdd(x: nat, p: nat)
    requires p > 0
    ensures And(x, 2 * p - 1) == 2 * And(x / 2, p - 1) + x % 2
  {
    assert (2 * p - 1) / 2 == p - 1 && (2 * p - 1) % 2 == 1;
  }

  /** Masking with one less than a power of two gives the remainder of the division by it. */
  lemma {:induction false} MaskIsRemainder(x: nat, n: nat) returns (q: nat)
    ensures And(x, Pow2(n) - 1) < Pow2(n)
    ensures x == q * Pow2(n) + And(x, Pow2(n) - 1)
  {
    if n == 0 {
      q := x;
    } else {
      var p := Pow2(n - 1);
      q := MaskIsRemainder(x / 2, n - 1);
      AndOdd(x, p);
      Double(q, p);
    }
  }

  lemma Double(q: nat, p: nat)
    ensures 2 * (q * p) == q * (2 * p)
  {
  }
}
