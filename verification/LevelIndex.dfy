/** The two buckets of a key, in terms of the hash values alone. */
module LevelIndex {
  import opened Words
  import opened LevelSpec

  /** Slot p lies in one of the key's two buckets: the first hash picks a bucket of the lower half of the level,
      the second hash one of the upper half. */
  predicate Home<K, V>(c: Config<K, V>, l: Level<K, V>, p: int, key: K) {
    var m := |l| / 8;
    && m >= 1 && 0 <= p < 8 * m
    && p / 4 == if p / 4 < m then c.hash(key, c.fSeed) % m else m + c.hash(key, c.sSeed) % m
  }

  lemma HomeExactly<K, V>(c: Config<K, V>, l: Level<K, V>, capacity: nat, p: nat, key: K)
    requires capacity >= 2 && |l| == 4 * capacity && p < |l|
    ensures Home(c, l, p, key) <==> p / 4 == F(c, key, capacity) || p / 4 == S(c, key, capacity)
  {
    var m := capacity / 2;
    assert |l| / 8 == m;
    ModBounds(c.hash(key, c.fSeed), m);
    ModBounds(c.hash(key, c.sSeed), m);
  }

  lemma ModBounds(x: nat, m: nat)
    requires m >= 1
    ensures 0 <= x % m < m
  {
  }

  /** Two keys share their first bucket if and only if their first hash values are congruent modulo half the
      capacity; the same for the second bucket and the second hash. */
  lemma SharedBuckets<K, V>(c: Config<K, V>, k1: K, k2: K, capacity: nat)
    requires capacity >= 2
    ensures F(c, k1, capacity) == F(c, k2, capacity) <==>
              (c.hash(k1, c.fSeed) - c.hash(k2, c.fSeed)) % (capacity / 2) == 0
    ensures S(c, k1, capacity) == S(c, k2, capacity) <==>
              (c.hash(k1, c.sSeed) - c.hash(k2, c.sSeed)) % (capacity / 2) == 0
  {
    Congruent(c.hash(k1, c.fSeed), c.hash(k2, c.fSeed), capacity / 2);
    Congruent(c.hash(k1, c.sSeed), c.hash(k2, c.sSeed), capacity / 2);
  }

  lemma Congruent(x: nat, y: nat, m: nat)
    requires m >= 1
    ensures x % m == y % m <==> (x - y) % m == 0
  {
    var q, r := (x - y) / m, (x - y) % m;
    assert x - y == q * m + r;
    if x % m == y % m {
      var d := x / m - y / m;
      assert x - y == d * m + 0;
      DivideUnique(x - y, m, d, 0);
    }
    if r == 0 {
      assert x == (q + y / m) * m + y % m;
      DivideUnique(x, m, q + y / m, y % m);
    }
  }

  /** Every pair of buckets, one of each half, is some key's pair under some hash. */
  lemma EveryPair<K, V>(capacity: nat, f: nat, s: nat, key: K, value: V)
    requires capacity >= 2 && f < capacity / 2 <= s < capacity / 2 * 2
    ensures exists c: Config<K, V> :: c.fSeed != c.sSeed && F(c, key, capacity) == f && S(c, key, capacity) == s
  {
    var c: Config<K, V> := Config((k: K, seed: nat) => if seed == 0 then f else s, 0, 1, key, value);
    assert f % (capacity / 2) == f;
    DivideUnique(s, capacity / 2, 1, s - capacity / 2);
    assert c.fSeed != c.sSeed && F(c, key, capacity) == f && S(c, key, capacity) == s;
  }

  /** At twice the capacity a key's first bucket is its old one or that plus half the old capacity; its second
      bucket moves up by half the old capacity, or by all of it. */
  lemma ResizedBuckets<K, V>(c: Config<K, V>, key: K, capacity: nat)
    requires capacity >= 2 && capacity % 2 == 0
    ensures F(c, key, 2 * capacity) - F(c, key, capacity) in {0, capacity / 2}
    ensures S(c, key, 2 * capacity) - S(c, key, capacity) in {capacity / 2, capacity}
  {
    DoubleModulus(c.hash(key, c.fSeed), capacity / 2);
    DoubleModulus(c.hash(key, c.sSeed), capacity / 2);
  }

  lemma DoubleModulus(x: nat, m: nat)
    requires m >= 1
    ensures x % (2 * m) == x % m || x % (2 * m) == x % m + m
  {
    var h, r := x / m / 2, x % m;
    var odd := x / m % 2;
    assert x / m == 2 * h + odd && x == (x / m) * m + r;
    Regroup(h, odd, m);
    DivideUnique(x, 2 * m, h, odd * m + r);
  }

  lemma Regroup(h: nat, odd: nat, m: nat)
    ensures (2 * h + odd) * m == h * (2 * m) + odd * m
  {
  }
}
