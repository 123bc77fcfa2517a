/** The unsigned shifts and masks by which the hash table divides by its number of buckets, a power of two. */
module Bits {
  function Pow2(k: nat): (p: nat)
    ensures p > 0
  {
    if k == 0 then 1 else 2 * Pow2(k - 1)
  }

  /** x & y, bit by bit. */
  function BitAnd(x: nat, y: nat): (r: nat)
    ensures r <= x && r <= y
  {
    if x == 0 || y == 0 then 0
    else 2 * BitAnd(x / 2, y / 2) + (if x % 2 == 1 && y % 2 == 1 then 1 else 0)
  }

  /** x >> k. */
  function ShiftRight(x: nat, k: nat): nat {
    if k == 0 then x else ShiftRight(x / 2, k - 1)
  }

  /** The bucket of a hash value: the low bits of the value. */
  function ToBucket(hashv: nat, numBuckets: nat): (b: nat)
    requires numBuckets > 0
    ensures b < numBuckets
  {
    BitAnd(hashv, numBuckets - 1)
  }

  lemma {:induction false} MaskIsMod(x: nat, k: nat)
    ensures BitAnd(x, Pow2(k) - 1) == x % Pow2(k)
  {
    if k == 0 {
    } else if x == 0 {
      ZeroMod(Pow2(k));
    } else {
      var p := Pow2(k - 1);
      MaskIsMod(x / 2, k - 1);
      MaskStep(x, p);
      HalfMod(x, p);
    }
  }

  lemma ZeroMod(p: nat)
    requires p > 0
    ensures 0 % p == 0
  {
  }

  lemma MaskStep(x: nat, p: nat)
    requires x > 0 && p > 0
    ensures BitAnd(x, 2 * p - 1) == 2 * BitAnd(x / 2, p - 1) + x % 2
  {
    assert (2 * p - 1) / 2 == p - 1 && (2 * p - 1) % 2 == 1;
  }

  lemma HalfMod(x: nat, p: nat)
    requires p > 0
    ensures x % (2 * p) == 2 * ((x / 2) % p) + x % 2
  {
    var h, q, r := x / 2, x / 2 / p, (x / 2) % p;
    assert x == 2 * (p * q + r) + x % 2;
    assert x == q * (2 * p) + (2 * r + x % 2);
    DivModUnique(x, 2 * p, q, 2 * r + x % 2);
  }

  lemma MultipleAtLeast(k: int, d: int)
    requires d > 0
    ensures k >= 1 ==> k * d >= d
    ensures k <= -1 ==> k * d <= -d
  {
    if k >= 1 {
      assert (k - 1) * d >= 0;
    } else if k <= -1 {
      assert (-1 - k) * d >= 0;
    }
  }

  lemma SmallMultiple(k: int, d: int)
    requires d > 0 && -d < k * d < d
    ensures k == 0
  {
    MultipleAtLeast(k, d);
  }

  lemma DivMod(x: nat, d: nat)
    requires d > 0
    ensures x == (x / d) * d + x % d
  {
  }

  lemma DivModUnique(x: nat, d: nat, q: nat, r: nat)
    requires d > 0 && x == q * d + r && r < d
    ensures x / d == q && x % d == r
  {
    var q', r' := x / d, x % d;
    DivMod(x, d);
    assert (q' - q) * d == q' * d - q * d == r - r';
    SmallMultiple(q' - q, d);
  }

  /** The bucket is the hash value modulo the number of buckets. */
  lemma BucketIsMod(hashv: nat, k: nat)
    ensures ToBucket(hashv, Pow2(k)) == hashv % Pow2(k)
  {
    MaskIsMod(hashv, k);
  }

  /** Doubling the buckets sends what was in bucket b to b or to b plus the old number. */
  lemma BucketSplits(hashv: nat, k: nat)
    ensures var b := ToBucket(hashv, Pow2(k));
            ToBucket(hashv, Pow2(k + 1)) == b || ToBucket(hashv, Pow2(k + 1)) == b + Pow2(k)
  {
    BucketIsMod(hashv, k);
    BucketIsMod(hashv, k + 1);
    ModSplits(hashv, Pow2(k));
  }

  lemma ModSplits(x: nat, p: nat)
    requires p > 0
    ensures x % (2 * p) == x % p || x % (2 * p) == x % p + p
  {
    var q, r := x / p, x % p;
    DivMod(x, p);
    var h := q / 2;
    if q % 2 == 0 {
      assert q * p == h * (2 * p) by { Twice(h, p); assert q == 2 * h; }
      DivModUnique(x, 2 * p, h, r);
    } else {
      assert q * p == h * (2 * p) + p by { Twice(h, p); assert q == 2 * h + 1; assert (2 * h + 1) * p == 2 * h * p + p; }
      DivModUnique(x, 2 * p, h, r + p);
    }
  }

  lemma Twice(h: nat, p: nat)
    ensures 2 * h * p == h * (2 * p)
  {
  }

  lemma HalfDiv(x: nat, p: nat)
    requires p > 0
    ensures x / (2 * p) == x / 2 / p
  {
    var q, r := x / 2 / p, (x / 2) % p;
    assert x == 2 * (p * q + r) + x % 2;
    assert x == q * (2 * p) + (2 * r + x % 2);
    DivModUnique(x, 2 * p, q, 2 * r + x % 2);
  }

  lemma {:induction false} ShiftIsDiv(x: nat, k: nat)
    ensures ShiftRight(x, k) == x / Pow2(k)
  {
    if k > 0 {
      ShiftIsDiv(x / 2, k - 1);
      HalfDiv(x, Pow2(k - 1));
    }
  }

  /** The shift-and-mask formula of HASH_EXPAND_BUCKETS. */
  function IdealChainLength(items: nat, numBuckets: nat, log2: nat): nat
    requires numBuckets > 0
  {
    ShiftRight(items, log2 + 1) + if BitAnd(items, numBuckets * 2 - 1) != 0 then 1 else 0
  }

  /** It is the number of items divided by the new number of buckets, rounded up. */
  lemma IdealIsCeiling(items: nat, k: nat)
    ensures var ideal, b := IdealChainLength(items, Pow2(k), k), Pow2(k + 1);
            items <= ideal * b && (ideal > 0 ==> (ideal - 1) * b < items)
  {
    ShiftIsDiv(items, k + 1);
    MaskIsMod(items, k + 1);
    Ceiling(items, Pow2(k + 1));
  }

  lemma Ceiling(n: nat, b: nat)
    requires b > 0
    ensures var c := n / b + if n % b != 0 then 1 else 0; n <= c * b && (c > 0 ==> (c - 1) * b < n)
  {
    DivMod(n, b);
    assert (n / b + 1) * b == (n / b) * b + b;
    assert n / b > 0 ==> (n / b - 1) * b == (n / b) * b - b;
  }
}
