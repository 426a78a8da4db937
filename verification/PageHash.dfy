/** The page cache's hash and its size: `& (n - 1)` for a power of two n keeps the low bits
    of an odd multiple of the page number, so consecutive pages never collide. */
module PageHash {
  import opened Bytes

  const BLKSIZE := 4096

  const MULTIPLIER := 2654435761

  function Pow2(b: nat): (p: nat)
    ensures p >= 1
  {
    if b == 0 then 1 else 2 * Pow2(b - 1)
  }

  lemma {:induction false} Pow2Add(a: nat, b: nat)
    ensures Pow2(a + b) == Pow2(a) * Pow2(b)
  {
    if b > 0 {
      Pow2Add(a, b - 1);
    }
  }

  lemma {:induction false} Pow2Values()
    ensures Pow2(12) == BLKSIZE && Pow2(20) == 0x10_0000 && Pow2(30) == 0x4000_0000 && Pow2(31) == TWO31
  {
    assert Pow2(10) == 1024 && Pow2(2) == 4 && Pow2(1) == 2;
    Pow2Add(10, 2);
    Pow2Add(10, 10);
    Pow2Add(20, 10);
    Pow2Add(30, 1);
  }

  /** x & (2^b - 1) */
  function Low(x: nat, b: nat): (r: nat)
    ensures r < Pow2(b)
  {
    if b == 0 then 0 else x % 2 + 2 * Low(x / 2, b - 1)
  }

  /** nfs_pagecache_hash of a cache with 2^b entries; the offset is cut to 32 bits. */
  function Hash(offset: nat, b: nat): (r: nat)
    ensures r < Pow2(b)
  {
    Low(MULTIPLIER * (1 + offset % TWO32 / BLKSIZE), b)
  }

  /** 2^b divides d. */
  predicate Divides(b: nat, d: int) {
    b == 0 || (d % 2 == 0 && Divides(b - 1, d / 2))
  }

  lemma {:induction false} LowEqual(x: nat, y: nat, b: nat)
    ensures Low(x, b) == Low(y, b) <==> Divides(b, x - y)
  {
    if b > 0 {
      LowEqual(x / 2, y / 2, b - 1);
      if x % 2 == y % 2 {
        assert (x - y) / 2 == x / 2 - y / 2;
      }
    }
  }

  /** An odd factor does not help divisibility by powers of two. */
  lemma {:induction false} OddFactor(b: nat, d: int)
    ensures Divides(b, MULTIPLIER * d) ==> Divides(b, d)
  {
    if b > 0 && Divides(b, MULTIPLIER * d) {
      assert d % 2 == 0;
      assert MULTIPLIER * d / 2 == MULTIPLIER * (d / 2);
      OddFactor(b - 1, d / 2);
    }
  }

  lemma {:induction false} SmallMultiple(b: nat, d: int)
    requires Divides(b, d) && 0 - Pow2(b) < d < Pow2(b)
    ensures d == 0
  {
    if b > 0 {
      SmallMultiple(b - 1, d / 2);
    }
  }

  lemma {:induction false} LowOfLow(x: nat, c: nat, b: nat)
    requires b <= c
    ensures Low(Low(x, c), b) == Low(x, b)
  {
    if b > 0 {
      assert Low(x, c) % 2 == x % 2 && Low(x, c) / 2 == Low(x / 2, c - 1);
      LowOfLow(x / 2, c - 1, b - 1);
    }
  }

  function High(x: nat, c: nat): nat {
    if c == 0 then x else High(x / 2, c - 1)
  }

  lemma {:induction false} Twice(p: nat, h: nat)
    ensures 2 * (p * h) == (2 * p) * h
  {
  }

  lemma {:induction false} HighLow(x: nat, c: nat)
    ensures x == Pow2(c) * High(x, c) + Low(x, c)
  {
    if c > 0 {
      HighLow(x / 2, c - 1);
      var p, h := Pow2(c - 1), High(x / 2, c - 1);
      Twice(p, h);
    }
  }

  lemma {:induction false} CutTo32(h: nat, l: nat)
    requires l * BLKSIZE < TWO32
    ensures (TWO32 * h + l * BLKSIZE) % TWO32 == l * BLKSIZE
  {
  }

  lemma {:induction false} PageOf(l: nat)
    ensures l * BLKSIZE / BLKSIZE == l
  {
  }

  /** The page number the hash works on is the page number modulo 2^20. */
  lemma {:induction false} PageIndex(page: nat)
    ensures (page * BLKSIZE) % TWO32 / BLKSIZE == Low(page, 20)
  {
    var h, l := High(page, 20), Low(page, 20);
    assert page == 0x10_0000 * h + l && l < 0x10_0000 by {
      Pow2Values();
      HighLow(page, 20);
    }
    CutTo32(h, l);
    PageOf(l);
  }

  /** How many bits of the page number the slot depends on. */
  function Spread(b: nat): nat {
    if b < 20 then b else 20
  }

  lemma {:induction false} FactorDivides(b: nat, d: int)
    requires Divides(b, d)
    ensures Divides(b, MULTIPLIER * d)
  {
    if b > 0 {
      assert MULTIPLIER * d / 2 == MULTIPLIER * (d / 2);
      FactorDivides(b - 1, d / 2);
    }
  }

  /** Multiplying by the odd constant keeps the low bits apart, and equal ones equal. */
  lemma {:induction false} LowOfProduct(x: nat, y: nat, b: nat)
    ensures Low(MULTIPLIER * (1 + x), b) == Low(MULTIPLIER * (1 + y), b) <==> Low(x, b) == Low(y, b)
  {
    LowEqual(MULTIPLIER * (1 + x), MULTIPLIER * (1 + y), b);
    assert MULTIPLIER * (1 + x) - MULTIPLIER * (1 + y) == MULTIPLIER * (x - y);
    LowEqual(x, y, b);
    OddFactor(b, x - y);
    if Divides(b, x - y) {
      FactorDivides(b, x - y);
    }
  }

  /** The slot of a page, by its number. */
  function Slot(p: nat, b: nat): nat {
    Low(MULTIPLIER * (1 + Low(p, 20)), b)
  }

  lemma {:induction false} HashOfPage(p: nat, b: nat)
    ensures Hash(p * BLKSIZE, b) == Slot(p, b)
  {
    PageIndex(p);
  }

  lemma {:induction false} SlotSmall(b: nat, p: nat, q: nat)
    requires b <= 20
    ensures Slot(p, b) == Slot(q, b) <==> Low(p, b) == Low(q, b)
  {
    LowOfProduct(Low(p, 20), Low(q, 20), b);
    LowOfLow(p, 20, b);
    LowOfLow(q, 20, b);
  }

  lemma {:induction false} SlotLarge(b: nat, p: nat, q: nat)
    requires b >= 20
    ensures Slot(p, b) == Slot(q, b) <==> Low(p, 20) == Low(q, 20)
  {
    SlotSmall(20, p, q);
    LowOfLow(MULTIPLIER * (1 + Low(p, 20)), b, 20);
    LowOfLow(MULTIPLIER * (1 + Low(q, 20)), b, 20);
  }

  /** Pages have the same slot exactly when they agree in the low bits. */
  lemma {:induction false} SameSlot(b: nat, p: nat, q: nat)
    ensures Hash(p * BLKSIZE, b) == Hash(q * BLKSIZE, b) <==> Low(p, Spread(b)) == Low(q, Spread(b))
  {
    HashOfPage(p, b);
    HashOfPage(q, b);
    if b < 20 {
      SlotSmall(b, p, q);
    } else {
      SlotLarge(b, p, q);
    }
  }

  /** Any 2^b consecutive pages have 2^b different slots, or 2^20 in a larger cache. */
  lemma {:induction false} ConsecutivePagesDontCollide(b: nat, p: nat, q: nat)
    requires p < q < p + Pow2(Spread(b))
    ensures Hash(p * BLKSIZE, b) != Hash(q * BLKSIZE, b)
  {
    SameSlot(b, p, q);
    LowEqual(p, q, Spread(b));
    if Divides(Spread(b), p - q) {
      SmallMultiple(Spread(b), p - q);
    }
  }

  lemma {:induction false} PowerDivides(b: nat)
    ensures Divides(b, Pow2(b))
  {
    if b > 0 {
      var half := Pow2(b - 1);
      assert Pow2(b) == 2 * half;
      PowerDivides(b - 1);
    }
  }

  /** No more than that: the page after them has the slot of the first. */
  lemma {:induction false} NextPageCollides(b: nat, p: nat)
    ensures Hash(p * BLKSIZE, b) == Hash((p + Pow2(Spread(b))) * BLKSIZE, b)
  {
    PowerDivides(Spread(b));
    LowEqual(p + Pow2(Spread(b)), p, Spread(b));
    SameSlot(b, p, p + Pow2(Spread(b)));
  }
}
