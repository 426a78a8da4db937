/** The page cache as the table the client updates in place, and the two setters that
    choose its size. */
module PageTable {
  import opened Bytes
  import opened PageHash
  import opened PageCache

  /** Where the n bytes at `off` that fit its page end. */
  lemma {:induction false} NextPage(off: nat, n: nat)
    requires n == BLKSIZE - off % BLKSIZE
    ensures (off + n) % BLKSIZE == 0 && (off + n) / BLKSIZE == off / BLKSIZE + 1
  {
  }

  lemma {:induction false} PutRest(c: Cache, now: nat, p: nat, k: nat, d: seq<byte>, n: nat)
    requires Sized(c) && k < BLKSIZE && 0 < |d| && n == if BLKSIZE - k < |d| then BLKSIZE - k else |d|
    ensures var c' := PutInPage(c, now, p * BLKSIZE, k, d[..n]);
            Put(c, now, p, k, d) == if n < |d| then Put(c', now, p + 1, 0, d[n..]) else c'
  {
    assert n == |d| ==> d[..n] == d;
  }

  /** Bytes are stored page by page. */
  lemma {:induction false} PutFirst(c: Cache, now: nat, off: nat, d: seq<byte>, n: nat)
    requires Sized(c) && 0 < |d| && n == if BLKSIZE - off % BLKSIZE < |d| then BLKSIZE - off % BLKSIZE else |d|
    ensures off >= off % BLKSIZE
    ensures PutAt(c, now, off, d) ==
            PutAt(PutInPage(c, now, off - off % BLKSIZE, off % BLKSIZE, d[..n]), now, off + n, d[n..])
  {
    OffsetParts(off);
    PutRest(c, now, off / BLKSIZE, off % BLKSIZE, d, n);
    if n < |d| {
      NextPage(off, n);
    }
  }

  class Pages {
    const bits: nat
    const ttl: nat
    const entries: array<Entry>

    ghost predicate Valid() {
      entries.Length == Pow2(bits)
    }

    function Value(): (c: Cache)
      reads entries
    {
      Cache(bits, ttl, entries[..])
    }

    constructor (bits: nat, ttl: nat)
      ensures Valid() && this.bits == bits && this.ttl == ttl && fresh(entries)
      ensures forall now, f :: Coherent(Value(), now, f)
    {
      this.bits, this.ttl := bits, ttl;
      entries := new Entry[Pow2(bits)](_ => Entry(0, 0, seq(BLKSIZE, _ => 0)));
    }

    method Get(now: int, offset: nat) returns (r: Option<Page>)
      requires Valid()
      ensures r == Lookup(Value(), now, offset)
    {
      var e := entries[Hash(offset, bits)];
      if offset != e.offset {
        return None;
      }
      if e.ts == 0 {
        return None;
      }
      if ttl != 0 && now - e.ts > ttl {
        return None;
      }
      return Some(e.buf);
    }

    /** Only a full page, or a partial update of a page that is still valid, is stored. */
    method StoreInPage(now: nat, page: nat, k: nat, d: seq<byte>)
      requires Valid() && k + |d| <= BLKSIZE
      modifies entries
      ensures Value() == PutInPage(old(Value()), now, page, k, d)
    {
      var ts := if ttl != 0 then now else 1;
      var i := Hash(page, bits);
      var e := entries[i];
      if |d| == BLKSIZE || (e.ts != 0 && e.offset == page && (ttl == 0 || ts - e.ts <= ttl)) {
        entries[i] := Entry(ts, page, Patch(e.buf, k, d));
      }
    }

    method Store(now: nat, offset: nat, buf: seq<byte>)
      requires Valid()
      modifies entries
      ensures Value() == PutAt(old(Value()), now, offset, buf)
    {
      var rest, off: nat := buf, offset;
      while |rest| != 0
        invariant PutAt(Value(), now, off, rest) == PutAt(old(Value()), now, offset, buf)
        decreases |rest|
      {
        var k := off % BLKSIZE;
        var n := if BLKSIZE - k < |rest| then BLKSIZE - k else |rest|;
        OffsetParts(off);
        PutFirst(Value(), now, off, rest, n);
        StoreInPage(now, off - k, k, rest[..n]);
        rest, off := rest[n..], off + n;
      }
    }

    /** After a truncation the cache is empty, so it agrees with every file. */
    method Invalidate()
      requires Valid()
      modifies entries
      ensures forall now, f :: Coherent(Value(), now, f)
    {
      for i := 0 to entries.Length
        invariant forall j :: 0 <= j < i ==> entries[j].ts == 0
      {
        entries[i] := Entry(0, 0, seq(BLKSIZE, _ => 0));
      }
    }
  }

  /** The least power of two that is at least x. */
  function CeilPow2(x: nat): (p: nat) {
    if x <= 1 then 1 else 2 * CeilPow2((x + 1) / 2)
  }

  ghost predicate IsPow2(p: nat) {
    exists b :: p == Pow2(b)
  }

  lemma {:induction false} Pow2Monotone(a: nat, b: nat)
    requires a <= b
    ensures Pow2(a) <= Pow2(b)
  {
    if a < b {
      Pow2Monotone(a, b - 1);
    }
  }

  lemma {:induction false} CeilIsLeast(x: nat, b: nat)
    ensures x <= CeilPow2(x) && IsPow2(CeilPow2(x))
    ensures x <= Pow2(b) ==> CeilPow2(x) <= Pow2(b)
  {
    if x <= 1 {
      assert Pow2(0) == 1;
    } else {
      CeilIsLeast((x + 1) / 2, if b == 0 then 0 else b - 1);
      var h: nat :| CeilPow2((x + 1) / 2) == Pow2(h);
      assert CeilPow2(x) == Pow2(h + 1);
    }
  }

  /** 1 doubled n times in 32-bit arithmetic. */
  function Doubled(n: nat): uint32 {
    if n == 0 then 1
    else
      var twice := 2 * Doubled(n - 1);
      if twice < TWO32 then twice else twice - TWO32
  }

  lemma {:induction false} DoubleFits(b: nat)
    requires Pow2(b) < TWO31
    ensures Pow2(b + 1) == Pow2(b) * 2 % TWO32 && Pow2(b + 1) <= TWO31
  {
    Pow2Values();
    if b >= 31 {
      Pow2Monotone(31, b);
    } else {
      Pow2Monotone(b + 1, 31);
    }
  }

  lemma {:induction false} SmallPow2(n: nat)
    requires n < 32
    ensures Pow2(n) <= TWO31
  {
    Pow2Monotone(n, 31);
    Pow2Values();
  }

  lemma {:induction false} DoubledIsPow2(n: nat)
    requires n < 32
    ensures Doubled(n) == Pow2(n)
  {
    if n > 0 {
      DoubledIsPow2(n - 1);
      SmallPow2(n);
    }
  }

  lemma {:induction false} LastDoubled(n: nat)
    requires n == 31
    ensures Doubled(n) == TWO31
  {
    DoubledIsPow2(n);
    Pow2Values();
  }

  lemma {:induction false} DoubledIsLost(n: nat)
    requires n >= 32
    ensures Doubled(n) == 0
  {
    if n > 32 {
      DoubledIsLost(n - 1);
    } else {
      LastDoubled(n - 1);
    }
  }

  /** The loop ends exactly for values up to 2^31. */
  lemma {:induction false} LoopEnds(x: uint32)
    ensures (exists n :: Doubled(n) >= x) <==> x <= TWO31
  {
    if x <= TWO31 {
      var n: nat := 31;
      LastDoubled(n);
      assert Doubled(n) >= x;
    } else {
      forall n: nat ensures Doubled(n) < x {
        if n < 32 {
          DoubledIsPow2(n);
          SmallPow2(n);
        } else {
          DoubledIsLost(n);
        }
      }
    }
  }

  lemma {:induction false} CeilIsReached(x: nat, b: nat)
    requires x <= Pow2(b) && (b == 0 || Pow2(b - 1) < x)
    ensures CeilPow2(x) == Pow2(b)
  {
    CeilIsLeast(x, b);
    var h: nat :| CeilPow2(x) == Pow2(h);
    if h < b {
      Pow2Monotone(h, b - 1);
    } else {
      Pow2Monotone(b, h);
    }
  }

  method RoundToPowerOfTwo(x: uint32) returns (power: uint32)
    requires x <= TWO31
    ensures power == CeilPow2(x) && power <= TWO31
  {
    ghost var b: nat := 0;
    power := 1;
    while power < x
      invariant power == Pow2(b) && power <= TWO31
      invariant b == 0 || Pow2(b - 1) < x
    {
      DoubleFits(b);
      power := power * 2 % TWO32;
      b := b + 1;
    }
    CeilIsReached(x, b);
  }

  function Readahead(v: nat): nat {
    if v == 0 then 0 else if CeilPow2(v) < BLKSIZE then BLKSIZE else CeilPow2(v)
  }

  lemma {:induction false} LargePow2(h: nat)
    requires h >= 12
    ensures Pow2(h) % BLKSIZE == 0 && Pow2(h) >= BLKSIZE
  {
    if h == 12 {
      Pow2Values();
    } else {
      LargePow2(h - 1);
    }
  }

  lemma {:induction false} ReadaheadSize(v: nat)
    requires v <= TWO31
    ensures v <= Readahead(v) <= TWO31 && Readahead(v) % BLKSIZE == 0
    ensures v <= 0x4000_0000 ==> Readahead(v) <= 0x4000_0000
    ensures v > 0x4000_0000 ==> Readahead(v) == TWO31
  {
    if v != 0 {
      Pow2Values();
      CeilIsLeast(v, 30);
      CeilIsLeast(v, 31);
      var h: nat :| CeilPow2(v) == Pow2(h);
      if h <= 12 {
        Pow2Monotone(h, 12);
      } else {
        LargePow2(h);
      }
      if v > 0x4000_0000 {
        if h <= 30 {
          Pow2Monotone(h, 30);
        } else {
          Pow2Monotone(31, h);
        }
      }
    }
  }

  /** The readahead is the least power of two that is as much as was asked for, and a page. */
  lemma {:induction false} ReadaheadIsLeast(v: nat, b: nat)
    requires 0 < v <= Pow2(b) && BLKSIZE <= Pow2(b)
    ensures IsPow2(Readahead(v)) && v <= Readahead(v) <= Pow2(b) && Readahead(v) >= BLKSIZE
  {
    Pow2Values();
    CeilIsLeast(v, b);
  }

  /** The cache size the readahead asks for, in 32-bit arithmetic. */
  lemma {:induction false} MinPagecache(v: nat)
    requires v <= TWO31
    ensures var m := 2 * Readahead(v) % TWO32 / BLKSIZE;
            if v <= 0x4000_0000 then m * BLKSIZE == 2 * Readahead(v) else m == 0
  {
    ReadaheadSize(v);
    WholePages(2 * (Readahead(v) / BLKSIZE));
  }

  class Options {
    var pagecache: uint32
    var readahead: uint32

    ghost predicate Valid()
      reads this
    {
      (pagecache == 0 || IsPow2(pagecache)) && pagecache <= TWO31
    }

    constructor ()
      ensures Valid() && pagecache == 0 && readahead == 0
    {
      pagecache, readahead := 0, 0;
    }

    method SetPagecache(v: uint32)
      requires Valid() && v <= TWO31
      modifies this`pagecache
      ensures Valid() && pagecache >= v && pagecache >= old(pagecache)
      ensures pagecache == old(pagecache) || pagecache == CeilPow2(v)
    {
      var r := RoundToPowerOfTwo(v);
      CeilIsLeast(v, 0);
      if pagecache < r {
        pagecache := r;
      }
    }

    /** The cache is to hold twice the readahead. It does exactly when twice the value does
        not wrap around, or the cache was large enough before. */
    method SetReadahead(v: uint32)
      requires Valid() && v <= TWO31
      modifies this
      ensures Valid() && pagecache >= old(pagecache) && readahead == Readahead(v)
      ensures pagecache * BLKSIZE >= 2 * readahead <==> v <= 0x4000_0000 || old(pagecache) >= 0x10_0000
    {
      var r := v;
      if v != 0 {
        r := RoundToPowerOfTwo(v);
        if r < BLKSIZE {
          r := BLKSIZE;
        }
      }
      assert r == Readahead(v);
      ReadaheadSize(v);
      MinPagecache(v);
      readahead := r;
      var minPagecache := 2 * r % TWO32 / BLKSIZE;
      if pagecache < minPagecache {
        SetPagecache(minPagecache);
      }
    }
  }

  /** A readahead just over 2^30 bytes, set on new options: the cache has no pages for it. */
  method ReadaheadOutgrowsCache() returns (pages: uint32, ahead: uint32)
    ensures pages * BLKSIZE < 2 * ahead
  {
    var o := new Options();
    o.SetReadahead(0x4000_0001);
    pages, ahead := o.pagecache, o.readahead;
  }
}
