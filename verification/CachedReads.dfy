/** What a read reports when part of it comes from the cache: when that is the right number,
    and which wrong numbers there are. */
module CachedReads {
  import opened Bytes
  import opened PageHash
  import opened PageCache
  import opened ReadOps
  import opened OpenFiles

  ghost predicate Agrees(c: Client, now: nat, f: seq<byte>) {
    c.cache.Some? ==> Coherent(c.cache.value, now, f)
  }

  lemma {:induction false} CachedIsInFile(c: Cache, now: nat, f: seq<byte>, off: nat, n: nat)
    requires Coherent(c, now, f)
    ensures CachedTo(c, now, off, n) > off ==> CachedTo(c, now, off, n) <= |f|
    decreases n
  {
    if n > 0 && Lookup(c, now, off).Some? {
      HitIsTruth(c, now, off, f);
      CachedIsInFile(c, now, f, off + BLKSIZE, n - 1);
    }
  }

  /** A read reports the right number exactly when there is no cache, or the cache has all of
      it, or the file goes on after the cached part and reaches the read's start, or the read
      starts on a page boundary at or after the end of the file. */
  lemma {:induction false} CountIsRight(c: Client, f: seq<byte>, org: nat, cnt: nat, now: nat)
    requires Agrees(c, now, f)
    ensures CountOf(c, |f|, org, cnt, now) == |Slice(f, org, cnt)| <==>
            || c.cache.None?
            || CachedPart(c.cache.value, org, cnt, now) == PagesEnd(org, cnt)
            || (CachedPart(c.cache.value, org, cnt, now) < |f| && org <= |f|)
            || |f| <= org == PageStart(org)
  {
    if c.cache.Some? {
      var start, from := PageStart(org), CachedPart(c.cache.value, org, cnt, now);
      CachedIsInFile(c.cache.value, now, f, start, PagesOf(org, cnt));
      if from != PagesEnd(org, cnt) {
        ReadCountIsRight(f, org, cnt, start, from);
      }
    }
  }

  /** The numbers a read may report: the right one; how far the read's page starts before the
      read, or the file ends before it, as a negative number. */
  predicate Reportable(f: seq<byte>, org: nat, cnt: nat, n: int) {
    n == |Slice(f, org, cnt)| || n == PageStart(org) - org || (|f| < org && n == |f| - org)
  }

  lemma {:induction false} CountIsReportable(c: Client, f: seq<byte>, org: nat, cnt: nat, now: nat)
    requires Agrees(c, now, f)
    ensures Reportable(f, org, cnt, CountOf(c, |f|, org, cnt, now))
  {
    CountIsRight(c, f, org, cnt, now);
  }

  lemma {:induction false} DeliveredIsSlice(f: seq<byte>, org: nat, cnt: nat)
    ensures Delivered(f, org, |Slice(f, org, cnt)|) == Slice(f, org, cnt)
  {
  }

  // Which reads are right whatever is cached

  /** A read reports the right number from every cache of 2^bits entries: it reaches the file;
      and the file does not end on a page boundary inside the read's pages, or has too many
      pages there to be all in the cache. */
  ghost predicate Whole(bits: nat, f: seq<byte>, org: nat, cnt: nat) {
    || |f| <= org == PageStart(org)
    || (org <= |f| &&
        (|f| % BLKSIZE != 0 || PagesEnd(org, cnt) <= |f| || PageStart(org) + Pow2(Spread(bits)) * BLKSIZE < |f|))
  }

  /** Every page before the one that is missing is found. */
  lemma {:induction false} CachedPagesAreFound(c: Cache, now: nat, p: nat, n: nat, k: nat)
    requires Sized(c) && (p + k) * BLKSIZE < CachedTo(c, now, p * BLKSIZE, n)
    ensures Lookup(c, now, (p + k) * BLKSIZE).Some?
    decreases n
  {
    if k > 0 {
      assert p * BLKSIZE + BLKSIZE == (p + 1) * BLKSIZE;
      CachedPagesAreFound(c, now, p + 1, n - 1, k - 1);
    }
  }

  lemma {:induction false} OnePageOn(off: nat)
    requires off % BLKSIZE == 0
    ensures (off + BLKSIZE) % BLKSIZE == 0
  {
  }

  lemma {:induction false} CachedToIsPage(c: Cache, now: nat, off: nat, n: nat)
    requires Sized(c) && off % BLKSIZE == 0
    ensures CachedTo(c, now, off, n) % BLKSIZE == 0
    decreases n
  {
    if n > 0 && Lookup(c, now, off).Some? {
      OnePageOn(off);
      CachedToIsPage(c, now, off + BLKSIZE, n - 1);
    }
  }

  /** Pages with the same slot are not both in the cache. */
  lemma {:induction false} CachedPartIsShort(c: Cache, now: nat, p: nat, n: nat)
    requires Sized(c)
    ensures CachedTo(c, now, p * BLKSIZE, n) <= (p + Pow2(Spread(c.bits))) * BLKSIZE
  {
    var k := Pow2(Spread(c.bits));
    if CachedTo(c, now, p * BLKSIZE, n) > (p + k) * BLKSIZE {
      CachedPagesAreFound(c, now, p, n, 0);
      CachedPagesAreFound(c, now, p, n, k);
      NextPageCollides(c.bits, p);
      assert false;
    }
  }

  /** Whatever pages a whole read finds, all of it is found or the file goes on. */
  lemma {:induction false} WholeGoesOn(bits: nat, f: seq<byte>, org: nat, cnt: nat, from: nat)
    requires Whole(bits, f, org, cnt) && from % BLKSIZE == 0 && PageStart(org) <= from <= PagesEnd(org, cnt)
    requires from > PageStart(org) ==> from <= |f|
    requires from <= PageStart(org) + Pow2(Spread(bits)) * BLKSIZE
    ensures from == PagesEnd(org, cnt) || (from < |f| && org <= |f|) || |f| <= org == PageStart(org)
  {
    if org <= |f| && from == |f| {
      assert |f| % BLKSIZE == 0;
    }
  }

  lemma {:induction false} PageNumber(org: nat) returns (p: nat)
    ensures p * BLKSIZE == PageStart(org) && PageStart(org) % BLKSIZE == 0
  {
    p := org / BLKSIZE;
  }

  lemma {:induction false} CachedPartBounds(c: Cache, f: seq<byte>, org: nat, cnt: nat, now: nat)
    requires Coherent(c, now, f)
    ensures var from := CachedPart(c, org, cnt, now);
            && from % BLKSIZE == 0 && PageStart(org) <= from <= PagesEnd(org, cnt)
            && (from > PageStart(org) ==> from <= |f|)
            && from <= PageStart(org) + Pow2(Spread(c.bits)) * BLKSIZE
  {
    var p := PageNumber(org);
    CachedIsInFile(c, now, f, PageStart(org), PagesOf(org, cnt));
    CachedToIsPage(c, now, PageStart(org), PagesOf(org, cnt));
    CachedPartIsShort(c, now, p, PagesOf(org, cnt));
  }

  lemma {:induction false} WholeIsRight(c: Client, f: seq<byte>, org: nat, cnt: nat, now: nat)
    requires Agrees(c, now, f) && (c.cache.Some? ==> Whole(c.cache.value.bits, f, org, cnt))
    ensures CountOf(c, |f|, org, cnt, now) == |Slice(f, org, cnt)|
  {
    CountIsRight(c, f, org, cnt, now);
    if c.cache.Some? {
      var v := c.cache.value;
      CachedPartBounds(v, f, org, cnt, now);
      WholeGoesOn(v.bits, f, org, cnt, CachedPart(v, org, cnt, now));
    }
  }

  /** A cache with nothing in it. */
  function Empty(bits: nat): (c: Cache)
    ensures Sized(c) && c.bits == bits && forall now, f :: Coherent(c, now, f)
  {
    Cache(bits, 0, seq(Pow2(bits), _ => Entry(0, 0, seq(BLKSIZE, _ => 0))))
  }

  /** A cache with the pages of the file from page p on. */
  function Filled(bits: nat, f: seq<byte>, p: nat): (c: Cache)
    requires p * BLKSIZE <= |f|
    ensures Sized(c) && c.bits == bits
  {
    PutAt(Empty(bits), 1, p * BLKSIZE, f[p * BLKSIZE..])
  }

  lemma {:induction false} FilledIsCoherent(bits: nat, f: seq<byte>, p: nat)
    requires p * BLKSIZE <= |f|
    ensures Coherent(Filled(bits, f, p), 1, f)
  {
    var start := p * BLKSIZE;
    assert f[start..] == if |f| > start then f[start..|f|] else [];
    StoreIsCoherent(Empty(bits), 1, f, start, |f|);
  }

  lemma {:induction false} NothingBehind(bits: nat, f: seq<byte>, m: nat, p: nat)
    requires |f| == m * BLKSIZE && p <= m
    ensures p * BLKSIZE <= |f| && Lookup(Filled(bits, f, p), 1, m * BLKSIZE).None?
  {
    FilledIsCoherent(bits, f, p);
    if Lookup(Filled(bits, f, p), 1, m * BLKSIZE).Some? {
      HitIsTruth(Filled(bits, f, p), 1, m * BLKSIZE, f);
      assert false;
    }
  }

  /** A file of m pages, of which the ones from page p on are cached: the pages are found up to
      the end of the file. */
  lemma {:induction false} FilledFrom(bits: nat, f: seq<byte>, m: nat, p: nat, k: nat, n: nat)
    requires |f| == m * BLKSIZE && p + k <= m < p + k + n && m <= p + Pow2(Spread(bits))
    ensures p * BLKSIZE <= |f| && CachedTo(Filled(bits, f, p), 1, (p + k) * BLKSIZE, n) == |f|
    decreases n
  {
    if p + k < m {
      PutThenLookup(Empty(bits), 1, p, m - p, f[p * BLKSIZE..], k, 1);
      FilledFrom(bits, f, m, p, k + 1, n - 1);
    } else {
      NothingBehind(bits, f, m, p);
    }
  }

  function WithCache(c: Cache): Client {
    Client(Some(c), 0, 0, 0)
  }

  /** The read reports a wrong number from some cache. */
  lemma {:induction false} WrongFromSomeCache(bits: nat, f: seq<byte>, org: nat, cnt: nat) returns (c: Cache)
    requires !Whole(bits, f, org, cnt)
    ensures c.bits == bits && Coherent(c, 1, f) && CountOf(WithCache(c), |f|, org, cnt, 1) != |Slice(f, org, cnt)|
  {
    var p := PageNumber(org);
    if org > |f| {
      c := Empty(bits);
    } else {
      c := Filled(bits, f, p);
      FilledIsCoherent(bits, f, p);
      FilledFrom(bits, f, |f| / BLKSIZE, p, 0, PagesOf(org, cnt));
    }
    CountIsRight(WithCache(c), f, org, cnt, 1);
  }

  /** A read reports the right number from every cache of 2^bits entries that agrees with the
      file exactly when it is whole: the caller can tell from the size of the file. */
  lemma {:induction false} RightFromEveryCache(bits: nat, f: seq<byte>, org: nat, cnt: nat)
    ensures (forall c: Cache, now: nat :: c.bits == bits && Coherent(c, now, f) ==>
               CountOf(WithCache(c), |f|, org, cnt, now) == |Slice(f, org, cnt)|) <==>
            Whole(bits, f, org, cnt)
  {
    if Whole(bits, f, org, cnt) {
      forall c: Cache, now: nat | c.bits == bits && Coherent(c, now, f)
        ensures CountOf(WithCache(c), |f|, org, cnt, now) == |Slice(f, org, cnt)|
      {
        WholeIsRight(WithCache(c), f, org, cnt, now);
      }
    } else {
      var c := WrongFromSomeCache(bits, f, org, cnt);
    }
  }

  /** Reading past the end of a file from inside a page reports a negative number. */
  lemma {:induction false} ReadPastEndIsNegative(f: seq<byte>, now: nat)
    requires |f| == 100
    ensures var c := WithCache(Empty(0)); Agrees(c, now, f) && CountOf(c, |f|, 200, 10, now) == -100
  {
  }

  /** A file of one page that is cached, read on past its end, reports no bytes at all. */
  lemma {:induction false} CachedEndIsLost(f: seq<byte>)
    requires |f| == BLKSIZE
    ensures var c := WithCache(Filled(0, f, 0));
            Agrees(c, 1, f) && CountOf(c, |f|, 0, 2 * BLKSIZE, 1) == 0 && |Slice(f, 0, 2 * BLKSIZE)| == BLKSIZE
  {
    FilledIsCoherent(0, f, 0);
    FilledFrom(0, f, 1, 0, 0, 2);
  }
}
