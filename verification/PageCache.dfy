/** The per-handle page cache: a direct-mapped table of file pages with a time to live.
    Its invariant is coherence: every page that a lookup may return lies inside the file
    and has the file's bytes. */
module PageCache {
  import opened Bytes
  import opened PageHash

  type Page = s: seq<byte> | |s| == BLKSIZE witness seq(BLKSIZE, _ => 0)

  datatype Entry = Entry(ts: nat, offset: nat, buf: Page)

  /** A cache of 2^bits entries. */
  datatype Cache = Cache(bits: nat, ttl: nat, entries: seq<Entry>)

  ghost predicate Sized(c: Cache) {
    |c.entries| == Pow2(c.bits)
  }

  /** Byte i of file `f` after `d` is written at `off`; a gap reads as zeros. */
  function ByteAfter(f: seq<byte>, off: nat, d: seq<byte>, i: int): byte {
    if off <= i < off + |d| then d[i - off] else if 0 <= i < |f| then f[i] else 0
  }

  /** The bytes of `f` with `d` written at `off`. */
  function Patch(f: seq<byte>, off: nat, d: seq<byte>): (g: seq<byte>)
    ensures |g| == if |d| == 0 || |f| >= off + |d| then |f| else off + |d|
    ensures forall i :: 0 <= i < |g| ==> g[i] == ByteAfter(f, off, d, i)
  {
    if |d| == 0 then f
    else seq(if |f| >= off + |d| then |f| else off + |d|, i => ByteAfter(f, off, d, i))
  }

  lemma {:induction false} PatchIsCopy(b: seq<byte>, at: nat, d: seq<byte>)
    requires at + |d| <= |b|
    ensures b[..at] + d + b[at + |d|..] == Patch(b, at, d)
  {
    var r := b[..at] + d + b[at + |d|..];
    assert |r| == |b|;
    forall i | 0 <= i < |r| ensures r[i] == ByteAfter(b, at, d, i) {
    }
  }

  /** Writing in two steps is writing at once. */
  lemma {:induction false} PatchTwice(f: seq<byte>, off: nat, d: seq<byte>, n: nat)
    requires n <= |d|
    ensures Patch(Patch(f, off, d[..n]), off + n, d[n..]) == Patch(f, off, d)
  {
    if n == 0 {
      assert d[n..] == d;
    } else if n == |d| {
      assert d[..n] == d;
    }
  }

  predicate Live(e: Entry, ttl: nat, now: int) {
    e.ts != 0 && (ttl == 0 || now - e.ts <= ttl)
  }

  /** `buf` is the page of file `f` at offset `off`. */
  predicate PageIs(f: seq<byte>, off: nat, buf: Page) {
    off + BLKSIZE <= |f| && forall i :: 0 <= i < BLKSIZE ==> buf[i] == f[off + i]
  }

  /** What the cache may say about slot i. */
  ghost predicate SlotOk(c: Cache, now: int, f: seq<byte>, i: nat)
    requires i < |c.entries|
  {
    var e := c.entries[i];
    Live(e, c.ttl, now) ==>
      e.offset % BLKSIZE == 0 && Hash(e.offset, c.bits) == i && PageIs(f, e.offset, e.buf)
  }

  ghost predicate Coherent(c: Cache, now: int, f: seq<byte>) {
    Sized(c) && forall i :: 0 <= i < |c.entries| ==> SlotOk(c, now, f, i)
  }

  /** nfs_pagecache_get */
  function Lookup(c: Cache, now: int, off: nat): (r: Option<Page>)
    requires Sized(c)
  {
    var e := c.entries[Hash(off, c.bits)];
    if off != e.offset || !Live(e, c.ttl, now) then None else Some(e.buf)
  }

  /** One round of nfs_pagecache_put: bytes that lie in one page, k bytes into it. */
  function PutInPage(c: Cache, now: nat, page: nat, k: nat, d: seq<byte>): (r: Cache)
    requires Sized(c) && k + |d| <= BLKSIZE
    ensures Sized(r) && r.bits == c.bits && r.ttl == c.ttl
  {
    var ts := if c.ttl != 0 then now else 1;
    var i := Hash(page, c.bits);
    var e := c.entries[i];
    if |d| == BLKSIZE || (e.offset == page && Live(e, c.ttl, ts)) then
      c.(entries := c.entries[i := Entry(ts, page, Patch(e.buf, k, d))])
    else
      c
  }

  /** nfs_pagecache_put of bytes that start k bytes into page p. */
  function Put(c: Cache, now: nat, p: nat, k: nat, d: seq<byte>): (r: Cache)
    requires Sized(c) && k < BLKSIZE
    ensures Sized(r) && r.bits == c.bits && r.ttl == c.ttl
    decreases |d|
  {
    if |d| <= BLKSIZE - k then
      if |d| == 0 then c else PutInPage(c, now, p * BLKSIZE, k, d)
    else
      var n := BLKSIZE - k;
      Put(PutInPage(c, now, p * BLKSIZE, k, d[..n]), now, p + 1, 0, d[n..])
  }

  function PutAt(c: Cache, now: nat, off: nat, d: seq<byte>): (r: Cache)
    requires Sized(c)
    ensures Sized(r) && r.bits == c.bits && r.ttl == c.ttl
  {
    Put(c, now, off / BLKSIZE, off % BLKSIZE, d)
  }

  /** Pages other than the one written read the same before and after. */
  lemma {:induction false} PatchOtherPage(f: seq<byte>, page: nat, k: nat, d: seq<byte>, p: nat, buf: Page)
    requires p % BLKSIZE == 0 == page % BLKSIZE && k + |d| <= BLKSIZE
    requires p != page && PageIs(f, p, buf)
    ensures PageIs(Patch(f, page + k, d), p, buf)
  {
    assert p + BLKSIZE <= page || page + BLKSIZE <= p;
    forall i: nat | i < BLKSIZE ensures buf[i] == Patch(f, page + k, d)[p + i] {
    }
  }

  /** The page written reads as the cached copy with the same bytes written over it, if all
      of the page is written or the copy was right before. */
  lemma {:induction false} PatchSamePage(f: seq<byte>, page: nat, k: nat, d: seq<byte>, buf: Page)
    requires k + |d| <= BLKSIZE && (|d| == BLKSIZE || PageIs(f, page, buf))
    ensures PageIs(Patch(f, page + k, d), page, Patch(buf, k, d))
  {
    forall i | 0 <= i < BLKSIZE ensures Patch(buf, k, d)[i] == Patch(f, page + k, d)[page + i] {
    }
  }

  lemma {:induction false} PutKeepsSlot(c: Cache, now: nat, page: nat, k: nat, d: seq<byte>, f: seq<byte>, i: nat)
    requires Sized(c) && page % BLKSIZE == 0 && k + |d| <= BLKSIZE
    requires i < |c.entries| && SlotOk(c, now, f, i)
    ensures SlotOk(PutInPage(c, now, page, k, d), now, Patch(f, page + k, d), i)
  {
    var e := c.entries[i];
    if i == Hash(page, c.bits) && (|d| == BLKSIZE || (e.offset == page && Live(e, c.ttl, now))) {
      PatchSamePage(f, page, k, d, e.buf);
    } else if Live(e, c.ttl, now) {
      PatchOtherPage(f, page, k, d, e.offset, e.buf);
    }
  }

  lemma {:induction false} PutInPageKeepsCoherence(c: Cache, now: nat, page: nat, k: nat, d: seq<byte>, f: seq<byte>)
    requires Coherent(c, now, f) && page % BLKSIZE == 0 && k + |d| <= BLKSIZE
    ensures Coherent(PutInPage(c, now, page, k, d), now, Patch(f, page + k, d))
  {
    var c', g := PutInPage(c, now, page, k, d), Patch(f, page + k, d);
    forall i | 0 <= i < |c.entries| ensures SlotOk(c', now, g, i) {
      assert SlotOk(c, now, f, i);
      PutKeepsSlot(c, now, page, k, d, f, i);
    }
  }

  lemma {:induction false} PutKeepsCoherence(c: Cache, now: nat, p: nat, k: nat, d: seq<byte>, f: seq<byte>)
    requires Coherent(c, now, f) && k < BLKSIZE
    ensures Coherent(Put(c, now, p, k, d), now, Patch(f, p * BLKSIZE + k, d))
    decreases |d|
  {
    var page, n := p * BLKSIZE, BLKSIZE - k;
    if |d| == 0 {
    } else if |d| <= n {
      PutInPageKeepsCoherence(c, now, page, k, d, f);
    } else {
      PutInPageKeepsCoherence(c, now, page, k, d[..n], f);
      PutKeepsCoherence(PutInPage(c, now, page, k, d[..n]), now, p + 1, 0, d[n..], Patch(f, page + k, d[..n]));
      PatchTwice(f, page + k, d, n);
    }
  }

  lemma {:induction false} OffsetParts(off: nat)
    ensures off == off / BLKSIZE * BLKSIZE + off % BLKSIZE
  {
  }

  /** Storing what has just been written to the file keeps the cache coherent with the
      file. */
  lemma {:induction false} PutAtKeepsCoherence(c: Cache, now: nat, off: nat, d: seq<byte>, f: seq<byte>)
    requires Coherent(c, now, f)
    ensures Coherent(PutAt(c, now, off, d), now, Patch(f, off, d))
  {
    OffsetParts(off);
    PutKeepsCoherence(c, now, off / BLKSIZE, off % BLKSIZE, d, f);
  }

  /** A page that is found is the file's page. */
  lemma {:induction false} HitIsTruth(c: Cache, now: int, off: nat, f: seq<byte>)
    requires Coherent(c, now, f) && Lookup(c, now, off).Some?
    ensures off % BLKSIZE == 0 && PageIs(f, off, Lookup(c, now, off).value)
  {
    assert SlotOk(c, now, f, Hash(off, c.bits));
  }

  /** Coherence survives the passing of time. */
  lemma {:induction false} TimeKeepsCoherence(c: Cache, now: int, later: int, f: seq<byte>)
    requires Coherent(c, now, f) && now <= later
    ensures Coherent(c, later, f)
  {
    forall i | 0 <= i < |c.entries| ensures SlotOk(c, later, f, i) {
      assert SlotOk(c, now, f, i);
    }
  }

  /** Byte x of a file that read `f`. */
  function OldByte(f: seq<byte>, x: int): byte {
    if 0 <= x < |f| then f[x] else 0
  }

  /** Every byte of `g` is the one `f` had there or the one written there. */
  ghost predicate OldOrNew(f: seq<byte>, g: seq<byte>, off: nat, data: seq<byte>) {
    |f| <= |g| <= |Patch(f, off, data)| &&
    forall x :: 0 <= x < |g| ==> g[x] == OldByte(f, x) || (off <= x < off + |data| && g[x] == data[x - off])
  }

  /** Byte x of the write lands in entry e's page. */
  predicate LandsIn(e: Entry, off: nat, x: nat) {
    e.offset <= off + x < e.offset + BLKSIZE
  }

  predicate AlreadyThere(f: seq<byte>, off: nat, d: seq<byte>, x: nat)
    requires x < |d|
  {
    off + x < |f| && f[off + x] == d[x]
  }

  predicate LeavesPage(e: Entry, f: seq<byte>, off: nat, data: seq<byte>) {
    forall x :: 0 <= x < |data| && LandsIn(e, off, x) ==> AlreadyThere(f, off, data, x)
  }

  /** No live page holds a byte that the write would change. */
  predicate LeavesPages(c: Cache, now: int, f: seq<byte>, off: nat, data: seq<byte>) {
    forall i :: 0 <= i < |c.entries| && Live(c.entries[i], c.ttl, now) ==> LeavesPage(c.entries[i], f, off, data)
  }

  lemma {:induction false} PageUnchanged(f: seq<byte>, g: seq<byte>, off: nat, data: seq<byte>, e: Entry)
    requires PageIs(f, e.offset, e.buf) && LeavesPage(e, f, off, data) && OldOrNew(f, g, off, data)
    ensures PageIs(g, e.offset, e.buf)
  {
    forall i: nat | i < BLKSIZE ensures e.buf[i] == g[e.offset + i] {
      if off <= e.offset + i < off + |data| {
        assert LandsIn(e, off, e.offset + i - off);
      }
    }
  }

  lemma {:induction false} PageChanged(f: seq<byte>, off: nat, data: seq<byte>, e: Entry)
    requires PageIs(f, e.offset, e.buf) && !LeavesPage(e, f, off, data)
    ensures !PageIs(Patch(f, off, data), e.offset, e.buf)
  {
    var x: nat :| x < |data| && LandsIn(e, off, x) && !AlreadyThere(f, off, data, x);
    assert e.buf[off + x - e.offset] == f[off + x];
  }

  lemma {:induction false} CacheLeft(c: Cache, now: int, f: seq<byte>, g: seq<byte>, off: nat, data: seq<byte>)
    requires Coherent(c, now, f) && LeavesPages(c, now, f, off, data) && OldOrNew(f, g, off, data)
    ensures Coherent(c, now, g)
  {
    forall i | 0 <= i < |c.entries| ensures SlotOk(c, now, g, i) {
      assert SlotOk(c, now, f, i);
      if Live(c.entries[i], c.ttl, now) {
        PageUnchanged(f, g, off, data, c.entries[i]);
      }
    }
  }

  /** A write that fails leaves the cache alone. However much of it reached the server, that
      stays coherent exactly when the write would change no byte of a live page. */
  lemma {:induction false} UntouchedCache(c: Cache, now: int, f: seq<byte>, off: nat, data: seq<byte>)
    requires Coherent(c, now, f)
    ensures (forall g :: OldOrNew(f, g, off, data) ==> Coherent(c, now, g)) <==> LeavesPages(c, now, f, off, data)
  {
    if LeavesPages(c, now, f, off, data) {
      forall g | OldOrNew(f, g, off, data) ensures Coherent(c, now, g) {
        CacheLeft(c, now, f, g, off, data);
      }
    } else {
      var i :| 0 <= i < |c.entries| && Live(c.entries[i], c.ttl, now) && !LeavesPage(c.entries[i], f, off, data);
      assert SlotOk(c, now, f, i);
      PageChanged(f, off, data, c.entries[i]);
      assert OldOrNew(f, Patch(f, off, data), off, data) && !SlotOk(c, now, Patch(f, off, data), i);
    }
  }

  /** One byte that reaches the server before the write fails makes a cached page stale. */
  lemma {:induction false} TornWriteLeavesStalePage(now: int)
    ensures exists c: Cache, f: seq<byte> :: Coherent(c, now, f) && !Coherent(c, now, Patch(f, 0, [1]))
  {
    var zeros: Page := seq(BLKSIZE, _ => 0);
    var e := Entry(1, 0, zeros);
    var c := Cache(0, 0, [e]);
    assert Coherent(c, now, zeros) by {
      assert SlotOk(c, now, zeros, 0);
    }
    assert LandsIn(e, 0, 0) && !AlreadyThere(zeros, 0, [1], 0);
    PageChanged(zeros, 0, [1], e);
    assert !SlotOk(c, now, Patch(zeros, 0, [1]), 0) && c.entries[0] == e;
    assert !Coherent(c, now, Patch(zeros, 0, [1]));
  }

  lemma {:induction false} PutFullPage(c: Cache, now: nat, page: nat, d: seq<byte>)
    requires Sized(c) && |d| == BLKSIZE
    ensures PutInPage(c, now, page, 0, d).entries ==
            c.entries[Hash(page, c.bits) := Entry(if c.ttl != 0 then now else 1, page, d)]
  {
    var e := c.entries[Hash(page, c.bits)];
    assert Patch(e.buf, 0, d) == d;
  }

  lemma {:induction false} WholePages(n: nat)
    ensures n * BLKSIZE % BLKSIZE == 0 && n * BLKSIZE / BLKSIZE == n
  {
  }

  lemma {:induction false} PagesCovered(m: nat, n: nat)
    requires n == (m + BLKSIZE - 1) / BLKSIZE
    ensures m <= n * BLKSIZE < m + BLKSIZE
  {
  }

  lemma {:induction false} PageTouched(p: nat, k: nat, n: nat, len: nat, q: nat)
    requires k < BLKSIZE && n * BLKSIZE < k + len + BLKSIZE && p <= q < p + n
    ensures q * BLKSIZE < p * BLKSIZE + k + len && p * BLKSIZE + k < q * BLKSIZE + BLKSIZE
  {
  }

  /** Slots of other pages than the n that are written to keep their entries. */
  lemma {:induction false} PutElsewhere(c: Cache, now: nat, p: nat, k: nat, n: nat, d: seq<byte>, i: nat)
    requires Sized(c) && k < BLKSIZE && k + |d| <= n * BLKSIZE && i < |c.entries|
    requires forall q :: p <= q < p + n ==> Hash(q * BLKSIZE, c.bits) != i
    ensures Put(c, now, p, k, d).entries[i] == c.entries[i]
    decreases n
  {
    if |d| > 0 {
      assert Hash(p * BLKSIZE, c.bits) != i;
      if |d| > BLKSIZE - k {
        var m := BLKSIZE - k;
        PutElsewhere(PutInPage(c, now, p * BLKSIZE, k, d[..m]), now, p + 1, 0, n - 1, d[m..], i);
      }
    }
  }

  /** A page that has its slot to itself is found, or not, as before. */
  lemma {:induction false} OtherPagesStay(c: Cache, now: nat, off: nat, d: seq<byte>, page: nat, later: int)
    requires Sized(c)
    requires forall q :: q * BLKSIZE < off + |d| && off < q * BLKSIZE + BLKSIZE ==>
               Hash(q * BLKSIZE, c.bits) != Hash(page, c.bits)
    ensures Lookup(PutAt(c, now, off, d), later, page) == Lookup(c, later, page)
  {
    var p, k := off / BLKSIZE, off % BLKSIZE;
    OffsetParts(off);
    if |d| > 0 {
      var n := (k + |d| + BLKSIZE - 1) / BLKSIZE;
      PagesCovered(k + |d|, n);
      forall q | p <= q < p + n ensures Hash(q * BLKSIZE, c.bits) != Hash(page, c.bits) {
        PageTouched(p, k, n, |d|, q);
      }
      PutElsewhere(c, now, p, k, n, d, Hash(page, c.bits));
    }
  }

  lemma {:induction false} FirstPageStays(c: Cache, now: nat, p: nat, n: nat, d: seq<byte>)
    requires Sized(c) && |d| == n * BLKSIZE && 1 <= n <= Pow2(Spread(c.bits))
    ensures Put(c, now, p, 0, d).entries[Hash(p * BLKSIZE, c.bits)] ==
            Entry(if c.ttl != 0 then now else 1, p * BLKSIZE, d[..BLKSIZE])
  {
    var i, first := Hash(p * BLKSIZE, c.bits), PutInPage(c, now, p * BLKSIZE, 0, d[..BLKSIZE]);
    PutFullPage(c, now, p * BLKSIZE, d[..BLKSIZE]);
    if n == 1 {
      assert d[..BLKSIZE] == d;
    } else {
      forall q | p + 1 <= q < p + 1 + (n - 1) ensures Hash(q * BLKSIZE, c.bits) != i {
        ConsecutivePagesDontCollide(c.bits, p, q);
      }
      PutElsewhere(first, now, p + 1, 0, n - 1, d[BLKSIZE..], i);
    }
  }

  lemma {:induction false} PageOfRest(d: seq<byte>, j: nat)
    requires 0 < j && j * BLKSIZE <= |d|
    ensures d[BLKSIZE..][(j - 1) * BLKSIZE..] == d[j * BLKSIZE..]
  {
  }

  lemma {:induction false} PageStays(c: Cache, now: nat, p: nat, n: nat, d: seq<byte>, j: nat)
    requires Sized(c) && |d| == n * BLKSIZE && j < n <= Pow2(Spread(c.bits))
    ensures Put(c, now, p, 0, d).entries[Hash((p + j) * BLKSIZE, c.bits)] ==
            Entry(if c.ttl != 0 then now else 1, (p + j) * BLKSIZE, d[j * BLKSIZE..][..BLKSIZE])
    decreases j
  {
    if j == 0 {
      FirstPageStays(c, now, p, n, d);
    } else {
      var first, rest := PutInPage(c, now, p * BLKSIZE, 0, d[..BLKSIZE]), d[BLKSIZE..];
      PageStays(first, now, p + 1, n - 1, rest, j - 1);
      PageOfRest(d, j);
      assert p + 1 + (j - 1) == p + j;
      assert Put(c, now, p, 0, d) == Put(first, now, p + 1, 0, rest);
    }
  }

  /** Whole pages stored together, no more of them than have different slots, are all found
      again until the time to live is over; without one, for ever. */
  lemma {:induction false} PutThenLookup(c: Cache, now: nat, p: nat, n: nat, d: seq<byte>, j: nat, later: nat)
    requires Sized(c) && (c.ttl != 0 ==> now != 0) && |d| == n * BLKSIZE && j < n <= Pow2(Spread(c.bits)) && now <= later
    ensures var r := Lookup(PutAt(c, now, p * BLKSIZE, d), later, (p + j) * BLKSIZE);
            && (r.Some? <==> c.ttl == 0 || later - now <= c.ttl)
            && (r.Some? ==> r.value == d[j * BLKSIZE..][..BLKSIZE])
  {
    PageStays(c, now, p, n, d, j);
    WholePages(p);
  }

  lemma {:induction false} PartOfPage(p: nat, k: nat)
    requires k < BLKSIZE
    ensures (p * BLKSIZE + k) / BLKSIZE == p && (p * BLKSIZE + k) % BLKSIZE == k
  {
  }

  /** Part of a page stored: a page that is found then is found with those bytes changed until
      its new time to live is over; one that is not is not. */
  lemma {:induction false} PartThenLookup(c: Cache, now: nat, p: nat, k: nat, d: seq<byte>, later: nat)
    requires Sized(c) && (c.ttl != 0 ==> now != 0) && 0 < |d| < BLKSIZE && k + |d| <= BLKSIZE && now <= later
    ensures var before, r := Lookup(c, now, p * BLKSIZE), Lookup(PutAt(c, now, p * BLKSIZE + k, d), later, p * BLKSIZE);
            && (r.Some? <==> before.Some? && (c.ttl == 0 || later - now <= c.ttl))
            && (r.Some? ==> |r.value| == BLKSIZE && forall i | 0 <= i < BLKSIZE ::
                  r.value[i] == if k <= i < k + |d| then d[i - k] else before.value[i])
  {
    PartOfPage(p, k);
  }
}
