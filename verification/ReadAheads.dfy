/** What readahead is for: it grows while reads follow one another, is given up when they do
    not, and what it has fetched answers the reads that come next. */
module ReadAheads {
  import opened Bytes
  import opened PageHash
  import opened PageCache
  import opened PageTable
  import opened Chunks
  import opened ReadOps
  import opened OpenFiles

  // How far ahead

  /** The first byte that a read has to ask the server for, if it has to. */
  ghost function Missing(c: Client, org: nat, cnt: nat, now: nat): nat
    requires c.cache.Some? ==> Sized(c.cache.value)
  {
    if c.cache.None? then org else CachedPart(c.cache.value, org, cnt, now)
  }

  ghost predicate AsksServer(c: Client, org: nat, cnt: nat, now: nat)
    requires c.cache.Some? ==> Sized(c.cache.value)
  {
    c.cache.None? || Missing(c, org, cnt, now) < PagesEnd(org, cnt)
  }

  /** At or a little behind where the last fetch ended: in the window of a page and what is read
      ahead, at least a page. */
  predicate InWindow(c: Client, off: nat) {
    c.raOffset <= off <= c.raOffset + BLKSIZE + if c.curRa < BLKSIZE then BLKSIZE else c.curRa
  }

  lemma {:induction false} NextRaIs(readahead: nat, c: Client, off: nat)
    requires RaOk(readahead, c.curRa) && readahead > 0
    ensures var cur := if c.curRa < BLKSIZE then BLKSIZE else c.curRa;
            NextRa(readahead, c.curRa, c.raOffset, off) == if InWindow(c, off) then Min(readahead, 2 * cur) else 0
    ensures RaOk(readahead, NextRa(readahead, c.curRa, c.raOffset, off))
  {
    var cur := if c.curRa < BLKSIZE then BLKSIZE else c.curRa;
    Pow2Values();
    assert IsPow2(cur);
    if readahead > cur {
      DoubleStaysBelow(cur, readahead);
    }
  }

  /** A read that asks the server doubles the readahead, from a page on and up to its limit,
      when it is in the window, and gives it up when it is not. */
  lemma {:induction false} ReadChangesRa(c: Client, readahead: nat, f: seq<byte>, org: nat, cnt: nat, now: nat,
                                         updatePos: bool)
    requires (c.cache.Some? ==> Sized(c.cache.value)) && RaOk(readahead, c.curRa) && readahead > 0
    ensures var c' := AfterRead(c, readahead, f, org, cnt, now, updatePos);
            var cur := if c.curRa < BLKSIZE then BLKSIZE else c.curRa;
            && RaOk(readahead, c'.curRa)
            && c'.curRa == if !AsksServer(c, org, cnt, now) then c.curRa
                           else if InWindow(c, Missing(c, org, cnt, now)) then Min(readahead, 2 * cur)
                           else 0
  {
    NextRaIs(readahead, c, Missing(c, org, cnt, now));
  }

  /** The window then starts where the fetch ended: behind what was asked for and read ahead, or
      at the end of the file; where the read started, when nothing came. */
  lemma {:induction false} ReadMovesWindow(c: Client, readahead: nat, f: seq<byte>, org: nat, cnt: nat, now: nat,
                                           updatePos: bool)
    requires c.cache.Some? ==> Sized(c.cache.value)
    ensures var c' := AfterRead(c, readahead, f, org, cnt, now, updatePos);
            var start := if c.cache.None? then org else PageStart(org);
            var asked := if c.cache.None? then org + cnt else PagesEnd(org, cnt);
            var end := if asked + c'.curRa < |f| then asked + c'.curRa else |f|;
            c'.raOffset == if !AsksServer(c, org, cnt, now) then asked
                           else if end > Missing(c, org, cnt, now) then end
                           else start
  {
  }

  /** A read, given as offset and length. */
  datatype Request = Request(org: nat, cnt: nat)

  /** The client after a sequence of reads. */
  ghost function AfterReads(c: Client, readahead: nat, f: seq<byte>, rs: seq<Request>, now: nat): (r: Client)
    requires c.cache.Some? ==> Sized(c.cache.value)
    ensures r.cache.Some? ==> Sized(r.cache.value)
    decreases |rs|
  {
    if rs == [] then c
    else AfterReads(AfterRead(c, readahead, f, rs[0].org, rs[0].cnt, now, true), readahead, f, rs[1..], now)
  }

  /** Every read asks the server, and for bytes that follow the ones before. */
  ghost predicate Sequential(c: Client, readahead: nat, f: seq<byte>, rs: seq<Request>, now: nat)
    requires c.cache.Some? ==> Sized(c.cache.value)
    decreases |rs|
  {
    rs == [] ||
    (&& AsksServer(c, rs[0].org, rs[0].cnt, now) && InWindow(c, Missing(c, rs[0].org, rs[0].cnt, now))
     && Sequential(AfterRead(c, readahead, f, rs[0].org, rs[0].cnt, now, true), readahead, f, rs[1..], now))
  }

  /** What is read ahead after n reads in sequence. */
  function Grown(readahead: nat, n: nat): nat {
    if n == 0 then 0 else Min(readahead, BLKSIZE * Pow2(n))
  }

  lemma {:induction false} GrowsOn(readahead: nat, n: nat)
    requires readahead >= BLKSIZE
    ensures var ra := Grown(readahead, n);
            Min(readahead, 2 * if ra < BLKSIZE then BLKSIZE else ra) == Grown(readahead, n + 1)
  {
    assert Pow2(n + 1) == 2 * Pow2(n);
  }

  lemma {:induction false} RunOfReads(c: Client, readahead: nat, f: seq<byte>, rs: seq<Request>, now: nat, n: nat)
    requires (c.cache.Some? ==> Sized(c.cache.value)) && RaOk(readahead, c.curRa) && readahead > 0
    requires c.curRa == Grown(readahead, n) && Sequential(c, readahead, f, rs, now)
    ensures AfterReads(c, readahead, f, rs, now).curRa == Grown(readahead, n + |rs|)
    decreases |rs|
  {
    if rs != [] {
      var c' := AfterRead(c, readahead, f, rs[0].org, rs[0].cnt, now, true);
      ReadChangesRa(c, readahead, f, rs[0].org, rs[0].cnt, now, true);
      GrowsOn(readahead, n);
      RunOfReads(c', readahead, f, rs[1..], now, n + 1);
    }
  }

  /** n reads in sequence, on a client that reads nothing ahead yet: it then reads 2^n pages
      ahead, or as many as the limit allows. */
  lemma {:induction false} ReadaheadGrows(c: Client, readahead: nat, f: seq<byte>, rs: seq<Request>, now: nat)
    requires (c.cache.Some? ==> Sized(c.cache.value)) && RaOk(readahead, 0) && readahead > 0 && c.curRa == 0
    requires Sequential(c, readahead, f, rs, now) && rs != []
    ensures AfterReads(c, readahead, f, rs, now).curRa == Min(readahead, BLKSIZE * Pow2(|rs|))
  {
    RunOfReads(c, readahead, f, rs, now, 0);
  }

  // What it is good for

  predicate Found(c: Cache, now: nat, q: nat)
    requires Sized(c)
  {
    Lookup(c, now, q * BLKSIZE).Some?
  }

  lemma {:induction false} AllFound(c: Cache, now: nat, p: nat, n: nat)
    requires Sized(c) && forall q: nat | p <= q < p + n :: Found(c, now, q)
    ensures CachedTo(c, now, p * BLKSIZE, n) == (p + n) * BLKSIZE
    decreases n
  {
    if n > 0 {
      assert Found(c, now, p);
      AllFound(c, now, p + 1, n - 1);
    }
  }

  lemma {:induction false} PagesAre(org: nat, cnt: nat)
    ensures PageStart(org) == org / BLKSIZE * BLKSIZE
    ensures PagesEnd(org, cnt) == (org / BLKSIZE + PagesOf(org, cnt)) * BLKSIZE
  {
    OffsetParts(org);
  }

  lemma {:induction false} PageIsFound(c: Cache, now: nat, p: nat, n: nat, d: seq<byte>, q: nat, later: nat)
    requires Sized(c) && (c.ttl != 0 ==> now != 0) && |d| == n * BLKSIZE && n <= Pow2(Spread(c.bits))
    requires now <= later && (c.ttl == 0 || later - now <= c.ttl) && p <= q < p + n
    ensures Found(PutAt(c, now, p * BLKSIZE, d), later, q)
  {
    var j: nat := q - p;
    PutThenLookup(c, now, p, n, d, j, later);
    assert p + j == q;
  }

  /** Whole pages that were stored together answer every read of them until their time to live
      is over. */
  lemma {:induction false} StoredPagesAnswer(c: Cache, now: nat, p: nat, n: nat, d: seq<byte>, org: nat, cnt: nat,
                                             later: nat)
    requires Sized(c) && (c.ttl != 0 ==> now != 0) && |d| == n * BLKSIZE && n <= Pow2(Spread(c.bits))
    requires now <= later && (c.ttl == 0 || later - now <= c.ttl)
    requires p <= org / BLKSIZE && org / BLKSIZE + PagesOf(org, cnt) <= p + n
    ensures CachedPart(PutAt(c, now, p * BLKSIZE, d), org, cnt, later) == PagesEnd(org, cnt)
  {
    var c', first, m := PutAt(c, now, p * BLKSIZE, d), org / BLKSIZE, PagesOf(org, cnt);
    PagesAre(org, cnt);
    forall q: nat | first <= q < first + m ensures Found(c', later, q) {
      PageIsFound(c, now, p, n, d, q, later);
    }
    AllFound(c', later, first, m);
  }

  /** So do whole pages that were written. */
  lemma {:induction false} WrittenPagesAnswer(c: Client, readahead: nat, readmax: nat, size: nat, p: nat, n: nat,
                                              data: seq<byte>, top: nat, now: nat, updatePos: bool,
                                              org: nat, cnt: nat, later: nat)
    requires c.cache.Some? && Sized(c.cache.value) && (c.cache.value.ttl != 0 ==> now != 0) && readmax > 0
    requires |data| == n * BLKSIZE && n <= Pow2(Spread(c.cache.value.bits))
    requires now <= later && (c.cache.value.ttl == 0 || later - now <= c.cache.value.ttl)
    requires p <= org / BLKSIZE && org / BLKSIZE + PagesOf(org, cnt) <= p + n
    ensures var c' := AfterWrite(c, p * BLKSIZE, data, top, now, updatePos);
            ReadCalls(c', readahead, readmax, org, cnt, later) == 0 && CountOf(c', size, org, cnt, later) == cnt
  {
    StoredPagesAnswer(c.cache.value, now, p, n, data, org, cnt, later);
  }

  lemma {:induction false} RaPages(readahead: nat, c: Client, off: nat) returns (r: nat)
    requires RaOk(readahead, c.curRa)
    ensures NextRa(readahead, c.curRa, c.raOffset, off) == r * BLKSIZE
  {
    var ra := NextRa(readahead, c.curRa, c.raOffset, off);
    if readahead == 0 || ra == 0 {
      r := 0;
    } else {
      NextRaIs(readahead, c, off);
      Pow2Values();
      var h: nat :| ra == Pow2(h);
      if h < 12 {
        Pow2Monotone(h + 1, 12);
      }
      LargePow2(h);
      r := ra / BLKSIZE;
    }
  }

  lemma {:induction false} PageOrder(a: nat, b: nat)
    ensures a * BLKSIZE <= b * BLKSIZE ==> a <= b
  {
  }

  lemma {:induction false} PagesInside(org: nat, cnt: nat, r: nat, org': nat, cnt': nat, room: nat)
    requires var end := PagesEnd(org, cnt) + r * BLKSIZE;
             && end - PageStart(org) <= room * BLKSIZE
             && PageStart(org) <= PageStart(org') && PagesEnd(org', cnt') <= end
    ensures var p, n, p' := org / BLKSIZE, PagesOf(org, cnt) + r, org' / BLKSIZE;
            && PagesEnd(org, cnt) + r * BLKSIZE == (p + n) * BLKSIZE
            && n <= room && p <= p' && p' + PagesOf(org', cnt') <= p + n
  {
    PagesAre(org, cnt);
    PagesAre(org', cnt');
    var p, n := org / BLKSIZE, PagesOf(org, cnt) + r;
    PageOrder(p, org' / BLKSIZE);
    PageOrder(org' / BLKSIZE + PagesOf(org', cnt'), p + n);
    PageOrder(n, room);
  }

  /** Such a read puts whole pages in the cache, the ones it asked for and the ones read
      ahead. */
  lemma {:induction false} FetchStoresPages(c: Client, readahead: nat, f: seq<byte>, org: nat, cnt: nat, now: nat,
                                            updatePos: bool, n: nat)
    requires c.cache.Some? && Sized(c.cache.value) && AsksServer(c, org, cnt, now)
    requires var end := PagesEnd(org, cnt) + NextRa(readahead, c.curRa, c.raOffset, Missing(c, org, cnt, now));
             end <= |f| && end == (org / BLKSIZE + n) * BLKSIZE
    ensures var c', p := AfterRead(c, readahead, f, org, cnt, now, updatePos), org / BLKSIZE;
            && (p + n) * BLKSIZE <= |f|
            && c'.cache == Some(PutAt(c.cache.value, now, p * BLKSIZE, f[p * BLKSIZE..(p + n) * BLKSIZE]))
  {
    PagesAre(org, cnt);
    var p, from, end := org / BLKSIZE, Missing(c, org, cnt, now), (org / BLKSIZE + n) * BLKSIZE;
    assert Top(|f|, p * BLKSIZE, from, end) == end;
    assert Between(f, p * BLKSIZE, end) == f[p * BLKSIZE..end];
  }

  /** A read that asks the server of a file that is long enough: what it read ahead then answers
      every read in it, without a call, until its time to live is over. */
  lemma {:induction false} ReadaheadAnswers(c: Client, readahead: nat, readmax: nat, f: seq<byte>, org: nat, cnt: nat,
                                            now: nat, updatePos: bool, org': nat, cnt': nat, later: nat)
    requires c.cache.Some? && Sized(c.cache.value) && RaOk(readahead, c.curRa) && readmax > 0
    requires AsksServer(c, org, cnt, now) && (c.cache.value.ttl != 0 ==> now != 0)
    requires now <= later && (c.cache.value.ttl == 0 || later - now <= c.cache.value.ttl)
    requires var end := PagesEnd(org, cnt) + NextRa(readahead, c.curRa, c.raOffset, Missing(c, org, cnt, now));
             && end <= |f| && end - PageStart(org) <= Pow2(Spread(c.cache.value.bits)) * BLKSIZE
             && PageStart(org) <= PageStart(org') && PagesEnd(org', cnt') <= end
    ensures var c' := AfterRead(c, readahead, f, org, cnt, now, updatePos);
            ReadCalls(c', readahead, readmax, org', cnt', later) == 0 && CountOf(c', |f|, org', cnt', later) == cnt'
  {
    var r := RaPages(readahead, c, Missing(c, org, cnt, now));
    var p, n := org / BLKSIZE, PagesOf(org, cnt) + r;
    PagesInside(org, cnt, r, org', cnt', Pow2(Spread(c.cache.value.bits)));
    FetchStoresPages(c, readahead, f, org, cnt, now, updatePos, n);
    StoredPagesAnswer(c.cache.value, now, p, n, f[p * BLKSIZE..(p + n) * BLKSIZE], org', cnt', later);
    var c' := AfterRead(c, readahead, f, org, cnt, now, updatePos);
    CachedAlone(c', readahead, readmax, f, org', cnt', later, updatePos);
  }
}
