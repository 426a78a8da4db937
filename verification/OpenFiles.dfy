/** An open file: the handle's page cache, readahead and position, and the server's file,
    which changes only through this handle. Reads, writes and truncations follow one
    another. */
module OpenFiles {
  import opened Bytes
  import opened Chunks
  import opened PageHash
  import opened PageCache
  import opened PageTable
  import opened ReadOps
  import opened WriteOps

  /** What the caller gets: an immediate refusal without a callback, or one callback. */
  datatype Outcome = Refused | NoMemory | IoError | Interrupted | Invalid | Done(count: int, data: seq<byte>)

  datatype Whence = FromStart | FromHere | FromEnd

  /** How far the n pages at `off`, `off` + 4096, ... are in the cache. */
  ghost function CachedTo(c: Cache, now: nat, off: nat, n: nat): (r: nat)
    requires Sized(c)
    ensures off <= r <= off + n * BLKSIZE
    decreases n
  {
    if n == 0 || Lookup(c, now, off).None? then off else CachedTo(c, now, off + BLKSIZE, n - 1)
  }

  /** The number a read of `cnt` bytes at `org` reports when the bytes from `start` to `from`
      came from the cache and more was asked for. */
  function ReadCount(size: nat, org: nat, cnt: nat, start: nat, from: nat): int {
    if size > from then Min(size, org + cnt) - org else start - org
  }

  /** The bytes a read should give. */
  function Slice(f: seq<byte>, org: nat, cnt: nat): seq<byte> {
    if org < |f| then f[org..Min(|f|, org + cnt)] else []
  }

  /** A read that was not answered by the cache alone reports the right number exactly when
      the file goes on after the cached part and reaches the read's start, or the read starts
      on a page boundary and is at or after the end of the file, or for no bytes. */
  lemma {:induction false} ReadCountIsRight(f: seq<byte>, org: nat, cnt: nat, start: nat, from: nat)
    requires start <= org && start <= from && (from > start ==> from <= |f|)
    ensures ReadCount(|f|, org, cnt, start, from) == |Slice(f, org, cnt)| <==>
            (from < |f| && org <= |f|) || (org == start && (|f| <= org || cnt == 0))
  {
  }

  lemma {:induction false} PatchSame(f: seq<byte>, off: nat, n: nat)
    requires off + n <= |f|
    ensures Patch(f, off, f[off..off + n]) == f
  {
  }

  /** What the caller is told when calls were sent and some failed. */
  function FailureOf(fl: Flags): (o: Outcome)
    ensures (o.NoMemory? <==> fl.oom) && (o.IoError? <==> fl.error && !fl.oom) && !o.Done?
  {
    if fl.oom then NoMemory else if fl.error then IoError else Interrupted
  }

  /** The client's state for an open file. */
  datatype Client = Client(cache: Option<Cache>, raOffset: nat, curRa: nat, position: nat)

  /** Readahead starts with a page, doubles below its limit for a read that follows the last
      one, and is given up for any other. */
  function NextRa(readahead: nat, curRa: nat, raOffset: nat, off: nat): nat {
    var cur := if curRa < BLKSIZE then BLKSIZE else curRa;
    if readahead == 0 then curRa
    else if !(raOffset <= off <= raOffset + cur + BLKSIZE) then 0
    else if readahead > cur then 2 * cur
    else cur
  }

  /** How far a read gets that has the bytes to `from` and asks for the rest to `end`. */
  function Top(size: nat, start: nat, from: nat, end: nat): nat {
    if Min(size, end) > from then Min(size, end) else start
  }

  lemma {:induction false} TopCount(size: nat, org: nat, cnt: nat, start: nat, from: nat, end: nat)
    requires start <= org && org + cnt <= end && start <= from && (from < end || (from == end == start))
    ensures Min(Top(size, start, from, end), org + cnt) - org == ReadCount(size, org, cnt, start, from)
  {
  }

  function Between(f: seq<byte>, start: nat, m: nat): seq<byte> {
    if start < m <= |f| then f[start..m] else []
  }

  /** The client after a read that got as far as `top`: the bytes are in the cache. */
  function Stored(c: Client, f: seq<byte>, start: nat, top: nat, last: nat, now: nat, updatePos: bool): Client
    requires c.cache.Some? ==> Sized(c.cache.value)
  {
    c.(cache := if c.cache.None? then None else Some(PutAt(c.cache.value, now, start, Between(f, start, top))),
       raOffset := top,
       position := if updatePos then Min(top, last) else c.position)
  }

  /** The client after a read that the server had to be asked for, with some read ahead. */
  function Fetched(c: Client, readahead: nat, f: seq<byte>, start: nat, from: nat, end: nat, last: nat, now: nat,
                   updatePos: bool): Client
    requires c.cache.Some? ==> Sized(c.cache.value)
  {
    var ra := NextRa(readahead, c.curRa, c.raOffset, from);
    Stored(c.(curRa := ra), f, start, Top(|f|, start, from, end + ra), last, now, updatePos)
  }

  lemma {:induction false} FetchedIsStored(c: Client, c': Client, readahead: nat, f: seq<byte>, start: nat, from: nat,
                                           end: nat, last: nat, now: nat, updatePos: bool, top: nat)
    requires c.cache.Some? ==> Sized(c.cache.value)
    requires c' == c.(curRa := NextRa(readahead, c.curRa, c.raOffset, from)) && top == Top(|f|, start, from, end + c'.curRa)
    ensures Stored(c', f, start, top, last, now, updatePos) ==
            Fetched(c, readahead, f, start, from, end, last, now, updatePos)
  {
  }

  function PageStart(org: nat): nat {
    org - org % BLKSIZE
  }

  /** The pages that a read of `cnt` bytes at `org` touches, once both ends are aligned. */
  function PagesOf(org: nat, cnt: nat): (n: nat)
    ensures PageStart(org) <= org && org + cnt <= PageStart(org) + n * BLKSIZE < org + cnt + BLKSIZE
    ensures n == 0 ==> cnt == 0
  {
    (org % BLKSIZE + cnt + BLKSIZE - 1) / BLKSIZE
  }

  /** How far the cache has the pages of a read. */
  ghost function CachedPart(c: Cache, org: nat, cnt: nat, now: nat): nat
    requires Sized(c)
  {
    CachedTo(c, now, PageStart(org), PagesOf(org, cnt))
  }

  function PagesEnd(org: nat, cnt: nat): nat {
    PageStart(org) + PagesOf(org, cnt) * BLKSIZE
  }

  /** The number a read reports. */
  ghost function CountOf(c: Client, size: nat, org: nat, cnt: nat, now: nat): int
    requires c.cache.Some? ==> Sized(c.cache.value)
  {
    if c.cache.None? then ReadCount(size, org, cnt, org, org)
    else if CachedPart(c.cache.value, org, cnt, now) == PagesEnd(org, cnt) then cnt
    else ReadCount(size, org, cnt, PageStart(org), CachedPart(c.cache.value, org, cnt, now))
  }

  /** The client after a read that succeeds. */
  ghost function AfterRead(c: Client, readahead: nat, f: seq<byte>, org: nat, cnt: nat, now: nat, updatePos: bool): Client
    requires c.cache.Some? ==> Sized(c.cache.value)
  {
    if c.cache.None? then Fetched(c, readahead, f, org, org, org + cnt, org + cnt, now, updatePos)
    else
      var from, end := CachedPart(c.cache.value, org, cnt, now), PagesEnd(org, cnt);
      if from == end then c.(raOffset := end, position := if updatePos then org + cnt else c.position)
      else Fetched(c, readahead, f, PageStart(org), from, end, org + cnt, now, updatePos)
  }

  /** A read that moves the position moves it by the number it reports. */
  lemma {:induction false} ReadPosition(c: Client, readahead: nat, f: seq<byte>, org: nat, cnt: nat, now: nat,
                                        updatePos: bool)
    requires c.cache.Some? ==> Sized(c.cache.value)
    ensures AfterRead(c, readahead, f, org, cnt, now, updatePos).position ==
            if updatePos then org + CountOf(c, |f|, org, cnt, now) else c.position
  {
    var start, from, end := org, org, org + cnt;
    if c.cache.Some? {
      start, from, end := PageStart(org), CachedPart(c.cache.value, org, cnt, now), PagesEnd(org, cnt);
    }
    if c.cache.None? || from < end {
      TopCount(|f|, org, cnt, start, from, end + NextRa(readahead, c.curRa, c.raOffset, from));
    }
  }

  /** The calls that a read has to send. */
  ghost function ReadCalls(c: Client, readahead: nat, readmax: nat, org: nat, cnt: nat, now: nat): nat
    requires readmax > 0 && (c.cache.Some? ==> Sized(c.cache.value))
  {
    if c.cache.None? then CallsFor(cnt + NextRa(readahead, c.curRa, c.raOffset, org), readmax)
    else
      var from, end := CachedPart(c.cache.value, org, cnt, now), PagesEnd(org, cnt);
      if from >= end then 0 else CallsFor(end - from + NextRa(readahead, c.curRa, c.raOffset, from), readmax)
  }

  /** A read that the cache answers alone sends nothing. */
  lemma {:induction false} CachedAlone(c: Client, readahead: nat, readmax: nat, f: seq<byte>, org: nat, cnt: nat, now: nat,
                                       updatePos: bool)
    requires readmax > 0 && c.cache.Some? && Sized(c.cache.value)
    requires CachedPart(c.cache.value, org, cnt, now) == PagesEnd(org, cnt)
    ensures CountOf(c, |f|, org, cnt, now) == cnt && ReadCalls(c, readahead, readmax, org, cnt, now) == 0
    ensures var end := PagesEnd(org, cnt);
            AfterRead(c, readahead, f, org, cnt, now, updatePos) ==
            c.(raOffset := end, position := if updatePos then org + cnt else c.position)
  {
  }

  /** Any other read of a cached file asks for what follows the cached part. */
  lemma {:induction false} NotCachedAlone(c: Client, readahead: nat, readmax: nat, f: seq<byte>, org: nat, cnt: nat,
                                          now: nat, updatePos: bool, start: nat, from: nat, count: nat)
    requires readmax > 0 && c.cache.Some? && Sized(c.cache.value)
    requires start == PageStart(org) && count == PagesOf(org, cnt) * BLKSIZE
    requires from == CachedPart(c.cache.value, org, cnt, now) < start + count
    ensures CountOf(c, |f|, org, cnt, now) == ReadCount(|f|, org, cnt, start, from)
    ensures ReadCalls(c, readahead, readmax, org, cnt, now) ==
            CallsFor(start + count + NextRa(readahead, c.curRa, c.raOffset, from) - from, readmax)
    ensures AfterRead(c, readahead, f, org, cnt, now, updatePos) ==
            Fetched(c, readahead, f, start, from, start + count, org + cnt, now, updatePos)
  {
  }

  /** The client after a write that succeeds and has replies for the bytes up to `top`. */
  function AfterWrite(c: Client, off: nat, data: seq<byte>, top: nat, now: nat, updatePos: bool): Client
    requires c.cache.Some? ==> Sized(c.cache.value)
  {
    c.(cache := if c.cache.None? then None else Some(PutAt(c.cache.value, now, off, data)),
       position := if updatePos then top else c.position)
  }

  /** The transfer size the mount settles on, or none when the server's limit is too small. */
  function TransferSize(limit: nat): (r: Option<nat>)
    ensures r.Some? <==> limit >= 8192
    ensures r.Some? ==> 8192 <= r.value <= 0x10_0000 && r.value <= limit
    ensures r.Some? ==> r.value == limit || r.value == 0x10_0000
  {
    if limit > 0x10_0000 then Some(0x10_0000) else if limit < 8192 then None else Some(limit)
  }

  function Resize(f: seq<byte>, n: nat): (g: seq<byte>)
    ensures |g| == n && forall i :: 0 <= i < n ==> g[i] == OldByte(f, i)
  {
    seq(n, i => OldByte(f, i))
  }

  lemma {:induction false} BoundedIsOldOrNew(f0: seq<byte>, f: seq<byte>, w: Writing)
    requires Bounded(f0, f, w)
    ensures OldOrNew(f0, f, w.offset, w.data)
  {
    forall x | 0 <= x < |f|
      ensures f[x] == OldByte(f0, x) || (w.offset <= x < End(w) && f[x] == w.data[x - w.offset])
    {
      assert ByteOk(f0, f, w, x);
    }
  }

  method SendAll(f0: seq<byte>, off: nat, data: seq<byte>, writemax: nat, sendable: nat, turns: nat -> WriteTurn)
    returns (flags: Flags, maxOffset: nat, sent: bool, f: seq<byte>, ghost claims: seq<nat>)
    requires writemax > 0
    ensures (!sent ==> f == f0) && OldOrNew(f0, f, off, data)
    ensures sent && !flags.Any() ==>
              f == Patch(f0, off, data) && Furthest(claims, off + |data|, maxOffset) &&
              (maxOffset == off + |data| <==> !Overclaimed(claims, off + |data|))
    ensures Overclaimed(claims, off + |data|) ==> SomeOverclaims(turns)
    ensures var needed := CallsFor(|data|, writemax);
            && (sent <==> sendable > 0) && (sent && sendable < needed ==> flags.oom)
            && BlamedWrite(Flags(sendable < needed, false, false), flags, turns)
  {
    var calls, ok := Issue(off, |data|, writemax, sendable);
    if |calls| == 0 {
      return Flags(true, false, false), off, false, f0, [];
    }
    var op := new WriteOp(off, data, calls, ok);
    StartWrite(f0, op.Value());
    f := DrainWrite(op, f0, turns);
    flags, maxOffset, sent, claims := op.flags, op.maxOffset, true, op.claims;
    BoundedIsOldOrNew(f0, f, op.Value());
    if !flags.Any() {
      FinishedWrite(f0, f, op.Value());
    }
  }

  /** The n bytes of the file at `org`, none if n is not positive. */
  function Delivered(f: seq<byte>, org: nat, n: int): seq<byte> {
    if 0 < n && org + n <= |f| then f[org..org + n] else []
  }

  lemma {:induction false} SliceOfSlice(f: seq<byte>, a: nat, b: nat, i: nat, j: nat)
    requires a <= i <= j <= b <= |f|
    ensures f[a..b][i - a..j - a] == f[i..j]
  {
    forall k | 0 <= k < j - i ensures f[a..b][i - a..j - a][k] == f[i..j][k] {
    }
  }

  /** The cached bytes from `start` to `m` are the file's, so storing them again is no change
      of the file. */
  lemma {:induction false} StoreIsCoherent(c: Cache, now: nat, f: seq<byte>, start: nat, m: nat)
    requires Coherent(c, now, f) && start <= m && (m > start ==> m <= |f|)
    ensures Coherent(PutAt(c, now, start, if m > start then f[start..m] else []), now, f)
  {
    var d := if m > start then f[start..m] else [];
    PutAtKeepsCoherence(c, now, start, d, f);
    if m > start {
      PatchSame(f, start, m - start);
    }
  }

  /** Whether the calls of a read could be sent, and which failures are flagged: each has
      some turn to blame, or too few calls that can be sent. */
  ghost predicate FetchedWith(sent: bool, fl: Flags, memory: bool, sendable: nat, needed: nat, turns: nat -> Turn) {
    && (!sent ==> !memory || sendable == 0 < needed)
    && (sent ==> (sendable == 0 ==> needed == 0) && (sendable < needed ==> fl.oom))
    && Blamed(Flags(sendable < needed, false, false), fl, turns)
  }

  /** Why a read ended as it did: it was refused for lack of memory or because nothing could
      be sent; it failed with the first of the failures flagged, and each of those has some
      turn to blame, or too few calls that can be sent; otherwise it is done. */
  ghost predicate Explained(o: Outcome, fl: Flags, memory: bool, sendable: nat, needed: nat, turns: nat -> Turn) {
    && FetchedWith(!o.Refused?, fl, memory, sendable, needed, turns)
    && (!o.Refused? ==> if fl.Any() then o == FailureOf(fl) else o.Done?)
  }

  ghost predicate ExplainedWrite(o: Outcome, fl: Flags, sendable: nat, needed: nat, turns: nat -> WriteTurn) {
    && (o.Refused? <==> sendable == 0)
    && (!o.Refused? && sendable < needed ==> fl.oom) && BlamedWrite(Flags(sendable < needed, false, false), fl, turns)
    && (!o.Refused? ==> if fl.Any() then o == FailureOf(fl) else o.Done?)
  }

  /** Readahead is off, or some power of two of at least a page; what is read ahead now is
      nothing or a smaller one. */
  ghost predicate RaOk(readahead: nat, curRa: nat) {
    (readahead == 0 || (readahead >= BLKSIZE && IsPow2(readahead))) &&
    (curRa == 0 || (curRa <= readahead && IsPow2(curRa)))
  }

  lemma {:induction false} DoubleStaysBelow(a: nat, b: nat)
    requires IsPow2(a) && IsPow2(b) && a < b
    ensures IsPow2(2 * a) && 2 * a <= b
  {
    var x: nat :| a == Pow2(x);
    var y: nat :| b == Pow2(y);
    assert 2 * a == Pow2(x + 1);
    if y <= x {
      Pow2Monotone(y, x);
    } else {
      Pow2Monotone(x + 1, y);
    }
  }

  ghost predicate InBuffer(f: seq<byte>, start: nat, from: nat, count: nat, b: array?<byte>)
    reads b
  {
    start <= from <= start + count &&
    (b != null ==> b.Length >= count) &&
    (from > start ==> b != null && from <= |f| && b[..from - start] == f[start..from])
  }

  /** The bytes from `start` to `off` are in the buffer; there is none before the first
      page. */
  ghost predicate Prefetched(f: seq<byte>, start: nat, off: nat, count: nat, buffer: array?<byte>)
    reads buffer
  {
    start <= off <= start + count &&
    if off == start then buffer == null
    else buffer != null && buffer.Length == count && off <= |f| && buffer[..off - start] == f[start..off]
  }

  /** A larger buffer with the same bytes in front, when one is needed. */
  method Enlarge(f: seq<byte>, start: nat, from: nat, had: nat, count: nat, cnt: nat, ra: nat, readmax: nat,
                 buffer: array?<byte>, memory: bool)
    returns (ok: bool, b: array?<byte>)
    requires Prefetched(f, start, from, had, buffer) && count == had + ra && cnt <= had
    ensures ok ==> InBuffer(f, start, from, count, b)
    ensures ok && b == null ==> count <= readmax && count == cnt
    ensures b == buffer || (b != null && fresh(b))
    ensures memory ==> ok
  {
    b := buffer;
    if (count > readmax || count > cnt) && (b == null || ra > 0) {
      if !memory {
        return false, b;
      }
      b := new byte[count + ra];
      if buffer != null {
        forall k | 0 <= k < had {
          b[k] := buffer[k];
        }
        assert b[..from - start] == buffer[..from - start];
      }
    }
    return true, b;
  }

  lemma {:induction false} StartRead(f: seq<byte>, r: Reading)
    requires r.offset <= r.from <= r.offset + r.count && r.maxOffset == r.offset
    requires Inside(r.calls, r.from, r.offset + r.count)
    requires r.buf.Some? ==> |r.buf.value| >= r.count
    requires r.buf.None? ==> r.from == r.offset && r.calls == [Chunk(r.offset, r.count)]
    requires r.from > r.offset ==> r.from <= |f| && r.buf.value[..r.from - r.offset] == f[r.offset..r.from]
    requires !r.failed ==> forall x :: r.from <= x < r.offset + r.count ==> Covered(r.calls, x)
    ensures Invariant(f, r)
  {
    if !r.failed {
      forall x | r.from <= x < Limit(f, r) ensures Served(f, r, x) {
        assert Covered(r.calls, x);
      }
    }
  }

  method Ask(f: seq<byte>, start: nat, from: nat, count: nat, buffer: array?<byte>, readmax: nat, sendable: nat)
    returns (op: ReadOp?)
    requires InBuffer(f, start, from, count, buffer) && readmax > 0 && (buffer == null ==> count <= readmax)
    ensures op != null ==>
              fresh(op) && op.Valid(f) && op.offset == start && op.count == count && op.from == from &&
              op.buffer == buffer
    ensures op == null <==> sendable == 0
    ensures op != null ==> op.flags == Flags(sendable < CallsFor(start + count - from, readmax), false, false)
  {
    var calls, ok := Issue(from, start + count - from, readmax, sendable);
    if |calls| == 0 {
      return null;
    }
    op := new ReadOp(start, count, from, calls, buffer, ok);
    assert from > start ==> buffer[..][..from - start] == buffer[..from - start];
    StartRead(f, op.Value());
  }

  /** Asks for everything from `from` on and waits for all the replies. */
  method Fetch(f: seq<byte>, start: nat, from: nat, count: nat, buffer: array?<byte>, readmax: nat, sendable: nat,
               turns: nat -> Turn)
    returns (sent: bool, flags: Flags, maxOffset: nat, b: array?<byte>)
    requires InBuffer(f, start, from, count, buffer) && readmax > 0 && (buffer == null ==> count <= readmax)
    modifies buffer
    ensures sent && !flags.Any() ==>
              maxOffset == Top(|f|, start, from, start + count) && InBuffer(f, start, maxOffset, count, b)
    ensures b == buffer || (b != null && fresh(b))
    ensures FetchedWith(sent, flags, true, sendable, CallsFor(start + count - from, readmax), turns)
  {
    var op := Ask(f, start, from, count, buffer, readmax, sendable);
    if op == null {
      return false, Flags(true, false, false), start, buffer;
    }
    Drain(op, f, turns);
    sent, flags, maxOffset, b := true, op.flags, op.maxOffset, op.buffer;
    if !flags.Any() {
      FinishedRead(f, op.Value());
      assert maxOffset > start ==> b[..maxOffset - start] == b[..][..maxOffset - start];
    }
  }

  lemma {:induction false} AppendPage(f: seq<byte>, start: nat, off: nat, had: seq<byte>, page: Page)
    requires start <= off && PageIs(f, off, page) && off - start + BLKSIZE <= |had|
    requires off > start ==> had[..off - start] == f[start..off]
    ensures Patch(had, off - start, page)[..off + BLKSIZE - start] == f[start..off + BLKSIZE]
  {
    var b := Patch(had, off - start, page);
    forall k | 0 <= k < off + BLKSIZE - start ensures b[k] == f[start + k] {
      if k < off - start {
        assert had[..off - start][k] == f[start..off][k];
      } else {
        assert page[k - (off - start)] == f[off + (k - (off - start))];
      }
    }
    assert b[..off + BLKSIZE - start] == f[start..off + BLKSIZE];
  }

  method AddPage(f: seq<byte>, start: nat, off: nat, count: nat, buffer: array?<byte>, page: Page, memory: bool)
    returns (ok: bool, b: array?<byte>)
    requires Prefetched(f, start, off, count, buffer) && PageIs(f, off, page) && off + BLKSIZE <= start + count
    modifies buffer
    ensures ok ==> Prefetched(f, start, off + BLKSIZE, count, b)
    ensures b == buffer || (b != null && fresh(b))
    ensures memory ==> ok
  {
    b := buffer;
    if b == null {
      if !memory {
        return false, null;
      }
      b := new byte[count];
    }
    ghost var had := b[..];
    assert off > start ==> had[..off - start] == f[start..off] by {
      assert had[..off - start] == b[..off - start];
    }
    AppendPage(f, start, off, had, page);
    CopyBytes(b, off - start, page);
    assert b[..off + BLKSIZE - start] == b[..][..off + BLKSIZE - start];
    return true, b;
  }

  class OpenFile {
    const cache: Pages?
    const readahead: nat
    const readmax: nat
    const writemax: nat
    var file: seq<byte>
    var raOffset: nat
    var curRa: nat
    var position: nat

    ghost function Table(): set<object> {
      if cache == null then {} else {cache.entries}
    }

    ghost function State(): Client
      reads this, Table()
    {
      Client(if cache == null then None else Some(cache.Value()), raOffset, curRa, position)
    }

    /** The invariant: the cache agrees with the file. */
    ghost predicate Valid(now: nat)
      reads this, Table()
    {
      readmax > 0 && writemax > 0 && RaOk(readahead, curRa) &&
      (cache != null ==> cache.Valid() && Coherent(cache.Value(), now, file))
    }

    constructor (file: seq<byte>, cache: Pages?, readahead: nat, readmax: nat, writemax: nat)
      requires readmax > 0 && writemax > 0 && RaOk(readahead, 0)
      requires cache != null ==> cache.Valid() && forall now, f :: Coherent(cache.Value(), now, f)
      ensures this.cache == cache && this.file == file && forall now :: Valid(now)
    {
      this.file, this.cache, this.readahead := file, cache, readahead;
      this.readmax, this.writemax := readmax, writemax;
      raOffset, curRa, position := 0, 0, 0;
    }

    /** Readahead doubles while the reads follow one another, and never passes its limit. */
    method Ahead(off: nat) returns (ra: nat)
      requires RaOk(readahead, curRa)
      modifies this`curRa
      ensures ra == curRa == NextRa(readahead, old(curRa), raOffset, off) && RaOk(readahead, curRa)
    {
      if readahead != 0 {
        if curRa < BLKSIZE {
          curRa := BLKSIZE;
          Pow2Values();
        }
        if raOffset <= off <= raOffset + curRa + BLKSIZE {
          if readahead > curRa {
            DoubleStaysBelow(curRa, readahead);
            curRa := 2 * curRa;
          }
        } else {
          curRa := 0;
        }
      }
      ra := curRa;
    }

    /** The end of a read without failure: what was read is stored in the cache, and the
        caller gets the part it asked for. */
    method Report(start: nat, org: nat, cnt: nat, count: nat, maxOffset: nat, b: array?<byte>, now: nat, updatePos: bool)
      returns (o: Outcome)
      requires Valid(now) && InBuffer(file, start, maxOffset, count, b) && start <= org
      modifies this`raOffset, this`position, Table()
      ensures Valid(now)
      ensures var n := Min(maxOffset, org + cnt) - org; o == Done(n, Delivered(file, org, n))
      ensures State() == Stored(old(State()), file, start, maxOffset, org + cnt, now, updatePos)
    {
      raOffset := maxOffset;
      var bytes := if b == null || maxOffset == start then [] else b[..maxOffset - start];
      assert bytes == Between(file, start, maxOffset);
      if cache != null {
        StoreIsCoherent(cache.Value(), now, file, start, maxOffset);
        cache.Store(now, start, bytes);
      }
      var top := Min(maxOffset, org + cnt);
      if top > org {
        SliceOfSlice(file, start, maxOffset, org, top);
      }
      if updatePos {
        position := top;
      }
      o := Done(top - org, if top > org then bytes[org - start..top - start] else []);
    }

    /** Copies pages from the cache until one is missing. */
    method FromCache(start: nat, pages: nat, now: nat, memory: bool)
      returns (ok: bool, buffer: array?<byte>, off: nat)
      requires Valid(now) && cache != null
      ensures start <= off <= start + pages * BLKSIZE
      ensures ok ==> off == CachedTo(cache.Value(), now, start, pages)
      ensures ok ==> Prefetched(file, start, off, pages * BLKSIZE, buffer)
      ensures buffer != null ==> fresh(buffer)
      ensures memory ==> ok
    {
      ok, buffer, off := true, null, start;
      var n: nat := pages;
      while n > 0
        invariant n <= pages && off == start + (pages - n) * BLKSIZE
        invariant CachedTo(cache.Value(), now, off, n) == CachedTo(cache.Value(), now, start, pages)
        invariant Prefetched(file, start, off, pages * BLKSIZE, buffer)
        invariant buffer != null ==> fresh(buffer)
      {
        var page := cache.Get(now, off);
        if page.None? {
          return;
        }
        HitIsTruth(cache.Value(), now, off, file);
        ok, buffer := AddPage(file, start, off, pages * BLKSIZE, buffer, page.value, memory);
        if !ok {
          return;
        }
        off, n := off + BLKSIZE, n - 1;
      }
    }

    /** Asks the server for what the cache does not have, and for some more. */
    method Obtain(start: nat, cnt: nat, count: nat, from: nat, buffer: array?<byte>, memory: bool, sendable: nat,
                  turns: nat -> Turn)
      returns (sent: bool, flags: Flags, maxOffset: nat, b: array?<byte>, ra: nat)
      requires RaOk(readahead, curRa) && readmax > 0 && Prefetched(file, start, from, count, buffer) && cnt <= count
      modifies this`curRa, buffer
      ensures ra == curRa == NextRa(readahead, old(curRa), raOffset, from) && RaOk(readahead, curRa)
      ensures sent && !flags.Any() ==>
                maxOffset == Top(|file|, start, from, start + count + ra) &&
                InBuffer(file, start, maxOffset, count + ra, b)
      ensures FetchedWith(sent, flags, memory, sendable, CallsFor(start + count + ra - from, readmax), turns)
    {
      ra := Ahead(from);
      sent, b := Enlarge(file, start, from, count, count + ra, cnt, ra, readmax, buffer, memory);
      if !sent {
        return false, Flags(false, false, false), start, b, ra;
      }
      sent, flags, maxOffset, b := Fetch(file, start, from, count + ra, b, readmax, sendable, turns);
    }

    /** The callback: a failure, or what was read. */
    method Answer(start: nat, org: nat, cnt: nat, count: nat, sent: bool, flags: Flags, maxOffset: nat,
                  b: array?<byte>, now: nat, updatePos: bool)
      returns (o: Outcome)
      requires Valid(now) && start <= org && (sent && !flags.Any() ==> InBuffer(file, start, maxOffset, count, b))
      modifies this`raOffset, this`position, Table()
      ensures Valid(now) && (!sent ==> o == Refused) && (sent && flags.Any() ==> o == FailureOf(flags))
      ensures sent && !flags.Any() ==>
                (var n := Min(maxOffset, org + cnt) - org; o == Done(n, Delivered(file, org, n))) &&
                State() == Stored(old(State()), file, start, maxOffset, org + cnt, now, updatePos)
      ensures !o.Done? ==> State() == old(State())
    {
      if !sent {
        return Refused;
      }
      if flags.oom {
        return NoMemory;
      }
      if flags.error {
        return IoError;
      }
      if flags.cancel {
        return Interrupted;
      }
      o := Report(start, org, cnt, count, maxOffset, b, now, updatePos);
    }

    /** The callback of a read that found the client as `c` and read `ra` bytes ahead. */
    method AnswerFetch(start: nat, org: nat, cnt: nat, count: nat, from: nat, ghost c: Client, ra: nat, sent: bool,
                       flags: Flags, maxOffset: nat, b: array?<byte>, now: nat, updatePos: bool)
      returns (o: Outcome)
      requires Valid(now) && start <= org && org + cnt <= start + count
      requires start <= from && (from < start + count || (count == 0 && from == start))
      requires State() == c.(curRa := ra) && ra == NextRa(readahead, c.curRa, c.raOffset, from)
      requires sent && !flags.Any() ==>
                 maxOffset == Top(|file|, start, from, start + count + ra) &&
                 InBuffer(file, start, maxOffset, count + ra, b)
      modifies this`raOffset, this`position, Table()
      ensures Valid(now)
      ensures if !sent then o == Refused else if flags.Any() then o == FailureOf(flags) else o.Done?
      ensures o.Done? ==> var n := ReadCount(|file|, org, cnt, start, from); o == Done(n, Delivered(file, org, n))
      ensures o.Done? ==> State() == Fetched(c, readahead, file, start, from, start + count, org + cnt, now, updatePos)
      ensures !o.Done? ==> State() == old(State())
    {
      if sent && !flags.Any() {
        TopCount(|file|, org, cnt, start, from, start + count + ra);
        FetchedIsStored(c, State(), readahead, file, start, from, start + count, org + cnt, now, updatePos, maxOffset);
      }
      o := Answer(start, org, cnt, count + ra, sent, flags, maxOffset, b, now, updatePos);
    }

    /** Asks the server for what the cache does not have, and reports. */
    method FetchRest(start: nat, org: nat, cnt: nat, count: nat, from: nat, buffer: array?<byte>, now: nat,
                     updatePos: bool, memory: bool, sendable: nat, turns: nat -> Turn)
      returns (o: Outcome, ghost fl: Flags)
      requires Valid(now) && Prefetched(file, start, from, count, buffer) && start <= org && org + cnt <= start + count
      requires from < start + count || count == 0
      modifies this`raOffset, this`curRa, this`position, Table(), buffer
      ensures Valid(now)
      ensures o.Done? ==> var n := ReadCount(|file|, org, cnt, start, from); o == Done(n, Delivered(file, org, n))
      ensures o.Done? ==>
                State() == Fetched(old(State()), readahead, file, start, from, start + count, org + cnt, now, updatePos)
      ensures !o.Done? ==> State() == old(State()).(curRa := curRa)
      ensures Explained(o, fl, memory, sendable,
                        CallsFor(start + count + NextRa(readahead, old(curRa), old(raOffset), from) - from, readmax), turns)
    {
      ghost var c := State();
      var sent, flags, maxOffset, b, ra := Obtain(start, cnt, count, from, buffer, memory, sendable, turns);
      fl := flags;
      o := AnswerFetch(start, org, cnt, count, from, c, ra, sent, flags, maxOffset, b, now, updatePos);
    }

    /** A read that the cache answers alone. */
    method FromCacheAlone(start: nat, off: nat, org: nat, cnt: nat, buffer: array?<byte>, updatePos: bool)
      returns (o: Outcome)
      requires start <= org && org + cnt <= off && Prefetched(file, start, off, off - start, buffer)
      modifies this`raOffset, this`position
      ensures o == Done(cnt, Delivered(file, org, cnt))
      ensures raOffset == off && position == if updatePos then org + cnt else old(position)
    {
      raOffset := off;
      if updatePos {
        position := org + cnt;
      }
      if cnt == 0 {
        return Done(0, []);
      }
      SliceOfSlice(file, start, off, org, org + cnt);
      assert buffer[..off - start] == buffer[..];
      o := Done(cnt, buffer[..][org - start..org - start + cnt]);
    }

    /** A read of a cached file that needs the server, too. */
    method FromCacheAndServer(org: nat, cnt: nat, off: nat, buffer: array?<byte>, now: nat, updatePos: bool, memory: bool,
                              sendable: nat, turns: nat -> Turn)
      returns (o: Outcome, ghost fl: Flags)
      requires Valid(now) && cache != null
      requires Prefetched(file, PageStart(org), off, PagesOf(org, cnt) * BLKSIZE, buffer)
      requires off == CachedPart(cache.Value(), org, cnt, now) < PagesEnd(org, cnt)
      modifies this`raOffset, this`curRa, this`position, Table(), buffer
      ensures Valid(now)
      ensures o.Done? ==> var n := CountOf(old(State()), |file|, org, cnt, now); o == Done(n, Delivered(file, org, n))
      ensures o.Done? ==> State() == AfterRead(old(State()), readahead, file, org, cnt, now, updatePos)
      ensures !o.Done? ==> State() == old(State()).(curRa := curRa)
      ensures Explained(o, fl, memory, sendable, ReadCalls(old(State()), readahead, readmax, org, cnt, now), turns)
    {
      var start, count := PageStart(org), PagesOf(org, cnt) * BLKSIZE;
      NotCachedAlone(State(), readahead, readmax, file, org, cnt, now, updatePos, start, off, count);
      o, fl := FetchRest(start, org, cnt, count, off, buffer, now, updatePos, memory, sendable, turns);
    }

    method PreadCached(org: nat, cnt: nat, now: nat, updatePos: bool, memory: bool, sendable: nat, turns: nat -> Turn)
      returns (o: Outcome, ghost fl: Flags)
      requires Valid(now) && cache != null
      modifies this`raOffset, this`curRa, this`position, Table()
      ensures Valid(now)
      ensures o.Done? ==> var n := CountOf(old(State()), |file|, org, cnt, now); o == Done(n, Delivered(file, org, n))
      ensures o.Done? ==> State() == AfterRead(old(State()), readahead, file, org, cnt, now, updatePos)
      ensures !o.Done? ==> State() == old(State()).(curRa := curRa)
      ensures Explained(o, fl, memory, sendable, ReadCalls(old(State()), readahead, readmax, org, cnt, now), turns)
    {
      fl := Flags(false, false, false);
      ghost var c := State();
      var start := PageStart(org);
      var ok, buffer, off := FromCache(start, PagesOf(org, cnt), now, memory);
      if !ok {
        return Refused, fl;
      }
      if off < PagesEnd(org, cnt) {
        o, fl := FromCacheAndServer(org, cnt, off, buffer, now, updatePos, memory, sendable, turns);
        return;
      }
      CachedAlone(c, readahead, readmax, file, org, cnt, now, updatePos);
      o := FromCacheAlone(start, off, org, cnt, buffer, updatePos);
      assert State() == c.(raOffset := off, position := if updatePos then org + cnt else c.position);
    }

    /** nfs3_pread_async_internal and its replies. */
    method Pread(org: nat, cnt: nat, now: nat, updatePos: bool, memory: bool, sendable: nat, turns: nat -> Turn)
      returns (o: Outcome, ghost fl: Flags)
      requires Valid(now)
      modifies this`raOffset, this`curRa, this`position, Table()
      ensures Valid(now)
      ensures o.Done? ==> var n := CountOf(old(State()), |file|, org, cnt, now); o == Done(n, Delivered(file, org, n))
      ensures o.Done? ==> State() == AfterRead(old(State()), readahead, file, org, cnt, now, updatePos)
      ensures !o.Done? ==> State() == old(State()).(curRa := curRa)
      ensures position == if o.Done? && updatePos then org + o.count else old(position)
      ensures Explained(o, fl, memory, sendable, ReadCalls(old(State()), readahead, readmax, org, cnt, now), turns)
    {
      ReadPosition(State(), readahead, file, org, cnt, now, updatePos);
      if cache == null {
        o, fl := FetchRest(org, org, cnt, cnt, org, null, now, updatePos, memory, sendable, turns);
      } else {
        o, fl := PreadCached(org, cnt, now, updatePos, memory, sendable, turns);
      }
    }

    /** The callback of a write: a failure, or how far it came. */
    method Settle(off: nat, data: seq<byte>, now: nat, updatePos: bool, sent: bool, flags: Flags, maxOffset: nat,
                       f: seq<byte>)
      returns (o: Outcome)
      requires Valid(now) && OldOrNew(file, f, off, data) && (!sent ==> f == file)
      requires sent && !flags.Any() ==> f == Patch(file, off, data)
      modifies this`file, this`position, Table()
      ensures file == f
      ensures o == if !sent then Refused else if flags.Any() then FailureOf(flags) else Done(maxOffset - off, [])
      ensures o.Done? ==> Valid(now) && State() == AfterWrite(old(State()), off, data, maxOffset, now, updatePos)
      ensures !o.Done? ==> State() == old(State())
      ensures o.Refused? || old(cache == null || LeavesPages(cache.Value(), now, file, off, data)) ==> Valid(now)
    {
      file := f;
      if !sent {
        return Refused;
      }
      if cache != null && old(LeavesPages(cache.Value(), now, file, off, data)) {
        CacheLeft(cache.Value(), now, old(file), f, off, data);
      }
      if flags.oom {
        return NoMemory;
      }
      if flags.error {
        return IoError;
      }
      if flags.cancel {
        return Interrupted;
      }
      if updatePos {
        position := maxOffset;
      }
      if cache != null {
        PutAtKeepsCoherence(cache.Value(), now, off, data, old(file));
        cache.Store(now, off, data);
      }
      o := Done(maxOffset - off, []);
    }

    /** nfs3_pwrite_async_internal and its replies. A write that succeeds is the whole write,
        and reports its length exactly when no reply claims more; one that fails leaves every
        byte old or new, and leaves the cache behind unless it changes no cached byte. */
    method Pwrite(off: nat, data: seq<byte>, now: nat, updatePos: bool, sendable: nat, turns: nat -> WriteTurn)
      returns (o: Outcome, ghost fl: Flags, ghost claims: seq<nat>)
      requires Valid(now)
      modifies this`file, this`position, Table()
      ensures o.Done? ==> Valid(now) && file == Patch(old(file), off, data)
      ensures o.Done? ==>
                o.count >= |data| && Furthest(claims, off + |data|, off + o.count) &&
                (o.count == |data| <==> !Overclaimed(claims, off + |data|)) &&
                State() == AfterWrite(old(State()), off, data, off + o.count, now, updatePos)
      ensures position == if o.Done? && updatePos then off + o.count else old(position)
      ensures Overclaimed(claims, off + |data|) ==> SomeOverclaims(turns)
      ensures o.Refused? ==> Valid(now) && file == old(file)
      ensures !o.Done? ==> OldOrNew(old(file), file, off, data) && State() == old(State())
      ensures old(cache == null || LeavesPages(cache.Value(), now, file, off, data)) ==> Valid(now)
      ensures ExplainedWrite(o, fl, sendable, CallsFor(|data|, writemax), turns)
    {
      var flags, maxOffset, sent, f, cs := SendAll(file, off, data, writemax, sendable, turns);
      fl, claims := flags, cs;
      o := Settle(off, data, now, updatePos, sent, flags, maxOffset, f);
    }

    /** nfs3_lseek_async. The server is asked for the size only to count from the end. */
    method Lseek(whence: Whence, delta: int, answered: bool) returns (o: Outcome)
      modifies this`position
      ensures var base := if whence.FromStart? then 0 else if whence.FromHere? then old(position) else |file|;
              && (o.Done? <==> base + delta >= 0 && (whence.FromEnd? ==> answered))
              && (o.Invalid? <==> base + delta < 0 && (whence.FromEnd? ==> answered))
              && position == if o.Done? then base + delta else old(position)
    {
      if whence == FromEnd && !answered {
        return IoError;
      }
      var base := if whence == FromStart then 0 else if whence == FromHere then position else |file|;
      if delta < 0 && base < 0 - delta {
        return Invalid;
      }
      position := base + delta;
      o := Done(0, []);
    }

    /** The cache is emptied before the server is asked to change the size. */
    method Ftruncate(length: nat, now: nat, succeeds: bool)
      requires readmax > 0 && writemax > 0 && RaOk(readahead, curRa) && (cache != null ==> cache.Valid())
      modifies this`file, Table()
      ensures Valid(now) && file == if succeeds then Resize(old(file), length) else old(file)
    {
      if cache != null {
        cache.Invalidate();
      }
      if succeeds {
        file := Resize(file, length);
      }
    }
  }

  /** With memory and good replies, a read is done exactly when all its calls can be sent. */
  lemma {:induction false} GoodReadIsDone(o: Outcome, fl: Flags, sendable: nat, needed: nat, turns: nat -> Turn)
    requires Explained(o, fl, true, sendable, needed, turns) && forall k :: Good(turns(k))
    ensures o.Done? <==> sendable >= needed
  {
    forall k ensures !turns(k).answer.Cancels? && !Bad(turns(k).answer) && turns(k).memory && turns(k).sends {
      assert Good(turns(k));
    }
  }

  lemma {:induction false} GoodWriteIsDone(o: Outcome, fl: Flags, sendable: nat, needed: nat, turns: nat -> WriteTurn)
    requires ExplainedWrite(o, fl, sendable, needed, turns) && needed > 0 && forall k :: GoodWrite(turns(k))
    ensures o.Done? <==> sendable >= needed
  {
    forall k ensures !turns(k).answer.WriteCancels? && !BadWrite(turns(k).answer) && turns(k).sends {
      assert GoodWrite(turns(k));
    }
  }
}
