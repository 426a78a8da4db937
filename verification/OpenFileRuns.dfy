/** Whole runs of reads, writes and truncations on one open file. */
module OpenFileRuns {
  import opened Bytes
  import opened Chunks
  import opened PageHash
  import opened PageCache
  import opened ReadOps
  import opened WriteOps
  import opened OpenFiles
  import opened CachedReads

  /** An offset that is given, or the handle's position, which then moves on. */
  datatype Where = At(off: nat) | Here

  datatype FileOp =
    | Reads(at: Where, cnt: nat, memory: bool, calls: nat, turns: nat -> Turn)
    | Writes(at: Where, data: seq<byte>, sendable: nat, writeTurns: nat -> WriteTurn)
    | Truncates(length: nat, succeeds: bool)
    | Seeks(whence: Whence, delta: int, answered: bool)

  /** The file and the position at some moment of a run. */
  datatype Moment = Moment(file: seq<byte>, pos: nat)

  /** Where a read or a write starts. */
  function Start(m: Moment, op: FileOp): nat
    requires op.Reads? || op.Writes?
  {
    if op.at.Here? then m.pos else op.at.off
  }

  /** Where a seek leads. */
  function Goal(m: Moment, op: FileOp): int
    requires op.Seeks?
  {
    op.delta + match op.whence case FromStart => 0 case FromHere => m.pos case FromEnd => |m.file|
  }

  /** A write that failed after some of it may have reached the server. */
  predicate Torn(op: FileOp, o: Outcome) {
    op.Writes? && !o.Done? && !o.Refused?
  }

  /** The file after an operation, as its outcome promises. */
  function FileAfter(m: Moment, op: FileOp, o: Outcome): seq<byte> {
    match op
    case Writes(_, data, _, _) => if o.Done? then Patch(m.file, Start(m, op), data) else m.file
    case Truncates(n, succeeds) => if succeeds then Resize(m.file, n) else m.file
    case _ => m.file
  }

  /** The position after an operation: a read or a write there moves it by the number it
      reports. */
  function PositionAfter(m: Moment, op: FileOp, o: Outcome): int {
    if !o.Done? then m.pos
    else if op.Seeks? then Goal(m, op)
    else if (op.Reads? || op.Writes?) && op.at.Here? then m.pos + o.count
    else m.pos
  }

  /** The file and the position before and after an operation. */
  ghost predicate Follows(m: Moment, m': Moment, op: FileOp, o: Outcome) {
    && (if Torn(op, o) then OldOrNew(m.file, m'.file, Start(m, op), op.data) else m'.file == FileAfter(m, op, o))
    && m'.pos == PositionAfter(m, op, o)
  }

  /** How an open file is set up; the cache, if there is one, has 2^bits entries. */
  datatype Setup = Setup(bits: Option<nat>, readahead: nat, readmax: nat, writemax: nat)

  /** Nothing that the read needs is missing, and the replies are good. */
  ghost predicate CanRead(s: Setup, op: FileOp)
    requires op.Reads? && s.readmax > 0
  {
    op.memory && op.calls >= CallsFor(op.cnt + 2 * BLKSIZE + s.readahead, s.readmax) && forall k :: Good(op.turns(k))
  }

  ghost predicate CanWrite(s: Setup, op: FileOp)
    requires op.Writes? && s.writemax > 0
  {
    op.sendable >= CallsFor(|op.data|, s.writemax) && forall k :: GoodWrite(op.writeTurns(k))
  }

  /** The cache cannot hide an end of the file from the read. */
  ghost predicate Unhidden(m: Moment, s: Setup, op: FileOp)
    requires op.Reads?
  {
    s.bits.None? || Whole(s.bits.value, m.file, Start(m, op), op.cnt)
  }

  /** What becomes of an operation, and what its outcome may say of the file before it. */
  ghost predicate True(m: Moment, s: Setup, op: FileOp, o: Outcome)
    requires s.readmax > 0 && s.writemax > 0
  {
    match op
    case Reads(_, cnt, _, _, _) =>
      && (CanRead(s, op) ==> o.Done?)
      && (o.Done? ==>
            Reportable(m.file, Start(m, op), cnt, o.count) && o.data == Delivered(m.file, Start(m, op), o.count))
      && (o.Done? && Unhidden(m, s, op) ==> o.data == Slice(m.file, Start(m, op), cnt) && o.count == |o.data|)
    case Writes(_, data, _, turns) =>
      && (CanWrite(s, op) ==> o.Done?)
      && (o.Done? ==> o.count >= |data| && (!SomeOverclaims(turns) ==> o.count == |data|))
    case Truncates(_, _) => true
    case Seeks(whence, _, answered) => o.Done? <==> Goal(m, op) >= 0 && (whence.FromEnd? ==> answered)
  }

  ghost function Now(h: OpenFile): Moment
    reads h
  {
    Moment(h.file, h.position)
  }

  ghost function SetupOf(h: OpenFile): Setup {
    Setup(if h.cache == null then None else Some(h.cache.bits), h.readahead, h.readmax, h.writemax)
  }

  lemma {:induction false} FewerCalls(a: nat, b: nat, max: nat)
    requires a <= b && max > 0
    ensures CallsFor(a, max) <= CallsFor(b, max)
  {
    if a > max {
      FewerCalls(a - max, b - max, max);
    }
  }

  lemma {:induction false} NextRaBound(readahead: nat, curRa: nat, raOffset: nat, off: nat)
    requires RaOk(readahead, curRa)
    ensures NextRa(readahead, curRa, raOffset, off) <= readahead
  {
    var cur := if curRa < BLKSIZE then BLKSIZE else curRa;
    if readahead > cur {
      Pow2Values();
      DoubleStaysBelow(cur, readahead);
    }
  }

  /** What a read has to send is bounded by what it asks for, both ends rounded, and the most
      that is read ahead. */
  lemma {:induction false} ReadCallsBound(c: Client, readahead: nat, readmax: nat, org: nat, cnt: nat, now: nat)
    requires readmax > 0 && (c.cache.Some? ==> Sized(c.cache.value)) && RaOk(readahead, c.curRa)
    ensures ReadCalls(c, readahead, readmax, org, cnt, now) <= CallsFor(cnt + 2 * BLKSIZE + readahead, readmax)
  {
    var from := if c.cache.None? then org else CachedPart(c.cache.value, org, cnt, now);
    var ra := NextRa(readahead, c.curRa, c.raOffset, from);
    NextRaBound(readahead, c.curRa, c.raOffset, from);
    if c.cache.None? {
      FewerCalls(cnt + ra, cnt + 2 * BLKSIZE + readahead, readmax);
    } else if from < PagesEnd(org, cnt) {
      FewerCalls(PagesEnd(org, cnt) - from + ra, cnt + 2 * BLKSIZE + readahead, readmax);
    }
  }

  /** What a read reports is true. */
  lemma {:induction false} ReportIsTrue(c: Client, f: seq<byte>, org: nat, cnt: nat, now: nat)
    requires Agrees(c, now, f)
    ensures var n := CountOf(c, |f|, org, cnt, now);
            && Reportable(f, org, cnt, n)
            && (c.cache.None? || Whole(c.cache.value.bits, f, org, cnt) ==>
                  n == |Slice(f, org, cnt)| && Delivered(f, org, n) == Slice(f, org, cnt))
  {
    CountIsReportable(c, f, org, cnt, now);
    DeliveredIsSlice(f, org, cnt);
    if c.cache.None? || Whole(c.cache.value.bits, f, org, cnt) {
      WholeIsRight(c, f, org, cnt, now);
    }
  }

  lemma {:induction false} ReadIsTrue(m: Moment, s: Setup, op: FileOp, o: Outcome, c: Client, now: nat)
    requires s.readmax > 0 && s.writemax > 0 && op.Reads? && Agrees(c, now, m.file)
    requires s.bits == if c.cache.None? then None else Some(c.cache.value.bits)
    requires CanRead(s, op) ==> o.Done?
    requires o.Done? ==>
               var n := CountOf(c, |m.file|, Start(m, op), op.cnt, now); o == Done(n, Delivered(m.file, Start(m, op), n))
    ensures True(m, s, op, o)
  {
    ReportIsTrue(c, m.file, Start(m, op), op.cnt, now);
  }

  method PerformRead(h: OpenFile, op: FileOp, now: nat) returns (o: Outcome)
    requires h.Valid(now) && op.Reads?
    modifies h, h.Table()
    ensures h.Valid(now) && h.file == old(h.file)
    ensures True(old(Now(h)), SetupOf(h), op, o) && h.position == PositionAfter(old(Now(h)), op, o)
  {
    ghost var m, c, fl := Now(h), h.State(), Flags(false, false, false);
    var org := if op.at.Here? then h.position else op.at.off;
    ReadCallsBound(c, h.readahead, h.readmax, org, op.cnt, now);
    o, fl := h.Pread(org, op.cnt, now, op.at.Here?, op.memory, op.calls, op.turns);
    if CanRead(SetupOf(h), op) {
      GoodReadIsDone(o, fl, op.calls, ReadCalls(c, h.readahead, h.readmax, org, op.cnt, now), op.turns);
    }
    ReadIsTrue(m, SetupOf(h), op, o, c, now);
  }

  /** The operation may fail part-way and the cache still agrees with the file. */
  predicate MayTear(h: OpenFile, op: FileOp, now: nat)
    reads h, h.Table()
  {
    h.cache == null || !op.Writes? ||
    LeavesPages(h.cache.Value(), now, h.file, if op.at.Here? then h.position else op.at.off, op.data)
  }

  method PerformWrite(h: OpenFile, op: FileOp, now: nat) returns (o: Outcome)
    requires h.Valid(now) && op.Writes?
    modifies h, h.Table()
    ensures True(old(Now(h)), SetupOf(h), op, o) && Follows(old(Now(h)), Now(h), op, o)
    ensures !Torn(op, o) || old(MayTear(h, op, now)) ==> h.Valid(now)
  {
    var off := if op.at.Here? then h.position else op.at.off;
    ghost var fl: Flags, claims: seq<nat>;
    o, fl, claims := h.Pwrite(off, op.data, now, op.at.Here?, op.sendable, op.writeTurns);
    if CanWrite(SetupOf(h), op) {
      GoodWriteIsDone(o, fl, op.sendable, CallsFor(|op.data|, h.writemax), op.writeTurns);
    }
  }

  /** One operation. The cache agrees with the file after it, except after a write that fails
      part-way and would change bytes that are cached. */
  method Perform(h: OpenFile, op: FileOp, ghost before: nat, now: nat) returns (o: Outcome)
    requires h.Valid(before) && before <= now
    modifies h, h.Table()
    ensures True(old(Now(h)), SetupOf(h), op, o) && Follows(old(Now(h)), Now(h), op, o)
    ensures !Torn(op, o) || old(MayTear(h, op, now)) ==> h.Valid(now)
  {
    if h.cache != null {
      TimeKeepsCoherence(h.cache.Value(), before, now, h.file);
    }
    match op
    case Reads(_, _, _, _, _) =>
      o := PerformRead(h, op, now);
    case Writes(_, _, _, _) =>
      o := PerformWrite(h, op, now);
    case Truncates(length, succeeds) =>
      h.Ftruncate(length, now, succeeds);
      o := Done(0, []);
    case Seeks(whence, delta, answered) =>
      o := h.Lseek(whence, delta, answered);
  }

  /** The write failed part-way, and would change a byte of the cache. */
  ghost predicate Stale(m: Moment, cache: Option<Cache>, now: nat, op: FileOp, o: Outcome) {
    && Torn(op, o) && cache.Some? && Coherent(cache.value, now, m.file)
    && !LeavesPages(cache.value, now, m.file, Start(m, op), op.data)
  }

  /** One operation, and whether the cache may disagree with the file after it. */
  method Attempt(h: OpenFile, op: FileOp, ghost before: nat, now: nat)
    returns (o: Outcome, stale: bool, ghost cache: Option<Cache>)
    requires h.Valid(before) && before <= now
    modifies h, h.Table()
    ensures True(old(Now(h)), SetupOf(h), op, o) && Follows(old(Now(h)), Now(h), op, o)
    ensures if stale then Stale(old(Now(h)), cache, now, op, o) else h.Valid(now)
  {
    var quiet := MayTear(h, op, now);
    cache := h.State().cache;
    if cache.Some? {
      TimeKeepsCoherence(cache.value, before, now, h.file);
    }
    o := Perform(h, op, before, now);
    stale := !quiet && Torn(op, o);
  }

  /** What file and position were before and after operation k. */
  ghost predicate StoryAt(ms: seq<Moment>, s: Setup, ops: seq<FileOp>, os: seq<Outcome>, k: nat)
    requires s.readmax > 0 && s.writemax > 0
  {
    k + 1 < |ms| && k < |ops| && k < |os| &&
    True(ms[k], s, ops[k], os[k]) && Follows(ms[k], ms[k + 1], ops[k], os[k])
  }

  ghost predicate Story(ms: seq<Moment>, s: Setup, ops: seq<FileOp>, os: seq<Outcome>)
    requires s.readmax > 0 && s.writemax > 0
  {
    |ms| == |os| + 1 && |os| <= |ops| && forall k: nat | k < |os| :: StoryAt(ms, s, ops, os, k)
  }

  lemma {:induction false} StoryGoesOn(ms: seq<Moment>, s: Setup, ops: seq<FileOp>, os: seq<Outcome>, m: Moment, o: Outcome)
    requires s.readmax > 0 && s.writemax > 0 && Story(ms, s, ops, os) && |os| < |ops|
    requires True(ms[|os|], s, ops[|os|], o) && Follows(ms[|os|], m, ops[|os|], o)
    ensures Story(ms + [m], s, ops, os + [o])
  {
    forall k: nat | k < |os + [o]| ensures StoryAt(ms + [m], s, ops, os + [o], k) {
      assert k < |os| ==> StoryAt(ms, s, ops, os, k);
    }
  }

  /** The story of a run from one moment to another; it ends with a stale cache, or not. */
  ghost predicate Told(first: Moment, last: Moment, ms: seq<Moment>, s: Setup, ops: seq<FileOp>, times: seq<nat>,
                       os: seq<Outcome>, stale: bool, cache: Option<Cache>)
    requires s.readmax > 0 && s.writemax > 0 && |times| == |ops|
  {
    && Story(ms, s, ops, os) && ms[0] == first && ms[|os|] == last
    && (stale ==> |os| > 0 && Stale(ms[|os| - 1], cache, times[|os| - 1], ops[|os| - 1], os[|os| - 1]))
  }

  lemma {:induction false} ToldOneMore(first: Moment, last: Moment, ms: seq<Moment>, s: Setup, ops: seq<FileOp>,
                                       times: seq<nat>, os: seq<Outcome>, before: Option<Cache>,
                                       m: Moment, o: Outcome, stale: bool, cache: Option<Cache>)
    requires s.readmax > 0 && s.writemax > 0 && |times| == |ops| && |os| < |ops|
    requires Told(first, last, ms, s, ops, times, os, false, before)
    requires True(last, s, ops[|os|], o) && Follows(last, m, ops[|os|], o)
    requires stale ==> Stale(last, cache, times[|os|], ops[|os|], o)
    ensures Told(first, m, ms + [m], s, ops, times, os + [o], stale, cache)
  {
    StoryGoesOn(ms, s, ops, os, m, o);
    assert (ms + [m])[|os|] == last && (ms + [m])[|os| + 1] == m;
  }

  /** Every run: each read gives bytes that the file has at that moment, all of them unless it
      runs into an end of the file that the cache hides; each write that succeeds is in the
      file, and one that fails leaves every byte old or new; reads and writes at the position
      move it by what they report; the cache agrees with the file to the end. The run stops at
      a write that fails part-way and would change a byte of the cache as it then is. */
  method Run(h: OpenFile, ops: seq<FileOp>, times: seq<nat>)
    returns (os: seq<Outcome>, stale: bool, ghost ms: seq<Moment>, ghost cache: Option<Cache>)
    requires |times| == |ops| && (forall i, j :: 0 <= i <= j < |times| ==> times[i] <= times[j])
    requires h.readmax > 0 && h.writemax > 0 && (|ops| > 0 ==> h.Valid(times[0]))
    modifies h, h.Table()
    ensures Told(old(Now(h)), Now(h), ms, SetupOf(h), ops, times, os, stale, cache)
    ensures |os| < |ops| ==> stale
    ensures |os| > 0 && !stale ==> h.Valid(times[|os| - 1])
  {
    os, stale, ms, cache := [], false, [Now(h)], None;
    ghost var last := if |ops| > 0 then times[0] else 0;
    while |os| < |ops| && !stale
      invariant Told(old(Now(h)), Now(h), ms, SetupOf(h), ops, times, os, stale, cache)
      invariant |ops| > 0 ==> last == times[if |os| == 0 then 0 else |os| - 1] && (stale || h.Valid(last))
      decreases |ops| - |os|
    {
      var o;
      ghost var m, before := Now(h), cache;
      o, stale, cache := Attempt(h, ops[|os|], last, times[|os|]);
      ToldOneMore(old(Now(h)), m, ms, SetupOf(h), ops, times, os, before, Now(h), o, stale, cache);
      last := times[|os|];
      os, ms := os + [o], ms + [Now(h)];
    }
  }

  // Reads and writes in a row

  /** The bytes that the first n reads gave. */
  function Got(os: seq<Outcome>, n: nat): seq<byte>
    requires n <= |os|
  {
    if n == 0 then [] else Got(os, n - 1) + if os[n - 1].Done? then os[n - 1].data else []
  }

  /** How many bytes the first n operations asked for, and which ones they gave to write. */
  function Asked(ops: seq<FileOp>, n: nat): nat
    requires n <= |ops|
  {
    if n == 0 then 0 else Asked(ops, n - 1) + if ops[n - 1].Reads? then ops[n - 1].cnt else 0
  }

  function Given(ops: seq<FileOp>, n: nat): seq<byte>
    requires n <= |ops|
  {
    if n == 0 then [] else Given(ops, n - 1) + if ops[n - 1].Writes? then ops[n - 1].data else []
  }

  lemma {:induction false} SliceInTwo(f: seq<byte>, p: nat, a: nat, b: nat)
    ensures Slice(f, p, a) + Slice(f, p + |Slice(f, p, a)|, b) == Slice(f, p, a + b)
  {
  }

  lemma {:induction false} ReadHere(m: Moment, m': Moment, s: Setup, op: FileOp, o: Outcome)
    requires s.readmax > 0 && s.writemax > 0 && op.Reads? && op.at.Here? && o.Done? && Unhidden(m, s, op)
    requires True(m, s, op, o) && Follows(m, m', op, o)
    ensures o.data == Slice(m.file, m.pos, op.cnt) && m' == Moment(m.file, m.pos + |o.data|)
  {
  }

  lemma {:induction false} WriteHere(m: Moment, m': Moment, s: Setup, op: FileOp, o: Outcome)
    requires s.readmax > 0 && s.writemax > 0 && op.Writes? && op.at.Here? && o.Done? && !SomeOverclaims(op.writeTurns)
    requires True(m, s, op, o) && Follows(m, m', op, o)
    ensures m' == Moment(Patch(m.file, m.pos, op.data), m.pos + |op.data|)
  {
  }

  /** Operation k is a read at the position that is done and sees the end of the file. */
  ghost predicate ReadsHere(ms: seq<Moment>, s: Setup, ops: seq<FileOp>, os: seq<Outcome>, k: nat)
    requires k < |ms| && k < |ops| && k < |os|
  {
    ops[k].Reads? && ops[k].at.Here? && os[k].Done? && Unhidden(ms[k], s, ops[k])
  }

  /** Operation k is a write at the position that is done, and no reply claims more than was
      sent. */
  ghost predicate WritesHere(ops: seq<FileOp>, os: seq<Outcome>, k: nat)
    requires k < |ops| && k < |os|
  {
    ops[k].Writes? && ops[k].at.Here? && os[k].Done? && !SomeOverclaims(ops[k].writeTurns)
  }

  lemma {:induction false} ReadInRow(ms: seq<Moment>, s: Setup, ops: seq<FileOp>, os: seq<Outcome>, k: nat)
    requires s.readmax > 0 && s.writemax > 0 && Story(ms, s, ops, os) && k < |os| && ReadsHere(ms, s, ops, os, k)
    ensures ops[k].Reads? && os[k].Done? && os[k].data == Slice(ms[k].file, ms[k].pos, ops[k].cnt)
    ensures ms[k + 1] == Moment(ms[k].file, ms[k].pos + |os[k].data|)
  {
    assert StoryAt(ms, s, ops, os, k);
    ReadHere(ms[k], ms[k + 1], s, ops[k], os[k]);
  }

  lemma {:induction false} WriteInRow(ms: seq<Moment>, s: Setup, ops: seq<FileOp>, os: seq<Outcome>, k: nat)
    requires s.readmax > 0 && s.writemax > 0 && Story(ms, s, ops, os) && k < |os| && WritesHere(ops, os, k)
    ensures ops[k].Writes? && ms[k + 1] == Moment(Patch(ms[k].file, ms[k].pos, ops[k].data), ms[k].pos + |ops[k].data|)
  {
    assert StoryAt(ms, s, ops, os, k);
    WriteHere(ms[k], ms[k + 1], s, ops[k], os[k]);
  }

  lemma {:induction false} PatchInTwo(f: seq<byte>, off: nat, a: seq<byte>, b: seq<byte>)
    ensures Patch(Patch(f, off, a), off + |a|, b) == Patch(f, off, a + b)
  {
    PatchTwice(f, off, a + b, |a|);
    assert (a + b)[..|a|] == a && (a + b)[|a|..] == b;
  }

  /** Reads at the position, one after another, together give what one read of all their
      bytes should give. */
  lemma {:induction false} ReadsInARow(ms: seq<Moment>, s: Setup, ops: seq<FileOp>, os: seq<Outcome>, n: nat)
    requires s.readmax > 0 && s.writemax > 0 && Story(ms, s, ops, os) && n <= |os|
    requires forall k: nat | k < n :: ReadsHere(ms, s, ops, os, k)
    ensures Got(os, n) == Slice(ms[0].file, ms[0].pos, Asked(ops, n))
    ensures ms[n] == Moment(ms[0].file, ms[0].pos + |Got(os, n)|)
  {
    if n > 0 {
      var k := n - 1;
      ReadsInARow(ms, s, ops, os, k);
      ReadInRow(ms, s, ops, os, k);
      SliceInTwo(ms[0].file, ms[0].pos, Asked(ops, k), ops[k].cnt);
    }
  }

  /** Writes at the position, one after another, together write what one write of all their
      bytes should. */
  lemma {:induction false} WritesInARow(ms: seq<Moment>, s: Setup, ops: seq<FileOp>, os: seq<Outcome>, n: nat)
    requires s.readmax > 0 && s.writemax > 0 && Story(ms, s, ops, os) && n <= |os|
    requires forall k: nat | k < n :: WritesHere(ops, os, k)
    ensures ms[n] == Moment(Patch(ms[0].file, ms[0].pos, Given(ops, n)), ms[0].pos + |Given(ops, n)|)
  {
    if n > 0 {
      var k := n - 1;
      WritesInARow(ms, s, ops, os, k);
      WriteInRow(ms, s, ops, os, k);
      PatchInTwo(ms[0].file, ms[0].pos, Given(ops, k), ops[k].data);
    }
  }
}
