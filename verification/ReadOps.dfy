/** A read in flight: its calls are answered in any order, short or in full, and the pieces
    are put together in one buffer. */
module ReadOps {
  import opened Bytes
  import opened Chunks
  import opened PageCache

  datatype ReadReply = CallFailed | Cancelled | Status(nfsError: int) | Data(bytes: seq<byte>, eof: bool)

  ghost predicate FromFile(f: seq<byte>, off: nat, bytes: seq<byte>) {
    |bytes| > 0 ==> off + |bytes| <= |f| && forall k :: 0 <= k < |bytes| ==> bytes[k] == f[off + k]
  }

  /** A server may answer with as few bytes as it likes, or with an error, but the bytes are
      the file's and an end of file is one. */
  ghost predicate Truthful(f: seq<byte>, c: Chunk, r: ReadReply) {
    r.Data? ==> FromFile(f, c.offset, r.bytes) && (r.eof ==> c.offset + |r.bytes| >= |f|)
  }

  /** Where a read at `offset` for `count` bytes started, how much of it is asked for,
      answered and correct. */
  datatype Reading = Reading(
    offset: nat, count: nat, from: nat, calls: seq<Chunk>, buf: Option<seq<byte>>, maxOffset: nat, failed: bool)

  ghost predicate Right(f: seq<byte>, r: Reading, x: int) {
    r.buf.Some? && r.offset <= x < r.maxOffset && x - r.offset < |r.buf.value| &&
    x < |f| && r.buf.value[x - r.offset] == f[x]
  }

  function Limit(f: seq<byte>, r: Reading): nat {
    if |f| < r.offset + r.count then |f| else r.offset + r.count
  }

  ghost predicate Sane(f: seq<byte>, r: Reading) {
    && r.offset <= r.from <= r.offset + r.count
    && Inside(r.calls, r.from, r.offset + r.count)
    && (r.buf.Some? ==> |r.buf.value| >= r.count)
    && (r.buf.None? ==> r.from == r.offset == r.maxOffset)
    && (r.buf.None? ==> r.calls == [Chunk(r.offset, r.count)] || (r.calls == [] && (r.failed || r.count == 0)))
    && r.offset <= r.maxOffset && (r.maxOffset > r.offset ==> r.from < r.maxOffset <= Limit(f, r))
    && (r.from > r.offset ==> r.buf.Some? && r.from <= |f| && r.buf.value[..r.from - r.offset] == f[r.offset..r.from])
  }

  /** Byte x is asked for or in place. */
  ghost predicate Served(f: seq<byte>, r: Reading, x: int) {
    Covered(r.calls, x) || Right(f, r, x)
  }

  /** Every byte of the uncached part that exists is asked for or in place, until a call
      fails. */
  ghost predicate Complete(f: seq<byte>, r: Reading) {
    !r.failed ==> forall x :: r.from <= x < Limit(f, r) ==> Served(f, r, x)
  }

  ghost predicate Invariant(f: seq<byte>, r: Reading) {
    Sane(f, r) && Complete(f, r)
  }

  /** When nothing is outstanding and nothing failed, the buffer has the file's bytes up to
      `maxOffset`, and that is the end of the request or of the file. */
  lemma {:induction false} FinishedRead(f: seq<byte>, r: Reading)
    requires Invariant(f, r) && r.calls == [] && !r.failed
    ensures r.maxOffset == if Limit(f, r) > r.from then Limit(f, r) else r.offset
    ensures r.maxOffset > r.offset ==>
              r.buf.Some? && r.maxOffset - r.offset <= |r.buf.value| && r.maxOffset <= |f| &&
              r.buf.value[..r.maxOffset - r.offset] == f[r.offset..r.maxOffset]
  {
    var m := Limit(f, r);
    forall x | r.from <= x < m ensures Right(f, r, x) {
      assert Served(f, r, x) && !Covered(r.calls, x);
    }
    if m > r.from {
      assert Right(f, r, m - 1);
      forall x | r.offset <= x < m ensures r.buf.value[x - r.offset] == f[x] {
        if x < r.from {
          assert r.buf.value[..r.from - r.offset][x - r.offset] == f[r.offset..r.from][x - r.offset];
        } else {
          assert Right(f, r, x);
        }
      }
    }
  }

  /** The bytes of call i put in their place; `blank` is what a new buffer holds. */
  function Absorb(r: Reading, i: nat, blank: seq<byte>, bytes: seq<byte>): Reading
    requires i < |r.calls| && r.offset <= r.calls[i].offset
  {
    var c, n := r.calls[i], |bytes|;
    var b := if r.buf.Some? then r.buf.value else blank;
    r.(buf := Some(Patch(b, c.offset - r.offset, bytes)),
       maxOffset := if n > 0 && r.maxOffset < c.offset + n then c.offset + n else r.maxOffset)
  }

  ghost predicate Fits(f: seq<byte>, r: Reading, i: nat, blank: seq<byte>, bytes: seq<byte>) {
    i < |r.calls| && |bytes| <= r.calls[i].count && |blank| == r.count && FromFile(f, r.calls[i].offset, bytes)
  }

  lemma {:induction false} AbsorbSane(f: seq<byte>, r: Reading, i: nat, blank: seq<byte>, bytes: seq<byte>)
    requires Sane(f, r) && Fits(f, r, i, blank, bytes)
    ensures Sane(f, Absorb(r, i, blank, bytes))
  {
    var c, r' := r.calls[i], Absorb(r, i, blank, bytes);
    assert c.offset + c.count <= r.offset + r.count;
    if r.from > r.offset {
      forall k | 0 <= k < r.from - r.offset
        ensures r'.buf.value[..r.from - r.offset][k] == f[r.offset..r.from][k]
      {
        assert r.buf.value[..r.from - r.offset][k] == f[r.offset..r.from][k];
      }
      assert r'.buf.value[..r.from - r.offset] == f[r.offset..r.from];
    }
  }

  /** Bytes in place stay in place. */
  lemma {:induction false} AbsorbKeeps(f: seq<byte>, r: Reading, i: nat, blank: seq<byte>, bytes: seq<byte>, x: int)
    requires Sane(f, r) && Fits(f, r, i, blank, bytes) && Right(f, r, x)
    ensures Right(f, Absorb(r, i, blank, bytes), x)
  {
    var c := r.calls[i];
    if c.offset <= x < c.offset + |bytes| {
      assert bytes[x - c.offset] == f[c.offset + (x - c.offset)];
    }
  }

  lemma {:induction false} AbsorbPlaces(f: seq<byte>, r: Reading, i: nat, blank: seq<byte>, bytes: seq<byte>, x: int)
    requires Sane(f, r) && Fits(f, r, i, blank, bytes)
    requires r.calls[i].offset <= x < r.calls[i].offset + |bytes|
    ensures Right(f, Absorb(r, i, blank, bytes), x)
  {
    var c := r.calls[i];
    assert bytes[x - c.offset] == f[c.offset + (x - c.offset)];
  }

  lemma {:induction false} SameRight(f: seq<byte>, r: Reading, calls: seq<Chunk>, x: int)
    requires Right(f, r, x)
    ensures Served(f, r.(calls := calls), x)
  {
  }

  lemma {:induction false} InsideWithout(cs: seq<Chunk>, i: nat, lo: int, hi: int)
    requires Inside(cs, lo, hi) && i < |cs|
    ensures Inside(Without(cs, i), lo, hi)
  {
  }

  lemma {:induction false} LastReplyByte(f: seq<byte>, r: Reading, i: nat, blank: seq<byte>, bytes: seq<byte>, x: int)
    requires Sane(f, r) && Fits(f, r, i, blank, bytes) && Served(f, r, x)
    requires |bytes| == r.calls[i].count || r.calls[i].offset + |bytes| >= |f|
    requires r.from <= x < Limit(f, r)
    ensures Served(f, Absorb(r, i, blank, bytes).(calls := Without(r.calls, i)), x)
  {
    var c, r' := r.calls[i], Absorb(r, i, blank, bytes);
    if Right(f, r, x) {
      AbsorbKeeps(f, r, i, blank, bytes, x);
      SameRight(f, r', Without(r.calls, i), x);
    } else if Spans(c, x) {
      assert x < c.offset + |bytes|;
      AbsorbPlaces(f, r, i, blank, bytes, x);
      SameRight(f, r', Without(r.calls, i), x);
    } else {
      CoveredWithout(r.calls, i, x);
    }
  }

  lemma {:induction false} AnsweredSane(f: seq<byte>, r: Reading, i: nat, blank: seq<byte>, bytes: seq<byte>)
    requires Sane(f, r) && Fits(f, r, i, blank, bytes)
    ensures Sane(f, Absorb(r, i, blank, bytes).(calls := Without(r.calls, i)))
  {
    AbsorbSane(f, r, i, blank, bytes);
    InsideWithout(r.calls, i, r.from, r.offset + r.count);
  }

  /** A reply that ends call i: all its bytes, or bytes up to the end of the file. */
  lemma {:induction false} LastReply(f: seq<byte>, r: Reading, i: nat, blank: seq<byte>, bytes: seq<byte>)
    requires Invariant(f, r) && Fits(f, r, i, blank, bytes)
    requires |bytes| == r.calls[i].count || r.calls[i].offset + |bytes| >= |f|
    ensures Invariant(f, Absorb(r, i, blank, bytes).(calls := Without(r.calls, i)))
  {
    var r' := Absorb(r, i, blank, bytes).(calls := Without(r.calls, i));
    AnsweredSane(f, r, i, blank, bytes);
    if !r.failed {
      forall x | r.from <= x < Limit(f, r) ensures Served(f, r', x) {
        assert Served(f, r, x);
        LastReplyByte(f, r, i, blank, bytes, x);
      }
    }
  }

  lemma {:induction false} ShortReplyByte(f: seq<byte>, r: Reading, i: nat, blank: seq<byte>, bytes: seq<byte>, x: int)
    requires Sane(f, r) && Fits(f, r, i, blank, bytes) && Served(f, r, x)
    ensures Served(f, Absorb(r, i, blank, bytes).(calls := Rest(r.calls, i, |bytes|)), x)
  {
    var c, r' := r.calls[i], Absorb(r, i, blank, bytes);
    if Right(f, r, x) {
      AbsorbKeeps(f, r, i, blank, bytes, x);
      SameRight(f, r', Rest(r.calls, i, |bytes|), x);
    } else if c.offset <= x < c.offset + |bytes| {
      AbsorbPlaces(f, r, i, blank, bytes, x);
      SameRight(f, r', Rest(r.calls, i, |bytes|), x);
    } else {
      CoveredShrunk(r.calls, i, |bytes|, x);
    }
  }

  /** A short reply: the rest of call i is asked for again. */
  lemma {:induction false} ShortReply(f: seq<byte>, r: Reading, i: nat, blank: seq<byte>, bytes: seq<byte>)
    requires Invariant(f, r) && Fits(f, r, i, blank, bytes)
    ensures Invariant(f, Absorb(r, i, blank, bytes).(calls := Rest(r.calls, i, |bytes|)))
  {
    var r' := Absorb(r, i, blank, bytes).(calls := Rest(r.calls, i, |bytes|));
    AbsorbSane(f, r, i, blank, bytes);
    if !r.failed {
      forall x | r.from <= x < Limit(f, r) ensures Served(f, r', x) {
        assert Served(f, r, x);
        ShortReplyByte(f, r, i, blank, bytes, x);
      }
    }
  }

  /** A reply that fails the read. */
  lemma {:induction false} FailedReply(f: seq<byte>, r: Reading, i: nat)
    requires Sane(f, r) && i < |r.calls|
    ensures Invariant(f, r.(calls := Without(r.calls, i), failed := true))
  {
    InsideWithout(r.calls, i, r.from, r.offset + r.count);
  }

  datatype Verdict = Taken | NoRoom | TooMuch

  datatype Flags = Flags(oom: bool, error: bool, cancel: bool) {
    predicate Any() {
      oom || error || cancel
    }
  }

  /** Whatever is done with call i next keeps the invariant. */
  ghost predicate CanSettle(f: seq<byte>, r: Reading, i: nat, n: nat, eof: bool, v: Verdict)
    requires i < |r.calls| && (v.Taken? ==> n <= r.calls[i].count)
  {
    && Invariant(f, r.(calls := Without(r.calls, i), failed := true))
    && (v.Taken? && (n == r.calls[i].count || eof) ==> Invariant(f, r.(calls := Without(r.calls, i))))
    && (v.Taken? ==> Invariant(f, r.(calls := Rest(r.calls, i, n))))
  }

  /** Flags are kept, and raised for their causes only: `starved` is a lack of memory or a
      call that cannot be sent, which may hide a fault. */
  predicate Caused(a: Flags, b: Flags, cancelled: bool, faulty: bool, starved: bool) {
    && (b.cancel <==> a.cancel || cancelled)
    && (a.error || (faulty && !starved) ==> b.error) && (b.error ==> a.error || faulty)
    && (a.oom ==> b.oom) && (b.oom ==> a.oom || starved)
  }

  /** What is outstanding after call i's reply of n bytes: the rest of the call is asked for
      again after a short reply, or the call is over. */
  method Settle(calls: seq<Chunk>, i: nat, n: nat, eof: bool, sends: bool, v: Verdict, flags: Flags)
    returns (rest: seq<Chunk>, fl: Flags)
    requires i < |calls| && (v.Taken? ==> n <= calls[i].count)
    ensures Outstanding(rest) < Outstanding(calls)
    ensures || (rest == Without(calls, i) && fl.Any())
            || (rest == Without(calls, i) && fl == flags && v.Taken? && (n == calls[i].count || eof))
            || (v.Taken? && rest == Rest(calls, i, n) && fl == flags)
    ensures Caused(flags, fl, false, v.TooMuch? || (v.Taken? && n == 0 < calls[i].count && !eof), v.NoRoom? || !sends)
  {
    OutstandingAt(calls, i);
    rest, fl := Without(calls, i), flags;
    if v == NoRoom {
      fl := fl.(oom := true);
    } else if v == TooMuch {
      fl := fl.(error := true);
    } else if n < calls[i].count && !eof {
      if n == 0 {
        fl := fl.(error := true);
      } else if sends {
        OutstandingRest(calls, i, n);
        rest := Rest(calls, i, n);
      } else {
        fl := fl.(oom := true);
      }
    }
  }

  /** A reply that fails the read: an error, more bytes than asked for, or none before the
      end of the file. */
  predicate Faulty(c: Chunk, r: ReadReply) {
    r.CallFailed? || r.Status? || (r.Data? && (|r.bytes| > c.count || (|r.bytes| == 0 < c.count && !r.eof)))
  }

  /** A buffer is there, if it is needed. */
  function Buffered(r: Reading, blank: seq<byte>, needed: bool): Reading {
    if needed && r.buf.None? then r.(buf := Some(blank)) else r
  }

  /** Call i's bytes are in the buffer; an empty reply to an empty request needs none. */
  ghost predicate Took(r: Reading, r': Reading, i: nat, blank: seq<byte>, bytes: seq<byte>)
    requires i < |r.calls|
  {
    r.offset <= r.calls[i].offset && |bytes| <= r.calls[i].count && |blank| == r.count &&
    (r' == Absorb(r, i, blank, bytes) || (r.count == 0 && |bytes| == 0 && r' == r))
  }

  lemma {:induction false} TakeIsAbsorb(f: seq<byte>, r: Reading, i: nat, blank: seq<byte>, bytes: seq<byte>)
    requires Sane(f, r) && i < |r.calls| && |blank| == r.count
    ensures var r' := Buffered(r, blank, |bytes| < r.count);
            Sane(f, r') &&
            (|bytes| == 0 ==> Took(r, r', i, blank, bytes)) &&
            (0 < |bytes| <= r.calls[i].count ==> Took(r, Absorb(r', i, bytes, bytes), i, blank, bytes))
  {
    if 0 < |bytes| <= r.calls[i].count && r.buf.None? && |bytes| == r.count {
      assert Patch(bytes, 0, bytes) == bytes == Patch(blank, 0, bytes);
    }
  }

  /** A call's bytes fit the buffer, or are all there is. */
  lemma {:induction false} PlaceFits(f: seq<byte>, r: Reading, i: nat, bytes: seq<byte>)
    requires Sane(f, r) && i < |r.calls| && |bytes| <= r.calls[i].count && (r.buf.Some? || |bytes| == r.count)
    ensures var at := r.calls[i].offset - r.offset;
            if r.buf.Some? then at >= 0 && at + |bytes| <= |r.buf.value| else at == 0 && Patch(bytes, at, bytes) == bytes
  {
    assert Patch(bytes, 0, bytes) == bytes;
  }

  lemma {:induction false} NothingAsked(f: seq<byte>, r: Reading, i: nat)
    requires Invariant(f, r) && i < |r.calls| && r.count == 0
    ensures Invariant(f, r.(calls := Without(r.calls, i))) && Invariant(f, r.(calls := Rest(r.calls, i, 0)))
  {
    InsideWithout(r.calls, i, r.from, r.offset + r.count);
    assert Rest(r.calls, i, 0) == r.calls;
  }

  lemma {:induction false} AfterTake(f: seq<byte>, r: Reading, r': Reading, i: nat,
                                     blank: seq<byte>, bytes: seq<byte>, eof: bool, v: Verdict)
    requires Invariant(f, r) && i < |r.calls| && Truthful(f, r.calls[i], Data(bytes, eof)) && r'.calls == r.calls
    requires if v.Taken? then Took(r, r', i, blank, bytes) else Sane(f, r')
    ensures CanSettle(f, r', i, |bytes|, eof, v)
  {
    if v.Taken? && r' == Absorb(r, i, blank, bytes) {
      AbsorbSane(f, r, i, blank, bytes);
      ShortReply(f, r, i, blank, bytes);
      if |bytes| == r.calls[i].count || eof {
        LastReply(f, r, i, blank, bytes);
      }
    } else if v.Taken? {
      NothingAsked(f, r, i);
    }
    FailedReply(f, r', i);
  }

  class ReadOp {
    const offset: nat
    const count: nat
    ghost const from: nat
    var calls: seq<Chunk>
    var buffer: array?<byte>
    var maxOffset: nat
    var flags: Flags

    ghost function Value(): Reading
      reads this, buffer
    {
      Reading(offset, count, from, calls, if buffer == null then None else Some(buffer[..]),
              maxOffset, flags.Any())
    }

    ghost predicate Valid(f: seq<byte>)
      reads this, buffer
    {
      Invariant(f, Value())
    }

    /** A read whose first part, up to `from`, came from the page cache. */
    constructor (offset: nat, count: nat, ghost from: nat, calls: seq<Chunk>, buffer: array?<byte>, allSent: bool)
      ensures this.offset == offset && this.count == count && this.from == from && this.calls == calls
      ensures this.buffer == buffer && maxOffset == offset && flags == Flags(!allSent, false, false)
    {
      this.offset, this.count, this.from, this.calls := offset, count, from, calls;
      this.buffer, maxOffset, flags := buffer, offset, Flags(!allSent, false, false);
    }

    method SetCalls(cs: seq<Chunk>, fl: Flags)
      modifies this`calls, this`flags
      ensures calls == cs && flags == fl
      ensures Value() == old(Value()).(calls := cs, failed := fl.Any())
    {
      calls, flags := cs, fl;
    }

    /** The reassembly buffer turns out to be needed after all. */
    method NeedBuffer(i: nat, n: nat, memory: bool) returns (ok: bool, ghost blank: seq<byte>)
      requires i < |calls| && (buffer == null ==> calls[i].count == count)
      modifies this`buffer
      ensures buffer == old(buffer) || (old(buffer) == null && fresh(buffer))
      ensures |blank| == count && Value() == Buffered(old(Value()), blank, ok && n < count)
      ensures memory ==> ok
    {
      if n < count && buffer == null {
        if !memory {
          return false, seq(count, _ => 0);
        }
        buffer := new byte[calls[i].count];
        blank := buffer[..];
      } else {
        blank := seq(count, _ => 0);
      }
      return true, blank;
    }

    /** The bytes become the buffer. */
    method Adopt(bytes: seq<byte>)
      modifies this`buffer
      ensures fresh(buffer) && Value() == old(Value()).(buf := Some(bytes))
    {
      buffer := new byte[|bytes|](k requires 0 <= k < |bytes| => bytes[k]);
      assert buffer[..] == bytes;
    }

    method CopyIn(at: nat, bytes: seq<byte>)
      requires buffer != null && at + |bytes| <= buffer.Length
      modifies buffer
      ensures Value() == old(Value()).(buf := Some(Patch(old(buffer[..]), at, bytes)))
    {
      PatchIsCopy(buffer[..], at, bytes);
      CopyBytes(buffer, at, bytes);
    }

    method Extend(end: nat)
      modifies this`maxOffset
      ensures Value() == old(Value()).(maxOffset := if old(maxOffset) < end then end else old(maxOffset))
    {
      if maxOffset < end {
        maxOffset := end;
      }
    }

    /** The bytes of call i are copied to their place, or become the buffer when they are
        all there is. */
    method Place(i: nat, bytes: seq<byte>, ghost f: seq<byte>)
      requires i < |calls| && 0 < |bytes| <= calls[i].count && (buffer != null || |bytes| == count)
      requires Sane(f, Value())
      modifies this`buffer, this`maxOffset, buffer
      ensures old(buffer) == null ==> fresh(buffer)
      ensures old(buffer) != null ==> buffer == old(buffer)
      ensures Value() == Absorb(old(Value()), i, bytes, bytes)
    {
      var c := calls[i];
      PlaceFits(f, Value(), i, bytes);
      if |bytes| == count && buffer == null {
        Adopt(bytes);
      } else {
        CopyIn(c.offset - offset, bytes);
      }
      Extend(c.offset + |bytes|);
    }

    /** Puts a reply's bytes in the buffer, unless there is no memory for one or the server
        sent more than was asked for. */
    method Take(i: nat, bytes: seq<byte>, memory: bool, ghost f: seq<byte>) returns (v: Verdict, ghost blank: seq<byte>)
      requires i < |calls| && Sane(f, Value())
      modifies this`buffer, this`maxOffset, buffer
      ensures buffer == old(buffer) || (old(buffer) == null && fresh(buffer))
      ensures if v.Taken? then Took(old(Value()), Value(), i, blank, bytes) else Sane(f, Value())
      ensures (v.NoRoom? ==> !memory) && (v.TooMuch? ==> |bytes| > calls[i].count)
    {
      var ok: bool;
      ok, blank := NeedBuffer(i, |bytes|, memory);
      if !ok {
        return NoRoom, blank;
      }
      TakeIsAbsorb(f, old(Value()), i, blank, bytes);
      if |bytes| > 0 {
        if |bytes| > calls[i].count {
          return TooMuch, blank;
        }
        Place(i, bytes, f);
      }
      return Taken, blank;
    }

    /** Takes a reply's bytes; whatever is done with its call next keeps the invariant. */
    method TakeData(i: nat, bytes: seq<byte>, eof: bool, memory: bool, ghost f: seq<byte>) returns (v: Verdict)
      requires Valid(f) && i < |calls| && Truthful(f, calls[i], Data(bytes, eof))
      modifies this`buffer, this`maxOffset, buffer
      ensures buffer == old(buffer) || (old(buffer) == null && fresh(buffer))
      ensures (v.Taken? ==> |bytes| <= calls[i].count) && CanSettle(f, Value(), i, |bytes|, eof, v)
      ensures (v.NoRoom? ==> !memory) && (v.TooMuch? ==> |bytes| > calls[i].count)
    {
      ghost var r := Value();
      ghost var blank: seq<byte>;
      v, blank := Take(i, bytes, memory, f);
      AfterTake(f, r, Value(), i, blank, bytes, eof, v);
    }

    method Conclude(i: nat, n: nat, eof: bool, sends: bool, v: Verdict, ghost f: seq<byte>)
      requires i < |calls| && (v.Taken? ==> n <= calls[i].count) && CanSettle(f, Value(), i, n, eof, v)
      modifies this`calls, this`flags
      ensures Valid(f) && Outstanding(calls) < old(Outstanding(calls))
      ensures Caused(old(flags), flags, false, v.TooMuch? || (v.Taken? && n == 0 < old(calls[i]).count && !eof),
                     v.NoRoom? || !sends)
    {
      var rest, fl := Settle(calls, i, n, eof, sends, v, flags);
      SetCalls(rest, fl);
    }

    /** A reply with data, nfs3_pread_mcb's main case. */
    method OnData(i: nat, bytes: seq<byte>, eof: bool, memory: bool, sends: bool, ghost f: seq<byte>)
      requires Valid(f) && i < |calls| && Truthful(f, calls[i], Data(bytes, eof))
      modifies this, buffer
      ensures buffer == old(buffer) || (old(buffer) == null && fresh(buffer))
      ensures Valid(f) && Outstanding(calls) < old(Outstanding(calls))
      ensures Caused(old(flags), flags, false, Faulty(old(calls[i]), Data(bytes, eof)), !memory || !sends)
    {
      var v := TakeData(i, bytes, eof, memory, f);
      Conclude(i, |bytes|, eof, sends, v, f);
    }

    /** nfs3_pread_mcb up to the point where the callback is due. */
    method OnReply(i: nat, reply: ReadReply, memory: bool, sends: bool, ghost f: seq<byte>)
      requires Valid(f) && i < |calls| && Truthful(f, calls[i], reply)
      modifies this, buffer
      ensures buffer == old(buffer) || (old(buffer) == null && fresh(buffer))
      ensures Valid(f) && Outstanding(calls) < old(Outstanding(calls))
      ensures Caused(old(flags), flags, reply.Cancelled?, Faulty(old(calls[i]), reply), !memory || !sends)
    {
      if reply.Data? {
        OnData(i, reply.bytes, reply.eof, memory, sends, f);
      } else {
        OutstandingAt(calls, i);
        FailedReply(f, Value(), i);
        SetCalls(Without(calls, i), if reply.Cancelled? then flags.(cancel := true) else flags.(error := true));
      }
    }
  }

  /** What the server or the network makes of a call. A server may be late to say that the
      end of the file is reached, and say so only when it has no bytes to give. */
  datatype Answer = Fails | Cancels | Refuses(nfsError: int) | Gives(n: nat, late: bool) | GivesTooMuch(extra: nat)

  /** One turn of the event loop: which call is answered and how, and whether the client
      then gets memory and can send. */
  datatype Turn = Turn(which: nat, answer: Answer, memory: bool, sends: bool)

  /** Answers that may fail the read. */
  predicate Bad(a: Answer) {
    a.Fails? || a.Refuses? || a.GivesTooMuch? || (a.Gives? && a.n == 0)
  }

  predicate Good(t: Turn) {
    t.answer.Gives? && t.answer.n > 0 && t.memory && t.sends
  }

  ghost predicate SomeCancels(turns: nat -> Turn) {
    exists k :: turns(k).answer.Cancels?
  }

  ghost predicate SomeBad(turns: nat -> Turn) {
    exists k :: Bad(turns(k).answer)
  }

  ghost predicate SomeStarved(turns: nat -> Turn) {
    exists k :: !turns(k).memory || !turns(k).sends
  }

  /** A failure that is flagged was there before, or some turn is to blame for it. */
  ghost predicate Blamed(a: Flags, b: Flags, turns: nat -> Turn) {
    && (b.cancel ==> a.cancel || SomeCancels(turns))
    && (b.error ==> a.error || SomeBad(turns))
    && (b.oom ==> a.oom || SomeStarved(turns))
  }

  function Min(a: nat, b: nat): nat {
    if a < b then a else b
  }

  function Available(f: seq<byte>, off: nat): nat {
    if off < |f| then |f| - off else 0
  }

  function FileBytes(f: seq<byte>, off: nat, n: nat): (d: seq<byte>)
    ensures |d| == Min(n, Available(f, off)) && FromFile(f, off, d)
  {
    if off < |f| then f[off..off + Min(n, |f| - off)] else []
  }

  function ReplyTo(f: seq<byte>, c: Chunk, a: Answer): (r: ReadReply)
    ensures Truthful(f, c, r)
    ensures (r.Cancelled? <==> a.Cancels?) && (Faulty(c, r) ==> Bad(a))
  {
    match a
    case Fails => CallFailed
    case Cancels => Cancelled
    case Refuses(e) => Status(e)
    case Gives(n, late) =>
      var d := FileBytes(f, c.offset, Min(n, c.count));
      Data(d, c.offset + |d| >= |f| && !(late && |d| > 0))
    case GivesTooMuch(extra) =>
      var d := FileBytes(f, c.offset, c.count + 1 + extra);
      Data(d, c.offset + |d| >= |f|)
  }

  /** Flags are never lowered. */
  predicate Raised(a: Flags, b: Flags) {
    (a.oom ==> b.oom) && (a.error ==> b.error) && (a.cancel ==> b.cancel)
  }

  /** Runs the read to its end. Every turn answers some outstanding call, in any order; the
      run ends because less is outstanding after every turn. */
  method Drain(op: ReadOp, f: seq<byte>, turns: nat -> Turn)
    requires op.Valid(f)
    modifies op, op.buffer
    ensures op.Valid(f) && op.calls == []
    ensures Raised(old(op.flags), op.flags) && Blamed(old(op.flags), op.flags, turns)
    ensures op.buffer == old(op.buffer) || (old(op.buffer) == null && fresh(op.buffer))
    ensures (forall k :: Good(turns(k))) ==> op.flags == old(op.flags)
  {
    var k := 0;
    while |op.calls| > 0
      invariant op.Valid(f) && Raised(old(op.flags), op.flags) && Blamed(old(op.flags), op.flags, turns)
      invariant op.buffer == old(op.buffer) || (old(op.buffer) == null && fresh(op.buffer))
      invariant (forall k :: Good(turns(k))) ==> op.flags == old(op.flags)
      decreases Outstanding(op.calls)
    {
      var t := turns(k);
      var i := t.which % |op.calls|;
      op.OnReply(i, ReplyTo(f, op.calls[i], t.answer), t.memory, t.sends, f);
      k := k + 1;
    }
  }
}
