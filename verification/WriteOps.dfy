/** A write in flight: the calls it is cut into reach the server in any order, each wholly,
    partly or not at all. */
module WriteOps {
  import opened Bytes
  import opened Chunks
  import opened PageCache
  import opened ReadOps

  /** What becomes of a call, and how many of its bytes reach the file. A reply may claim more
      bytes than the call has; then all of them do. */
  datatype WriteAnswer =
    | WriteFails(applied: nat)
    | WriteCancels(applied: nat)
    | WriteRefuses(applied: nat)
    | Wrote(n: nat)
    | Overclaims(extra: nat)

  datatype WriteTurn = WriteTurn(which: nat, answer: WriteAnswer, sends: bool)

  /** A reply that says bytes were written. */
  predicate Succeeds(a: WriteAnswer) {
    a.Wrote? || a.Overclaims?
  }

  /** How many, or how many were when the call failed. */
  function CountIn(c: Chunk, a: WriteAnswer): nat {
    match a
    case Wrote(n) => Min(n, c.count)
    case Overclaims(extra) => c.count + 1 + extra
    case _ => a.applied
  }

  predicate BadWrite(a: WriteAnswer) {
    a.WriteFails? || a.WriteRefuses? || (a.Wrote? && a.n == 0)
  }

  ghost predicate SomeWriteCancels(turns: nat -> WriteTurn) {
    exists k :: turns(k).answer.WriteCancels?
  }

  ghost predicate SomeBadWrite(turns: nat -> WriteTurn) {
    exists k :: BadWrite(turns(k).answer)
  }

  ghost predicate SomeUnsent(turns: nat -> WriteTurn) {
    exists k :: !turns(k).sends
  }

  ghost predicate BlamedWrite(a: Flags, b: Flags, turns: nat -> WriteTurn) {
    && (b.cancel ==> a.cancel || SomeWriteCancels(turns))
    && (b.error ==> a.error || SomeBadWrite(turns))
    && (b.oom ==> a.oom || SomeUnsent(turns))
  }

  /** A reply that fails the write: an error, or no bytes written. */
  predicate FaultyWrite(c: Chunk, a: WriteAnswer) {
    a.WriteFails? || a.WriteRefuses? || (a.Wrote? && a.n == 0 < c.count)
  }

  predicate GoodWrite(t: WriteTurn) {
    Succeeds(t.answer) && !BadWrite(t.answer) && t.sends
  }

  ghost predicate SomeOverclaims(turns: nat -> WriteTurn) {
    exists k :: turns(k).answer.Overclaims?
  }

  /** `claims` are the ends of the ranges that replies have claimed to be written. */
  datatype Writing = Writing(
    offset: nat, data: seq<byte>, calls: seq<Chunk>, maxOffset: nat, claims: seq<nat>, failed: bool)

  function End(w: Writing): nat {
    w.offset + |w.data|
  }

  ghost predicate Landed(f: seq<byte>, w: Writing, x: int) {
    w.offset <= x < End(w) && x < |f| && f[x] == w.data[x - w.offset]
  }

  /** Outside the range written nothing changes; inside it, a byte is the new one, or the one
      that was there. */
  ghost predicate ByteOk(f0: seq<byte>, f: seq<byte>, w: Writing, x: int)
    requires 0 <= x < |f|
  {
    f[x] == OldByte(f0, x) || Landed(f, w, x)
  }

  ghost predicate Pending(f: seq<byte>, w: Writing, x: int) {
    Covered(w.calls, x) || Landed(f, w, x)
  }

  ghost predicate Bounded(f0: seq<byte>, f: seq<byte>, w: Writing) {
    && Inside(w.calls, w.offset, End(w))
    && |f0| <= |f| && (|f0| < |f| ==> |w.data| > 0 && |f| <= End(w))
    && (forall x :: 0 <= x < |f| ==> ByteOk(f0, f, w, x))
  }

  /** The offset reached is the last byte asked for, unless a call for it is outstanding, or
      the furthest that a reply has claimed. */
  ghost predicate Reached(w: Writing) {
    && (End(w) <= w.maxOffset || (w.offset <= w.maxOffset && Covered(w.calls, End(w) - 1)))
    && (w.maxOffset <= End(w) || w.maxOffset in w.claims)
    && (forall k :: 0 <= k < |w.claims| ==> w.claims[k] <= w.maxOffset || w.claims[k] <= End(w))
  }

  ghost predicate WriteInvariant(f0: seq<byte>, f: seq<byte>, w: Writing) {
    && Bounded(f0, f, w)
    && (!w.failed ==> Reached(w) && forall x :: w.offset <= x < End(w) ==> Pending(f, w, x))
  }

  /** Some reply has claimed bytes past the end of the data. */
  ghost predicate Overclaimed(claims: seq<nat>, end: nat) {
    exists k :: 0 <= k < |claims| && claims[k] > end
  }

  /** The furthest claim, if that is past the end of the data; otherwise the end. */
  ghost predicate Furthest(claims: seq<nat>, end: nat, m: nat) {
    end <= m && (m == end || m in claims) && forall k :: 0 <= k < |claims| ==> claims[k] <= m
  }

  /** When every call is answered and none failed, the file is the old file with the data
      written over it. The offset reached is the end of the data exactly when no reply claims
      more. */
  lemma {:induction false} FinishedWrite(f0: seq<byte>, f: seq<byte>, w: Writing)
    requires WriteInvariant(f0, f, w) && w.calls == [] && !w.failed
    ensures f == Patch(f0, w.offset, w.data) && Furthest(w.claims, End(w), w.maxOffset)
    ensures w.maxOffset == End(w) <==> !Overclaimed(w.claims, End(w))
  {
    forall x | w.offset <= x < End(w) ensures Landed(f, w, x) {
      assert Pending(f, w, x) && !Covered(w.calls, x);
    }
    if |w.data| > 0 {
      assert Landed(f, w, End(w) - 1);
    }
    forall x | 0 <= x < |f| ensures f[x] == ByteAfter(f0, w.offset, w.data, x) {
      assert ByteOk(f0, f, w, x);
      if w.offset <= x < End(w) {
        assert Landed(f, w, x);
      }
    }
  }

  lemma {:induction false} StartWrite(f: seq<byte>, w: Writing)
    requires Inside(w.calls, w.offset, End(w)) && w.maxOffset == w.offset && w.claims == []
    requires !w.failed ==> forall x :: w.offset <= x < End(w) ==> Covered(w.calls, x)
    ensures WriteInvariant(f, f, w)
  {
    forall x | 0 <= x < |f| ensures ByteOk(f, f, w, x) {
    }
    if !w.failed {
      forall x | w.offset <= x < End(w) ensures Pending(f, w, x) {
        assert Covered(w.calls, x);
      }
    }
  }

  /** The first n bytes that call c carries. */
  function Carried(data: seq<byte>, offset: nat, c: Chunk, n: nat): (d: seq<byte>)
    requires offset <= c.offset && c.offset + n <= offset + |data|
    ensures |d| == n && forall k :: 0 <= k < n ==> d[k] == data[c.offset - offset + k]
  {
    data[c.offset - offset..c.offset - offset + n]
  }

  /** The bytes of call i that the server takes. */
  function Sent(w: Writing, i: nat, n: nat): (d: seq<byte>)
    requires i < |w.calls| && Inside(w.calls, w.offset, End(w)) && n <= w.calls[i].count
    ensures |d| == n && forall k :: 0 <= k < n ==> d[k] == w.data[w.calls[i].offset - w.offset + k]
  {
    Carried(w.data, w.offset, w.calls[i], n)
  }

  function Apply(f: seq<byte>, w: Writing, i: nat, n: nat): seq<byte>
    requires i < |w.calls| && Inside(w.calls, w.offset, End(w)) && n <= w.calls[i].count
  {
    Patch(f, w.calls[i].offset, Sent(w, i, n))
  }

  lemma {:induction false} ApplyKeeps(f: seq<byte>, w: Writing, i: nat, n: nat, x: int)
    requires i < |w.calls| && Inside(w.calls, w.offset, End(w)) && n <= w.calls[i].count && Landed(f, w, x)
    ensures Landed(Apply(f, w, i, n), w, x)
  {
    var c := w.calls[i];
    if c.offset <= x < c.offset + n {
      assert Sent(w, i, n)[x - c.offset] == w.data[c.offset - w.offset + (x - c.offset)];
    }
  }

  lemma {:induction false} ApplyLands(f: seq<byte>, w: Writing, i: nat, n: nat, x: int)
    requires i < |w.calls| && Inside(w.calls, w.offset, End(w)) && n <= w.calls[i].count
    requires w.calls[i].offset <= x < w.calls[i].offset + n
    ensures Landed(Apply(f, w, i, n), w, x)
  {
    var c := w.calls[i];
    assert Sent(w, i, n)[x - c.offset] == w.data[c.offset - w.offset + (x - c.offset)];
  }

  lemma {:induction false} ApplyBounded(f0: seq<byte>, f: seq<byte>, w: Writing, i: nat, n: nat)
    requires Bounded(f0, f, w) && i < |w.calls| && n <= w.calls[i].count
    ensures Bounded(f0, Apply(f, w, i, n), w)
  {
    var g, c := Apply(f, w, i, n), w.calls[i];
    assert c.offset + c.count <= End(w);
    forall x | 0 <= x < |g| ensures ByteOk(f0, g, w, x) {
      if c.offset <= x < c.offset + n {
        ApplyLands(f, w, i, n, x);
      } else if x < |f| {
        assert ByteOk(f0, f, w, x);
        assert g[x] == f[x];
      }
    }
  }

  lemma {:induction false} BoundedLater(f0: seq<byte>, f: seq<byte>, w: Writing, w': Writing)
    requires Bounded(f0, f, w) && Inside(w'.calls, w.offset, End(w)) && w'.offset == w.offset && w'.data == w.data
    ensures Bounded(f0, f, w')
  {
    forall x | 0 <= x < |f| ensures ByteOk(f0, f, w', x) {
      assert ByteOk(f0, f, w, x);
    }
  }

  /** A call that fails may have had some of its bytes written. */
  function Failed(w: Writing, i: nat, m: nat, claims: seq<nat>): Writing
    requires i < |w.calls|
  {
    w.(calls := Without(w.calls, i), maxOffset := m, claims := claims, failed := true)
  }

  lemma {:induction false} FailedWrite(f0: seq<byte>, f: seq<byte>, w: Writing, i: nat, n: nat, m: nat, claims: seq<nat>)
    requires Bounded(f0, f, w) && i < |w.calls| && n <= w.calls[i].count
    ensures WriteInvariant(f0, Apply(f, w, i, n), Failed(w, i, m, claims))
  {
    ApplyBounded(f0, f, w, i, n);
    InsideWithout(w.calls, i, w.offset, End(w));
    BoundedLater(f0, Apply(f, w, i, n), w, Failed(w, i, m, claims));
  }

  /** The rest of call i is sent again after a reply that claims n of its bytes. */
  function Resent(w: Writing, i: nat, n: nat): Writing
    requires i < |w.calls| && n <= w.calls[i].count
  {
    w.(calls := Rest(w.calls, i, n), claims := w.claims + [w.calls[i].offset + n])
  }

  lemma {:induction false} ShortWriteByte(f: seq<byte>, w: Writing, i: nat, n: nat, x: int)
    requires Inside(w.calls, w.offset, End(w)) && i < |w.calls| && n <= w.calls[i].count && Pending(f, w, x)
    ensures Pending(Apply(f, w, i, n), Resent(w, i, n), x)
  {
    if Landed(f, w, x) {
      ApplyKeeps(f, w, i, n, x);
    } else if w.calls[i].offset <= x < w.calls[i].offset + n {
      ApplyLands(f, w, i, n, x);
    } else {
      CoveredShrunk(w.calls, i, n, x);
    }
  }

  /** A short reply: the rest of the call is sent again. */
  lemma {:induction false} ShortWrite(f0: seq<byte>, f: seq<byte>, w: Writing, i: nat, n: nat)
    requires WriteInvariant(f0, f, w) && i < |w.calls| && n < w.calls[i].count
    ensures WriteInvariant(f0, Apply(f, w, i, n), Resent(w, i, n))
  {
    var g, w' := Apply(f, w, i, n), Resent(w, i, n);
    ApplyBounded(f0, f, w, i, n);
    BoundedLater(f0, g, w, w');
    if !w.failed {
      if Covered(w.calls, End(w) - 1) {
        CoveredShrunk(w.calls, i, n, End(w) - 1);
      }
      forall x | w.offset <= x < End(w) ensures Pending(g, w', x) {
        assert Pending(f, w, x);
        ShortWriteByte(f, w, i, n, x);
      }
    }
  }

  /** The offset reached after a reply that claims n bytes at `offset`. */
  function Further(m: nat, offset: nat, n: nat): nat {
    if n > 0 && m < offset + n then offset + n else m
  }

  /** Call i is over: a reply claims n bytes, all that it had or more. */
  function Answered(w: Writing, i: nat, n: nat): Writing
    requires i < |w.calls|
  {
    var c := w.calls[i];
    w.(calls := Without(w.calls, i), maxOffset := Further(w.maxOffset, c.offset, n), claims := w.claims + [c.offset + n])
  }

  lemma {:induction false} LastWriteByte(f: seq<byte>, w: Writing, i: nat, n: nat, x: int)
    requires Inside(w.calls, w.offset, End(w)) && i < |w.calls| && Pending(f, w, x)
    ensures Pending(Apply(f, w, i, w.calls[i].count), Answered(w, i, n), x)
  {
    if Landed(f, w, x) {
      ApplyKeeps(f, w, i, w.calls[i].count, x);
    } else if Spans(w.calls[i], x) {
      ApplyLands(f, w, i, w.calls[i].count, x);
    } else {
      CoveredWithout(w.calls, i, x);
    }
  }

  lemma {:induction false} AnsweredReached(w: Writing, i: nat, n: nat)
    requires Reached(w) && i < |w.calls| && n >= w.calls[i].count && Inside(w.calls, w.offset, End(w))
    ensures Reached(Answered(w, i, n))
  {
    var c, w' := w.calls[i], Answered(w, i, n);
    if Covered(w.calls, End(w) - 1) && !Spans(c, End(w) - 1) {
      CoveredWithout(w.calls, i, End(w) - 1);
    }
    assert w'.claims[|w.claims|] == c.offset + n;
    assert w.maxOffset in w.claims ==> w.maxOffset in w'.claims;
  }

  /** The whole call is written. */
  lemma {:induction false} LastWrite(f0: seq<byte>, f: seq<byte>, w: Writing, i: nat, n: nat)
    requires WriteInvariant(f0, f, w) && i < |w.calls| && n >= w.calls[i].count
    ensures WriteInvariant(f0, Apply(f, w, i, w.calls[i].count), Answered(w, i, n))
  {
    var g, w' := Apply(f, w, i, w.calls[i].count), Answered(w, i, n);
    ApplyBounded(f0, f, w, i, w.calls[i].count);
    InsideWithout(w.calls, i, w.offset, End(w));
    BoundedLater(f0, g, w, w');
    if !w.failed {
      AnsweredReached(w, i, n);
      forall x | w.offset <= x < End(w) ensures Pending(g, w', x) {
        assert Pending(f, w, x);
        LastWriteByte(f, w, i, n, x);
      }
    }
  }

  /** Whatever is done with call i next keeps the invariant. */
  lemma {:induction false} WriteSteps(f0: seq<byte>, f: seq<byte>, w: Writing, i: nat, n: nat, w': Writing)
    requires WriteInvariant(f0, f, w) && i < |w.calls|
    requires || w' == Failed(w, i, w'.maxOffset, w'.claims)
             || (n < w.calls[i].count && w' == Resent(w, i, n))
             || (n >= w.calls[i].count && w' == Answered(w, i, n))
    ensures WriteInvariant(f0, Apply(f, w, i, Min(n, w.calls[i].count)), w')
  {
    if w' == Failed(w, i, w'.maxOffset, w'.claims) {
      FailedWrite(f0, f, w, i, Min(n, w.calls[i].count), w'.maxOffset, w'.claims);
    } else if n < w.calls[i].count {
      ShortWrite(f0, f, w, i, n);
    } else {
      LastWrite(f0, f, w, i, n);
    }
  }

  /** The rest of the call is sent again after a short reply, or the call is over. When the
      rest cannot be sent the client has already moved the call's offset, so the offset it
      records is too large by what was written; the failure hides that. */
  method SettleWrite(calls: seq<Chunk>, i: nat, n: nat, answer: WriteAnswer, sends: bool, maxOffset: nat, flags: Flags)
    returns (rest: seq<Chunk>, max: nat, fl: Flags)
    requires i < |calls|
    ensures Outstanding(rest) < Outstanding(calls)
    ensures || (rest == Without(calls, i) && fl.Any())
            || (Succeeds(answer) && n < calls[i].count && rest == Rest(calls, i, n) && max == maxOffset && fl == flags)
            || (Succeeds(answer) && n >= calls[i].count && rest == Without(calls, i) && fl == flags &&
                max == Further(maxOffset, calls[i].offset, n))
    ensures Succeeds(answer) && n >= calls[i].count ==>
              rest == Without(calls, i) && fl == flags && max == Further(maxOffset, calls[i].offset, n)
    ensures Caused(flags, fl, answer.WriteCancels?,
                   answer.WriteFails? || answer.WriteRefuses? || (Succeeds(answer) && n == 0 < calls[i].count), !sends)
  {
    OutstandingAt(calls, i);
    var c := calls[i];
    rest, max, fl := Without(calls, i), maxOffset, flags;
    if !Succeeds(answer) {
      fl := if answer.WriteCancels? then fl.(cancel := true) else fl.(error := true);
      return;
    }
    if n < c.count {
      if n == 0 {
        fl := fl.(error := true);
      } else {
        c := Chunk(c.offset + n, c.count - n);
        if sends {
          OutstandingRest(calls, i, n);
          rest := calls[i := c];
          return;
        }
        fl := fl.(oom := true);
      }
    }
    if n > 0 && max < c.offset + n {
      max := c.offset + n;
    }
  }

  /** The end of the range that a reply claims. */
  function ClaimOf(c: Chunk, a: WriteAnswer): seq<nat> {
    if Succeeds(a) then [c.offset + CountIn(c, a)] else []
  }

  lemma {:induction false} OneMoreClaim(claims: seq<nat>, c: Chunk, a: WriteAnswer, end: nat)
    requires c.offset + c.count <= end && Overclaimed(claims + ClaimOf(c, a), end)
    ensures Overclaimed(claims, end) || a.Overclaims?
  {
    var all := claims + ClaimOf(c, a);
    var k :| 0 <= k < |all| && all[k] > end;
    if k < |claims| {
      assert claims[k] > end;
    }
  }

  class WriteOp {
    const offset: nat
    const data: seq<byte>
    var calls: seq<Chunk>
    var maxOffset: nat
    var flags: Flags
    ghost var claims: seq<nat>

    ghost function Value(): Writing
      reads this
    {
      Writing(offset, data, calls, maxOffset, claims, flags.Any())
    }

    ghost predicate Valid(f0: seq<byte>, f: seq<byte>)
      reads this
    {
      WriteInvariant(f0, f, Value())
    }

    constructor (offset: nat, data: seq<byte>, calls: seq<Chunk>, allSent: bool)
      ensures this.offset == offset && this.data == data && this.calls == calls && claims == []
      ensures maxOffset == offset && flags == Flags(!allSent, false, false)
    {
      this.offset, this.data, this.calls, claims := offset, data, calls, [];
      maxOffset, flags := offset, Flags(!allSent, false, false);
    }

    method Set(rest: seq<Chunk>, max: nat, fl: Flags, ghost more: seq<nat>)
      modifies this
      ensures calls == rest && flags == fl && claims == old(claims) + more
      ensures Value() == old(Value()).(calls := rest, maxOffset := max, claims := claims, failed := fl.Any())
    {
      calls, maxOffset, flags, claims := rest, max, fl, claims + more;
    }

    /** nfs3_pwrite_mcb, up to the point where the callback is due: `f` is the server's file
        when it takes the call, `g` after. */
    method OnReply(i: nat, answer: WriteAnswer, sends: bool, ghost f0: seq<byte>, f: seq<byte>) returns (g: seq<byte>)
      requires Valid(f0, f) && i < |calls|
      modifies this
      ensures Valid(f0, g) && Outstanding(calls) < old(Outstanding(calls))
      ensures claims == old(claims) + ClaimOf(old(calls[i]), answer)
      ensures Succeeds(answer) && CountIn(old(calls[i]), answer) >= old(calls[i]).count ==>
                Value() == Answered(old(Value()), i, CountIn(old(calls[i]), answer))
      ensures Caused(old(flags), flags, answer.WriteCancels?, FaultyWrite(old(calls[i]), answer), !sends)
    {
      var c := calls[i];
      var n := CountIn(c, answer);
      g := Patch(f, c.offset, Carried(data, offset, c, Min(n, c.count)));
      ghost var w := Value();
      ghost var more := ClaimOf(c, answer);
      assert g == Apply(f, w, i, Min(n, c.count));
      var rest, max, fl := SettleWrite(calls, i, n, answer, sends, maxOffset, flags);
      ghost var w' := w.(calls := rest, maxOffset := max, claims := w.claims + more, failed := fl.Any());
      WriteSteps(f0, f, w, i, n, w');
      Set(rest, max, fl, more);
      assert Value() == w';
    }
  }

  /** Runs the write to its end, whatever order the calls are answered in. */
  method DrainWrite(op: WriteOp, f0: seq<byte>, turns: nat -> WriteTurn) returns (f: seq<byte>)
    requires op.Valid(f0, f0) && op.claims == []
    modifies op
    ensures op.Valid(f0, f) && op.calls == []
    ensures Raised(old(op.flags), op.flags) && BlamedWrite(old(op.flags), op.flags, turns)
    ensures (forall k :: GoodWrite(turns(k))) ==> op.flags == old(op.flags)
    ensures Overclaimed(op.claims, End(op.Value())) ==> SomeOverclaims(turns)
  {
    f := f0;
    var k := 0;
    while |op.calls| > 0
      invariant op.Valid(f0, f) && Raised(old(op.flags), op.flags) && BlamedWrite(old(op.flags), op.flags, turns)
      invariant (forall k :: GoodWrite(turns(k))) ==> op.flags == old(op.flags)
      invariant Overclaimed(op.claims, End(op.Value())) ==> SomeOverclaims(turns)
      decreases Outstanding(op.calls)
    {
      var t := turns(k);
      var i := t.which % |op.calls|;
      ghost var before, c := op.claims, op.calls[i];
      f := op.OnReply(i, t.answer, t.sends, f0, f);
      if Overclaimed(op.claims, End(op.Value())) {
        OneMoreClaim(before, c, t.answer, End(op.Value()));
      }
      k := k + 1;
    }
  }

  /** One byte, written and answered with a claim of two: the write ends without a failure and
      reports two bytes. */
  method OverclaimIsReported(x: byte) returns (failed: bool, count: int)
    ensures !failed && count == 2
  {
    var op := new WriteOp(0, [x], [Chunk(0, 1)], true);
    assert op.Valid([], []) by {
      assert Spans(op.calls[0], 0);
      StartWrite([], op.Value());
    }
    var g := op.OnReply(0, Overclaims(0), true, [], []);
    failed, count := |op.calls| > 0 || op.flags.Any(), op.maxOffset - op.offset;
  }
}
