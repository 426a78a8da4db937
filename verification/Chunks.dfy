/** The calls a large read or write is cut into, and the ones still outstanding. */
module Chunks {
  import opened Bytes

  datatype Chunk = Chunk(offset: nat, count: nat)

  predicate Spans(c: Chunk, x: int) {
    c.offset <= x < c.offset + c.count
  }

  /** Some outstanding call asks for byte x. */
  ghost predicate Covered(cs: seq<Chunk>, x: int) {
    exists i :: 0 <= i < |cs| && Spans(cs[i], x)
  }

  ghost predicate Inside(cs: seq<Chunk>, lo: int, hi: int) {
    forall i :: 0 <= i < |cs| ==> lo <= cs[i].offset && cs[i].offset + cs[i].count <= hi
  }

  /** The first n bytes of call i are answered. */
  function Rest(cs: seq<Chunk>, i: nat, n: nat): seq<Chunk>
    requires i < |cs| && n <= cs[i].count
  {
    cs[i := Chunk(cs[i].offset + n, cs[i].count - n)]
  }

  /** What is left to be answered: every call counts its bytes and itself. */
  ghost function Outstanding(cs: seq<Chunk>): nat {
    if |cs| == 0 then 0 else cs[0].count + 1 + Outstanding(cs[1..])
  }

  lemma {:induction false} OutstandingAppend(a: seq<Chunk>, b: seq<Chunk>)
    ensures Outstanding(a + b) == Outstanding(a) + Outstanding(b)
  {
    if |a| == 0 {
      assert a + b == b;
    } else {
      assert (a + b)[1..] == a[1..] + b;
      OutstandingAppend(a[1..], b);
    }
  }

  lemma {:induction false} OutstandingAt(cs: seq<Chunk>, i: nat)
    requires i < |cs|
    ensures Outstanding(cs) == Outstanding(Without(cs, i)) + cs[i].count + 1
  {
    assert cs == cs[..i] + cs[i..] && cs[i..][1..] == cs[i + 1..];
    OutstandingAppend(cs[..i], cs[i..]);
    OutstandingAppend(cs[..i], cs[i + 1..]);
  }

  lemma {:induction false} OutstandingRest(cs: seq<Chunk>, i: nat, n: nat)
    requires i < |cs| && n <= cs[i].count
    ensures Outstanding(Rest(cs, i, n)) == Outstanding(cs) - n
  {
    OutstandingAt(cs, i);
    OutstandingAt(Rest(cs, i, n), i);
    assert Without(Rest(cs, i, n), i) == Without(cs, i);
  }

  /** Answering call i uncovers only bytes that call i asked for. */
  lemma {:induction false} CoveredWithout(cs: seq<Chunk>, i: nat, x: int)
    requires i < |cs| && Covered(cs, x) && !Spans(cs[i], x)
    ensures Covered(Without(cs, i), x)
  {
    var j :| 0 <= j < |cs| && Spans(cs[j], x);
    var k := if j < i then j else j - 1;
    assert Without(cs, i)[k] == cs[j];
  }

  lemma {:induction false} CoveredShrunk(cs: seq<Chunk>, i: nat, n: nat, x: int)
    requires i < |cs| && n <= cs[i].count && Covered(cs, x)
    requires !(cs[i].offset <= x < cs[i].offset + n)
    ensures Covered(Rest(cs, i, n), x)
  {
    var j :| 0 <= j < |cs| && Spans(cs[j], x);
    assert Spans(Rest(cs, i, n)[j], x);
  }

  lemma {:induction false} CoveredByLast(cs: seq<Chunk>, c: Chunk, x: int)
    ensures Covered(cs + [c], x) <==> Covered(cs, x) || Spans(c, x)
  {
    if Covered(cs, x) {
      var j :| 0 <= j < |cs| && Spans(cs[j], x);
      assert Spans((cs + [c])[j], x);
    }
    if Spans(c, x) {
      assert Spans((cs + [c])[|cs|], x);
    }
  }

  /** How many calls of at most `max` bytes a request makes; one for no bytes. */
  function CallsFor(count: nat, max: nat): (n: nat)
    requires max > 0
    ensures n >= 1
  {
    if count <= max then 1 else 1 + CallsFor(count - max, max)
  }

  /** It is the least number, other than none, whose calls have room for all bytes. */
  lemma {:induction false} FewestCalls(count: nat, max: nat, n: nat)
    requires max > 0 && n >= 1
    ensures CallsFor(count, max) <= n <==> count <= n * max
  {
    assert n * max == max + (n - 1) * max;
    if count > max && n > 1 {
      FewestCalls(count - max, max, n - 1);
    }
  }

  /** Where the last call ends. */
  function Reach(calls: seq<Chunk>, offset: nat): nat {
    if |calls| == 0 then offset else calls[|calls| - 1].offset + calls[|calls| - 1].count
  }

  /** The calls take up the bytes from `offset` on one after the other, all but the last of
      them with as many bytes as a call may have. */
  ghost predicate Cut(calls: seq<Chunk>, offset: nat, max: nat) {
    && Inside(calls, offset, Reach(calls, offset))
    && (|calls| > 0 ==> calls[0].offset == offset && calls[|calls| - 1].count <= max)
    && (forall i :: 0 <= i < |calls| - 1 ==> calls[i].count == max)
    && (forall i :: 0 < i < |calls| ==> calls[i].offset == calls[i - 1].offset + calls[i - 1].count)
    && (forall x :: offset <= x < Reach(calls, offset) ==> Covered(calls, x))
  }

  lemma {:induction false} CutMore(calls: seq<Chunk>, offset: nat, max: nat, n: nat)
    requires Cut(calls, offset, max) && n <= max && (|calls| > 0 ==> calls[|calls| - 1].count == max)
    ensures var more := calls + [Chunk(Reach(calls, offset), n)];
            Cut(more, offset, max) && Reach(more, offset) == Reach(calls, offset) + n
  {
    var c := Chunk(Reach(calls, offset), n);
    forall x | offset <= x < Reach(calls, offset) + n ensures Covered(calls + [c], x) {
      CoveredByLast(calls, c, x);
    }
  }

  /** Cuts a request into calls of at most `max` bytes, sent in order. The first `sendable`
      calls can be sent. Nothing is sent at all, or some of the calls are, or all of them;
      a request of no bytes still makes one call. */
  method Issue(offset: nat, count: nat, max: nat, sendable: nat) returns (calls: seq<Chunk>, ok: bool)
    requires max > 0
    ensures ok <==> CallsFor(count, max) <= sendable
    ensures |calls| == if ok then CallsFor(count, max) else sendable
    ensures Cut(calls, offset, max) && Reach(calls, offset) <= offset + count
    ensures ok ==> Reach(calls, offset) == offset + count
    ensures ok && count <= max ==> calls == [Chunk(offset, count)]
  {
    calls, ok := [], true;
    var off: nat, left: nat := offset, count;
    var first := true;
    while first || left > 0
      invariant off == Reach(calls, offset) && off + left == offset + count && Cut(calls, offset, max)
      invariant first <==> |calls| == 0
      invariant |calls| > 0 && left > 0 ==> calls[|calls| - 1].count == max
      invariant |calls| <= sendable
      invariant |calls| + (if first || left > 0 then CallsFor(left, max) else 0) == CallsFor(count, max)
      decreases first, left
    {
      first := false;
      var n: nat := if left > max then max else left;
      if |calls| >= sendable {
        return calls, false;
      }
      CutMore(calls, offset, max, n);
      calls, off, left := calls + [Chunk(off, n)], off + n, left - n;
    }
  }
}
