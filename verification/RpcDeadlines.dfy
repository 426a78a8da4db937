/** When the timeout scan can trust its queues. The scan unlinks expired calls but resets
    the tail pointer only once a queue is empty (see `RpcLists.ScanQueue`), so it needs
    every queue to be `SafeToScan`. With one fixed timeout, a clock that never runs
    backwards and no reconnect, that holds in every reachable state. */
module RpcDeadlines {
  import opened Bytes
  import opened RpcEngine

  /** The tail survives the scan, or nothing does. */
  predicate SafeToScan(s: seq<Pdu>, now: nat) {
    s == [] || !Expired(s[|s| - 1], now) || Unexpired(s, now) == []
  }

  predicate Sorted(s: seq<Pdu>) {
    forall i, j | 0 <= i < j < |s| :: s[i].deadline <= s[j].deadline
  }

  /** Every call has a deadline up to `limit`, or none has one and `limit` is 0. */
  predicate Within(s: seq<Pdu>, limit: nat) {
    forall i | 0 <= i < |s| :: s[i].deadline <= limit && (s[i].deadline == 0 <==> limit == 0)
  }

  predicate Before(s: seq<Pdu>, t: seq<Pdu>) {
    forall i, j | 0 <= i < |s| && 0 <= j < |t| :: s[i].deadline <= t[j].deadline
  }

  predicate ChainOrdered(c: seq<Pdu>, out: seq<Pdu>, limit: nat) {
    Sorted(c) && Within(c, limit) && Before(c, out)
  }

  predicate Ordered(e: Engine, clock: nat) {
    var limit := Deadline(e.timeout, clock);
    && Sorted(e.out) && Within(e.out, limit)
    && |e.wait| == HASHES
    && forall h | 0 <= h < HASHES :: ChainOrdered(e.wait[h], e.out, limit)
  }

  /** The clock reading after an event. */
  function Tick(ev: Event, clock: nat): nat {
    match ev
    case Issue(_, now) => now
    case Scan(now) => now
    case _ => clock
  }

  /** The clock never runs backwards, the timeout is never changed and there is no
      reconnect. */
  predicate Steady(events: seq<Event>, clock: nat) {
    events == [] ||
    (&& clock <= Tick(events[0], clock)
     && !events[0].Reconnect? && !events[0].SetTimeout?
     && Steady(events[1..], Tick(events[0], clock)))
  }

  // ---------------------------------------------------------------- what a scan keeps

  lemma {:induction false} UnexpiredWithin(s: seq<Pdu>, now: nat, limit: nat)
    requires Within(s, limit)
    ensures Within(Unexpired(s, now), limit)
  {
    if s != [] {
      UnexpiredWithin(s[1..], now, limit);
    }
  }

  lemma {:induction false} UnexpiredBelow(s: seq<Pdu>, now: nat, d: nat)
    requires forall i | 0 <= i < |s| :: d <= s[i].deadline
    ensures forall i | 0 <= i < |Unexpired(s, now)| :: d <= Unexpired(s, now)[i].deadline
  {
    if s != [] {
      UnexpiredBelow(s[1..], now, d);
    }
  }

  lemma {:induction false} UnexpiredSorted(s: seq<Pdu>, now: nat)
    requires Sorted(s)
    ensures Sorted(Unexpired(s, now))
  {
    if s != [] {
      UnexpiredSorted(s[1..], now);
      UnexpiredBelow(s[1..], now, s[0].deadline);
    }
  }

  lemma {:induction false} UnexpiredBefore(s: seq<Pdu>, t: seq<Pdu>, now: nat)
    requires Before(s, t)
    ensures Before(Unexpired(s, now), Unexpired(t, now))
  {
    if s != [] {
      UnexpiredBefore(s[1..], t, now);
      UnexpiredBelow(t, now, s[0].deadline);
    }
  }

  lemma {:induction false} ScanKeepsOrder(e: Engine, clock: nat, now: nat)
    requires Ordered(e, clock) && clock <= now
    ensures Ordered(DoScan(e, now), now)
  {
    var limit := Deadline(e.timeout, clock);
    var e' := DoScan(e, now);
    UnexpiredSorted(e.out, now);
    UnexpiredWithin(e.out, now, limit);
    forall h | 0 <= h < HASHES
      ensures ChainOrdered(e'.wait[h], e'.out, Deadline(e.timeout, now))
    {
      assert ChainOrdered(e.wait[h], e.out, limit);
      UnexpiredSorted(e.wait[h], now);
      UnexpiredWithin(e.wait[h], now, limit);
      UnexpiredBefore(e.wait[h], e.out, now);
    }
  }

  lemma {:induction false} SentKeepsOrder(c: seq<Pdu>, out: seq<Pdu>, q: Pdu, limit: nat)
    requires out != [] && q.deadline == out[0].deadline
    requires Sorted(out) && Within(out, limit) && ChainOrdered(c, out, limit)
    ensures ChainOrdered(c, out[1..], limit) && ChainOrdered(c + [q], out[1..], limit)
    ensures ChainOrdered(c, [q] + out[1..], limit)
  {
  }

  lemma {:induction false} WriteKeepsOrder(e: Engine, clock: nat, count: nat)
    requires e.out != [] && e.out[0].written <= |e.out[0].data| && Ordered(e, clock)
    ensures Ordered(WriteHead(e, count), clock)
  {
    var e', limit := WriteHead(e, count), Deadline(e.timeout, clock);
    forall h | 0 <= h < HASHES ensures ChainOrdered(e'.wait[h], e'.out, limit) {
      assert ChainOrdered(e.wait[h], e.out, limit);
      SentKeepsOrder(e.wait[h], e.out, e'.out[0], limit);
    }
  }

  lemma {:induction false} MoveKeepsOrder(e: Engine, clock: nat)
    requires e.out != [] && Ordered(e, clock)
    ensures Ordered(MoveHead(e), clock)
  {
    var e', limit := MoveHead(e), Deadline(e.timeout, clock);
    forall h | 0 <= h < HASHES ensures ChainOrdered(e'.wait[h], e'.out, limit) {
      assert ChainOrdered(e.wait[h], e.out, limit);
      SentKeepsOrder(e.wait[h], e.out, e.out[0], limit);
    }
  }

  lemma {:induction false} SendKeepsOrder(e: Engine, clock: nat, count: nat)
    requires Invariant(e) && Ordered(e, clock)
    ensures Ordered(DoSend(e, count), clock)
  {
    if e.out != [] {
      WriteKeepsOrder(e, clock, count);
      MoveKeepsOrder(WriteHead(e, count), clock);
    }
  }

  lemma {:induction false} RemoveKeepsOrder(c: seq<Pdu>, k: nat, out: seq<Pdu>, limit: nat)
    requires k < |c| && ChainOrdered(c, out, limit)
    ensures ChainOrdered(c[..k] + c[k + 1..], out, limit)
  {
    var r := c[..k] + c[k + 1..];
    forall i | 0 <= i < |r| ensures r[i] == if i < k then c[i] else c[i + 1] {
    }
  }

  lemma {:induction false} ReplyKeepsOrder(e: Engine, clock: nat, xid: uint32, status: Status)
    requires Invariant(e) && Ordered(e, clock)
    ensures Ordered(DoReply(e, xid, status), clock)
  {
    var x := HashXid(xid);
    var k := FindXid(e.wait[x], xid);
    var e' := DoReply(e, xid, status);
    var limit := Deadline(e.timeout, clock);
    forall h | 0 <= h < HASHES ensures ChainOrdered(e'.wait[h], e'.out, limit) {
      assert ChainOrdered(e.wait[h], e.out, limit);
      if h == x && k < |e.wait[x]| {
        RemoveKeepsOrder(e.wait[h], k, e.out, limit);
      }
    }
  }

  lemma {:induction false} IssueKeepsOrder(e: Engine, clock: nat, body: seq<byte>, now: nat)
    requires Ordered(e, clock) && clock <= now
    ensures Ordered(DoIssue(e, body, now), now)
  {
    var e' := DoIssue(e, body, now);
    var limit := Deadline(e.timeout, now);
    forall h | 0 <= h < HASHES ensures ChainOrdered(e'.wait[h], e'.out, limit) {
      assert ChainOrdered(e.wait[h], e.out, Deadline(e.timeout, clock));
    }
  }

  lemma {:induction false} StepKeepsOrder(e: Engine, ev: Event, clock: nat)
    requires Invariant(e) && Ordered(e, clock) && Steady([ev], clock)
    ensures Ordered(Step(e, ev), Tick(ev, clock))
  {
    match ev
    case Issue(body, now) => IssueKeepsOrder(e, clock, body, now);
    case Send(count) => SendKeepsOrder(e, clock, count);
    case Reply(xid, status) => ReplyKeepsOrder(e, clock, xid, status);
    case Scan(now) => ScanKeepsOrder(e, clock, now);
    case Purge(_) =>
    case Disconnect =>
    case AllocFails =>
    case Connected =>
    case SetAutoReconnect(_) =>
  }

  lemma {:induction false} RunKeepsOrder(e: Engine, events: seq<Event>, clock: nat) returns (end: nat)
    requires Invariant(e) && Ordered(e, clock) && Steady(events, clock)
    ensures Ordered(Run(e, events), end)
    decreases |events|
  {
    end := clock;
    if events != [] {
      StepInvariant(e, events[0]);
      StepKeepsOrder(e, events[0], clock);
      end := RunKeepsOrder(Step(e, events[0]), events[1..], Tick(events[0], clock));
    }
  }

  // ---------------------------------------------------------------- the conclusion

  /** How many leading calls have expired; in an ordered queue, all that have. */
  function ExpiredPrefix(s: seq<Pdu>, now: nat): (k: nat)
    ensures k <= |s|
    ensures forall i | 0 <= i < k :: Expired(s[i], now)
    ensures k < |s| ==> !Expired(s[k], now)
  {
    if s == [] || !Expired(s[0], now) then 0 else 1 + ExpiredPrefix(s[1..], now)
  }

  lemma {:induction false} NoneExpired(s: seq<Pdu>, now: nat)
    requires forall i | 0 <= i < |s| :: !Expired(s[i], now)
    ensures Unexpired(s, now) == s
  {
    if s != [] {
      NoneExpired(s[1..], now);
    }
  }

  lemma {:induction false} OrderedScansAsPrefix(s: seq<Pdu>, limit: nat, now: nat)
    requires Sorted(s) && Within(s, limit)
    ensures Unexpired(s, now) == s[ExpiredPrefix(s, now)..]
  {
    if s != [] {
      if Expired(s[0], now) {
        OrderedScansAsPrefix(s[1..], limit, now);
        assert s[1..][ExpiredPrefix(s[1..], now)..] == s[ExpiredPrefix(s, now)..];
      } else {
        assert forall i | 0 <= i < |s| :: !Expired(s[i], now);
        NoneExpired(s, now);
      }
    }
  }

  lemma {:induction false} OrderedIsSafeToScan(s: seq<Pdu>, limit: nat, now: nat)
    requires Sorted(s) && Within(s, limit)
    ensures SafeToScan(s, now)
  {
    var k := ExpiredPrefix(s, now);
    if k < |s| {
      assert !Expired(s[k], now);
      assert s[k].deadline <= s[|s| - 1].deadline;
    } else {
      OrderedScansAsPrefix(s, limit, now);
      assert s[|s|..] == [];
    }
  }

  /** The scan removes a prefix of the queue and can trust its tail. */
  predicate ScansAsPrefix(s: seq<Pdu>, now: nat) {
    SafeToScan(s, now) && Unexpired(s, now) == s[ExpiredPrefix(s, now)..]
  }

  lemma {:induction false} OrderedEngineScansAsPrefix(e: Engine, clock: nat, now: nat)
    requires Ordered(e, clock)
    ensures ScansAsPrefix(e.out, now) && forall h | 0 <= h < HASHES :: ScansAsPrefix(e.wait[h], now)
  {
    var limit := Deadline(e.timeout, clock);
    OrderedScansAsPrefix(e.out, limit, now);
    OrderedIsSafeToScan(e.out, limit, now);
    forall h | 0 <= h < HASHES ensures ScansAsPrefix(e.wait[h], now) {
      assert ChainOrdered(e.wait[h], e.out, limit);
      OrderedScansAsPrefix(e.wait[h], limit, now);
      OrderedIsSafeToScan(e.wait[h], limit, now);
    }
  }

  /** In every state reached by a steady run, at every time, each queue is safe to scan
      and the scan removes a prefix of it. */
  lemma {:induction false} SteadyRunsAreSafeToScan(base: uint32, timeout: int, autoReconnect: int, events: seq<Event>,
                                                   now: nat)
    requires Steady(events, 0)
    ensures var e := Run(Init(base, timeout, autoReconnect), events);
            ScansAsPrefix(e.out, now) && forall h | 0 <= h < HASHES :: ScansAsPrefix(e.wait[h], now)
  {
    var e0 := Init(base, timeout, autoReconnect);
    var clock := RunKeepsOrder(e0, events, 0);
    OrderedEngineScansAsPrefix(Run(e0, events), clock, now);
  }

  /** A shorter timeout set between two calls: the scan then drops the tail and keeps the
      head. */
  lemma {:induction false} ShorterTimeoutIsUnsafe(base: uint32, body: seq<byte>)
    ensures var e := Run(Init(base, 1000, 0), [Issue(body, 0), SetTimeout(10), Issue(body, 0)]);
            |e.out| == 2 && !SafeToScan(e.out, 20)
  {
    var e0 := Init(base, 1000, 0);
    RunThree(e0, Issue(body, 0), SetTimeout(10), Issue(body, 0));
    var e1 := DoIssue(e0, body, 0).(timeout := 10);
    assert DoIssue(e1, body, 0).out == [e1.out[0], DoIssue(e1, body, 0).out[1]];
    assert !Expired(e1.out[0], 20);
  }
}
