/** How calls end, stated from the outside: when a call times out, whom a purge ends, how often
    a lost connection is replaced, in which order calls are sent again, and when the counter of
    waiting calls is exact. */
module RpcEndings {
  import opened Bytes
  import opened RpcEngine
  import opened RpcRuns

  predicate Has(s: seq<Pdu>, id: nat) {
    exists i :: 0 <= i < |s| && s[i].id == id
  }

  predicate Live(e: Engine, id: nat) {
    InOut(e, id) || InChains(e, id)
  }

  lemma {:induction false} LiveIs(e: Engine, id: nat)
    ensures InOut(e, id) <==> Has(e.out, id)
    ensures InChains(e, id) <==> exists h :: 0 <= h < |e.wait| && Has(e.wait[h], id)
  {
    if InChains(e, id) {
      var h, i :| 0 <= h < |e.wait| && 0 <= i < |e.wait[h]| && e.wait[h][i].id == id;
      assert Has(e.wait[h], id);
    }
  }

  // ---------------------------------------------------------------- purges

  /** Between e and e' every call that was live was called back with this status, and no other
      callback ran. */
  ghost predicate AllEnded(e: Engine, e': Engine, status: Status) {
    && e'.out == [] && (forall h | 0 <= h < |e'.wait| :: e'.wait[h] == [])
    && |e.log| <= |e'.log| && e'.log[..|e.log|] == e.log
    && (forall i | |e.log| <= i < |e'.log| :: e'.log[i].status == status && Live(e, e'.log[i].id))
    && (forall id: nat | Live(e, id) :: Done(id, status) in e'.log[|e.log|..])
  }

  lemma {:induction false} PurgeLogIs(s: seq<Pdu>, status: Status)
    ensures |PurgeLog(s, status)| == |s| && forall i | 0 <= i < |s| :: PurgeLog(s, status)[i] == Done(s[i].id, status)
  {
    if s != [] {
      PurgeLogIs(s[1..], status);
    }
  }

  lemma {:induction false} PurgeChainsLogIs(w: seq<seq<Pdu>>, status: Status, d: Done)
    ensures d in PurgeChainsLog(w, status) <==> d.status == status && exists h :: 0 <= h < |w| && Has(w[h], d.id)
  {
    if w != [] {
      PurgeLogIs(w[0], status);
      PurgeChainsLogIs(w[1..], status, d);
      if d.status == status && Has(w[0], d.id) {
        var i :| 0 <= i < |w[0]| && w[0][i].id == d.id;
        assert PurgeLog(w[0], status)[i] == d;
      }
      assert forall h | 0 < h < |w| :: w[h] == w[1..][h - 1];
    }
  }

  lemma {:induction false} PurgedIs(e: Engine, status: Status, d: Done)
    ensures d in PurgeLog(e.out, status) + PurgeChainsLog(e.wait, status) <==> d.status == status && Live(e, d.id)
  {
    PurgeLogIs(e.out, status);
    PurgeChainsLogIs(e.wait, status, d);
    LiveIs(e, d.id);
    if d.status == status && Has(e.out, d.id) {
      var i :| 0 <= i < |e.out| && e.out[i].id == d.id;
      assert PurgeLog(e.out, status)[i] == d;
    }
  }

  lemma {:induction false} EndedBy(e: Engine, e': Engine, l: seq<Done>, status: Status)
    requires e'.log == e.log + l && e'.out == [] && forall h | 0 <= h < |e'.wait| :: e'.wait[h] == []
    requires forall d :: d in l <==> d.status == status && Live(e, d.id)
    ensures AllEnded(e, e', status)
  {
    var n := |e.log|;
    assert e'.log[n..] == l && e'.log[..n] == e.log;
    forall i | n <= i < |e'.log| ensures e'.log[i].status == status && Live(e, e'.log[i].id) {
      assert e'.log[i] == l[i - n] && l[i - n] in l;
    }
    forall id: nat | Live(e, id) ensures Done(id, status) in e'.log[n..] {
      assert Done(id, status).id == id;
    }
  }

  /** A purge ends exactly the live calls, all with its status. */
  lemma {:induction false} PurgeEndsAll(e: Engine, status: Status)
    ensures AllEnded(e, DoPurge(e, status), status)
  {
    var a, b := PurgeLog(e.out, status), PurgeChainsLog(e.wait, status);
    forall d: Done ensures d in a + b <==> d.status == status && Live(e, d.id) {
      PurgedIs(e, status, d);
    }
    Assoc(e.log, a, b);
    EndedBy(e, DoPurge(e, status), a + b, status);
  }

  // ---------------------------------------------------------------- timeouts

  /** The timeout in force after these events. */
  function TimeoutAfter(timeout: int, events: seq<Event>): int
    decreases |events|
  {
    if events == [] then timeout
    else TimeoutAfter(if events[0].SetTimeout? then events[0].timeout else timeout, events[1..])
  }

  lemma {:induction false} TimeoutInForce(e: Engine, events: seq<Event>)
    requires Invariant(e)
    ensures Run(e, events).timeout == TimeoutAfter(e.timeout, events)
    decreases |events|
  {
    if events != [] {
      StepInvariant(e, events[0]);
      TimeoutInForce(Step(e, events[0]), events[1..]);
    }
  }

  predicate DueIn(s: seq<Pdu>, id: nat, d: nat) {
    forall i | 0 <= i < |s| && s[i].id == id :: s[i].deadline == d
  }

  /** Wherever call `id` is, its deadline is d. */
  predicate Due(e: Engine, id: nat, d: nat) {
    DueIn(e.out, id, d) && forall h | 0 <= h < |e.wait| :: DueIn(e.wait[h], id, d)
  }

  lemma {:induction false} UnexpiredDue(s: seq<Pdu>, now: nat, id: nat, d: nat)
    requires DueIn(s, id, d)
    ensures DueIn(Unexpired(s, now), id, d)
  {
    if s != [] {
      UnexpiredDue(s[1..], now, id, d);
    }
  }

  lemma {:induction false} PushFrontDue(chain: seq<Pdu>, out: seq<Pdu>, id: nat, d: nat)
    requires DueIn(chain, id, d) && DueIn(out, id, d)
    ensures DueIn(PushFront(chain, out), id, d)
    decreases |chain|
  {
    if chain != [] {
      PushFrontDue(chain[1..], [chain[0].(written := 0)] + out, id, d);
    }
  }

  lemma {:induction false} PushChainsDue(w: seq<seq<Pdu>>, out: seq<Pdu>, id: nat, d: nat)
    requires DueIn(out, id, d) && forall h | 0 <= h < |w| :: DueIn(w[h], id, d)
    ensures DueIn(PushChains(w, out), id, d)
    decreases |w|
  {
    if w != [] {
      PushFrontDue(w[0], out, id, d);
      PushChainsDue(w[1..], PushFront(w[0], out), id, d);
    }
  }

  lemma {:induction false} SendDue(e: Engine, count: nat, id: nat, d: nat)
    requires Shape(e) && Due(e, id, d)
    ensures Due(DoSend(e, count), id, d)
  {
    if e.out != [] {
      var e1 := WriteHead(e, count);
      assert e1.out[0].id == e.out[0].id && e1.out[0].deadline == e.out[0].deadline;
      var h := HashXid(e1.out[0].xid);
      assert DueIn(e.wait[h], id, d) && DueIn(e.wait[h] + [e1.out[0]], id, d);
    }
  }

  lemma {:induction false} RemoveDue(c: seq<Pdu>, k: nat, id: nat, d: nat)
    requires DueIn(c, id, d) && k < |c|
    ensures DueIn(c[..k] + c[k + 1..], id, d)
  {
    var r := c[..k] + c[k + 1..];
    forall i | 0 <= i < |r| && r[i].id == id ensures r[i].deadline == d {
      assert r[i] == c[if i < k then i else i + 1];
    }
  }

  lemma {:induction false} ReplyDue(e: Engine, xid: uint32, status: Status, id: nat, d: nat)
    requires Shape(e) && Due(e, id, d)
    ensures Due(DoReply(e, xid, status), id, d)
  {
    var h := HashXid(xid);
    var k := FindXid(e.wait[h], xid);
    if k < |e.wait[h]| {
      RemoveDue(e.wait[h], k, id, d);
    }
  }

  lemma {:induction false} ScanDue(e: Engine, now: nat, id: nat, d: nat)
    requires Due(e, id, d)
    ensures Due(DoScan(e, now), id, d)
  {
    UnexpiredDue(e.out, now, id, d);
    forall h | 0 <= h < |e.wait| ensures DueIn(DoScan(e, now).wait[h], id, d) {
      UnexpiredDue(e.wait[h], now, id, d);
    }
  }

  lemma {:induction false} RequeueDue(e: Engine, id: nat, d: nat)
    requires Due(e, id, d)
    ensures Due(DoRequeue(e), id, d)
  {
    assert DueIn(RestartHead(e.out), id, d);
    PushChainsDue(e.wait, RestartHead(e.out), id, d);
  }

  /** No event changes the deadline of a call. */
  lemma {:induction false} StepDue(e: Engine, ev: Event, id: nat, d: nat)
    requires Invariant(e) && id < e.nextId && Due(e, id, d)
    ensures Due(Step(e, ev), id, d) && id < Step(e, ev).nextId
  {
    match ev
    case Send(count) => SendDue(e, count, id, d);
    case Reply(xid, status) => ReplyDue(e, xid, status, id, d);
    case Scan(now) => ScanDue(e, now, id, d);
    case Reconnect(_) => RequeueDue(e, id, d);
    case _ =>
  }

  lemma {:induction false} RunDue(e: Engine, events: seq<Event>, id: nat, d: nat)
    requires Invariant(e) && id < e.nextId && Due(e, id, d)
    ensures Due(Run(e, events), id, d)
    decreases |events|
  {
    if events != [] {
      StepInvariant(e, events[0]);
      StepDue(e, events[0], id, d);
      RunDue(Step(e, events[0]), events[1..], id, d);
    }
  }

  lemma {:induction false} HasEither(a: seq<Pdu>, b: seq<Pdu>, id: nat)
    ensures Has(a + b, id) <==> Has(a, id) || Has(b, id)
  {
    if Has(a, id) {
      var i :| 0 <= i < |a| && a[i].id == id;
      assert (a + b)[i] == a[i];
    }
    if Has(b, id) {
      var i :| 0 <= i < |b| && b[i].id == id;
      assert (a + b)[|a| + i] == b[i];
    }
  }

  lemma {:induction false} ScanEnds(s: seq<Pdu>, now: nat, id: nat, d: nat)
    requires DueIn(s, id, d)
    ensures Done(id, Timeout) in ExpireLog(s, now) <==> Has(s, id) && 0 != d <= now
    ensures Has(Unexpired(s, now), id) <==> Has(s, id) && !(0 != d <= now)
  {
    if s != [] {
      ScanEnds(s[1..], now, id, d);
      var first := if Expired(s[0], now) then [] else [s[0]];
      HasEither([s[0]], s[1..], id);
      HasEither(first, Unexpired(s[1..], now), id);
      assert s == [s[0]] + s[1..];
      assert s[0].id == id <==> Has([s[0]], id);
    }
  }

  lemma {:induction false} ScanChainsEnds(w: seq<seq<Pdu>>, now: nat, id: nat, d: nat)
    requires forall h | 0 <= h < |w| :: DueIn(w[h], id, d)
    ensures Done(id, Timeout) in ExpireChainsLog(w, now) <==> (exists h :: 0 <= h < |w| && Has(w[h], id)) && 0 != d <= now
  {
    if w != [] {
      ScanEnds(w[0], now, id, d);
      ScanChainsEnds(w[1..], now, id, d);
      assert forall h | 0 < h < |w| :: w[h] == w[1..][h - 1];
    }
  }

  lemma {:induction false} ScanEndsCall(e: Engine, now: nat, id: nat, d: nat)
    requires Due(e, id, d) && Live(e, id) && !CalledBack(e, id)
    ensures var e' := DoScan(e, now);
            (Done(id, Timeout) in e'.log <==> 0 != d <= now) && (Live(e', id) <==> !(0 != d <= now))
  {
    var e' := DoScan(e, now);
    ScanEnds(e.out, now, id, d);
    ScanChainsEnds(e.wait, now, id, d);
    LiveIs(e, id);
    LiveIs(e', id);
    forall h | 0 <= h < |e.wait| ensures Has(e'.wait[h], id) <==> Has(e.wait[h], id) && !(0 != d <= now) {
      ScanEnds(e.wait[h], now, id, d);
    }
    assert forall i | 0 <= i < |e.log| :: e.log[i].id != id;
  }

  lemma {:induction false} IssueDue(e: Engine, body: seq<byte>, now: nat)
    requires Invariant(e)
    ensures var e' := DoIssue(e, body, now);
            Due(e', e.nextId, if e.timeout > 0 then now + e.timeout else 0) && InOut(e', e.nextId)
  {
    var e', p := DoIssue(e, body, now), DoIssue(e, body, now).out[|e.out|];
    assert p.id == e.nextId;
    forall h | 0 <= h < |e.wait| ensures DueIn(e.wait[h], e.nextId, p.deadline) {
      assert ChainOk(e.base, e.nextId, h, e.wait[h]);
    }
  }

  /** A call is issued at time `now` after any run, and anything happens then: while it is live,
      a scan at time s ends it with a timeout exactly when the timeout that was in force is
      positive and has passed since; otherwise the call stays. */
  lemma {:induction false} CallTimesOut(base: uint32, timeout: int, autoReconnect: int, before: seq<Event>,
                                        body: seq<byte>, now: nat, after: seq<Event>, s: nat)
    ensures var e := Run(Init(base, timeout, autoReconnect), before);
            var e1 := Run(e, [Issue(body, now)] + after);
            var e2 := Step(e1, Scan(s));
            var t := TimeoutAfter(timeout, before);
            var id, over := e.nextId, t > 0 && now + t <= s;
            && (after == [] ==> Live(e1, id))
            && (Live(e1, id) ==> (Done(id, Timeout) in e2.log <==> over) && (Live(e2, id) <==> !over))
  {
    var e0 := Init(base, timeout, autoReconnect);
    var e := Run(e0, before);
    TimeoutInForce(e0, before);
    var d := if e.timeout > 0 then now + e.timeout else 0;
    var events := [Issue(body, now)] + after;
    StepInvariant(e, Issue(body, now));
    IssueDue(e, body, now);
    RunDue(DoIssue(e, body, now), after, e.nextId, d);
    assert events[1..] == after;
    var e1 := Run(e, events);
    RunThen(e0, before, events);
    CallsArePartitioned(base, timeout, autoReconnect, before + events);
    if Live(e1, e.nextId) {
      ScanEndsCall(e1, s, e.nextId, d);
    }
  }

  // ---------------------------------------------------------------- lost connections

  /** The connection is lost and does not come back: every attempt to replace it gets as far
      as starting to connect. */
  predicate Outage(events: seq<Event>) {
    && (events == [] || events[0].Reconnect?)
    && forall i | 0 <= i < |events| ::
         !events[i].Connected? && !events[i].SetAutoReconnect? && (events[i].Reconnect? ==> events[i].connects)
  }

  function Attempts(events: seq<Event>): nat {
    if events == [] then 0 else (if events[0].Reconnect? then 1 else 0) + Attempts(events[1..])
  }

  lemma {:induction false} OutageCounts(e: Engine, events: seq<Event>)
    requires Invariant(e) && !e.connected && e.autoReconnect > 0 && e.retries >= 0
    requires forall i | 0 <= i < |events| :: !events[i].Connected? && !events[i].SetAutoReconnect?
    requires forall i | 0 <= i < |events| :: events[i].Reconnect? ==> events[i].connects
    ensures var r, k := Run(e, events), Attempts(events);
            && !r.connected && r.autoReconnect == e.autoReconnect
            && r.retries == if k < e.retries then e.retries - k else 0
    decreases |events|
  {
    if events != [] {
      StepInvariant(e, events[0]);
      OutageCounts(Step(e, events[0]), events[1..]);
    }
  }

  lemma {:induction false} RequeueKeepsLive(e: Engine, id: nat)
    ensures Live(DoRequeue(e), id) <==> Live(e, id)
  {
    RequeueHoldsAll(e, id);
    assert !InChains(DoRequeue(e), id);
  }

  lemma {:induction false} EndedFrom(a: Engine, b: Engine, e: Engine, status: Status)
    requires AllEnded(a, e, status) && a.log == b.log && forall id: nat :: Live(a, id) <==> Live(b, id)
    ensures AllEnded(b, e, status)
  {
  }

  /** An attempt to replace a connection that is lost. */
  lemma {:induction false} Attempt(e: Engine, connects: bool)
    requires e.autoReconnect > 0
    ensures var e', tries := DoReconnect(e, connects), if e.connected then e.autoReconnect else e.retries;
            if connects && tries > 0 then
              e'.log == e.log && forall id: nat :: Live(e', id) <==> Live(e, id)
            else
              AllEnded(e, e', Error)
  {
    var q := DoRequeue(e);
    var t := q.(retries := q.retries - 1);
    forall id: nat ensures Live(q, id) <==> Live(e, id) {
      RequeueKeepsLive(e, id);
    }
    assert forall id: nat :: Live(t, id) <==> Live(q, id);
    if q.retries <= 0 {
      PurgeEndsAll(q, Error);
      EndedFrom(q, e, DoPurge(q, Error), Error);
    } else if !connects {
      PurgeEndsAll(t, Error);
      EndedFrom(t, e, DoPurge(t, Error), Error);
    }
  }

  /** In an outage of a client that may try n times, the first n attempts call nothing back and
      lose no call, and every later one, like one that cannot be started, ends all calls with
      an error. */
  lemma {:induction false} ReconnectsRunOut(e: Engine, events: seq<Event>, connects: bool)
    requires Invariant(e) && e.connected && e.autoReconnect > 0 && Outage(events)
    ensures var r := Run(e, events);
            var r' := Step(r, Reconnect(connects));
            if connects && Attempts(events) < e.autoReconnect then
              r'.log == r.log && forall id: nat :: Live(r', id) <==> Live(r, id)
            else
              AllEnded(r, r', Error)
  {
    var r := Run(e, events);
    if events != [] {
      StepInvariant(e, events[0]);
      OutageCounts(Step(e, events[0]), events[1..]);
    }
    Attempt(r, connects);
  }

  // ---------------------------------------------------------------- the order of resending

  lemma {:induction false} PushFrontAt(chain: seq<Pdu>, out: seq<Pdu>, i: nat)
    requires i < |chain|
    ensures |PushFront(chain, out)| == |chain| + |out|
    ensures PushFront(chain, out)[|chain| - 1 - i] == chain[i].(written := 0)
    decreases |chain|
  {
    PushFrontSuffix(chain, out);
    if i > 0 {
      PushFrontAt(chain[1..], [chain[0].(written := 0)] + out, i - 1);
    } else {
      var out' := [chain[0].(written := 0)] + out;
      PushFrontSuffix(chain[1..], out');
      assert PushFront(chain, out)[|chain| - 1..][0] == out'[0];
    }
  }

  lemma {:induction false} PushChainsAt(w: seq<seq<Pdu>>, out: seq<Pdu>, h: nat, i: nat)
    requires h < |w| && i < |w[h]|
    ensures |PushChains(w, out)| == Waiting(w) + |out| && Waiting(w[h + 1..]) + |w[h]| <= Waiting(w)
    ensures PushChains(w, out)[Waiting(w[h + 1..]) + |w[h]| - 1 - i] == w[h][i].(written := 0)
    decreases |w|
  {
    PushChainsSuffix(w, out);
    if h > 0 {
      assert w[1..][h..] == w[h + 1..];
      PushChainsAt(w[1..], PushFront(w[0], out), h - 1, i);
    } else {
      var out' := PushFront(w[0], out);
      PushChainsSuffix(w[1..], out');
      PushFrontAt(w[0], out, i);
      assert PushChains(w, out)[Waiting(w[1..])..][|w[0]| - 1 - i] == out'[|w[0]| - 1 - i];
    }
  }

  /** On a new connection the calls of a chain are sent again the last one first, and the
      chains likewise. */
  lemma {:induction false} ResentLastFirst(e: Engine, h: nat, i: nat)
    requires h < |e.wait| && i < |e.wait[h]|
    ensures var r, at := DoRequeue(e), Waiting(e.wait[h + 1..]) + |e.wait[h]| - 1 - i;
            at < |r.out| && r.out[at] == e.wait[h][i].(written := 0)
  {
    PushChainsAt(e.wait, RestartHead(e.out), h, i);
  }

  // ---------------------------------------------------------------- the waiting counter

  predicate Exact(e: Engine) {
    e.waitLen == Waiting(e.wait) % TWO32
  }

  predicate NoneWaits(e: Engine) {
    forall h | 0 <= h < |e.wait| :: e.wait[h] == []
  }

  predicate NoneIsLate(s: seq<Pdu>, now: nat) {
    forall i | 0 <= i < |s| :: !(0 != s[i].deadline <= now)
  }

  /** The event does not make the counter wrong: it is no scan that finds a waiting call late,
      and no purge while a call waits. */
  predicate Accounted(e: Engine, ev: Event) {
    match ev
    case Scan(now) => forall h | 0 <= h < |e.wait| :: NoneIsLate(e.wait[h], now)
    case Purge(_) => NoneWaits(e)
    case Disconnect => !e.connected || NoneWaits(e)
    case Reconnect(_) => e.autoReconnect != 0 || NoneWaits(e)
    case _ => true
  }

  lemma {:induction false} LateShorten(s: seq<Pdu>, now: nat)
    ensures |Unexpired(s, now)| <= |s|
    ensures Unexpired(s, now) == s <==> NoneIsLate(s, now)
    ensures |Unexpired(s, now)| == |s| <==> NoneIsLate(s, now)
  {
    if s != [] {
      LateShorten(s[1..], now);
      assert s == [s[0]] + s[1..];
      assert NoneIsLate(s, now) <==> !Expired(s[0], now) && NoneIsLate(s[1..], now) by {
        assert forall i | 0 < i < |s| :: s[i] == s[1..][i - 1];
      }
    }
  }

  lemma {:induction false} LateCount(w: seq<seq<Pdu>>, now: nat)
    ensures Waiting(UnexpiredChains(w, now)) <= Waiting(w)
    ensures Waiting(UnexpiredChains(w, now)) == Waiting(w) <==> forall h | 0 <= h < |w| :: NoneIsLate(w[h], now)
  {
    if w != [] {
      LateShorten(w[0], now);
      LateCount(w[1..], now);
      assert forall h | 0 < h < |w| :: w[h] == w[1..][h - 1];
    }
  }

  lemma {:induction false} NoneWaitsCount(w: seq<seq<Pdu>>)
    ensures Waiting(w) == 0 <==> forall h | 0 <= h < |w| :: w[h] == []
  {
    if w != [] {
      NoneWaitsCount(w[1..]);
      assert forall h | 0 < h < |w| :: w[h] == w[1..][h - 1];
    }
  }

  lemma {:induction false} ScanExact(e: Engine, now: nat)
    requires Exact(e)
    ensures Accounted(e, Scan(now)) ==> Exact(DoScan(e, now))
    ensures Waiting(e.wait) < TWO32 && Exact(DoScan(e, now)) ==> Accounted(e, Scan(now))
  {
    LateCount(e.wait, now);
  }

  lemma {:induction false} PurgeExact(e: Engine, status: Status)
    requires Exact(e)
    ensures NoneWaits(e) ==> Exact(DoPurge(e, status))
    ensures Waiting(e.wait) < TWO32 && Exact(DoPurge(e, status)) ==> NoneWaits(e)
  {
    NoneWaitsCount(e.wait);
    NoneWaitsCount(DoPurge(e, status).wait);
  }

  lemma {:induction false} NextCount(n: nat)
    ensures (n % TWO32 + 1) % TWO32 == (n + 1) % TWO32
    ensures n > 0 ==> (n % TWO32 + TWO32 - 1) % TWO32 == (n - 1) % TWO32
  {
  }

  lemma {:induction false} MoveExact(e: Engine)
    requires e.out != [] && |e.wait| == HASHES && Exact(e)
    ensures Exact(MoveHead(e))
  {
    var h := HashXid(e.out[0].xid);
    WaitingUpdate(e.wait, h, e.wait[h] + [e.out[0]]);
    NextCount(Waiting(e.wait));
  }

  lemma {:induction false} SendExact(e: Engine, count: nat)
    requires Shape(e) && Exact(e)
    ensures Exact(DoSend(e, count))
  {
    if e.out != [] {
      MoveExact(WriteHead(e, count));
    }
  }

  lemma {:induction false} ReplyExact(e: Engine, xid: uint32, status: Status)
    requires Shape(e) && Exact(e)
    ensures Exact(DoReply(e, xid, status))
  {
    var h := HashXid(xid);
    var k := FindXid(e.wait[h], xid);
    if k < |e.wait[h]| {
      WaitingAtLeast(e.wait, h);
      WaitingUpdate(e.wait, h, e.wait[h][..k] + e.wait[h][k + 1..]);
      NextCount(Waiting(e.wait));
    }
  }

  lemma {:induction false} EmptyExact(e: Engine)
    requires (forall h | 0 <= h < |e.wait| :: e.wait[h] == []) && e.waitLen == 0
    ensures Exact(e)
  {
    WaitingEmpty(e.wait);
  }

  lemma {:induction false} ReconnectExact(e: Engine, connects: bool)
    requires Exact(e)
    ensures Accounted(e, Reconnect(connects)) ==> Exact(DoReconnect(e, connects))
    ensures Waiting(e.wait) < TWO32 && Exact(DoReconnect(e, connects)) ==> Accounted(e, Reconnect(connects))
  {
    if e.autoReconnect == 0 {
      PurgeExact(e, Error);
    } else {
      EmptyExact(DoReconnect(e, connects));
    }
  }

  lemma {:induction false} DisconnectExact(e: Engine)
    requires Exact(e)
    ensures Accounted(e, Disconnect) ==> Exact(DoDisconnect(e))
    ensures Waiting(e.wait) < TWO32 && Exact(DoDisconnect(e)) ==> Accounted(e, Disconnect)
  {
    if e.connected {
      PurgeExact(e.(autoReconnect := 0, connected := false), Error);
    }
  }

  /** The counter, where it is the number of waiting calls modulo 2^32, stays so if the event is
      accounted for, and with fewer than 2^32 waiting calls only then. */
  lemma {:induction false} StepExact(e: Engine, ev: Event)
    requires Shape(e) && Exact(e)
    ensures Accounted(e, ev) ==> Exact(Step(e, ev))
    ensures Waiting(e.wait) < TWO32 && Exact(Step(e, ev)) ==> Accounted(e, ev)
  {
    match ev
    case Send(count) => SendExact(e, count);
    case Reply(xid, status) => ReplyExact(e, xid, status);
    case Scan(now) => ScanExact(e, now);
    case Reconnect(connects) => ReconnectExact(e, connects);
    case Purge(status) => PurgeExact(e, status);
    case Disconnect => DisconnectExact(e);
    case _ =>
  }

  ghost predicate AccountedRun(e: Engine, events: seq<Event>)
    requires Invariant(e)
    decreases |events|
  {
    events == [] ||
    (StepInvariant(e, events[0]); Accounted(e, events[0]) && AccountedRun(Step(e, events[0]), events[1..]))
  }

  lemma {:induction false} RunExact(e: Engine, events: seq<Event>)
    requires Invariant(e) && Exact(e) && AccountedRun(e, events)
    ensures Exact(Run(e, events))
    decreases |events|
  {
    if events != [] {
      StepInvariant(e, events[0]);
      StepExact(e, events[0]);
      RunExact(Step(e, events[0]), events[1..]);
    }
  }

  lemma {:induction false} OneWaits(w: seq<seq<Pdu>>, h: nat, p: Pdu)
    requires h < |w| && forall g | 0 <= g < |w| :: w[g] == if g == h then [p] else []
    ensures Waiting(w) == 1
  {
    WaitingUpdate(w, h, []);
    WaitingEmpty(w[h := []]);
  }

  lemma {:induction false} OneCallExact(e: Engine, body: seq<byte>)
    requires Invariant(e) && Exact(e)
    ensures Exact(Run(e, OneCall(body)))
  {
    var e1, send := Step(e, Issue(body, 0)), Send(4 + |body|);
    StepInvariant(e, Issue(body, 0));
    StepExact(e, Issue(body, 0));
    StepExact(e1, send);
    RunTwo(e, Issue(body, 0), send);
  }

  lemma {:induction false} OneCallCounts(e: Engine, body: seq<byte>) returns (h: nat, p: Pdu)
    requires Invariant(e) && e.out == [] && (forall g | 0 <= g < HASHES :: e.wait[g] == []) && e.waitLen == 0
    ensures var r := Run(e, OneCall(body));
            && r.waitLen == 1 && h < HASHES && (forall g | 0 <= g < HASHES :: r.wait[g] == if g == h then [p] else [])
            && p.deadline == Deadline(e.timeout, 0)
  {
    EmptyExact(e);
    OneCallExact(e, body);
    CallGoesOut(e, body);
    var xid := (e.base + e.nextId) % TWO32;
    h, p := HashXid(xid), Pdu(e.nextId, xid, Record(body), 4 + |body|, Deadline(e.timeout, 0));
    assert e.wait[h] + [p] == [p];
    OneWaits(e.wait[h := [p]], h, p);
  }

  lemma {:induction false} ScanEmpties(e: Engine, h: nat, p: Pdu)
    requires forall g | 0 <= g < |e.wait| :: e.wait[g] == if g == h then [p] else []
    requires p.deadline == 1
    ensures Waiting(DoScan(e, 1).wait) == 0 && DoScan(e, 1).waitLen == e.waitLen
  {
    assert [p][1..] == [];
    assert Unexpired([p], 1) == [] == Unexpired([], 1);
    WaitingEmpty(DoScan(e, 1).wait);
  }

  lemma {:induction false} CallIsScanned(e: Engine, body: seq<byte>, scan: Event)
    requires Invariant(e) && e.out == [] && (forall g | 0 <= g < HASHES :: e.wait[g] == []) && e.waitLen == 0
    requires e.timeout == 1 && scan == Scan(1)
    ensures var r := Run(e, OneCall(body) + [scan]); r.waitLen == 1 && Waiting(r.wait) == 0
  {
    var h, p := OneCallCounts(e, body);
    var e1 := Run(e, OneCall(body));
    RunThen(e, OneCall(body), [scan]);
    RunOne(e1, scan);
    ScanEmpties(e1, h, p);
  }

  /** One call, sent and timed out: the counter says one, and no call waits. */
  lemma {:induction false} ScanLeavesCounter(base: uint32, body: seq<byte>)
    ensures var e := Run(Init(base, 1, 0), OneCall(body) + [Scan(1)]);
            e.waitLen == 1 && Waiting(e.wait) == 0
  {
    CallIsScanned(Init(base, 1, 0), body, Scan(1));
  }
}
