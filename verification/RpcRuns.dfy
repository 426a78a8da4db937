/** What holds over every run of the RPC engine: conservation of calls, callbacks that
    run exactly once, transaction ids, the waiting counter and the effect of a requeue. */
module RpcRuns {
  import opened Bytes
  import opened RpcEngine

  // ---------------------------------------------------------------- counting calls

  function Count(s: seq<Pdu>, id: nat): nat {
    if s == [] then 0 else (if s[0].id == id then 1 else 0) + Count(s[1..], id)
  }

  function CountChains(w: seq<seq<Pdu>>, id: nat): nat {
    if w == [] then 0 else Count(w[0], id) + CountChains(w[1..], id)
  }

  function CountLog(log: seq<Done>, id: nat): nat {
    if log == [] then 0 else (if log[0].id == id then 1 else 0) + CountLog(log[1..], id)
  }

  function CountIds(s: seq<nat>, id: nat): nat {
    if s == [] then 0 else (if s[0] == id then 1 else 0) + CountIds(s[1..], id)
  }

  /** How often call `id` is held, in the out queue, in a chain or as a callback run. */
  function Held(e: Engine, id: nat): nat {
    Count(e.out, id) + CountChains(e.wait, id) + CountLog(e.log, id)
  }

  lemma {:induction false} CountAppend(a: seq<Pdu>, b: seq<Pdu>, id: nat)
    ensures Count(a + b, id) == Count(a, id) + Count(b, id)
  {
    if a == [] {
      assert a + b == b;
    } else {
      assert (a + b)[1..] == a[1..] + b;
      CountAppend(a[1..], b, id);
    }
  }

  lemma {:induction false} CountLogAppend(a: seq<Done>, b: seq<Done>, id: nat)
    ensures CountLog(a + b, id) == CountLog(a, id) + CountLog(b, id)
  {
    if a == [] {
      assert a + b == b;
    } else {
      assert (a + b)[1..] == a[1..] + b;
      CountLogAppend(a[1..], b, id);
    }
  }

  lemma {:induction false} CountIdsAppend(a: seq<nat>, b: seq<nat>, id: nat)
    ensures CountIds(a + b, id) == CountIds(a, id) + CountIds(b, id)
  {
    if a == [] {
      assert a + b == b;
    } else {
      assert (a + b)[1..] == a[1..] + b;
      CountIdsAppend(a[1..], b, id);
    }
  }

  lemma {:induction false} CountChainsUpdate(w: seq<seq<Pdu>>, h: nat, c: seq<Pdu>, id: nat)
    requires h < |w|
    ensures CountChains(w[h := c], id) + Count(w[h], id) == CountChains(w, id) + Count(c, id)
  {
    if h == 0 {
      assert w[h := c][1..] == w[1..];
    } else {
      assert w[h := c][1..] == w[1..][h - 1 := c];
      CountChainsUpdate(w[1..], h - 1, c, id);
    }
  }

  lemma {:induction false} EmptyChainsCount(w: seq<seq<Pdu>>, id: nat)
    requires forall h | 0 <= h < |w| :: w[h] == []
    ensures CountChains(w, id) == 0
  {
    if w != [] {
      EmptyChainsCount(w[1..], id);
    }
  }

  lemma {:induction false} ScanCount(s: seq<Pdu>, now: nat, id: nat)
    ensures Count(Unexpired(s, now), id) + CountLog(ExpireLog(s, now), id) == Count(s, id)
  {
    if s != [] {
      ScanCount(s[1..], now, id);
      CountAppend(if Expired(s[0], now) then [] else [s[0]], Unexpired(s[1..], now), id);
      CountLogAppend(if Expired(s[0], now) then [Done(s[0].id, Timeout)] else [], ExpireLog(s[1..], now), id);
    }
  }

  lemma {:induction false} ScanChainsCount(w: seq<seq<Pdu>>, now: nat, id: nat)
    ensures CountChains(UnexpiredChains(w, now), id) + CountLog(ExpireChainsLog(w, now), id) == CountChains(w, id)
  {
    if w != [] {
      ScanChainsCount(w[1..], now, id);
      ScanCount(w[0], now, id);
      CountLogAppend(ExpireLog(w[0], now), ExpireChainsLog(w[1..], now), id);
    }
  }

  lemma {:induction false} PurgeCount(s: seq<Pdu>, status: Status, id: nat)
    ensures CountLog(PurgeLog(s, status), id) == Count(s, id)
  {
    if s != [] {
      PurgeCount(s[1..], status, id);
      CountLogAppend([Done(s[0].id, status)], PurgeLog(s[1..], status), id);
    }
  }

  lemma {:induction false} PurgeChainsCount(w: seq<seq<Pdu>>, status: Status, id: nat)
    ensures CountLog(PurgeChainsLog(w, status), id) == CountChains(w, id)
  {
    if w != [] {
      PurgeChainsCount(w[1..], status, id);
      PurgeCount(w[0], status, id);
      CountLogAppend(PurgeLog(w[0], status), PurgeChainsLog(w[1..], status), id);
    }
  }

  lemma {:induction false} PushFrontCount(chain: seq<Pdu>, out: seq<Pdu>, id: nat)
    ensures Count(PushFront(chain, out), id) == Count(chain, id) + Count(out, id)
    decreases |chain|
  {
    if chain != [] {
      PushFrontCount(chain[1..], [chain[0].(written := 0)] + out, id);
    }
  }

  lemma {:induction false} PushChainsCount(w: seq<seq<Pdu>>, out: seq<Pdu>, id: nat)
    ensures Count(PushChains(w, out), id) == CountChains(w, id) + Count(out, id)
    decreases |w|
  {
    if w != [] {
      PushFrontCount(w[0], out, id);
      PushChainsCount(w[1..], PushFront(w[0], out), id);
    }
  }

  // ---------------------------------------------------------------- conservation

  lemma {:induction false} PurgeConserves(e: Engine, status: Status, id: nat)
    ensures Held(DoPurge(e, status), id) == Held(e, id)
    ensures Count(DoPurge(e, status).out, id) == CountChains(DoPurge(e, status).wait, id) == 0
  {
    EmptyChainsCount(NoChains(), id);
    PurgeCount(e.out, status, id);
    PurgeChainsCount(e.wait, status, id);
    CountLogAppend(e.log, PurgeLog(e.out, status), id);
    CountLogAppend(e.log + PurgeLog(e.out, status), PurgeChainsLog(e.wait, status), id);
  }

  lemma {:induction false} RequeueConserves(e: Engine, id: nat)
    ensures Count(DoRequeue(e).out, id) == Count(e.out, id) + CountChains(e.wait, id)
    ensures Held(DoRequeue(e), id) == Held(e, id)
  {
    EmptyChainsCount(NoChains(), id);
    PushChainsCount(e.wait, RestartHead(e.out), id);
  }

  lemma {:induction false} ScanConserves(e: Engine, now: nat, id: nat)
    ensures Held(DoScan(e, now), id) == Held(e, id)
  {
    ScanCount(e.out, now, id);
    ScanChainsCount(e.wait, now, id);
    CountLogAppend(e.log, ExpireLog(e.out, now), id);
    CountLogAppend(e.log + ExpireLog(e.out, now), ExpireChainsLog(e.wait, now), id);
  }

  lemma {:induction false} SendConserves(e: Engine, count: nat, id: nat)
    requires Shape(e)
    ensures Held(DoSend(e, count), id) == Held(e, id)
  {
    if e.out != [] {
      var p := e.out[0];
      var e' := DoSend(e, count);
      var h := HashXid(p.xid);
      if e'.out == e.out[1..] && |e'.sent| > |e.sent| {
        var q := p.(written := |p.data|);
        CountAppend(e.wait[h], [q], id);
        CountChainsUpdate(e.wait, h, e.wait[h] + [q], id);
      }
    }
  }

  lemma {:induction false} CountRemove(c: seq<Pdu>, k: nat, id: nat)
    requires k < |c|
    ensures Count(c[..k] + c[k + 1..], id) + (if c[k].id == id then 1 else 0) == Count(c, id)
  {
    CountAppend(c[..k], c[k + 1..], id);
    CountAppend(c[..k], c[k..], id);
    assert c == c[..k] + c[k..];
    assert c[k..][1..] == c[k + 1..];
  }

  lemma {:induction false} ReplyConserves(e: Engine, xid: uint32, status: Status, id: nat)
    requires Shape(e)
    ensures Held(DoReply(e, xid, status), id) == Held(e, id)
  {
    var h := HashXid(xid);
    var chain := e.wait[h];
    var k := FindXid(chain, xid);
    if k < |chain| {
      CountRemove(chain, k, id);
      CountChainsUpdate(e.wait, h, chain[..k] + chain[k + 1..], id);
      CountLogAppend(e.log, [Done(chain[k].id, status)], id);
    }
  }

  lemma {:induction false} ReconnectConserves(e: Engine, connects: bool, id: nat)
    ensures Held(DoReconnect(e, connects), id) == Held(e, id)
    ensures DoReconnect(e, connects).queued == e.queued
  {
    var r := DoRequeue(e);
    var t := r.(retries := r.retries - 1);
    RequeueConserves(e, id);
    assert Held(t, id) == Held(r, id);
    if e.autoReconnect == 0 {
      PurgeConserves(e, Error, id);
    } else if r.autoReconnect < 0 || r.retries > 0 {
      PurgeConserves(t, Error, id);
    } else {
      PurgeConserves(r, Error, id);
    }
  }

  lemma {:induction false} IssueConserves(e: Engine, body: seq<byte>, now: nat, id: nat)
    requires Held(e, id) == CountIds(e.queued, id)
    ensures Held(DoIssue(e, body, now), id) == CountIds(DoIssue(e, body, now).queued, id)
  {
    var p := DoIssue(e, body, now).out[|e.out|];
    CountAppend(e.out, [p], id);
    CountIdsAppend(e.queued, [p.id], id);
  }

  /** One step: only an issued call is added, and it is added once. */
  lemma {:induction false} StepConserves(e: Engine, ev: Event, id: nat)
    requires Invariant(e)
    requires Held(e, id) == CountIds(e.queued, id)
    ensures Held(Step(e, ev), id) == CountIds(Step(e, ev).queued, id)
  {
    match ev
    case Issue(body, now) => IssueConserves(e, body, now, id);
    case Send(count) => SendConserves(e, count, id);
    case Reply(xid, status) => ReplyConserves(e, xid, status, id);
    case Scan(now) => ScanConserves(e, now, id);
    case Reconnect(connects) => ReconnectConserves(e, connects, id);
    case Purge(status) => PurgeConserves(e, status, id);
    case Disconnect => PurgeConserves(e.(autoReconnect := 0, connected := false), Error, id);
    case AllocFails =>
    case Connected =>
    case SetTimeout(_) =>
    case SetAutoReconnect(_) =>
  }

  lemma {:induction false} RunConserves(e: Engine, events: seq<Event>, id: nat)
    requires Invariant(e)
    requires Held(e, id) == CountIds(e.queued, id)
    ensures Held(Run(e, events), id) == CountIds(Run(e, events).queued, id)
    decreases |events|
  {
    if events != [] {
      StepInvariant(e, events[0]);
      StepConserves(e, events[0], id);
      RunConserves(Step(e, events[0]), events[1..], id);
    }
  }

  lemma {:induction false} CountIncreasing(s: seq<nat>, id: nat)
    requires forall i, j | 0 <= i < j < |s| :: s[i] < s[j]
    ensures CountIds(s, id) == if id in s then 1 else 0
  {
    if s != [] {
      CountIncreasing(s[1..], id);
    }
  }

  /** Conservation over every run: each queued call is held exactly once, and nothing
      else is held. */
  lemma {:induction false} EveryCallHeldOnce(base: uint32, timeout: int, autoReconnect: int, events: seq<Event>, id: nat)
    ensures var e := Run(Init(base, timeout, autoReconnect), events);
            Held(e, id) == if id in e.queued then 1 else 0
  {
    var e0 := Init(base, timeout, autoReconnect);
    EmptyChainsCount(e0.wait, id);
    RunConserves(e0, events, id);
    CountIncreasing(Run(e0, events).queued, id);
  }

  lemma {:induction false} CountMember(s: seq<Pdu>, i: nat)
    requires i < |s|
    ensures Count(s, s[i].id) >= 1
  {
    if i > 0 {
      CountMember(s[1..], i - 1);
    }
  }

  // ---------------------------------------------------------------- the partition

  lemma {:induction false} CountAt(s: seq<Pdu>, i: nat, j: nat)
    requires i < j < |s|
    ensures Count(s, s[i].id) >= 1
    ensures s[i].id == s[j].id ==> Count(s, s[i].id) >= 2
  {
    CountMember(s[..j], i);
    CountMember(s[j..], 0);
    CountAppend(s[..j], s[j..], s[i].id);
    assert s == s[..j] + s[j..];
  }

  lemma {:induction false} CountChainMember(w: seq<seq<Pdu>>, h: nat, i: nat)
    requires h < |w| && i < |w[h]|
    ensures CountChains(w, w[h][i].id) >= 1
  {
    if h == 0 {
      CountMember(w[0], i);
    } else {
      CountChainMember(w[1..], h - 1, i);
    }
  }

  lemma {:induction false} CountLogMember(log: seq<Done>, i: nat)
    requires i < |log|
    ensures CountLog(log, log[i].id) >= 1
  {
    if i > 0 {
      CountLogMember(log[1..], i - 1);
    }
  }

  lemma {:induction false} CountLogPair(log: seq<Done>, i: nat, j: nat)
    requires i < j < |log| && log[i].id == log[j].id
    ensures CountLog(log, log[i].id) >= 2
  {
    CountLogMember(log[..j], i);
    CountLogMember(log[j..], 0);
    CountLogAppend(log[..j], log[j..], log[i].id);
    assert log == log[..j] + log[j..];
  }

  predicate InOut(e: Engine, id: nat) {
    exists i :: 0 <= i < |e.out| && e.out[i].id == id
  }

  predicate InChains(e: Engine, id: nat) {
    exists h, i :: 0 <= h < |e.wait| && 0 <= i < |e.wait[h]| && e.wait[h][i].id == id
  }

  predicate CalledBack(e: Engine, id: nat) {
    exists i :: 0 <= i < |e.log| && e.log[i].id == id
  }

  lemma {:induction false} CountZero(s: seq<Pdu>, id: nat)
    requires forall i | 0 <= i < |s| :: s[i].id != id
    ensures Count(s, id) == 0
  {
    if s != [] {
      CountZero(s[1..], id);
    }
  }

  lemma {:induction false} CountChainsZero(w: seq<seq<Pdu>>, id: nat)
    requires forall h, i | 0 <= h < |w| && 0 <= i < |w[h]| :: w[h][i].id != id
    ensures CountChains(w, id) == 0
  {
    if w != [] {
      CountZero(w[0], id);
      CountChainsZero(w[1..], id);
    }
  }

  lemma {:induction false} CountLogZero(log: seq<Done>, id: nat)
    requires forall i | 0 <= i < |log| :: log[i].id != id
    ensures CountLog(log, id) == 0
  {
    if log != [] {
      CountLogZero(log[1..], id);
    }
  }

  lemma {:induction false} HeldMeans(e: Engine, id: nat)
    ensures Count(e.out, id) > 0 <==> InOut(e, id)
    ensures CountChains(e.wait, id) > 0 <==> InChains(e, id)
    ensures CountLog(e.log, id) > 0 <==> CalledBack(e, id)
  {
    if InOut(e, id) {
      var i :| 0 <= i < |e.out| && e.out[i].id == id;
      CountMember(e.out, i);
    } else {
      CountZero(e.out, id);
    }
    if InChains(e, id) {
      var h, i :| 0 <= h < |e.wait| && 0 <= i < |e.wait[h]| && e.wait[h][i].id == id;
      CountChainMember(e.wait, h, i);
    } else {
      CountChainsZero(e.wait, id);
    }
    if CalledBack(e, id) {
      var i :| 0 <= i < |e.log| && e.log[i].id == id;
      CountLogMember(e.log, i);
    } else {
      CountLogZero(e.log, id);
    }
  }

  /** The partition: in every reachable state a call ever queued is in the out queue, in a
      chain or called back, never in two of them; and no callback runs twice. */
  lemma {:induction false} CallsArePartitioned(base: uint32, timeout: int, autoReconnect: int, events: seq<Event>)
    ensures var e := Run(Init(base, timeout, autoReconnect), events);
            && (forall id: nat :: id in e.queued <==> InOut(e, id) || InChains(e, id) || CalledBack(e, id))
            && (forall id: nat :: !(InOut(e, id) && InChains(e, id)))
            && (forall id: nat :: CalledBack(e, id) ==> !InOut(e, id) && !InChains(e, id))
            && (forall i, j | 0 <= i < j < |e.log| :: e.log[i].id != e.log[j].id)
  {
    var e := Run(Init(base, timeout, autoReconnect), events);
    forall id: nat
      ensures id in e.queued <==> InOut(e, id) || InChains(e, id) || CalledBack(e, id)
      ensures !(InOut(e, id) && InChains(e, id))
      ensures CalledBack(e, id) ==> !InOut(e, id) && !InChains(e, id)
    {
      EveryCallHeldOnce(base, timeout, autoReconnect, events, id);
      HeldMeans(e, id);
    }
    forall i, j | 0 <= i < j < |e.log| ensures e.log[i].id != e.log[j].id {
      EveryCallHeldOnce(base, timeout, autoReconnect, events, e.log[i].id);
      if e.log[i].id == e.log[j].id {
        CountLogPair(e.log, i, j);
      }
    }
  }

  /** Tearing the context down ends every call of the run: each one ever queued has had
      its callback exactly once. */
  lemma {:induction false} TeardownCallsBackAll(base: uint32, timeout: int, autoReconnect: int, events: seq<Event>, id: nat)
    ensures var e := DoPurge(Run(Init(base, timeout, autoReconnect), events), Cancel);
            CountLog(e.log, id) == if id in e.queued then 1 else 0
  {
    EveryCallHeldOnce(base, timeout, autoReconnect, events, id);
    PurgeConserves(Run(Init(base, timeout, autoReconnect), events), Cancel, id);
  }

  // ---------------------------------------------------------------- transaction ids

  lemma {:induction false} ModEqual(a: int, b: int)
    ensures a % TWO32 == b % TWO32 <==> (a - b) % TWO32 == 0
  {
  }

  /** Two calls share a transaction id exactly when their allocations are a multiple of
      2^32 apart. */
  lemma {:induction false} XidsClashEvery2To32(base: uint32, n: nat, p: Pdu, q: Pdu)
    requires XidOk(base, n, p) && XidOk(base, n, q)
    ensures p.xid == q.xid <==> (p.id - q.id) % TWO32 == 0
  {
    ModEqual(base + p.id, base + q.id);
  }

  lemma {:induction false} CountChainsAt(w: seq<seq<Pdu>>, h: nat, id: nat)
    requires h < |w|
    ensures CountChains(w, id) >= Count(w[h], id)
  {
    if h > 0 {
      CountChainsAt(w[1..], h - 1, id);
    }
  }

  ghost predicate HeldOnce(e: Engine) {
    forall id: nat :: Held(e, id) <= 1
  }

  lemma {:induction false} RunHoldsOnce(base: uint32, timeout: int, autoReconnect: int, events: seq<Event>)
    ensures HeldOnce(Run(Init(base, timeout, autoReconnect), events))
  {
    var e := Run(Init(base, timeout, autoReconnect), events);
    forall id: nat ensures Held(e, id) <= 1 {
      EveryCallHeldOnce(base, timeout, autoReconnect, events, id);
    }
  }

  lemma {:induction false} ChainIdsDistinct(e: Engine, h: nat, i: nat, j: nat)
    requires HeldOnce(e) && h < |e.wait| && i < j < |e.wait[h]|
    ensures e.wait[h][i].id != e.wait[h][j].id
  {
    var id := e.wait[h][i].id;
    assert Held(e, id) <= 1;
    CountChainsAt(e.wait, h, id);
    CountAt(e.wait[h], i, j);
  }

  lemma {:induction false} ReplyEndsFirst(base: uint32, n: nat, h: nat, chain: seq<Pdu>, k: nat)
    requires ChainOk(base, n, h, chain) && k < |chain|
    requires forall j | 0 <= j < k :: chain[j].id != chain[k].id
    ensures chain[FindXid(chain, chain[k].xid)].id == chain[k].id
            <==> forall j | 0 <= j < k :: (chain[j].id - chain[k].id) % TWO32 != 0
  {
    var f := FindXid(chain, chain[k].xid);
    if f < k {
      XidsClashEvery2To32(base, n, chain[f], chain[k]);
    } else {
      forall j | 0 <= j < k ensures (chain[j].id - chain[k].id) % TWO32 != 0 {
        XidsClashEvery2To32(base, n, chain[j], chain[k]);
      }
    }
  }

  /** The call whose callback a reply runs. */
  lemma {:induction false} ReplyLogs(e: Engine, h: nat, k: nat, status: Status)
    requires |e.wait| == HASHES && h < HASHES && k < |e.wait[h]| && HashXid(e.wait[h][k].xid) == h
    ensures var p := e.wait[h][k];
            var f := FindXid(e.wait[h], p.xid);
            f <= k && (DoReply(e, p.xid, status).log == e.log + [Done(p.id, status)] <==> e.wait[h][f].id == p.id)
  {
    var p := e.wait[h][k];
    var f := FindXid(e.wait[h], p.xid);
    var log := DoReply(e, p.xid, status).log;
    assert log == e.log + [Done(e.wait[h][f].id, status)];
    assert log[|e.log|] == Done(e.wait[h][f].id, status);
  }

  /** A reply carrying the transaction id of call k of chain h ends that very call, exactly when
      no call ahead of it in the chain was allocated a multiple of 2^32 calls away. */
  ghost predicate EndsItsCall(e: Engine, h: nat, k: nat, status: Status)
    requires |e.wait| == HASHES && h < HASHES && k < |e.wait[h]|
  {
    var p := e.wait[h][k];
    DoReply(e, p.xid, status).log == e.log + [Done(p.id, status)]
    <==> forall j | 0 <= j < k :: (e.wait[h][j].id - p.id) % TWO32 != 0
  }

  lemma {:induction false} ReplyEndsWaiting(e: Engine, h: nat, k: nat, status: Status)
    requires Invariant(e) && HeldOnce(e) && h < HASHES && k < |e.wait[h]|
    ensures EndsItsCall(e, h, k, status)
  {
    assert ChainOk(e.base, e.nextId, h, e.wait[h]);
    forall j | 0 <= j < k ensures e.wait[h][j].id != e.wait[h][k].id {
      ChainIdsDistinct(e, h, j, k);
    }
    ReplyEndsFirst(e.base, e.nextId, h, e.wait[h], k);
    ReplyLogs(e, h, k, status);
  }

  /** So it is in every reachable state. */
  lemma {:induction false} ReplyEndsItsCall(base: uint32, timeout: int, autoReconnect: int, events: seq<Event>,
                                            h: nat, k: nat, status: Status)
    requires h < HASHES && k < |Run(Init(base, timeout, autoReconnect), events).wait[h]|
    ensures EndsItsCall(Run(Init(base, timeout, autoReconnect), events), h, k, status)
  {
    RunHoldsOnce(base, timeout, autoReconnect, events);
    ReplyEndsWaiting(Run(Init(base, timeout, autoReconnect), events), h, k, status);
  }

  lemma {:induction false} RunThen(e: Engine, a: seq<Event>, b: seq<Event>)
    requires Invariant(e)
    ensures Run(e, a + b) == Run(Run(e, a), b)
    decreases |a|
  {
    if a == [] {
      assert a + b == b;
    } else {
      StepInvariant(e, a[0]);
      assert (a + b)[1..] == a[1..] + b;
      RunThen(Step(e, a[0]), a[1..], b);
    }
  }

  function Failures(n: nat): seq<Event> {
    seq(n, _ => AllocFails)
  }

  lemma {:induction false} FailuresSkip(e: Engine, n: nat)
    requires Invariant(e)
    ensures Run(e, Failures(n)) == e.(nextId := e.nextId + n)
    decreases n
  {
    if n > 0 {
      StepInvariant(e, AllocFails);
      assert Failures(n)[1..] == Failures(n - 1);
      FailuresSkip(Step(e, AllocFails), n - 1);
    }
  }

  /** A call that is issued and sent at once. */
  function OneCall(body: seq<byte>): seq<Event> {
    [Issue(body, 0), Send(4 + |body|)]
  }

  lemma {:induction false} CallGoesOut(e: Engine, body: seq<byte>)
    requires Invariant(e) && e.out == []
    ensures var p := Pdu(e.nextId, (e.base + e.nextId) % TWO32, Record(body), 4 + |body|, Deadline(e.timeout, 0));
            var h := HashXid(p.xid);
            var r := Run(e, OneCall(body));
            && r.out == [] && r.nextId == e.nextId + 1 && r.base == e.base && r.log == e.log
            && r.wait == e.wait[h := e.wait[h] + [p]]
  {
    var e1 := DoIssue(e, body, 0);
    RunTwo(e, Issue(body, 0), Send(4 + |body|));
    var p := e1.out[0];
    assert e1.out == [p] && |p.data| == 4 + |body|;
    var q := WriteHead(e1, 4 + |body|);
    assert q.out == [p.(written := 4 + |body|)] && q.out[1..] == [];
  }

  /** Chain h of `v` has one more call than it has in `w`. */
  ghost predicate OneMore(w: seq<seq<Pdu>>, v: seq<seq<Pdu>>, h: nat, id: nat, xid: uint32) {
    |w| == |v| == HASHES && h < HASHES && |v[h]| == |w[h]| + 1 && v[h][..|w[h]|] == w[h] &&
    v[h][|w[h]|].id == id && v[h][|w[h]|].xid == xid
  }

  lemma {:induction false} CallAfterFailures(e: Engine, n: nat, body: seq<byte>) returns (r: Engine)
    requires Invariant(e) && e.out == []
    ensures r == Run(e, Failures(n) + OneCall(body)) && r.out == [] && r.base == e.base
    ensures var xid := (e.base + e.nextId + n) % TWO32;
            r.nextId == e.nextId + n + 1 && OneMore(e.wait, r.wait, HashXid(xid), e.nextId + n, xid)
  {
    RunThen(e, Failures(n), OneCall(body));
    FailuresSkip(e, n);
    CallGoesOut(Run(e, Failures(n)), body);
    r := Run(e, Failures(n) + OneCall(body));
  }

  ghost predicate TwoCalls(c: seq<Pdu>, id: nat, xid: uint32) {
    |c| == 2 && c[0].id == 0 && c[1].id == id && c[0].xid == c[1].xid == xid
  }

  lemma {:induction false} OneMoreTwice(u: seq<seq<Pdu>>, v: seq<seq<Pdu>>, w: seq<seq<Pdu>>, h: nat, id: nat, xid: uint32)
    requires OneMore(u, v, h, 0, xid) && OneMore(v, w, h, id, xid) && u[h] == []
    ensures TwoCalls(w[h], id, xid)
  {
    assert w[h][0] == w[h][..1][0] == v[h][0];
  }

  lemma {:induction false} SecondLap(base: uint32)
    ensures (base + 0 + 0) % TWO32 == (base + 1 + (TWO32 - 1)) % TWO32 == base
  {
  }

  /** Two calls 2^32 allocations apart, with the same transaction id. */
  lemma {:induction false} SameXidTwice(base: uint32, body: seq<byte>) returns (events: seq<Event>, e: Engine)
    ensures e == Run(Init(base, 0, 0), events) && Invariant(e) && TwoCalls(e.wait[HashXid(base)], TWO32, base)
  {
    var e0, call := Init(base, 0, 0), OneCall(body);
    SecondLap(base);
    var e1 := CallAfterFailures(e0, 0, body);
    e := CallAfterFailures(e1, TWO32 - 1, body);
    OneMoreTwice(e0.wait, e1.wait, e.wait, HashXid(base), TWO32, base);
    RunThen(e0, Failures(0) + call, Failures(TWO32 - 1) + call);
    events := Failures(0) + call + (Failures(TWO32 - 1) + call);
  }

  /** The reply to the second call ends the first. */
  lemma {:induction false} ReplyEndsAnotherCall(base: uint32, body: seq<byte>) returns (events: seq<Event>, e: Engine)
    ensures e == Run(Init(base, 0, 0), events) && Invariant(e) && TwoCalls(e.wait[HashXid(base)], TWO32, base)
    ensures DoReply(e, base, Success).log == e.log + [Done(0, Success)]
  {
    events, e := SameXidTwice(base, body);
    assert FindXid(e.wait[HashXid(base)], base) == 0;
  }

  // ---------------------------------------------------------------- the waiting counter

  function Waiting(w: seq<seq<Pdu>>): nat {
    if w == [] then 0 else |w[0]| + Waiting(w[1..])
  }

  lemma {:induction false} WaitingUpdate(w: seq<seq<Pdu>>, h: nat, c: seq<Pdu>)
    requires h < |w|
    ensures Waiting(w[h := c]) + |w[h]| == Waiting(w) + |c|
  {
    if h == 0 {
      assert w[h := c][1..] == w[1..];
    } else {
      assert w[h := c][1..] == w[1..][h - 1 := c];
      WaitingUpdate(w[1..], h - 1, c);
    }
  }

  lemma {:induction false} WaitingEmpty(w: seq<seq<Pdu>>)
    requires forall h | 0 <= h < |w| :: w[h] == []
    ensures Waiting(w) == 0
  {
    if w != [] {
      WaitingEmpty(w[1..]);
    }
  }

  lemma {:induction false} UnexpiredShorter(s: seq<Pdu>, now: nat)
    ensures |Unexpired(s, now)| <= |s|
  {
    if s != [] {
      UnexpiredShorter(s[1..], now);
    }
  }

  lemma {:induction false} WaitingScan(w: seq<seq<Pdu>>, now: nat)
    ensures Waiting(UnexpiredChains(w, now)) <= Waiting(w)
  {
    if w != [] {
      UnexpiredShorter(w[0], now);
      WaitingScan(w[1..], now);
    }
  }

  predicate Covered(e: Engine) {
    Waiting(e.wait) <= e.waitLen
  }

  lemma {:induction false} SendWaitLen(e: Engine, count: nat)
    requires Shape(e) && Covered(e) && e.waitLen < TWO32 - 1
    ensures Covered(DoSend(e, count)) && DoSend(e, count).waitLen <= e.waitLen + 1
  {
    if e.out != [] {
      var h := HashXid(e.out[0].xid);
      WaitingUpdate(e.wait, h, DoSend(e, count).wait[h]);
    }
  }

  lemma {:induction false} WaitingAtLeast(w: seq<seq<Pdu>>, h: nat)
    requires h < |w|
    ensures Waiting(w) >= |w[h]|
  {
    if h > 0 {
      WaitingAtLeast(w[1..], h - 1);
    }
  }

  lemma {:induction false} ReplyWaitLen(e: Engine, xid: uint32, status: Status)
    requires |e.wait| == HASHES && Covered(e)
    ensures Covered(DoReply(e, xid, status))
    ensures DoReply(e, xid, status) == e || DoReply(e, xid, status).waitLen == e.waitLen - 1
  {
    var h := HashXid(xid);
    WaitingAtLeast(e.wait, h);
    WaitingUpdate(e.wait, h, DoReply(e, xid, status).wait[h]);
  }

  lemma {:induction false} ReconnectWaitLen(e: Engine, connects: bool)
    ensures Covered(DoReconnect(e, connects)) && DoReconnect(e, connects).waitLen <= e.waitLen
  {
    WaitingEmpty(NoChains());
  }

  lemma {:induction false} StepWaitLen(e: Engine, ev: Event)
    requires Shape(e) && Covered(e) && e.waitLen < TWO32 - 1
    ensures Covered(Step(e, ev)) && Step(e, ev).waitLen <= e.waitLen + 1
  {
    match ev
    case Send(count) => SendWaitLen(e, count);
    case Reply(xid, status) => ReplyWaitLen(e, xid, status);
    case Scan(now) => WaitingScan(e.wait, now);
    case Reconnect(connects) => ReconnectWaitLen(e, connects);
    case Purge(_) => WaitingEmpty(NoChains());
    case Disconnect => WaitingEmpty(NoChains());
    case Issue(_, _) =>
    case AllocFails =>
    case Connected =>
    case SetTimeout(_) =>
    case SetAutoReconnect(_) =>
  }

  /** Over every run of fewer than 2^32 steps the counter never falls below the number
      of waiting calls, so its decrement never wraps. */
  lemma {:induction false} WaitLenCoversWaiting(e: Engine, events: seq<Event>)
    requires Invariant(e) && Covered(e) && e.waitLen + |events| < TWO32
    ensures Covered(Run(e, events))
    decreases |events|
  {
    if events != [] {
      StepInvariant(e, events[0]);
      StepWaitLen(e, events[0]);
      WaitLenCoversWaiting(Step(e, events[0]), events[1..]);
    }
  }

  lemma {:induction false} DecrementNeverWraps(base: uint32, timeout: int, autoReconnect: int,
                                               events: seq<Event>, xid: uint32, status: Status)
    requires |events| < TWO32
    ensures var e := Run(Init(base, timeout, autoReconnect), events);
            var r := DoReply(e, xid, status);
            r == e || r.waitLen == e.waitLen - 1
  {
    var e0 := Init(base, timeout, autoReconnect);
    WaitingEmpty(e0.wait);
    WaitLenCoversWaiting(e0, events);
    ReplyWaitLen(Run(e0, events), xid, status);
  }

  // ---------------------------------------------------------------- requeue

  lemma {:induction false} PushFrontSuffix(chain: seq<Pdu>, out: seq<Pdu>)
    ensures var r := PushFront(chain, out);
            |r| == |chain| + |out| && r[|chain|..] == out
    decreases |chain|
  {
    if chain != [] {
      var out1 := [chain[0].(written := 0)] + out;
      PushFrontSuffix(chain[1..], out1);
      var r := PushFront(chain, out);
      assert r[|chain|..] == r[|chain| - 1..][1..] == out1[1..] == out;
    }
  }

  lemma {:induction false} PushChainsSuffix(w: seq<seq<Pdu>>, out: seq<Pdu>)
    ensures var r := PushChains(w, out);
            |r| == Waiting(w) + |out| && r[Waiting(w)..] == out
    decreases |w|
  {
    if w != [] {
      var mid := PushFront(w[0], out);
      PushFrontSuffix(w[0], out);
      PushChainsSuffix(w[1..], mid);
      var r := PushChains(w, out);
      assert r[Waiting(w)..] == r[Waiting(w[1..])..][|w[0]|..];
    }
  }

  lemma {:induction false} RequeueHoldsAll(e: Engine, id: nat)
    ensures InOut(DoRequeue(e), id) <==> InOut(e, id) || InChains(e, id)
  {
    RequeueConserves(e, id);
    HeldMeans(e, id);
    HeldMeans(DoRequeue(e), id);
  }

  lemma {:induction false} RequeueSuffix(e: Engine)
    ensures var r := DoRequeue(e);
            && |r.out| == Waiting(e.wait) + |e.out|
            && r.out[Waiting(e.wait)..] == RestartHead(e.out)
            && Waiting(r.wait) == r.waitLen == 0
  {
    PushChainsSuffix(e.wait, RestartHead(e.out));
    WaitingEmpty(DoRequeue(e).wait);
  }

  /** After a reconnect on any reachable state every live call is in the out queue, to be
      sent again from its first byte; the calls that had not been sent keep their order
      behind the ones that had; no call waits for a reply. */
  lemma {:induction false} RequeueResendsEverything(base: uint32, timeout: int, autoReconnect: int, events: seq<Event>)
    ensures var e := Run(Init(base, timeout, autoReconnect), events);
            var r := DoRequeue(e);
            && Fresh(r.out)
            && (forall id: nat :: InOut(r, id) <==> InOut(e, id) || InChains(e, id))
            && |r.out| == Waiting(e.wait) + |e.out|
            && r.out[Waiting(e.wait)..] == RestartHead(e.out)
            && Waiting(r.wait) == r.waitLen == 0
  {
    var e := Run(Init(base, timeout, autoReconnect), events);
    RequeueInvariant(e);
    RequeueSuffix(e);
    forall id: nat ensures InOut(DoRequeue(e), id) <==> InOut(e, id) || InChains(e, id) {
      RequeueHoldsAll(e, id);
    }
  }

  // ---------------------------------------------------------------- disconnecting

  /** Reconnecting is not turned on again. */
  predicate StaysOff(events: seq<Event>) {
    forall i | 0 <= i < |events| && events[i].SetAutoReconnect? :: events[i].limit == 0
  }

  lemma {:induction false} DisabledStays(e: Engine, events: seq<Event>)
    requires Invariant(e) && e.autoReconnect == 0 && StaysOff(events)
    ensures Run(e, events).autoReconnect == 0
    decreases |events|
  {
    if events != [] {
      StepInvariant(e, events[0]);
      DisabledStays(Step(e, events[0]), events[1..]);
    }
  }

  /** A disconnect of a connected client calls back every call, and until reconnecting is
      turned on again, a connection that is lost is not replaced: every call is called back. */
  lemma {:induction false} DisconnectIsFinal(e: Engine, events: seq<Event>, connects: bool)
    requires Invariant(e) && e.connected && StaysOff(events)
    ensures var d := DoDisconnect(e);
            && Invariant(d) && d.out == [] && d.wait == NoChains()
            && d.log == e.log + PurgeLog(e.out, Error) + PurgeChainsLog(e.wait, Error)
            && DoReconnect(Run(d, events), connects) == DoPurge(Run(d, events), Error)
  {
    StepInvariant(e, Disconnect);
    DisabledStays(DoDisconnect(e), events);
  }

  lemma {:induction false} LostIsReplaced(e: Engine)
    requires e.connected && e.autoReconnect != 0
    ensures DoReconnect(e, true).log == e.log
  {
  }

  /** Turned on again after a disconnect, it is in force: the next lost connection is replaced
      and no call is called back. */
  lemma {:induction false} ReconnectCanReturn(e: Engine, limit: int)
    requires Invariant(e) && limit != 0
    ensures var r := Run(e, [Disconnect, SetAutoReconnect(limit), Connected]);
            Step(r, Reconnect(true)).log == r.log
  {
    RunThree(e, Disconnect, SetAutoReconnect(limit), Connected);
    LostIsReplaced(Run(e, [Disconnect, SetAutoReconnect(limit), Connected]));
  }
}
