/** The RPC client engine over TCP, as a step system on values.

    A call is allocated with the next transaction id, waits in `out` to be written,
    moves to the hash chain of its id once all its bytes are on the wire, and ends in
    one callback: a reply, a timeout or a purge. A reconnect moves every waiting call
    back to `out`. `RpcClient` shows that the linked lists of the library take exactly
    these steps. */
module RpcEngine {
  import opened Bytes

  const HASHES := 1024

  datatype Status = Success | Error | Timeout | Cancel

  /** A call. `id` is its allocation number, `deadline` 0 means it never expires. */
  datatype Pdu = Pdu(id: nat, xid: uint32, data: seq<byte>, written: nat, deadline: nat)

  /** One run of the callback of call `id`. */
  datatype Done = Done(id: nat, status: Status)

  datatype Engine = Engine(
    base: uint32, nextId: nat, timeout: int,
    out: seq<Pdu>, wait: seq<seq<Pdu>>, waitLen: uint32,
    connected: bool, autoReconnect: int, retries: int,
    queued: seq<nat>, log: seq<Done>, sent: seq<seq<byte>>, wire: seq<byte>)

  datatype Event =
    | Issue(body: seq<byte>, now: nat)
    | AllocFails
    | Send(count: nat)
    | Reply(xid: uint32, status: Status)
    | Scan(now: nat)
    | Reconnect(connects: bool)
    | Connected
    | Disconnect
    | Purge(status: Status)
    | SetTimeout(timeout: int)
    | SetAutoReconnect(limit: int)

  function HashXid(xid: uint32): (h: nat)
    ensures h < HASHES
  {
    xid * 7919 % TWO32 % HASHES
  }

  function NoChains(): (w: seq<seq<Pdu>>)
    ensures |w| == HASHES && forall h | 0 <= h < HASHES :: w[h] == []
  {
    seq(HASHES, _ => [])
  }

  function Init(base: uint32, timeout: int, autoReconnect: int): Engine {
    Engine(base, 0, timeout, [], NoChains(), 0, false, autoReconnect, 0, [], [], [], [])
  }

  // ---------------------------------------------------------------- steps

  /** The record marker of a message sent as one last fragment, then the message. */
  function Record(body: seq<byte>): (r: seq<byte>)
    ensures |r| == 4 + |body| && r[4..] == body
    ensures |body| < TWO31 ==> FromBe32(r[..4]) == TWO31 + |body|
  {
    var marker := TWO31 + |body| % TWO31;
    Be32RoundTrip(marker);
    assert (Be32(marker) + body)[..4] == Be32(marker);
    Be32(marker) + body
  }

  function Deadline(timeout: int, now: nat): nat {
    if timeout > 0 then now + timeout else 0
  }

  function DoIssue(e: Engine, body: seq<byte>, now: nat): Engine {
    var p := Pdu(e.nextId, (e.base + e.nextId) % TWO32, Record(body), 0, Deadline(e.timeout, now));
    e.(nextId := e.nextId + 1, out := e.out + [p], queued := e.queued + [p.id])
  }

  /** What one `send` does: the kernel takes at most what is left of the head. */
  function WriteHead(e: Engine, count: nat): Engine
    requires e.out != [] && e.out[0].written <= |e.out[0].data|
  {
    var p := e.out[0];
    var n := if count <= |p.data| - p.written then count else |p.data| - p.written;
    e.(wire := e.wire + p.data[p.written..p.written + n],
       out := [p.(written := p.written + n)] + e.out[1..])
  }

  /** A call that is wholly written leaves the out queue for its chain. */
  function MoveHead(e: Engine): Engine
    requires e.out != [] && |e.wait| == HASHES
  {
    var h := HashXid(e.out[0].xid);
    e.(out := e.out[1..], wait := e.wait[h := e.wait[h] + [e.out[0]]],
       waitLen := (e.waitLen + 1) % TWO32, sent := e.sent + [e.out[0].data])
  }

  function DoSend(e: Engine, count: nat): Engine
    requires |e.wait| == HASHES
    requires e.out != [] ==> e.out[0].written <= |e.out[0].data|
  {
    if e.out == [] then e else
    var e1 := WriteHead(e, count);
    if e1.out[0].written == |e1.out[0].data| then MoveHead(e1) else e1
  }

  /** The position of the first call with this transaction id, or the chain's length. */
  function FindXid(chain: seq<Pdu>, xid: uint32): (k: nat)
    ensures k <= |chain|
    ensures k < |chain| ==> chain[k].xid == xid
    ensures forall i | 0 <= i < k :: chain[i].xid != xid
  {
    if chain == [] || chain[0].xid == xid then 0 else 1 + FindXid(chain[1..], xid)
  }

  function DoReply(e: Engine, xid: uint32, status: Status): Engine
    requires |e.wait| == HASHES
  {
    var h := HashXid(xid);
    var chain := e.wait[h];
    var k := FindXid(chain, xid);
    if k == |chain| then e else
    e.(wait := e.wait[h := chain[..k] + chain[k + 1..]],
       waitLen := (e.waitLen + TWO32 - 1) % TWO32,
       log := e.log + [Done(chain[k].id, status)])
  }

  predicate Expired(p: Pdu, now: nat) {
    p.deadline != 0 && p.deadline <= now
  }

  function Unexpired(s: seq<Pdu>, now: nat): seq<Pdu> {
    if s == [] then [] else
    (if Expired(s[0], now) then [] else [s[0]]) + Unexpired(s[1..], now)
  }

  function ExpireLog(s: seq<Pdu>, now: nat): seq<Done> {
    if s == [] then [] else
    (if Expired(s[0], now) then [Done(s[0].id, Timeout)] else []) + ExpireLog(s[1..], now)
  }

  function UnexpiredChains(w: seq<seq<Pdu>>, now: nat): (r: seq<seq<Pdu>>)
    ensures |r| == |w| && forall h | 0 <= h < |w| :: r[h] == Unexpired(w[h], now)
  {
    if w == [] then [] else [Unexpired(w[0], now)] + UnexpiredChains(w[1..], now)
  }

  function ExpireChainsLog(w: seq<seq<Pdu>>, now: nat): seq<Done> {
    if w == [] then [] else ExpireLog(w[0], now) + ExpireChainsLog(w[1..], now)
  }

  function ScanOut(e: Engine, now: nat): Engine {
    e.(out := Unexpired(e.out, now), log := e.log + ExpireLog(e.out, now))
  }

  function ScanChains(e: Engine, now: nat): Engine {
    e.(wait := UnexpiredChains(e.wait, now), log := e.log + ExpireChainsLog(e.wait, now))
  }

  function DoScan(e: Engine, now: nat): Engine {
    ScanChains(ScanOut(e, now), now)
  }

  function PurgeLog(s: seq<Pdu>, status: Status): seq<Done> {
    if s == [] then [] else [Done(s[0].id, status)] + PurgeLog(s[1..], status)
  }

  function PurgeChainsLog(w: seq<seq<Pdu>>, status: Status): seq<Done> {
    if w == [] then [] else PurgeLog(w[0], status) + PurgeChainsLog(w[1..], status)
  }

  /** Every call is called back and dropped; `waitLen` keeps its old value. */
  function DoPurge(e: Engine, status: Status): Engine {
    e.(out := [], wait := NoChains(),
       log := e.log + PurgeLog(e.out, status) + PurgeChainsLog(e.wait, status))
  }

  /** Push a chain, first element first, to the front of `out`. */
  function PushFront(chain: seq<Pdu>, out: seq<Pdu>): seq<Pdu> {
    if chain == [] then out else PushFront(chain[1..], [chain[0].(written := 0)] + out)
  }

  function PushChains(w: seq<seq<Pdu>>, out: seq<Pdu>): seq<Pdu> {
    if w == [] then out else PushChains(w[1..], PushFront(w[0], out))
  }

  function RestartHead(out: seq<Pdu>): seq<Pdu> {
    if out == [] then [] else [out[0].(written := 0)] + out[1..]
  }

  /** Only the head of `out` is restarted; the waiting calls are pushed in front of it. */
  function DoRequeue(e: Engine): Engine {
    e.(retries := if e.connected then e.autoReconnect else e.retries, connected := false,
       out := PushChains(e.wait, RestartHead(e.out)), wait := NoChains(), waitLen := 0,
       wire := [], sent := [])
  }

  function DoReconnect(e: Engine, connects: bool): Engine {
    if e.autoReconnect == 0 then DoPurge(e, Error) else
    var r := DoRequeue(e);
    if r.autoReconnect < 0 || r.retries > 0 then
      var t := r.(retries := r.retries - 1);
      if connects then t else DoPurge(t, Error)
    else
      DoPurge(r, Error)
  }

  /** Nothing when not connected; otherwise there are no more reconnects, and every call is
      called back. */
  function DoDisconnect(e: Engine): Engine {
    if e.connected then DoPurge(e.(autoReconnect := 0, connected := false), Error) else e
  }

  predicate Shape(e: Engine) {
    && |e.wait| == HASHES
    && (e.out != [] ==> e.out[0].written <= |e.out[0].data|)
  }

  function Step(e: Engine, ev: Event): Engine
    requires Shape(e)
  {
    match ev
    case Issue(body, now) => DoIssue(e, body, now)
    case AllocFails => e.(nextId := e.nextId + 1)
    case Send(count) => DoSend(e, count)
    case Reply(xid, status) => DoReply(e, xid, status)
    case Scan(now) => DoScan(e, now)
    case Reconnect(connects) => DoReconnect(e, connects)
    case Connected => e.(connected := true)
    case Disconnect => DoDisconnect(e)
    case Purge(status) => DoPurge(e, status)
    case SetTimeout(timeout) => e.(timeout := timeout)
    case SetAutoReconnect(limit) => e.(autoReconnect := limit)
  }

  predicate Fresh(s: seq<Pdu>) {
    forall i | 0 <= i < |s| :: s[i].written == 0 < |s[i].data|
  }

  // ---------------------------------------------------------------- the invariant

  /** Only the head of the out queue can be partly written. */
  predicate OutOk(out: seq<Pdu>) {
    out == [] || (out[0].written < |out[0].data| && Fresh(out[1..]))
  }

  /** Transaction ids are the allocation numbers, counted from `base` modulo 2^32. */
  predicate XidOk(base: uint32, n: nat, p: Pdu) {
    p.id < n && p.xid == (base + p.id) % TWO32
  }

  predicate AllXids(base: uint32, n: nat, s: seq<Pdu>) {
    forall i | 0 <= i < |s| :: XidOk(base, n, s[i])
  }

  /** Chain h holds fully written calls whose transaction id hashes to h. */
  predicate ChainOk(base: uint32, n: nat, h: nat, chain: seq<Pdu>) {
    forall i | 0 <= i < |chain| ::
      && XidOk(base, n, chain[i])
      && HashXid(chain[i].xid) == h
      && 0 < chain[i].written == |chain[i].data|
  }

  predicate ChainsOk(base: uint32, n: nat, w: seq<seq<Pdu>>) {
    |w| == HASHES && forall h | 0 <= h < HASHES :: ChainOk(base, n, h, w[h])
  }

  predicate Increasing(s: seq<nat>, n: nat) {
    && (forall i | 0 <= i < |s| :: s[i] < n)
    && (forall i, j | 0 <= i < j < |s| :: s[i] < s[j])
  }

  predicate Invariant(e: Engine) {
    && OutOk(e.out) && AllXids(e.base, e.nextId, e.out)
    && ChainsOk(e.base, e.nextId, e.wait)
    && Increasing(e.queued, e.nextId)
  }

  lemma {:induction false} UnexpiredFresh(s: seq<Pdu>, now: nat)
    requires Fresh(s)
    ensures Fresh(Unexpired(s, now))
  {
    if s != [] {
      UnexpiredFresh(s[1..], now);
    }
  }

  lemma {:induction false} UnexpiredOutOk(s: seq<Pdu>, now: nat)
    requires OutOk(s)
    ensures OutOk(Unexpired(s, now))
  {
    if s != [] {
      UnexpiredFresh(s[1..], now);
    }
  }

  lemma {:induction false} UnexpiredXids(base: uint32, n: nat, s: seq<Pdu>, now: nat)
    requires AllXids(base, n, s)
    ensures AllXids(base, n, Unexpired(s, now))
  {
    if s != [] {
      UnexpiredXids(base, n, s[1..], now);
    }
  }

  lemma {:induction false} UnexpiredChainOk(base: uint32, n: nat, h: nat, s: seq<Pdu>, now: nat)
    requires ChainOk(base, n, h, s)
    ensures ChainOk(base, n, h, Unexpired(s, now))
  {
    if s != [] {
      UnexpiredChainOk(base, n, h, s[1..], now);
    }
  }

  lemma {:induction false} UnexpiredChainsOk(base: uint32, n: nat, w: seq<seq<Pdu>>, now: nat)
    requires ChainsOk(base, n, w)
    ensures ChainsOk(base, n, UnexpiredChains(w, now))
  {
    forall h | 0 <= h < HASHES
      ensures ChainOk(base, n, h, UnexpiredChains(w, now)[h])
    {
      UnexpiredChainOk(base, n, h, w[h], now);
    }
  }

  lemma {:induction false} PushFrontFresh(base: uint32, n: nat, h: nat, chain: seq<Pdu>, out: seq<Pdu>)
    requires Fresh(out) && AllXids(base, n, out)
    requires ChainOk(base, n, h, chain)
    ensures Fresh(PushFront(chain, out)) && AllXids(base, n, PushFront(chain, out))
    decreases |chain|
  {
    if chain != [] {
      PushFrontFresh(base, n, h, chain[1..], [chain[0].(written := 0)] + out);
    }
  }

  lemma {:induction false} PushChainsFresh(base: uint32, n: nat, w: seq<seq<Pdu>>, at: nat, out: seq<Pdu>)
    requires Fresh(out) && AllXids(base, n, out)
    requires forall h | 0 <= h < |w| :: ChainOk(base, n, at + h, w[h])
    ensures Fresh(PushChains(w, out)) && AllXids(base, n, PushChains(w, out))
    decreases |w|
  {
    if w != [] {
      PushFrontFresh(base, n, at, w[0], out);
      forall h | 0 <= h < |w[1..]|
        ensures ChainOk(base, n, at + 1 + h, w[1..][h])
      {
        assert ChainOk(base, n, at + (h + 1), w[h + 1]);
      }
      PushChainsFresh(base, n, w[1..], at + 1, PushFront(w[0], out));
    }
  }

  lemma {:induction false} RequeueInvariant(e: Engine)
    requires Invariant(e)
    ensures Invariant(DoRequeue(e)) && Fresh(DoRequeue(e).out)
  {
    forall h | 0 <= h < |e.wait| ensures ChainOk(e.base, e.nextId, 0 + h, e.wait[h]) {
      assert ChainOk(e.base, e.nextId, h, e.wait[h]);
    }
    PushChainsFresh(e.base, e.nextId, e.wait, 0, RestartHead(e.out));
  }

  lemma {:induction false} ChainAppend(base: uint32, n: nat, h: nat, c: seq<Pdu>, p: Pdu)
    requires ChainOk(base, n, h, c) && ChainOk(base, n, h, [p])
    ensures ChainOk(base, n, h, c + [p])
  {
    assert [p][0] == p;
  }

  lemma {:induction false} SendInvariant(e: Engine, count: nat)
    requires Invariant(e)
    ensures Invariant(DoSend(e, count))
  {
    if e.out != [] {
      var p := e.out[0];
      if |p.data| - p.written <= count {
        var q := p.(written := |p.data|);
        var h := HashXid(q.xid);
        assert XidOk(e.base, e.nextId, p);
        ChainAppend(e.base, e.nextId, h, e.wait[h], q);
      }
    }
  }

  lemma {:induction false} ChainRemove(base: uint32, n: nat, h: nat, c: seq<Pdu>, k: nat)
    requires k < |c| && ChainOk(base, n, h, c)
    ensures ChainOk(base, n, h, c[..k] + c[k + 1..])
  {
    forall i | 0 <= i < |c| - 1
      ensures (c[..k] + c[k + 1..])[i] == if i < k then c[i] else c[i + 1]
    {
    }
  }

  lemma {:induction false} ReplyInvariant(e: Engine, xid: uint32, status: Status)
    requires Invariant(e)
    ensures Invariant(DoReply(e, xid, status))
  {
    var h := HashXid(xid);
    var k := FindXid(e.wait[h], xid);
    if k < |e.wait[h]| {
      ChainRemove(e.base, e.nextId, h, e.wait[h], k);
    }
  }

  lemma {:induction false} GrowInvariant(e: Engine)
    requires Invariant(e)
    ensures Invariant(e.(nextId := e.nextId + 1))
  {
    forall h | 0 <= h < HASHES ensures ChainOk(e.base, e.nextId + 1, h, e.wait[h]) {
      assert ChainOk(e.base, e.nextId, h, e.wait[h]);
    }
  }

  lemma {:induction false} IssueInvariant(e: Engine, body: seq<byte>, now: nat)
    requires Invariant(e)
    ensures Invariant(DoIssue(e, body, now))
  {
    GrowInvariant(e);
    var e' := DoIssue(e, body, now);
    assert XidOk(e'.base, e'.nextId, e'.out[|e.out|]);
  }

  /** Every step keeps the queues well placed. */
  lemma {:induction false} StepInvariant(e: Engine, ev: Event)
    requires Invariant(e)
    ensures Invariant(Step(e, ev))
  {
    match ev
    case Issue(body, now) => IssueInvariant(e, body, now);
    case AllocFails => GrowInvariant(e);
    case Send(count) => SendInvariant(e, count);
    case Reply(xid, status) => ReplyInvariant(e, xid, status);
    case Scan(now) =>
      UnexpiredOutOk(e.out, now);
      UnexpiredXids(e.base, e.nextId, e.out, now);
      UnexpiredChainsOk(e.base, e.nextId, e.wait, now);
    case Reconnect(connects) => RequeueInvariant(e);
    case Connected =>
    case Disconnect =>
    case Purge(status) =>
    case SetTimeout(_) =>
    case SetAutoReconnect(_) =>
  }

  ghost function Run(e: Engine, events: seq<Event>): (r: Engine)
    requires Invariant(e)
    ensures Invariant(r)
    decreases |events|
  {
    if events == [] then e else
    StepInvariant(e, events[0]);
    Run(Step(e, events[0]), events[1..])
  }

  lemma {:induction false} RunOne(e: Engine, a: Event)
    requires Invariant(e)
    ensures Invariant(Step(e, a)) && Run(e, [a]) == Step(e, a)
  {
    StepInvariant(e, a);
    assert [a][1..] == [];
  }

  lemma {:induction false} RunTwo(e: Engine, a: Event, b: Event)
    requires Invariant(e)
    ensures Invariant(Step(e, a)) && Run(e, [a, b]) == Step(Step(e, a), b)
  {
    StepInvariant(e, a);
    RunOne(Step(e, a), b);
    assert [a, b][1..] == [b];
  }

  lemma {:induction false} RunThree(e: Engine, a: Event, b: Event, c: Event)
    requires Invariant(e)
    ensures Invariant(Step(e, a)) && Invariant(Step(Step(e, a), b))
    ensures Run(e, [a, b, c]) == Step(Step(Step(e, a), b), c)
  {
    StepInvariant(e, a);
    StepInvariant(Step(e, a), b);
    RunTwo(Step(e, a), b, c);
    assert [a, b, c][1..] == [b, c];
  }
}
