/** The RPC client context: the out queue and the table of waiting chains as linked lists,
    and the operations of the library on them. Each operation takes exactly the step of
    the value model: `View()` after it is the step function of `View()` before it, so what
    `RpcRuns` and `RpcDeadlines` prove of every run holds of these lists. */
module RpcClient {
  import opened Bytes
  import opened RpcLists
  import opened RpcTables
  import E = RpcEngine
  import D = RpcDeadlines

  /** The fields of struct rpc_context that the queues involve, and two outputs: the
      callbacks run so far and the bytes handed to the current connection. `nextId` names
      a call in the log, as its private data does. */
  datatype Fields = Fields(
    xid: uint32, nextId: nat, timeout: int,
    outqueue: Queue, waitpdu: seq<Queue>, waitpduLen: uint32,
    connected: bool, autoReconnect: int, retries: int,
    log: seq<E.Done>, wire: seq<byte>)

  /** What the queues hold, in which nodes, and what these show: the state of the value
      model, which also keeps the history that runs are about. */
  datatype Held = Held(
    out: seq<Pdu>, outAt: set<Pdu>,
    chains: seq<seq<Pdu>>, chainAt: seq<set<Pdu>>, waitAt: set<Pdu>,
    view: E.Engine)

  /** The plain fields agree with the view. */
  ghost predicate FieldsShow(f: Fields, v: E.Engine) {
    && f.nextId == v.nextId && f.xid == (v.base + v.nextId) % TWO32 && f.timeout == v.timeout
    && f.waitpduLen == v.waitLen && f.connected == v.connected
    && f.autoReconnect == v.autoReconnect && f.retries == v.retries
    && f.log == v.log && f.wire == v.wire
  }

  ghost predicate Lists(f: Fields, g: Held)
    reads g.outAt, g.waitAt
  {
    && FieldsShow(f, g.view)
    && g.outAt !! g.waitAt
    && Linked(g.outAt, f.outqueue, g.out) && Shows(g.outAt, g.out, g.view.out)
    && Table(g.waitAt, f.waitpdu, g.chains, g.chainAt) && TableShows(g.waitAt, g.chains, g.view.wait)
    && (forall i | 0 <= i < |g.view.out| :: g.view.out[i].written <= |g.view.out[i].data|)
  }

  lemma {:induction false} NextXid(base: uint32, n: nat)
    ensures ((base + n) % TWO32 + 1) % TWO32 == (base + (n + 1)) % TWO32
  {
  }

  /** rpc_allocate_pdu2 and rpc_queue_pdu. */
  method IssueCall(f: Fields, ghost g: Held, body: seq<byte>, now: nat) returns (f': Fields, ghost g': Held)
    requires Lists(f, g)
    modifies g.outAt`next
    ensures Lists(f', g') && fresh(g'.outAt - g.outAt) && g'.waitAt == g.waitAt
    ensures g'.view == E.DoIssue(g.view, body, now)
  {
    var pdu := new Pdu(f.nextId, f.xid, E.Record(body), E.Deadline(f.timeout, now));
    var q := Enqueue(g.outAt, f.outqueue, g.out, pdu);
    NextXid(g.view.base, f.nextId);
    f' := f.(xid := (f.xid + 1) % TWO32, nextId := f.nextId + 1, outqueue := q);
    g' := g.(out := g.out + [pdu], outAt := g.outAt + {pdu}, view := E.DoIssue(g.view, body, now));
  }

  /** Take the head off the out queue, as rpc_write_to_socket does. */
  method PopHead(ghost at: set<Pdu>, q: Queue, ghost s: seq<Pdu>) returns (r: Queue)
    requires Linked(at, q, s) && s != []
    ensures Linked(at - {s[0]}, r, s[1..])
  {
    NextOf(at, q.head, s, 0);
    r := Queue(q.head.next, if q.head.next == null then null else q.tail);
  }

  /** `send` accepts some bytes of the head. */
  method WriteHead(f: Fields, ghost g: Held, count: nat) returns (f': Fields, ghost g': Held)
    requires Lists(f, g) && g.out != []
    modifies {g.out[0]}`written
    ensures Lists(f', g') && g' == g.(view := E.WriteHead(g.view, count)) && f'.outqueue == f.outqueue
  {
    var pdu: Pdu := f.outqueue.head;
    var n := if count <= |pdu.data| - pdu.written then count else |pdu.data| - pdu.written;
    f' := f.(wire := f.wire + pdu.data[pdu.written..pdu.written + n]);
    g' := g.(view := E.WriteHead(g.view, count));
    pdu.written := pdu.written + n;
  }

  lemma {:induction false} TableAppendShows(at: set<Pdu>, cs: seq<seq<Pdu>>, vs: seq<seq<E.Pdu>>, h: nat, pdu: Pdu)
    requires TableShows(at, cs, vs) && h < |cs|
    ensures TableShows(at + {pdu}, cs[h := cs[h] + [pdu]], vs[h := vs[h] + [pdu.Value()]])
  {
    var cs', vs' := cs[h := cs[h] + [pdu]], vs[h := vs[h] + [pdu.Value()]];
    forall i | 0 <= i < |cs'| ensures Shows(at + {pdu}, cs'[i], vs'[i]) {
      assert Shows(at, cs[i], vs[i]);
    }
  }

  /** A call that is wholly written moves to its chain. */
  method MoveHead(f: Fields, ghost g: Held) returns (f': Fields, ghost g': Held)
    requires Lists(f, g) && g.out != []
    modifies g.outAt`next, g.waitAt`next
    ensures Lists(f', g') && g'.outAt + g'.waitAt == g.outAt + g.waitAt
    ensures g'.view == E.MoveHead(g.view)
  {
    var pdu: Pdu := f.outqueue.head;
    var q := PopHead(g.outAt, f.outqueue, g.out);
    var h := E.HashXid(pdu.xid);
    var w := AppendToChain(g.waitAt, f.waitpdu, g.chains, g.chainAt, h, pdu);
    TableAppendShows(g.waitAt, g.chains, g.view.wait, h, pdu);
    f' := f.(outqueue := q, waitpdu := w, waitpduLen := (f.waitpduLen + 1) % TWO32);
    g' := g.(out := g.out[1..], outAt := g.outAt - {pdu}, waitAt := g.waitAt + {pdu},
             chains := g.chains[h := g.chains[h] + [pdu]], chainAt := g.chainAt[h := g.chainAt[h] + {pdu}],
             view := E.MoveHead(g.view));
    assert Linked(g'.outAt, f'.outqueue, g'.out) && Shows(g'.outAt, g'.out, g'.view.out);
  }

  /** One round of rpc_write_to_socket. */
  method SendOnce(f: Fields, ghost g: Held, count: nat) returns (f': Fields, ghost g': Held)
    requires Lists(f, g) && g.out != []
    modifies g.outAt + g.waitAt
    ensures Lists(f', g') && g'.outAt + g'.waitAt == g.outAt + g.waitAt
    ensures g'.view == E.DoSend(g.view, count)
  {
    f', g' := WriteHead(f, g, count);
    if f'.outqueue.head.written == |f'.outqueue.head.data| {
      f', g' := MoveHead(f', g');
    }
  }

  ghost predicate Sendable(e: E.Engine) {
    |e.wait| == E.HASHES && forall i | 0 <= i < |e.out| :: e.out[i].written <= |e.out[i].data|
  }

  ghost function SendAll(e: E.Engine, counts: seq<nat>): (r: E.Engine)
    requires Sendable(e)
    decreases |counts|
  {
    if counts == [] || e.out == [] then e else SendAll(E.DoSend(e, counts[0]), counts[1..])
  }

  /** The loop of rpc_write_to_socket; `counts` is what the successive calls of `send`
      accept before one would block. */
  method WriteToSocket(f: Fields, ghost g: Held, counts: seq<nat>) returns (f': Fields, ghost g': Held)
    requires Lists(f, g)
    modifies g.outAt + g.waitAt
    ensures Lists(f', g') && g'.outAt + g'.waitAt == g.outAt + g.waitAt
    ensures g'.view == SendAll(g.view, counts)
  {
    f', g' := f, g;
    var i := 0;
    assert counts[0..] == counts;
    while i < |counts| && f'.outqueue.head != null
      invariant 0 <= i <= |counts| && Lists(f', g') && g'.outAt + g'.waitAt == g.outAt + g.waitAt
      invariant SendAll(g.view, counts) == SendAll(g'.view, counts[i..])
    {
      assert counts[i..][1..] == counts[i + 1..];
      f', g' := SendOnce(f', g', counts[i]);
      i := i + 1;
    }
  }

  lemma {:induction false} TableRemoveShows(at: set<Pdu>, cs: seq<seq<Pdu>>, vs: seq<seq<E.Pdu>>, h: nat, k: nat)
    requires TableShows(at, cs, vs) && h < |cs| && k < |cs[h]|
    ensures TableShows(at, cs[h := Without(cs[h], k)], vs[h := vs[h][..k] + vs[h][k + 1..]])
  {
    var cs', vs' := cs[h := Without(cs[h], k)], vs[h := vs[h][..k] + vs[h][k + 1..]];
    forall i | 0 <= i < |cs'| ensures Shows(at, cs'[i], vs'[i]) {
      assert Shows(at, cs[i], vs[i]);
    }
  }

  /** The step of the value model, by the position of the call. */
  ghost function ReplyAt(e: E.Engine, h: nat, k: nat, status: E.Status): E.Engine
    requires h < |e.wait| && k < |e.wait[h]|
  {
    e.(wait := e.wait[h := e.wait[h][..k] + e.wait[h][k + 1..]],
       waitLen := (e.waitLen + TWO32 - 1) % TWO32,
       log := e.log + [E.Done(e.wait[h][k].id, status)])
  }

  lemma {:induction false} ReplyIs(e: E.Engine, xid: uint32, status: E.Status, k: nat)
    requires |e.wait| == E.HASHES
    requires var v := e.wait[E.HashXid(xid)];
             k <= |v| && (k < |v| ==> v[k].xid == xid) && forall j | 0 <= j < k :: v[j].xid != xid
    ensures var h := E.HashXid(xid);
            E.DoReply(e, xid, status) == if k < |e.wait[h]| then ReplyAt(e, h, k, status) else e
  {
    assert E.FindXid(e.wait[E.HashXid(xid)], xid) == k;
  }

  /** The tail of rpc_process_pdu: find the call, unlink it and run its callback. */
  method ProcessReply(f: Fields, ghost g: Held, xid: uint32, status: E.Status) returns (f': Fields, ghost g': Held)
    requires Lists(f, g)
    modifies g.waitAt`next
    ensures Lists(f', g') && g'.outAt == g.outAt && g'.waitAt == g.waitAt
    ensures g'.view == E.DoReply(g.view, xid, status)
  {
    var h := E.HashXid(xid);
    assert Shows(g.waitAt, g.chains[h], g.view.wait[h]);
    var w, found, k := RemoveFromChain(g.waitAt, f.waitpdu, g.chains, g.chainAt, h, xid);
    ReplyIs(g.view, xid, status, k);
    f', g' := f, g;
    if found != null {
      TableRemoveShows(g.waitAt, g.chains, g.view.wait, h, k);
      f' := f.(waitpdu := w, waitpduLen := (f.waitpduLen + TWO32 - 1) % TWO32,
               log := f.log + [E.Done(found.id, status)]);
      g' := g.(chains := g.chains[h := Without(g.chains[h], k)], view := ReplyAt(g.view, h, k, status));
    }
  }

  ghost predicate SafeScan(e: E.Engine, now: nat) {
    D.SafeToScan(e.out, now) && forall h | 0 <= h < |e.wait| :: D.SafeToScan(e.wait[h], now)
  }

  lemma {:induction false} UnexpiredWritten(v: seq<E.Pdu>, now: nat)
    requires forall i | 0 <= i < |v| :: v[i].written <= |v[i].data|
    ensures forall i | 0 <= i < |E.Unexpired(v, now)| :: E.Unexpired(v, now)[i].written <= |E.Unexpired(v, now)[i].data|
  {
    if v != [] {
      UnexpiredWritten(v[1..], now);
    }
  }

  /** The scan of one list, with the values it leaves. */
  method ScanList(ghost at: set<Pdu>, q: Queue, ghost s: seq<Pdu>, ghost v: seq<E.Pdu>, now: nat)
      returns (r: Queue, done: seq<E.Done>)
    requires Linked(at, q, s) && Shows(at, s, v) && D.SafeToScan(v, now)
    modifies at`next
    ensures Linked(at, r, Kept(s, now)) && Shows(at, Kept(s, now), E.Unexpired(v, now))
    ensures done == E.ExpireLog(v, now)
  {
    SafeShows(at, s, v, now);
    ScanTail(s, now);
    KeptShows(at, s, v, now);
    r, done := ScanQueue(at, q, s, now);
  }

  /** The first loop of rpc_timeout_scan. */
  method ScanOut(f: Fields, ghost g: Held, now: nat) returns (f': Fields, ghost g': Held)
    requires Lists(f, g) && D.SafeToScan(g.view.out, now)
    modifies g.outAt`next
    ensures Lists(f', g') && g'.outAt == g.outAt && g'.waitAt == g.waitAt
    ensures g'.view == E.ScanOut(g.view, now)
  {
    UnexpiredWritten(g.view.out, now);
    var q, done := ScanList(g.outAt, f.outqueue, g.out, g.view.out, now);
    f' := f.(outqueue := q, log := f.log + done);
    g' := g.(out := Kept(g.out, now), view := E.ScanOut(g.view, now));
  }

  /** The second loop of rpc_timeout_scan. */
  method ScanWaiting(f: Fields, ghost g: Held, now: nat) returns (f': Fields, ghost g': Held)
    requires Lists(f, g) && forall h | 0 <= h < |g.view.wait| :: D.SafeToScan(g.view.wait[h], now)
    modifies g.waitAt`next
    ensures Lists(f', g') && g'.outAt == g.outAt && g'.waitAt == g.waitAt
    ensures g'.view == E.ScanChains(g.view, now)
  {
    forall h | 0 <= h < E.HASHES ensures SafeNodes(g.chains[h], now) {
      SafeShows(g.waitAt, g.chains[h], g.view.wait[h], now);
    }
    TimedOutAllShows(g.waitAt, g.chains, g.view.wait, now);
    var w, done, cs' := ScanChains(g.waitAt, f.waitpdu, g.chains, g.chainAt, now);
    KeptTableShows(g.waitAt, g.chains, g.view.wait, now, cs');
    f' := f.(waitpdu := w, log := f.log + done);
    g' := g.(chains := cs', view := E.ScanChains(g.view, now));
  }

  /** rpc_timeout_scan */
  method TimeoutScan(f: Fields, ghost g: Held, now: nat) returns (f': Fields, ghost g': Held)
    requires Lists(f, g) && SafeScan(g.view, now)
    modifies g.outAt`next, g.waitAt`next
    ensures Lists(f', g') && g'.outAt == g.outAt && g'.waitAt == g.waitAt
    ensures g'.view == E.DoScan(g.view, now)
  {
    f', g' := ScanOut(f, g, now);
    f', g' := ScanWaiting(f', g', now);
  }

  ghost function NoNodes(g: Held): Held {
    g.(out := [], outAt := {}, chains := seq(E.HASHES, _ => []), chainAt := seq(E.HASHES, _ => {}), waitAt := {})
  }

  /** rpc_purge_all_pdus */
  method PurgeAll(f: Fields, ghost g: Held, status: E.Status) returns (f': Fields, ghost g': Held)
    requires Lists(f, g)
    modifies g.outAt`next, g.waitAt`next
    ensures Lists(f', g') && g'.outAt == g'.waitAt == {}
    ensures g'.view == E.DoPurge(g.view, status)
  {
    PurgedShows(g.outAt, g.out, g.view.out, status);
    PurgedAllShows(g.waitAt, g.chains, g.view.wait, status);
    var done := PurgeQueue(g.outAt, f.outqueue, g.out, status);
    var w, done' := PurgeChains(g.waitAt, f.waitpdu, g.chains, g.chainAt, status);
    NoTable(w);
    f' := f.(outqueue := EMPTY, waitpdu := w, log := f.log + done + done');
    g' := NoNodes(g.(view := E.DoPurge(g.view, status)));
  }

  /** Restart the head, as rpc_reconnect_requeue does first. */
  method RestartHead(f: Fields, ghost g: Held)
    requires Lists(f, g)
    modifies (if g.out == [] then {} else {g.out[0]})`written
    ensures Shows(g.outAt, g.out, E.RestartHead(g.view.out))
  {
    if f.outqueue.head != null {
      f.outqueue.head.written := 0;
    }
  }

  lemma {:induction false} PushFrontWritten(v: seq<E.Pdu>, out: seq<E.Pdu>)
    requires forall i | 0 <= i < |out| :: out[i].written <= |out[i].data|
    ensures forall i | 0 <= i < |E.PushFront(v, out)| :: E.PushFront(v, out)[i].written <= |E.PushFront(v, out)[i].data|
    decreases |v|
  {
    if v != [] {
      PushFrontWritten(v[1..], [v[0].(written := 0)] + out);
    }
  }

  lemma {:induction false} PushChainsWritten(w: seq<seq<E.Pdu>>, out: seq<E.Pdu>)
    requires forall i | 0 <= i < |out| :: out[i].written <= |out[i].data|
    ensures forall i | 0 <= i < |E.PushChains(w, out)| :: E.PushChains(w, out)[i].written <= |E.PushChains(w, out)[i].data|
    decreases |w|
  {
    if w != [] {
      PushFrontWritten(w[0], out);
      PushChainsWritten(w[1..], E.PushFront(w[0], out));
    }
  }

  /** The queue part of rpc_reconnect_requeue. */
  method Requeue(f: Fields, ghost g: Held) returns (f': Fields, ghost g': Held)
    requires Lists(f, g)
    modifies g.outAt + g.waitAt
    ensures Lists(f', g') && g'.outAt + g'.waitAt == g.outAt + g.waitAt
    ensures g'.view == E.DoRequeue(g.view)
  {
    ghost var at := g.outAt + g.waitAt;
    RestartHead(f, g);
    var q, w := RequeueAll(g.outAt, f.outqueue, g.out, E.RestartHead(g.view.out),
                           g.waitAt, f.waitpdu, g.chains, g.chainAt, g.view.wait);
    NoTable(w);
    PushChainsWritten(g.view.wait, E.RestartHead(g.view.out));
    f' := f.(retries := if f.connected then f.autoReconnect else f.retries, connected := false,
             outqueue := q, waitpdu := w, waitpduLen := 0, wire := []);
    g' := NoNodes(g.(view := E.DoRequeue(g.view)));
    g' := g'.(out := PushAll(g.chains, g.out), outAt := at);
  }

  /** rpc_reconnect_requeue; `connects` says whether the new connection can be started. */
  method Reconnect(f: Fields, ghost g: Held, connects: bool) returns (f': Fields, ghost g': Held)
    requires Lists(f, g)
    modifies g.outAt + g.waitAt
    ensures Lists(f', g') && g'.outAt + g'.waitAt <= g.outAt + g.waitAt
    ensures g'.view == E.DoReconnect(g.view, connects)
  {
    if f.autoReconnect == 0 {
      f', g' := PurgeAll(f, g, E.Error);
      return;
    }
    f', g' := Requeue(f, g);
    if f'.autoReconnect < 0 || f'.retries > 0 {
      f', g' := f'.(retries := f'.retries - 1), g'.(view := g'.view.(retries := g'.view.retries - 1));
      if !connects {
        f', g' := PurgeAll(f', g', E.Error);
      }
    } else {
      f', g' := PurgeAll(f', g', E.Error);
    }
  }

  /** rpc_disconnect */
  method Disconnect(f: Fields, ghost g: Held) returns (f': Fields, ghost g': Held)
    requires Lists(f, g)
    modifies g.outAt`next, g.waitAt`next
    ensures Lists(f', g') && g'.outAt + g'.waitAt <= g.outAt + g.waitAt
    ensures g'.view == E.DoDisconnect(g.view)
  {
    f', g' := f, g;
    if f.connected {
      f', g' := f.(autoReconnect := 0, connected := false), g.(view := g.view.(autoReconnect := 0, connected := false));
      f', g' := PurgeAll(f', g', E.Error);
    }
  }

  /** The events that touch no list. */
  method SetFields(f: Fields, ghost g: Held, ev: E.Event) returns (f': Fields, ghost g': Held)
    requires Lists(f, g) && E.Shape(g.view) && (ev.AllocFails? || ev.Connected? || ev.SetTimeout? || ev.SetAutoReconnect?)
    ensures Lists(f', g') && g' == g.(view := E.Step(g.view, ev))
  {
    NextXid(g.view.base, f.nextId);
    f' := match ev
      case AllocFails => f.(xid := (f.xid + 1) % TWO32, nextId := f.nextId + 1)
      case Connected => f.(connected := true)
      case SetTimeout(t) => f.(timeout := t)
      case SetAutoReconnect(limit) => f.(autoReconnect := limit);
    g' := g.(view := E.Step(g.view, ev));
  }

  method Dispatch(f: Fields, ghost g: Held, ev: E.Event) returns (f': Fields, ghost g': Held)
    requires Lists(f, g) && E.Shape(g.view) && (ev.Scan? ==> SafeScan(g.view, ev.now))
    modifies g.outAt + g.waitAt
    ensures Lists(f', g') && fresh(g'.outAt + g'.waitAt - (g.outAt + g.waitAt))
    ensures g'.view == E.Step(g.view, ev)
  {
    f', g' := f, g;
    match ev {
      case Issue(body, now) => f', g' := IssueCall(f, g, body, now);
      case Send(count) =>
        if f.outqueue.head != null {
          f', g' := SendOnce(f, g, count);
        }
      case Reply(xid, status) => f', g' := ProcessReply(f, g, xid, status);
      case Scan(now) => f', g' := TimeoutScan(f, g, now);
      case Reconnect(connects) => f', g' := Reconnect(f, g, connects);
      case Purge(status) => f', g' := PurgeAll(f, g, status);
      case Disconnect => f', g' := Disconnect(f, g);
      case _ => f', g' := SetFields(f, g, ev);
    }
  }

  /** Every timeout scan of the run finds its queues safe to scan. */
  ghost predicate SafeScans(e: E.Engine, events: seq<E.Event>)
    requires E.Invariant(e)
    decreases |events|
  {
    events == [] ||
    (&& (events[0].Scan? ==> SafeScan(e, events[0].now))
     && E.Invariant(E.Step(e, events[0]))
     && SafeScans(E.Step(e, events[0]), events[1..]))
  }

  /** The run `events` from `e` is safe to handle and leads to `end`. */
  ghost predicate Heads(e: E.Engine, events: seq<E.Event>, end: E.Engine) {
    E.Invariant(e) && SafeScans(e, events) && E.Run(e, events) == end
  }

  lemma {:induction false} HeadsNext(e: E.Engine, events: seq<E.Event>, end: E.Engine)
    requires events != [] && Heads(e, events, end)
    ensures E.Shape(e) && (events[0].Scan? ==> SafeScan(e, events[0].now))
    ensures Heads(E.Step(e, events[0]), events[1..], end)
  {
    E.StepInvariant(e, events[0]);
  }

  // ---------------------------------------------------------------- the context

  class RpcContext {
    var f: Fields
    ghost var g: Held

    ghost predicate Valid()
      reads this, g.outAt, g.waitAt
    {
      Lists(f, g)
    }

    ghost function View(): E.Engine
      reads this
    {
      g.view
    }

    ghost function Nodes(): set<Pdu>
      reads this
    {
      g.outAt + g.waitAt
    }

    /** rpc_init_context */
    constructor (base: uint32, timeout: int, autoReconnect: int)
      ensures Valid() && Nodes() == {}
      ensures View() == E.Init(base, timeout, autoReconnect)
    {
      f := Fields(base, 0, timeout, EMPTY, seq(E.HASHES, _ => EMPTY), 0, false, autoReconnect, 0, [], []);
      g := Held([], {}, seq(E.HASHES, _ => []), seq(E.HASHES, _ => {}), {}, E.Init(base, timeout, autoReconnect));
    }

    method Become(f': Fields, ghost g': Held)
      requires Lists(f', g')
      modifies this
      ensures f == f' && g == g' && Valid()
    {
      f, g := f', g';
    }

    /** Any event of the engine. The lists take the step of the value model, whatever the
        event; only a timeout scan needs its queues to be safe to scan. */
    method Handle(ev: E.Event)
      requires Valid() && E.Shape(View()) && (ev.Scan? ==> SafeScan(View(), ev.now))
      modifies this, Nodes()
      ensures Valid() && fresh(Nodes() - old(Nodes()))
      ensures View() == E.Step(old(View()), ev)
    {
      var f', g' := Dispatch(f, g, ev);
      Become(f', g');
    }

    /** A whole run from any state the engine can be in. */
    method HandleAll(events: seq<E.Event>)
      requires Valid() && E.Invariant(View()) && SafeScans(View(), events)
      modifies this, Nodes()
      ensures Valid() && View() == E.Run(old(View()), events)
    {
      var i := 0;
      ghost var end := E.Run(View(), events);
      assert events[0..] == events;
      while i < |events|
        invariant 0 <= i <= |events| && Valid() && fresh(Nodes() - old(Nodes()))
        invariant Heads(View(), events[i..], end)
      {
        HeadsNext(View(), events[i..], end);
        assert events[i..][1..] == events[i + 1..];
        Handle(events[i]);
        i := i + 1;
      }
    }
  }

  lemma {:induction false} OrderedScansAreSafe(e: E.Engine, events: seq<E.Event>, clock: nat)
    requires E.Invariant(e) && D.Ordered(e, clock) && D.Steady(events, clock)
    ensures SafeScans(e, events)
    decreases |events|
  {
    if events != [] {
      var ev := events[0];
      E.StepInvariant(e, ev);
      D.StepKeepsOrder(e, ev, clock);
      OrderedScansAreSafe(E.Step(e, ev), events[1..], D.Tick(ev, clock));
      if ev.Scan? {
        var limit := E.Deadline(e.timeout, clock);
        D.OrderedIsSafeToScan(e.out, limit, ev.now);
        forall h | 0 <= h < |e.wait| ensures D.SafeToScan(e.wait[h], ev.now) {
          assert D.ChainOrdered(e.wait[h], e.out, limit);
          D.OrderedIsSafeToScan(e.wait[h], limit, ev.now);
        }
      }
    }
  }

  /** A context on which only steady runs happen keeps every head and tail in agreement:
      `HandleAll` accepts every such run. */
  lemma {:induction false} SteadyRunsAreHandled(base: uint32, timeout: int, autoReconnect: int, events: seq<E.Event>)
    requires D.Steady(events, 0)
    ensures SafeScans(E.Init(base, timeout, autoReconnect), events)
  {
    OrderedScansAreSafe(E.Init(base, timeout, autoReconnect), events, 0);
  }
}
