/** What is delivered on a connection that replaces a lost one: the calls that were live, in
    the order of the out queue, and then the calls issued since. */
module FramingRuns {
  import opened Bytes
  import opened Framing
  import E = RpcEngine

  /** The message of a call. */
  function BodyOf(p: E.Pdu): seq<byte> {
    if |p.data| >= 4 then p.data[4..] else []
  }

  function Live(s: seq<E.Pdu>): (bodies: seq<seq<byte>>)
    ensures |bodies| == |s| && forall i | 0 <= i < |s| :: bodies[i] == BodyOf(s[i])
  {
    if s == [] then [] else [BodyOf(s[0])] + Live(s[1..])
  }

  /** A call holds the record of a message that a receiver accepts. */
  predicate Framed(p: E.Pdu) {
    8 <= |p.data| <= LIMIT && p.data == E.Record(BodyOf(p))
  }

  predicate AllFramed(s: seq<E.Pdu>) {
    forall i | 0 <= i < |s| :: Framed(s[i])
  }

  predicate EngineFramed(e: E.Engine) {
    AllFramed(e.out) && forall h | 0 <= h < |e.wait| :: AllFramed(e.wait[h])
  }

  lemma {:induction false} UnexpiredFramed(s: seq<E.Pdu>, now: nat)
    requires AllFramed(s)
    ensures AllFramed(E.Unexpired(s, now))
  {
    if s != [] {
      UnexpiredFramed(s[1..], now);
    }
  }

  lemma {:induction false} PushFrontFramed(chain: seq<E.Pdu>, out: seq<E.Pdu>)
    requires AllFramed(chain) && AllFramed(out)
    ensures AllFramed(E.PushFront(chain, out))
    decreases |chain|
  {
    if chain != [] {
      var p := chain[0].(written := 0);
      assert Framed(p) && AllFramed([p] + out);
      PushFrontFramed(chain[1..], [p] + out);
    }
  }

  lemma {:induction false} PushChainsFramed(w: seq<seq<E.Pdu>>, out: seq<E.Pdu>)
    requires AllFramed(out) && forall h | 0 <= h < |w| :: AllFramed(w[h])
    ensures AllFramed(E.PushChains(w, out))
    decreases |w|
  {
    if w != [] {
      PushFrontFramed(w[0], out);
      PushChainsFramed(w[1..], E.PushFront(w[0], out));
    }
  }

  lemma {:induction false} RequeueFramed(e: E.Engine)
    requires EngineFramed(e)
    ensures EngineFramed(E.DoRequeue(e))
  {
    var head := E.RestartHead(e.out);
    assert AllFramed(head) by {
      forall i | 0 <= i < |head| ensures Framed(head[i]) {
        assert Framed(e.out[i]) && head[i].data == e.out[i].data;
      }
    }
    PushChainsFramed(e.wait, head);
  }

  lemma {:induction false} SendFramed(e: E.Engine, count: nat)
    requires E.Invariant(e) && EngineFramed(e)
    ensures EngineFramed(E.DoSend(e, count))
  {
    if e.out != [] {
      var e1 := E.WriteHead(e, count);
      assert Framed(e.out[0]) && Framed(e1.out[0]);
      assert AllFramed(e1.out) && e1.wait == e.wait;
      if e1.out[0].written == |e1.out[0].data| {
        var h := E.HashXid(e1.out[0].xid);
        assert AllFramed(e.wait[h]) && AllFramed(e.wait[h] + [e1.out[0]]);
      }
    }
  }

  lemma {:induction false} RestFramed(s: seq<E.Pdu>, k: nat)
    requires AllFramed(s) && k < |s|
    ensures AllFramed(s[..k] + s[k + 1..])
  {
    var rest := s[..k] + s[k + 1..];
    forall i | 0 <= i < |rest| ensures Framed(rest[i]) {
      assert rest[i] == s[if i < k then i else i + 1];
    }
  }

  lemma {:induction false} ReplyFramed(e: E.Engine, xid: uint32, status: E.Status)
    requires E.Invariant(e) && EngineFramed(e)
    ensures EngineFramed(E.DoReply(e, xid, status))
  {
    var h := E.HashXid(xid);
    var chain, k := e.wait[h], E.FindXid(e.wait[h], xid);
    if k < |chain| {
      RestFramed(chain, k);
    }
  }

  lemma {:induction false} IssueFramed(e: E.Engine, body: seq<byte>, now: nat)
    requires EngineFramed(e) && 4 <= |body| <= LIMIT - 4
    ensures EngineFramed(E.DoIssue(e, body, now))
  {
    var p := E.DoIssue(e, body, now).out[|e.out|];
    assert BodyOf(p) == body && Framed(p);
  }

  lemma {:induction false} ScanFramed(e: E.Engine, now: nat)
    requires EngineFramed(e)
    ensures EngineFramed(E.DoScan(e, now))
  {
    UnexpiredFramed(e.out, now);
    forall h | 0 <= h < |e.wait| ensures AllFramed(E.DoScan(e, now).wait[h]) {
      UnexpiredFramed(e.wait[h], now);
    }
  }

  lemma {:induction false} StepFramed(e: E.Engine, ev: E.Event)
    requires E.Invariant(e) && EngineFramed(e) && InLimits(Body(ev))
    ensures EngineFramed(E.Step(e, ev))
  {
    match ev
    case Issue(body, now) =>
      assert Body(ev)[0] == body;
      IssueFramed(e, body, now);
    case Send(count) => SendFramed(e, count);
    case Reply(xid, status) => ReplyFramed(e, xid, status);
    case Scan(now) => ScanFramed(e, now);
    case Reconnect(_) => RequeueFramed(e);
    case _ =>
  }

  lemma {:induction false} LimitsApart(a: seq<seq<byte>>, b: seq<seq<byte>>)
    requires InLimits(a + b)
    ensures InLimits(a) && InLimits(b)
  {
    assert forall i | 0 <= i < |a| :: a[i] == (a + b)[i];
    assert forall i | 0 <= i < |b| :: b[i] == (a + b)[|a| + i];
  }

  /** Whatever happens, every call holds the record of its message. */
  lemma {:induction false} RunFramed(e: E.Engine, events: seq<E.Event>)
    requires E.Invariant(e) && EngineFramed(e) && InLimits(Bodies(events))
    ensures EngineFramed(E.Run(e, events))
    decreases |events|
  {
    if events != [] {
      LimitsApart(Body(events[0]), Bodies(events[1..]));
      E.StepInvariant(e, events[0]);
      StepFramed(e, events[0]);
      RunFramed(E.Step(e, events[0]), events[1..]);
    }
  }

  lemma {:induction false} FramedRecords(s: seq<E.Pdu>)
    requires AllFramed(s)
    ensures Datas(s) == Records(Live(s)) && InLimits(Live(s))
  {
    forall i | 0 <= i < |s| ensures Datas(s)[i] == Records(Live(s))[i] && 4 <= |Live(s)[i]| <= LIMIT - 4 {
      assert Framed(s[i]);
    }
  }

  lemma {:induction false} RequeuedOnWire(e: E.Engine, retries: int)
    requires E.Invariant(e) && EngineFramed(e)
    ensures var r := E.DoRequeue(e).(retries := retries); OnWire(r, Live(r.out)) && InLimits(Live(r.out))
  {
    RequeueFramed(e);
    E.RequeueInvariant(e);
    var r := E.DoRequeue(e).(retries := retries);
    FramedRecords(r.out);
    assert [] + Datas(r.out) == Datas(r.out);
  }

  /** After any run, a new connection: however its sends and receives are split, the peer has
      the calls that were live, in the order of the out queue, and then the calls issued since;
      all of them once the out queue is empty and every byte has been handed out. */
  lemma {:induction false} EndToEndAgain(base: uint32, timeout: int, autoReconnect: int, before: seq<E.Event>,
                                         retries: int, after: seq<E.Event>, pieces: seq<seq<byte>>)
    requires InLimits(Bodies(before)) && InLimits(Bodies(after)) && forall i | 0 <= i < |after| :: Quiet(after[i])
    requires Receivable(START, pieces)
    ensures var again := E.DoRequeue(E.Run(E.Init(base, timeout, autoReconnect), before)).(retries := retries);
            && E.Invariant(again)
            && Arrives(E.Run(again, after), Live(again.out) + Bodies(after), pieces)
  {
    var e0 := E.Init(base, timeout, autoReconnect);
    RunFramed(e0, before);
    var e1 := E.Run(e0, before);
    RequeuedOnWire(e1, retries);
    var again := E.DoRequeue(e1).(retries := retries);
    SentIsReceived(again, Live(again.out), after, pieces);
  }
}
