/** Record marking (section 11 of RFC 5531) on one connection: what the sender puts on the
    wire, how the receiver cuts it into records and joins fragments, and that the two agree
    however the bytes are split on the way. */
module Framing {
  import opened Bytes
  import E = RpcEngine

  /** NFS_MAX_XFER_SIZE + 4096 */
  const LIMIT := 1024 * 1024 + 4096

  /** One record: a fragment and whether it is the last one of its message. */
  datatype Fragment = Fragment(last: bool, payload: seq<byte>)

  ghost predicate Sendable(r: Fragment) {
    0 < |r.payload| <= LIMIT - 4
  }

  function Encode(r: Fragment): (b: seq<byte>)
    requires |r.payload| < TWO31
    ensures |b| == 4 + |r.payload|
  {
    Be32((if r.last then TWO31 else 0) + |r.payload|) + r.payload
  }

  /** rpc_get_pdu_size */
  function PduSize(marker: seq<byte>): (n: nat)
    requires |marker| == 4
  {
    FromBe32(marker) % TWO31 + 4
  }

  // ---------------------------------------------------------------- the receiver

  /** `buf` is what has been received of the current record. */
  datatype Receiver = Receiver(buf: seq<byte>, fragments: seq<seq<byte>>, delivered: seq<seq<byte>>, closed: bool)

  const START := Receiver([], [], [], false)

  predicate Shape(r: Receiver) {
    |r.buf| <= 4 || (|r.buf| < PduSize(r.buf[..4]))
  }

  /** How many bytes the next `recv` asks for. */
  function Wanted(r: Receiver): (n: nat)
    requires Shape(r)
  {
    if |r.buf| < 4 then 4 - |r.buf| else PduSize(r.buf[..4]) - |r.buf|
  }

  /** rpc_process_pdu, up to the lookup of the transaction id. */
  function Process(r: Receiver, record: seq<byte>): Receiver
    requires |record| >= 4
  {
    if FromBe32(record[..4]) < TWO31 then
      r.(buf := [], fragments := r.fragments + [record[4..]])
    else
      var message := Concat(r.fragments) + record[4..];
      if |message| < 4 then r.(buf := [], fragments := [], closed := true)
      else r.(buf := [], fragments := [], delivered := r.delivered + [message])
  }

  /** One round of rpc_read_from_socket in which `recv` yields `data`. A record that is too
      long, or empty, ends the connection before anything of it is read. */
  function Receive(r: Receiver, data: seq<byte>): (r': Receiver)
    requires Shape(r) && 0 < |data|
    requires |data| <= Wanted(r) || Wanted(r) == 0
    ensures Shape(r')
  {
    if r.closed || (|r.buf| >= 4 && !(4 < PduSize(r.buf[..4]) <= LIMIT)) then r.(closed := true) else
    var buf := r.buf + data;
    if |buf| <= 4 then r.(buf := buf)
    else if |buf| == PduSize(buf[..4]) then
      assert buf[..4] == r.buf[..4];
      Process(r, buf)
    else
      assert buf[..4] == r.buf[..4];
      r.(buf := buf)
  }

  /** `pieces` is a way the connection could hand out bytes: never more than asked for. */
  predicate Receivable(r: Receiver, pieces: seq<seq<byte>>)
    requires Shape(r)
    decreases |pieces|
  {
    pieces == [] ||
    (0 < |pieces[0]| <= Wanted(r) && Receivable(Receive(r, pieces[0]), pieces[1..]))
  }

  function ReceiveAll(r: Receiver, pieces: seq<seq<byte>>): (r': Receiver)
    requires Shape(r) && Receivable(r, pieces)
    ensures Shape(r')
    decreases |pieces|
  {
    if pieces == [] then r else ReceiveAll(Receive(r, pieces[0]), pieces[1..])
  }

  // ---------------------------------------------------------------- what ends a connection

  lemma {:induction false} ClosedStays(r: Receiver, pieces: seq<seq<byte>>)
    requires Shape(r) && r.closed && Receivable(r, pieces)
    ensures ReceiveAll(r, pieces) == r
    decreases |pieces|
  {
    if pieces != [] {
      ClosedStays(Receive(r, pieces[0]), pieces[1..]);
    }
  }

  /** After a marker that gives no bytes, or more than the limit, nothing is delivered any
      more, whatever follows. */
  lemma {:induction false} BadMarkerEnds(r: Receiver, pieces: seq<seq<byte>>)
    requires Shape(r) && |r.buf| == 4 && Receivable(r, pieces)
    requires var size := FromBe32(r.buf) % TWO31; size == 0 || size > 1024 * 1024 + 4092
    ensures ReceiveAll(r, pieces).delivered == r.delivered && (pieces != [] ==> ReceiveAll(r, pieces).closed)
  {
    assert r.buf[..4] == r.buf;
    if pieces != [] {
      ClosedStays(Receive(r, pieces[0]), pieces[1..]);
    }
  }

  /** Nor after a message that is too short for a transaction id. */
  lemma {:induction false} ShortMessageEnds(r: Receiver, data: seq<byte>, pieces: seq<seq<byte>>)
    requires Shape(r) && 4 <= |r.buf| && 0 < |data| && 4 < |r.buf| + |data| == PduSize(r.buf[..4]) <= LIMIT && !r.closed
    requires FromBe32(r.buf[..4]) >= TWO31 && |Concat(r.fragments)| + |r.buf| + |data| < 8
    requires Receivable(Receive(r, data), pieces)
    ensures ReceiveAll(Receive(r, data), pieces).delivered == r.delivered && Receive(r, data).closed
  {
    assert (r.buf + data)[..4] == r.buf[..4];
    ClosedStays(Receive(r, data), pieces);
  }

  // ---------------------------------------------------------------- what a stream means

  function EncodeAll(rs: seq<Fragment>): seq<byte>
    requires forall i | 0 <= i < |rs| :: |rs[i].payload| < TWO31
  {
    if rs == [] then [] else Encode(rs[0]) + EncodeAll(rs[1..])
  }

  /** The messages a stream of records carries, after the fragments already pending. */
  function Messages(pending: seq<seq<byte>>, rs: seq<Fragment>): seq<seq<byte>>
    decreases |rs|
  {
    if rs == [] then []
    else if rs[0].last then [Concat(pending) + rs[0].payload] + Messages([], rs[1..])
    else Messages(pending + [rs[0].payload], rs[1..])
  }

  /** The fragments left over when the stream ends. */
  function Pending(pending: seq<seq<byte>>, rs: seq<Fragment>): seq<seq<byte>>
    decreases |rs|
  {
    if rs == [] then pending
    else if rs[0].last then Pending([], rs[1..])
    else Pending(pending + [rs[0].payload], rs[1..])
  }

  /** A legal stream: non-empty fragments within the limit, and messages that are at least
      as long as a transaction id. */
  ghost predicate Legal(pending: seq<seq<byte>>, rs: seq<Fragment>) {
    && (forall i | 0 <= i < |rs| :: Sendable(rs[i]))
    && (forall i | 0 <= i < |Messages(pending, rs)| :: |Messages(pending, rs)[i]| >= 4)
  }

  lemma {:induction false} MarkerRoundTrip(r: Fragment)
    requires |r.payload| < TWO31
    ensures var m := FromBe32(Encode(r)[..4]);
            (m < TWO31 <==> !r.last) && PduSize(Encode(r)[..4]) == 4 + |r.payload|
  {
    Be32RoundTrip((if r.last then TWO31 else 0) + |r.payload|);
    assert Encode(r)[..4] == Be32((if r.last then TWO31 else 0) + |r.payload|);
  }

  /** The receiver is inside record rs[0], with |buf| of its bytes read. */
  ghost predicate Inside(r: Receiver, rs: seq<Fragment>) {
    && !r.closed && Legal(r.fragments, rs)
    && (rs == [] ==> r.buf == [])
    && (rs != [] ==> |r.buf| < |Encode(rs[0])| && r.buf == Encode(rs[0])[..|r.buf|])
  }

  /** What is still to come of the stream. */
  ghost function Rest(r: Receiver, rs: seq<Fragment>): seq<byte>
    requires Inside(r, rs)
  {
    EncodeAll(rs)[|r.buf|..]
  }

  lemma {:induction false} InsideShape(r: Receiver, rs: seq<Fragment>)
    requires Inside(r, rs)
    ensures Shape(r) && (rs != [] ==> Wanted(r) <= |Encode(rs[0])| - |r.buf|)
    ensures rs != [] && |r.buf| >= 4 ==> 4 < PduSize(r.buf[..4]) == |Encode(rs[0])| <= LIMIT
  {
    if rs != [] {
      MarkerRoundTrip(rs[0]);
      if |r.buf| >= 4 {
        assert r.buf[..4] == Encode(rs[0])[..4];
      }
    }
  }

  lemma {:induction false} LegalTail(pending: seq<seq<byte>>, rs: seq<Fragment>)
    requires rs != [] && Legal(pending, rs)
    ensures Legal(if rs[0].last then [] else pending + [rs[0].payload], rs[1..])
    ensures rs[0].last ==> |Concat(pending) + rs[0].payload| >= 4
  {
    var ms := Messages(pending, rs);
    if rs[0].last {
      assert ms[0] == Concat(pending) + rs[0].payload;
      forall i | 0 <= i < |Messages([], rs[1..])| ensures |Messages([], rs[1..])[i]| >= 4 {
        assert ms[i + 1] == Messages([], rs[1..])[i];
      }
    }
  }

  lemma {:induction false} NextBytes(r: Receiver, rs: seq<Fragment>, data: seq<byte>)
    requires Inside(r, rs) && rs != [] && data <= Rest(r, rs) && |r.buf| + |data| <= |Encode(rs[0])|
    ensures r.buf + data == Encode(rs[0])[..|r.buf| + |data|]
    ensures Rest(r, rs)[|data|..] == EncodeAll(rs)[|r.buf| + |data|..]
    ensures |r.buf| + |data| == |Encode(rs[0])| ==> Rest(r, rs)[|data|..] == EncodeAll(rs[1..])
  {
    var enc, rest := Encode(rs[0]), EncodeAll(rs);
    assert rest == enc + EncodeAll(rs[1..]);
    assert rest[|r.buf|..][..|data|] == data;
    assert r.buf + data == rest[..|r.buf| + |data|];
  }

  lemma {:induction false} ProcessFollows(r: Receiver, rs: seq<Fragment>)
    requires rs != [] && !r.closed && Legal(r.fragments, rs)
    ensures var r' := Process(r, Encode(rs[0]));
            && Inside(r', rs[1..]) && r'.buf == []
            && r'.delivered + Messages(r'.fragments, rs[1..]) == r.delivered + Messages(r.fragments, rs)
            && Pending(r'.fragments, rs[1..]) == Pending(r.fragments, rs)
  {
    MarkerRoundTrip(rs[0]);
    LegalTail(r.fragments, rs);
    assert Encode(rs[0])[4..] == rs[0].payload;
  }

  /** One piece: the receiver stays inside the record or finishes it, and what it has
      delivered plus what the rest of the stream carries stays the same. */
  lemma {:induction false} ReceiveFollows(r: Receiver, rs: seq<Fragment>, data: seq<byte>) returns (rs': seq<Fragment>)
    requires Inside(r, rs) && rs != [] && Shape(r) && 0 < |data| <= Wanted(r)
    requires data <= Rest(r, rs)
    ensures var r' := Receive(r, data);
            && Inside(r', rs') && Rest(r', rs') == Rest(r, rs)[|data|..]
            && r'.delivered + Messages(r'.fragments, rs') == r.delivered + Messages(r.fragments, rs)
            && Pending(r'.fragments, rs') == Pending(r.fragments, rs)
  {
    InsideShape(r, rs);
    NextBytes(r, rs, data);
    MarkerRoundTrip(rs[0]);
    var buf := r.buf + data;
    if |buf| < |Encode(rs[0])| {
      rs' := rs;
      if |buf| > 4 {
        assert buf[..4] == Encode(rs[0])[..4];
      }
    } else {
      rs' := rs[1..];
      assert buf == Encode(rs[0]);
      ProcessFollows(r, rs);
    }
  }

  /** For every legal stream and every way of handing out a prefix of it, the receiver
      stays open and has delivered a prefix of the messages; once the whole stream has
      been handed out it has delivered exactly the messages, in order, byte for byte. */
  lemma {:induction false} AnySplitDelivers(r: Receiver, rs: seq<Fragment>, pieces: seq<seq<byte>>)
    requires Inside(r, rs) && Shape(r) && Receivable(r, pieces) && Concat(pieces) <= Rest(r, rs)
    ensures var r' := ReceiveAll(r, pieces);
            && !r'.closed
            && r'.delivered <= r.delivered + Messages(r.fragments, rs)
            && (Concat(pieces) == Rest(r, rs) ==>
                  && r'.delivered == r.delivered + Messages(r.fragments, rs)
                  && r'.fragments == Pending(r.fragments, rs) && r'.buf == [])
    decreases |pieces|
  {
    var rest := Rest(r, rs);
    if pieces == [] {
      if rs != [] {
        assert |EncodeAll(rs)| >= |Encode(rs[0])| > |r.buf|;
      }
    } else {
      var p := pieces[0];
      assert Concat(pieces)[..|p|] == p && Concat(pieces)[|p|..] == Concat(pieces[1..]);
      assert p <= rest;
      var rs' := ReceiveFollows(r, rs, p);
      assert rest[|p|..] == Rest(Receive(r, p), rs');
      assert Concat(pieces[1..]) <= rest[|p|..];
      AnySplitDelivers(Receive(r, p), rs', pieces[1..]);
    }
  }

  // ---------------------------------------------------------------- messages cut into fragments

  /** A message cut into pieces, one record each; the last one is marked. */
  function Fragments(cut: seq<seq<byte>>): (rs: seq<Fragment>)
    requires |cut| > 0
    ensures |rs| == |cut| && forall i | 0 <= i < |rs| :: rs[i] == Fragment(i == |rs| - 1, cut[i])
  {
    if |cut| == 1 then [Fragment(true, cut[0])] else [Fragment(false, cut[0])] + Fragments(cut[1..])
  }

  /** The records of a cut message carry the message, whatever came before and after. */
  lemma {:induction false} CutMessage(pending: seq<seq<byte>>, cut: seq<seq<byte>>, rest: seq<Fragment>)
    requires |cut| > 0
    ensures Messages(pending, Fragments(cut) + rest) == [Concat(pending + cut)] + Messages([], rest)
    ensures Pending(pending, Fragments(cut) + rest) == Pending([], rest)
    decreases |cut|
  {
    var rs := Fragments(cut) + rest;
    if |cut| == 1 {
      assert rs[1..] == rest;
      ConcatAppend(pending, cut);
      assert Concat(cut) == cut[0] + Concat(cut[1..]) == cut[0];
    } else {
      assert rs[1..] == Fragments(cut[1..]) + rest;
      CutMessage(pending + [cut[0]], cut[1..], rest);
      assert pending + [cut[0]] + cut[1..] == pending + cut;
    }
  }

  /** A cut of a message: pieces that are not empty and fit in a record. */
  ghost predicate CutOf(cut: seq<seq<byte>>, message: seq<byte>) {
    |cut| > 0 && Concat(cut) == message && forall i | 0 <= i < |cut| :: 0 < |cut[i]| <= LIMIT - 4
  }

  ghost predicate CutsOf(cuts: seq<seq<seq<byte>>>, messages: seq<seq<byte>>) {
    |cuts| == |messages| && forall i | 0 <= i < |cuts| :: CutOf(cuts[i], messages[i]) && |messages[i]| >= 4
  }

  ghost function Stream(cuts: seq<seq<seq<byte>>>): seq<Fragment>
    requires forall i | 0 <= i < |cuts| :: |cuts[i]| > 0
  {
    if |cuts| == 0 then [] else Fragments(cuts[0]) + Stream(cuts[1..])
  }

  lemma {:induction false} StreamSendable(cuts: seq<seq<seq<byte>>>, messages: seq<seq<byte>>)
    requires CutsOf(cuts, messages)
    ensures forall i | 0 <= i < |Stream(cuts)| :: Sendable(Stream(cuts)[i])
    decreases |cuts|
  {
    if |cuts| > 0 {
      StreamSendable(cuts[1..], messages[1..]);
      assert CutOf(cuts[0], messages[0]);
      var first, rest := Fragments(cuts[0]), Stream(cuts[1..]);
      forall i | 0 <= i < |first + rest| ensures Sendable((first + rest)[i]) {
        if i < |first| {
          assert (first + rest)[i].payload == cuts[0][i];
        } else {
          assert (first + rest)[i] == rest[i - |first|];
        }
      }
    }
  }

  ghost function StreamBytes(cuts: seq<seq<seq<byte>>>, messages: seq<seq<byte>>): seq<byte>
    requires CutsOf(cuts, messages)
  {
    StreamSendable(cuts, messages);
    EncodeAll(Stream(cuts))
  }

  lemma {:induction false} CutMessages(cuts: seq<seq<seq<byte>>>, messages: seq<seq<byte>>)
    requires CutsOf(cuts, messages)
    ensures Messages([], Stream(cuts)) == messages && Pending([], Stream(cuts)) == []
    decreases |cuts|
  {
    if |cuts| > 0 {
      CutMessages(cuts[1..], messages[1..]);
      CutMessage([], cuts[0], Stream(cuts[1..]));
      assert [] + cuts[0] == cuts[0] && CutOf(cuts[0], messages[0]);
      assert [messages[0]] + messages[1..] == messages;
    }
  }

  /** However messages are cut into fragments, and however the bytes are then handed out, the
      receiver has delivered a prefix of the messages; at the end of the stream all of them,
      each as one piece. */
  lemma {:induction false} AnyCutDelivers(messages: seq<seq<byte>>, cuts: seq<seq<seq<byte>>>, pieces: seq<seq<byte>>)
    requires CutsOf(cuts, messages) && Receivable(START, pieces) && Concat(pieces) <= StreamBytes(cuts, messages)
    ensures var r := ReceiveAll(START, pieces);
            && !r.closed && r.delivered <= messages
            && (Concat(pieces) == StreamBytes(cuts, messages) ==>
                  r.delivered == messages && r.fragments == [] && r.buf == [])
  {
    CutMessages(cuts, messages);
    StreamSendable(cuts, messages);
    var rs := Stream(cuts);
    assert Inside(START, rs) by {
      assert Legal([], rs);
    }
    assert Rest(START, rs) == EncodeAll(rs);
    assert [] + messages == messages;
    AnySplitDelivers(START, rs, pieces);
  }

  // ---------------------------------------------------------------- the sender

  /** The steps a connection sees when nothing times out and it is not replaced. */
  predicate Quiet(ev: E.Event) {
    ev.Issue? || ev.AllocFails? || ev.Send? || ev.Reply? || ev.Connected? || ev.SetTimeout? ||
    ev.SetAutoReconnect?
  }

  function Body(ev: E.Event): seq<seq<byte>> {
    if ev.Issue? then [ev.body] else []
  }

  function Bodies(events: seq<E.Event>): seq<seq<byte>> {
    if events == [] then [] else Body(events[0]) + Bodies(events[1..])
  }

  function Records(bodies: seq<seq<byte>>): (r: seq<seq<byte>>)
    ensures |r| == |bodies| && forall i | 0 <= i < |r| :: r[i] == E.Record(bodies[i])
  {
    seq(|bodies|, i requires 0 <= i < |bodies| => E.Record(bodies[i]))
  }

  function Datas(s: seq<E.Pdu>): (r: seq<seq<byte>>)
    ensures |r| == |s| && forall i | 0 <= i < |r| :: r[i] == s[i].data
  {
    seq(|s|, i requires 0 <= i < |s| => s[i].data)
  }

  /** The bytes of the head already written. */
  function Begun(out: seq<E.Pdu>): seq<byte>
    requires out != [] ==> out[0].written <= |out[0].data|
  {
    if out == [] then [] else out[0].data[..out[0].written]
  }

  /** The wire carries the sent records and the beginning of the head; sent and queued
      records together are the records of everything issued. */
  ghost predicate OnWire(e: E.Engine, bodies: seq<seq<byte>>) {
    && E.Invariant(e)
    && e.sent + Datas(e.out) == Records(bodies)
    && e.wire == Concat(e.sent) + Begun(e.out)
  }

  lemma {:induction false} IssueOnWire(e: E.Engine, bodies: seq<seq<byte>>, body: seq<byte>, now: nat)
    requires OnWire(e, bodies)
    ensures OnWire(E.DoIssue(e, body, now), bodies + [body])
  {
    E.IssueInvariant(e, body, now);
    var e' := E.DoIssue(e, body, now);
    assert Datas(e'.out) == Datas(e.out) + [E.Record(body)];
    assert e'.sent + Datas(e'.out) == Records(bodies) + [E.Record(body)] == Records(bodies + [body]);
  }

  lemma {:induction false} WriteOnWire(e: E.Engine, bodies: seq<seq<byte>>, count: nat)
    requires e.out != [] && e.out[0].written <= |e.out[0].data|
    requires e.sent + Datas(e.out) == Records(bodies) && e.wire == Concat(e.sent) + Begun(e.out)
    ensures var e' := E.WriteHead(e, count);
            e'.sent + Datas(e'.out) == Records(bodies) && e'.wire == Concat(e'.sent) + Begun(e'.out)
  {
    var e' := E.WriteHead(e, count);
    assert Datas(e'.out) == Datas(e.out);
    var p, q := e.out[0], e'.out[0];
    assert p.data[..p.written] + p.data[p.written..q.written] == q.data[..q.written];
  }

  lemma {:induction false} MoveRecord(sent: seq<seq<byte>>, out: seq<E.Pdu>)
    requires out != []
    ensures sent + [out[0].data] + Datas(out[1..]) == sent + Datas(out)
    ensures Concat(sent + [out[0].data]) == Concat(sent) + out[0].data
  {
    var d := out[0].data;
    assert [d] + Datas(out[1..]) == Datas(out);
    Assoc(sent, [d], Datas(out[1..]));
    ConcatAppend(sent, [d]);
    assert Concat([d]) == d by {
      assert d + [] == d;
    }
  }

  lemma {:induction false} MoveOnWire(e: E.Engine, bodies: seq<seq<byte>>)
    requires e.out != [] && |e.wait| == E.HASHES && e.out[0].written == |e.out[0].data|
    requires E.Fresh(e.out[1..])
    requires e.sent + Datas(e.out) == Records(bodies) && e.wire == Concat(e.sent) + Begun(e.out)
    ensures var e' := E.MoveHead(e);
            e'.sent + Datas(e'.out) == Records(bodies) && e'.wire == Concat(e'.sent) + Begun(e'.out)
  {
    MoveRecord(e.sent, e.out);
    assert Begun(e.out) == e.out[0].data;
    assert Begun(e.out[1..]) == [];
  }

  lemma {:induction false} SendOnWire(e: E.Engine, bodies: seq<seq<byte>>, count: nat)
    requires OnWire(e, bodies)
    ensures OnWire(E.DoSend(e, count), bodies)
  {
    E.SendInvariant(e, count);
    if e.out != [] {
      WriteOnWire(e, bodies, count);
      var e1 := E.WriteHead(e, count);
      if e1.out[0].written == |e1.out[0].data| {
        assert e1.out[1..] == e.out[1..];
        MoveOnWire(e1, bodies);
      }
    }
  }

  lemma {:induction false} StepOnWire(e: E.Engine, bodies: seq<seq<byte>>, ev: E.Event)
    requires OnWire(e, bodies) && Quiet(ev)
    ensures OnWire(E.Step(e, ev), bodies + Body(ev))
  {
    E.StepInvariant(e, ev);
    assert bodies + [] == bodies;
    match ev
    case Issue(body, now) => IssueOnWire(e, bodies, body, now);
    case Send(count) => SendOnWire(e, bodies, count);
    case Reply(_, _) =>
    case AllocFails =>
    case Connected =>
    case SetTimeout(_) =>
    case SetAutoReconnect(_) =>
  }

  lemma {:induction false} RunOnWire(e: E.Engine, bodies: seq<seq<byte>>, events: seq<E.Event>)
    requires OnWire(e, bodies) && forall i | 0 <= i < |events| :: Quiet(events[i])
    ensures OnWire(E.Run(e, events), bodies + Bodies(events))
    decreases |events|
  {
    if events == [] {
      assert bodies + [] == bodies;
    } else {
      StepOnWire(e, bodies, events[0]);
      RunOnWire(E.Step(e, events[0]), bodies + Body(events[0]), events[1..]);
      Assoc(bodies, Body(events[0]), Bodies(events[1..]));
    }
  }

  // ---------------------------------------------------------------- end to end

  /** Each message in one piece, as rpc_queue_pdu sends it. */
  function Uncut(bodies: seq<seq<byte>>): (cuts: seq<seq<seq<byte>>>)
    ensures |cuts| == |bodies| && forall i | 0 <= i < |cuts| :: cuts[i] == [bodies[i]]
  {
    if bodies == [] then [] else [[bodies[0]]] + Uncut(bodies[1..])
  }

  /** Messages that are at least a transaction id long and within the limit. */
  predicate InLimits(bodies: seq<seq<byte>>) {
    forall i | 0 <= i < |bodies| :: 4 <= |bodies[i]| <= LIMIT - 4
  }

  lemma {:induction false} UncutIsCut(bodies: seq<seq<byte>>)
    requires InLimits(bodies)
    ensures CutsOf(Uncut(bodies), bodies)
  {
    forall i | 0 <= i < |bodies| ensures CutOf(Uncut(bodies)[i], bodies[i]) {
      assert Concat([bodies[i]]) == bodies[i] + Concat([]) == bodies[i];
    }
  }

  lemma {:induction false} RecordIsEncoded(body: seq<byte>)
    requires |body| < TWO31
    ensures Encode(Fragment(true, body)) == E.Record(body)
  {
  }

  lemma {:induction false} UncutStream(bodies: seq<seq<byte>>)
    requires InLimits(bodies) && CutsOf(Uncut(bodies), bodies)
    ensures StreamBytes(Uncut(bodies), bodies) == Concat(Records(bodies))
    decreases |bodies|
  {
    StreamSendable(Uncut(bodies), bodies);
    if bodies != [] {
      var rest := bodies[1..];
      UncutIsCut(rest);
      UncutStream(rest);
      assert Uncut(bodies)[1..] == Uncut(rest) && Records(bodies)[1..] == Records(rest);
      RecordIsEncoded(bodies[0]);
      assert Stream(Uncut(bodies)) == [Fragment(true, bodies[0])] + Stream(Uncut(rest));
    }
  }

  lemma {:induction false} PrefixConcat(a: seq<seq<byte>>, b: seq<seq<byte>>, tail: seq<byte>)
    requires b != [] && tail <= b[0]
    ensures Concat(a) + tail <= Concat(a + b)
  {
    ConcatAppend(a, b);
    assert Concat(b) == b[0] + Concat(b[1..]);
    assert tail <= Concat(b);
    assert Concat(a) + Concat(b)[..|tail|] == (Concat(a) + Concat(b))[..|Concat(a)| + |tail|];
  }

  lemma {:induction false} WireIsPrefix(e: E.Engine, bodies: seq<seq<byte>>)
    requires OnWire(e, bodies)
    ensures e.wire <= Concat(Records(bodies))
    ensures e.out == [] ==> e.wire == Concat(Records(bodies))
  {
    if e.out == [] {
      assert e.sent + Datas(e.out) == e.sent;
      assert Concat(e.sent) + [] == Concat(e.sent);
    } else {
      PrefixConcat(e.sent, Datas(e.out), Begun(e.out));
    }
  }

  /** When a part of what is on the wire has been handed out, the messages are delivered in
      order, and all of them when that is everything and nothing is queued. */
  predicate Arrives(e: E.Engine, bodies: seq<seq<byte>>, pieces: seq<seq<byte>>)
    requires Receivable(START, pieces)
  {
    var r := ReceiveAll(START, pieces);
    Concat(pieces) <= e.wire ==>
      && !r.closed && r.delivered <= bodies
      && (e.out == [] && Concat(pieces) == e.wire ==> r.delivered == bodies)
  }

  lemma {:induction false} WireIsReceived(e: E.Engine, bodies: seq<seq<byte>>, pieces: seq<seq<byte>>)
    requires OnWire(e, bodies) && InLimits(bodies) && Receivable(START, pieces)
    ensures Arrives(e, bodies, pieces)
  {
    UncutIsCut(bodies);
    UncutStream(bodies);
    WireIsPrefix(e, bodies);
    if Concat(pieces) <= e.wire {
      AnyCutDelivers(bodies, Uncut(bodies), pieces);
    }
  }

  lemma {:induction false} SentIsReceived(e: E.Engine, bodies: seq<seq<byte>>, events: seq<E.Event>, pieces: seq<seq<byte>>)
    requires OnWire(e, bodies) && InLimits(bodies) && InLimits(Bodies(events)) && Receivable(START, pieces)
    requires forall i | 0 <= i < |events| :: Quiet(events[i])
    ensures Arrives(E.Run(e, events), bodies + Bodies(events), pieces)
  {
    RunOnWire(e, bodies, events);
    WireIsReceived(E.Run(e, events), bodies + Bodies(events), pieces);
  }

  /** End to end: whatever calls are issued (each at least a transaction id long and within
      the limit), however the sends are split, and however the bytes sent so far are handed
      out, the peer has the messages issued so far, in order; it has all of them once the
      out queue is empty and every byte has been handed out. */
  lemma {:induction false} EndToEnd(base: uint32, timeout: int, autoReconnect: int, events: seq<E.Event>,
                                    pieces: seq<seq<byte>>)
    requires InLimits(Bodies(events)) && Receivable(START, pieces) && forall i | 0 <= i < |events| :: Quiet(events[i])
    ensures Arrives(E.Run(E.Init(base, timeout, autoReconnect), events), Bodies(events), pieces)
  {
    var e0 := E.Init(base, timeout, autoReconnect);
    assert OnWire(e0, []);
    SentIsReceived(e0, [], events, pieces);
    assert [] + Bodies(events) == Bodies(events);
  }
}
