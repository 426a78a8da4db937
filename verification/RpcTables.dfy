/** The table of 1024 waiting chains: operations on one chain, and the loops that visit
    them all, each proved against the sequences the chains hold. */
module RpcTables {
  import opened Bytes
  import opened RpcLists
  import E = RpcEngine
  import D = RpcDeadlines

  // ---------------------------------------------------------------- the table of chains

  /** Queue h of the table holds `cs[h]`, in nodes `ats[h]` of its own. */
  ghost predicate Table(at: set<Pdu>, w: seq<Queue>, cs: seq<seq<Pdu>>, ats: seq<set<Pdu>>)
    reads at`next
  {
    && |w| == |cs| == |ats| == E.HASHES
    && (forall h | 0 <= h < E.HASHES :: ats[h] <= at && Linked(ats[h], w[h], cs[h]))
    && (forall g, h | 0 <= g < h < E.HASHES :: ats[g] !! ats[h])
  }

  ghost predicate TableShows(at: set<Pdu>, cs: seq<seq<Pdu>>, vs: seq<seq<E.Pdu>>)
    reads at`written
  {
    |cs| == |vs| && forall h | 0 <= h < |cs| :: Shows(at, cs[h], vs[h])
  }

  /** Append a call to chain h. */
  method AppendToChain(ghost at: set<Pdu>, w: seq<Queue>, ghost cs: seq<seq<Pdu>>, ghost ats: seq<set<Pdu>>,
                       h: nat, pdu: Pdu) returns (w': seq<Queue>)
    requires Table(at, w, cs, ats) && h < E.HASHES && pdu !in at
    modifies at`next, pdu`next
    ensures Table(at + {pdu}, w', cs[h := cs[h] + [pdu]], ats[h := ats[h] + {pdu}])
  {
    assert Linked(ats[h], w[h], cs[h]);
    var q := Enqueue(ats[h], w[h], cs[h], pdu);
    w' := w[h := q];
  }

  /** Remove the first call with this transaction id from chain h. */
  method RemoveFromChain(ghost at: set<Pdu>, w: seq<Queue>, ghost cs: seq<seq<Pdu>>, ghost ats: seq<set<Pdu>>,
                         h: nat, xid: uint32) returns (w': seq<Queue>, found: Pdu?, ghost k: nat)
    requires Table(at, w, cs, ats) && h < E.HASHES
    modifies at`next
    ensures k <= |cs[h]| && forall j | 0 <= j < k :: cs[h][j].xid != xid
    ensures k == |cs[h]| ==> found == null && w' == w && Table(at, w, cs, ats)
    ensures k < |cs[h]| ==> found == cs[h][k] && found.xid == xid
                            && Table(at, w', cs[h := Without(cs[h], k)], ats)
  {
    assert Linked(ats[h], w[h], cs[h]);
    var q;
    q, found, k := UnlinkXid(ats[h], w[h], cs[h], xid);
    w' := w[h := q];
  }

  // ---------------------------------------------------------------- whole-table loops

  ghost function TimedOutAll(cs: seq<seq<Pdu>>, now: nat): seq<E.Done> {
    if cs == [] then [] else TimedOut(cs[0], now) + TimedOutAll(cs[1..], now)
  }

  ghost function PurgedAll(cs: seq<seq<Pdu>>, status: E.Status): seq<E.Done> {
    if cs == [] then [] else Purged(cs[0], status) + PurgedAll(cs[1..], status)
  }

  /** The tail outlives the scan, or nothing does. */
  ghost predicate SafeNodes(s: seq<Pdu>, now: nat) {
    s == [] || !Overdue(s[|s| - 1], now) || Kept(s, now) == []
  }

  lemma {:induction false} ScanTail(s: seq<Pdu>, now: nat)
    requires SafeNodes(s, now)
    ensures Last(Kept(s, now)) == if Kept(s, now) == [] then null else Last(s)
  {
    if s != [] && !Overdue(s[|s| - 1], now) {
      KeptLast(s, now);
    }
  }

  method ScanChain(ghost at: set<Pdu>, w: seq<Queue>, ghost cs: seq<seq<Pdu>>, ghost ats: seq<set<Pdu>>,
                   h: nat, now: nat) returns (w': seq<Queue>, done: seq<E.Done>)
    requires Table(at, w, cs, ats) && h < E.HASHES && SafeNodes(cs[h], now)
    modifies at`next
    ensures Table(at, w', cs[h := Kept(cs[h], now)], ats)
    ensures done == TimedOut(cs[h], now)
  {
    assert Linked(ats[h], w[h], cs[h]);
    var q;
    q, done := ScanQueue(ats[h], w[h], cs[h], now);
    ScanTail(cs[h], now);
    w' := w[h := q];
  }

  /** How far the scan is: the chains before h hold what it keeps. */
  ghost predicate Scanned(cs: seq<seq<Pdu>>, cs': seq<seq<Pdu>>, h: nat, done: seq<E.Done>, now: nat) {
    && h <= |cs| == |cs'|
    && (forall g | 0 <= g < h :: cs'[g] == Kept(cs[g], now))
    && (forall g | h <= g < |cs| :: cs'[g] == cs[g])
    && TimedOutAll(cs, now) == done + TimedOutAll(cs[h..], now)
  }

  lemma {:induction false} ScanNext(cs: seq<seq<Pdu>>, cs': seq<seq<Pdu>>, h: nat, done: seq<E.Done>, now: nat)
    requires Scanned(cs, cs', h, done, now) && h < |cs|
    ensures Scanned(cs, cs'[h := Kept(cs[h], now)], h + 1, done + TimedOut(cs[h], now), now)
  {
    assert cs[h..][1..] == cs[h + 1..];
    var t, rest := TimedOut(cs[h], now), TimedOutAll(cs[h + 1..], now);
    assert done + (t + rest) == done + t + rest;
  }

  /** The chain loop of rpc_timeout_scan. */
  method ScanChains(ghost at: set<Pdu>, w: seq<Queue>, ghost cs: seq<seq<Pdu>>, ghost ats: seq<set<Pdu>>, now: nat)
      returns (w': seq<Queue>, done: seq<E.Done>, ghost cs': seq<seq<Pdu>>)
    requires Table(at, w, cs, ats) && forall h | 0 <= h < E.HASHES :: SafeNodes(cs[h], now)
    modifies at`next
    ensures Table(at, w', cs', ats) && forall h | 0 <= h < E.HASHES :: cs'[h] == Kept(cs[h], now)
    ensures done == TimedOutAll(cs, now)
  {
    w', done, cs' := w, [], cs;
    var h := 0;
    while h < E.HASHES
      invariant 0 <= h <= E.HASHES && Table(at, w', cs', ats)
      invariant Scanned(cs, cs', h, done, now)
    {
      var d;
      w', d := ScanChain(at, w', cs', ats, h, now);
      ScanNext(cs, cs', h, done, now);
      done, cs' := done + d, cs'[h := Kept(cs[h], now)];
      h := h + 1;
    }
  }

  method PurgeChain(ghost at: set<Pdu>, w: seq<Queue>, ghost cs: seq<seq<Pdu>>, ghost ats: seq<set<Pdu>>,
                    h: nat, status: E.Status) returns (w': seq<Queue>, done: seq<E.Done>)
    requires Table(at, w, cs, ats) && h < E.HASHES
    modifies at`next
    ensures Table(at, w', cs[h := []], ats) && w' == w[h := EMPTY]
    ensures done == Purged(cs[h], status)
  {
    assert Linked(ats[h], w[h], cs[h]);
    var waitqueue := w[h];
    w' := w[h := EMPTY];
    done := PurgeQueue(ats[h], waitqueue, cs[h], status);
  }

  /** How far the purge is: the chains before h are empty. */
  ghost predicate PurgedTo(w: seq<Queue>, cs: seq<seq<Pdu>>, cs': seq<seq<Pdu>>, h: nat, done: seq<E.Done>,
                           status: E.Status) {
    && h <= |cs| == |cs'| == |w|
    && (forall g | 0 <= g < h :: w[g] == EMPTY)
    && (forall g | h <= g < |cs| :: cs'[g] == cs[g])
    && PurgedAll(cs, status) == done + PurgedAll(cs[h..], status)
  }

  lemma {:induction false} PurgeNext(w: seq<Queue>, cs: seq<seq<Pdu>>, cs': seq<seq<Pdu>>, h: nat, done: seq<E.Done>,
                                     status: E.Status)
    requires PurgedTo(w, cs, cs', h, done, status) && h < |cs|
    ensures PurgedTo(w[h := EMPTY], cs, cs'[h := []], h + 1, done + Purged(cs[h], status), status)
  {
    assert cs[h..][1..] == cs[h + 1..];
    var p, rest := Purged(cs[h], status), PurgedAll(cs[h + 1..], status);
    assert done + (p + rest) == done + p + rest;
  }

  /** The chain loop of rpc_purge_all_pdus. */
  method PurgeChains(ghost at: set<Pdu>, w: seq<Queue>, ghost cs: seq<seq<Pdu>>, ghost ats: seq<set<Pdu>>, status: E.Status)
      returns (w': seq<Queue>, done: seq<E.Done>)
    requires Table(at, w, cs, ats)
    modifies at`next
    ensures |w'| == E.HASHES && forall h | 0 <= h < E.HASHES :: w'[h] == EMPTY
    ensures done == PurgedAll(cs, status)
  {
    w', done := w, [];
    ghost var cs' := cs;
    var h := 0;
    while h < E.HASHES
      invariant 0 <= h <= E.HASHES && Table(at, w', cs', ats)
      invariant PurgedTo(w', cs, cs', h, done, status)
    {
      var d;
      PurgeNext(w', cs, cs', h, done, status);
      w', d := PurgeChain(at, w', cs', ats, h, status);
      done, cs' := done + d, cs'[h := []];
      h := h + 1;
    }
  }

  ghost function PushNodes(c: seq<Pdu>, out: seq<Pdu>): seq<Pdu> {
    if c == [] then out else PushNodes(c[1..], [c[0]] + out)
  }

  ghost function PushAll(cs: seq<seq<Pdu>>, out: seq<Pdu>): seq<Pdu> {
    if cs == [] then out else PushAll(cs[1..], PushNodes(cs[0], out))
  }

  lemma {:induction false} LinkedInMore(at: set<Pdu>, more: set<Pdu>, q: Queue, s: seq<Pdu>)
    requires Linked(at, q, s) && at <= more
    ensures Linked(more, q, s)
  {
  }

  /** Move one chain to the front of the out queue, each call to be sent again. */
  method RequeueChain(ghost outAt: set<Pdu>, outq: Queue, ghost out: seq<Pdu>,
                      ghost at: set<Pdu>, q: Queue, ghost c: seq<Pdu>)
      returns (r: Queue)
    requires Linked(outAt, outq, out) && Linked(at, q, c) && outAt !! at
    modifies at`next, at`written
    ensures Linked(outAt + at, r, PushNodes(c, out))
    ensures forall p | p in at :: p.written == if p in c then 0 else old(p.written)
  {
    r := outq;
    var pdu := q.head;
    ghost var rest, now: seq<Pdu>, moved: set<Pdu> := c, out, {};
    while pdu != null
      invariant Chained(at, pdu, rest) && moved <= at
      invariant forall j | 0 <= j < |rest| :: rest[j] !in moved
      invariant Linked(outAt + moved, r, now)
      invariant PushNodes(c, out) == PushNodes(rest, now)
      invariant forall p | p in at :: p in c <==> p in moved || p in rest
      invariant forall p | p in at :: p.written == if p in moved then 0 else old(p.written)
      decreases |rest|
    {
      NextOf(at, pdu, rest, 0);
      var next := pdu.next;
      r := ReturnToQueue(outAt + moved, r, now, pdu);
      pdu.written := 0;
      assert outAt + moved + {pdu} == outAt + (moved + {pdu});
      now, moved, rest := [pdu] + now, moved + {pdu}, rest[1..];
      pdu := next;
    }
    LinkedInMore(outAt + moved, outAt + at, r, now);
  }

  /** The loop of rpc_reconnect_requeue: every chain in turn, then its queue is reset. */
  method RequeueChains(ghost outAt: set<Pdu>, outq: Queue, ghost out: seq<Pdu>,
                       ghost at: set<Pdu>, w: seq<Queue>, ghost cs: seq<seq<Pdu>>, ghost ats: seq<set<Pdu>>)
      returns (r: Queue, w': seq<Queue>)
    requires Linked(outAt, outq, out) && Table(at, w, cs, ats) && outAt !! at
    modifies at`next, at`written
    ensures Linked(outAt + at, r, PushAll(cs, out))
    ensures forall g, i | 0 <= g < E.HASHES && 0 <= i < |cs[g]| :: cs[g][i].written == 0
    ensures |w'| == E.HASHES && forall h | 0 <= h < E.HASHES :: w'[h] == EMPTY
  {
    r, w' := outq, w;
    ghost var now: seq<Pdu>, taken: set<Pdu> := out, {};
    var h := 0;
    assert cs[0..] == cs;
    while h < E.HASHES
      invariant 0 <= h <= E.HASHES && taken <= at
      invariant Linked(outAt + taken, r, now)
      invariant forall g | h <= g < E.HASHES :: taken !! ats[g] && Linked(ats[g], w[g], cs[g])
      invariant PushAll(cs, out) == PushAll(cs[h..], now)
      invariant forall g, i | 0 <= g < h && 0 <= i < |cs[g]| :: cs[g][i] in taken && cs[g][i].written == 0
      invariant |w'| == E.HASHES && forall g | 0 <= g < h :: w'[g] == EMPTY
    {
      assert Linked(ats[h], w[h], cs[h]);
      r := RequeueChain(outAt + taken, r, now, ats[h], w[h], cs[h]);
      w' := w'[h := EMPTY];
      assert cs[h..][1..] == cs[h + 1..];
      assert outAt + taken + ats[h] == outAt + (taken + ats[h]);
      now, taken := PushNodes(cs[h], now), taken + ats[h];
      h := h + 1;
    }
    LinkedInMore(outAt + taken, outAt + at, r, now);
  }

  // ---------------------------------------------------------------- values of the lists

  lemma {:induction false} PushNodesShows(at: set<Pdu>, c: seq<Pdu>, v: seq<E.Pdu>, out: seq<Pdu>, vo: seq<E.Pdu>)
    requires Within(at, c) && Shows(at, out, vo)
    requires |v| == |c| && forall i | 0 <= i < |c| :: v[i].(written := 0) == c[i].Value()
    ensures Shows(at, PushNodes(c, out), E.PushFront(v, vo))
    decreases |c|
  {
    if c != [] {
      PushNodesShows(at, c[1..], v[1..], [c[0]] + out, [v[0].(written := 0)] + vo);
    }
  }

  lemma {:induction false} PushAllShows(at: set<Pdu>, cs: seq<seq<Pdu>>, vs: seq<seq<E.Pdu>>, out: seq<Pdu>, vo: seq<E.Pdu>)
    requires |cs| == |vs| && Shows(at, out, vo)
    requires forall h | 0 <= h < |cs| :: Within(at, cs[h]) && |cs[h]| == |vs[h]|
    requires forall h, i | 0 <= h < |cs| && 0 <= i < |cs[h]| :: vs[h][i].(written := 0) == cs[h][i].Value()
    ensures Shows(at, PushAll(cs, out), E.PushChains(vs, vo))
    decreases |cs|
  {
    if cs != [] {
      PushNodesShows(at, cs[0], vs[0], out, vo);
      PushAllShows(at, cs[1..], vs[1..], PushNodes(cs[0], out), E.PushFront(vs[0], vo));
    }
  }

  lemma {:induction false} TimedOutAllShows(at: set<Pdu>, cs: seq<seq<Pdu>>, vs: seq<seq<E.Pdu>>, now: nat)
    requires TableShows(at, cs, vs)
    ensures TimedOutAll(cs, now) == E.ExpireChainsLog(vs, now)
    ensures forall h | 0 <= h < |cs| :: Shows(at, Kept(cs[h], now), E.UnexpiredChains(vs, now)[h])
  {
    if cs != [] {
      TimedOutAllShows(at, cs[1..], vs[1..], now);
    }
    forall h | 0 <= h < |cs|
      ensures Shows(at, Kept(cs[h], now), E.UnexpiredChains(vs, now)[h])
      ensures TimedOut(cs[h], now) == E.ExpireLog(vs[h], now)
    {
      KeptShows(at, cs[h], vs[h], now);
    }
  }

  lemma {:induction false} PurgedAllShows(at: set<Pdu>, cs: seq<seq<Pdu>>, vs: seq<seq<E.Pdu>>, status: E.Status)
    requires TableShows(at, cs, vs)
    ensures PurgedAll(cs, status) == E.PurgeChainsLog(vs, status)
  {
    if cs != [] {
      PurgedShows(at, cs[0], vs[0], status);
      PurgedAllShows(at, cs[1..], vs[1..], status);
    }
  }

  lemma {:induction false} KeptTableShows(at: set<Pdu>, cs: seq<seq<Pdu>>, vs: seq<seq<E.Pdu>>, now: nat,
                                          cs': seq<seq<Pdu>>)
    requires TableShows(at, cs, vs) && |cs'| == |cs| && forall h | 0 <= h < |cs| :: cs'[h] == Kept(cs[h], now)
    ensures TableShows(at, cs', E.UnexpiredChains(vs, now))
  {
    TimedOutAllShows(at, cs, vs, now);
  }

  lemma {:induction false} NoTable(w: seq<Queue>)
    requires |w| == E.HASHES && forall h | 0 <= h < E.HASHES :: w[h] == EMPTY
    ensures Table({}, w, seq(E.HASHES, _ => []), seq(E.HASHES, _ => {}))
    ensures TableShows({}, seq(E.HASHES, _ => []), E.NoChains())
  {
  }

  lemma {:induction false} SafeShows(at: set<Pdu>, s: seq<Pdu>, v: seq<E.Pdu>, now: nat)
    requires Shows(at, s, v)
    ensures SafeNodes(s, now) <==> D.SafeToScan(v, now)
  {
    KeptShows(at, s, v, now);
  }

  /** The requeue loop, with the values it leaves. */
  method RequeueAll(ghost outAt: set<Pdu>, outq: Queue, ghost out: seq<Pdu>, ghost vo: seq<E.Pdu>,
                    ghost at: set<Pdu>, w: seq<Queue>, ghost cs: seq<seq<Pdu>>, ghost ats: seq<set<Pdu>>,
                    ghost vs: seq<seq<E.Pdu>>)
      returns (r: Queue, w': seq<Queue>)
    requires Linked(outAt, outq, out) && Shows(outAt, out, vo) && outAt !! at
    requires Table(at, w, cs, ats) && TableShows(at, cs, vs)
    modifies at`next, at`written
    ensures Linked(outAt + at, r, PushAll(cs, out)) && Shows(outAt + at, PushAll(cs, out), E.PushChains(vs, vo))
    ensures |w'| == E.HASHES && forall h | 0 <= h < E.HASHES :: w'[h] == EMPTY
  {
    forall h, i | 0 <= h < |cs| && 0 <= i < |cs[h]|
      ensures |vs[h]| == |cs[h]| && cs[h][i] in at && vs[h][i] == cs[h][i].Value()
    {
      assert Shows(at, cs[h], vs[h]);
    }
    r, w' := RequeueChains(outAt, outq, out, at, w, cs, ats);
    forall h | 0 <= h < |cs| ensures Within(outAt + at, cs[h]) && |cs[h]| == |vs[h]| {
      assert old(Shows(at, cs[h], vs[h]));
    }
    PushAllShows(outAt + at, cs, vs, out, vo);
  }
}
