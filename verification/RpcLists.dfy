/** The hand-linked call lists: a head and a tail pointer over `next` fields, as the
    library keeps them, each operation proved against the sequence of calls it holds.
    Every list lives in a set of nodes of its own, `at`, which is also its frame. */
module RpcLists {
  import opened Bytes
  import E = RpcEngine
  import D = RpcDeadlines

  /** A call; its deadline is fixed when it is queued, before any list holds it. */
  class Pdu {
    const id: nat
    const xid: uint32
    const data: seq<byte>
    const timeout: nat
    var next: Pdu?
    var written: nat

    constructor (id: nat, xid: uint32, data: seq<byte>, timeout: nat)
      ensures this.id == id && this.xid == xid && this.data == data && this.timeout == timeout
      ensures next == null && written == 0
    {
      this.id, this.xid, this.data, this.timeout := id, xid, data, timeout;
      next, written := null, 0;
    }

    ghost function Value(): E.Pdu
      reads this`written
    {
      E.Pdu(id, xid, data, written, timeout)
    }
  }

  datatype Queue = Queue(head: Pdu?, tail: Pdu?)

  const EMPTY := Queue(null, null)

  ghost predicate Within(at: set<Pdu>, s: seq<Pdu>) {
    forall i | 0 <= i < |s| :: s[i] in at
  }

  /** `v` are the values of the calls in `s`. */
  ghost predicate Shows(at: set<Pdu>, s: seq<Pdu>, v: seq<E.Pdu>)
    reads at`written
  {
    Within(at, s) && |v| == |s| && forall i | 0 <= i < |s| :: v[i] == s[i].Value()
  }

  /** `s` is the list that starts at `head`: each element links to the next, the last to
      none, and none appears twice. */
  ghost predicate Chained(at: set<Pdu>, head: Pdu?, s: seq<Pdu>)
    reads at`next
  {
    && Within(at, s)
    && head == (if s == [] then null else s[0])
    && (s != [] ==> s[|s| - 1].next == null)
    && (forall i, j | 0 <= i < j < |s| :: s[i] != s[j] && (j == i + 1 ==> s[i].next == s[j]))
  }

  ghost function Last(s: seq<Pdu>): Pdu? {
    if s == [] then null else s[|s| - 1]
  }

  ghost predicate Linked(at: set<Pdu>, q: Queue, s: seq<Pdu>)
    reads at`next
  {
    Chained(at, q.head, s) && q.tail == Last(s)
  }

  /** rpc_enqueue */
  method Enqueue(ghost at: set<Pdu>, q: Queue, ghost s: seq<Pdu>, pdu: Pdu) returns (r: Queue)
    requires Linked(at, q, s) && pdu !in at
    modifies pdu`next, at`next
    ensures Linked(at + {pdu}, r, s + [pdu])
  {
    if q.head == null {
      r := Queue(pdu, pdu);
    } else {
      q.tail.next := pdu;
      r := Queue(q.head, pdu);
    }
    pdu.next := null;
  }

  /** rpc_return_to_queue */
  method ReturnToQueue(ghost at: set<Pdu>, q: Queue, ghost s: seq<Pdu>, pdu: Pdu) returns (r: Queue)
    requires Linked(at, q, s) && pdu !in at
    modifies pdu`next
    ensures Linked(at + {pdu}, r, [pdu] + s)
  {
    pdu.next := q.head;
    r := Queue(pdu, if q.tail == null then pdu else q.tail);
  }

  lemma {:induction false} NextOf(at: set<Pdu>, head: Pdu?, s: seq<Pdu>, i: nat)
    requires Chained(at, head, s) && i < |s|
    ensures s[i].next == if i + 1 < |s| then s[i + 1] else null
  {
  }

  /** Unlink element k, given its predecessor (or none, when it is the head). */
  method Splice(ghost at: set<Pdu>, head: Pdu?, ghost s: seq<Pdu>, ghost k: nat, prev: Pdu?, item: Pdu) returns (r: Pdu?)
    requires Chained(at, head, s) && k < |s| && s[k] == item
    requires prev == if k == 0 then null else s[k - 1]
    modifies at`next
    ensures Chained(at, r, Without(s, k))
  {
    NextOf(at, head, s, k);
    r := if prev == null then item.next else head;
    if prev != null {
      prev.next := item.next;
    }
  }

  /** The chain walk of rpc_process_pdu: unlink the first call with this transaction id,
      element k; k is the length of the chain when there is none. */
  method UnlinkXid(ghost at: set<Pdu>, q: Queue, ghost s: seq<Pdu>, xid: uint32)
      returns (r: Queue, found: Pdu?, ghost k: nat)
    requires Linked(at, q, s)
    modifies at`next
    ensures k <= |s| && forall j | 0 <= j < k :: s[j].xid != xid
    ensures k == |s| ==> found == null && r == q && Linked(at, r, s)
    ensures k < |s| ==> found == s[k] && s[k].xid == xid && Linked(at, r, Without(s, k))
  {
    var prev: Pdu? := null;
    var pdu := q.head;
    k := 0;
    while pdu != null && pdu.xid != xid
      modifies {}
      invariant k <= |s|
      invariant pdu == if k < |s| then s[k] else null
      invariant prev == if k == 0 then null else s[k - 1]
      invariant forall j | 0 <= j < k :: s[j].xid != xid
      decreases |s| - k
    {
      NextOf(at, q.head, s, k);
      prev := pdu;
      pdu := pdu.next;
      k := k + 1;
    }
    r, found := q, pdu;
    if pdu != null {
      var head := Splice(at, q.head, s, k, prev, pdu);
      r := Queue(head, if pdu == q.tail then prev else q.tail);
    }
  }

  /** LIBNFS_LIST_REMOVE */
  method RemoveItem(ghost at: set<Pdu>, head: Pdu?, ghost s: seq<Pdu>, item: Pdu, ghost k: nat) returns (r: Pdu?)
    requires Chained(at, head, s) && k < |s| && s[k] == item
    modifies at`next
    ensures Chained(at, r, Without(s, k))
  {
    var prev: Pdu? := null;
    if head != item {
      prev := head;
      ghost var i := 0;
      NextOf(at, head, s, 0);
      while prev.next != null && prev.next != item
        modifies {}
        invariant 0 <= i < k && prev == s[i]
        decreases k - i
      {
        NextOf(at, head, s, i);
        prev := prev.next;
        i := i + 1;
      }
      NextOf(at, head, s, i);
      assert i + 1 == k;
    }
    r := Splice(at, head, s, k, prev, item);
  }

  // ---------------------------------------------------------------- the timeout scan

  predicate Overdue(p: Pdu, now: nat) {
    !(p.timeout == 0 || now < p.timeout)
  }

  ghost function Kept(s: seq<Pdu>, now: nat): seq<Pdu> {
    if s == [] then [] else (if Overdue(s[0], now) then [] else [s[0]]) + Kept(s[1..], now)
  }

  ghost function TimedOut(s: seq<Pdu>, now: nat): seq<E.Done> {
    if s == [] then [] else
    (if Overdue(s[0], now) then [E.Done(s[0].id, E.Timeout)] else []) + TimedOut(s[1..], now)
  }

  /** One round: the list is `kept` followed by `rest`, and `pdu` heads `rest`. */
  method ScanOne(ghost at: set<Pdu>, q: Queue, ghost kept: seq<Pdu>, ghost rest: seq<Pdu>, pdu: Pdu, now: nat)
      returns (r: Queue, next: Pdu?)
    requires Chained(at, q.head, kept + rest) && rest != [] && rest[0] == pdu
    modifies at`next
    ensures next == if |rest| > 1 then rest[1] else null
    ensures Chained(at, r.head, (if Overdue(pdu, now) then kept else kept + [pdu]) + rest[1..])
    ensures r.tail == if r.head == null then null else q.tail
  {
    ghost var list := kept + rest;
    NextOf(at, q.head, list, |kept|);
    r, next := q, pdu.next;
    if Overdue(pdu, now) {
      var head := RemoveItem(at, q.head, list, pdu, |kept|);
      r := Queue(head, if head == null then null else q.tail);
      assert Without(list, |kept|) == kept + rest[1..];
    } else {
      assert list == kept + [pdu] + rest[1..];
    }
  }

  lemma {:induction false} KeptNext(s: seq<Pdu>, now: nat, kept: seq<Pdu>, rest: seq<Pdu>)
    requires rest != [] && Kept(s, now) == kept + Kept(rest, now)
    ensures Kept(s, now) == (if Overdue(rest[0], now) then kept else kept + [rest[0]]) + Kept(rest[1..], now)
  {
    var k := Kept(rest[1..], now);
    if Overdue(rest[0], now) {
      assert [] + k == k;
    } else {
      assert kept + ([rest[0]] + k) == kept + [rest[0]] + k;
    }
  }

  lemma {:induction false} TimedOutNext(s: seq<Pdu>, now: nat, done: seq<E.Done>, rest: seq<Pdu>)
    requires rest != [] && TimedOut(s, now) == done + TimedOut(rest, now)
    ensures TimedOut(s, now) == (if Overdue(rest[0], now) then done + [E.Done(rest[0].id, E.Timeout)] else done)
                                + TimedOut(rest[1..], now)
  {
    var t, d := TimedOut(rest[1..], now), E.Done(rest[0].id, E.Timeout);
    if Overdue(rest[0], now) {
      assert done + ([d] + t) == done + [d] + t;
    } else {
      assert [] + t == t;
    }
  }

  /** The scan of one queue. The tail is reset only when the queue becomes empty. */
  method ScanQueue(ghost at: set<Pdu>, q: Queue, ghost s: seq<Pdu>, now: nat) returns (r: Queue, done: seq<E.Done>)
    requires Linked(at, q, s)
    modifies at`next
    ensures done == TimedOut(s, now)
    ensures Chained(at, r.head, Kept(s, now))
    ensures r.tail == if r.head == null then null else q.tail
  {
    r, done := q, [];
    var pdu := q.head;
    ghost var kept: seq<Pdu>, rest := [], s;
    assert kept + rest == s;
    while pdu != null
      invariant pdu == if rest == [] then null else rest[0]
      invariant Chained(at, r.head, kept + rest)
      invariant r.tail == if r.head == null then null else q.tail
      invariant Kept(s, now) == kept + Kept(rest, now)
      invariant TimedOut(s, now) == done + TimedOut(rest, now)
      decreases |rest|
    {
      KeptNext(s, now, kept, rest);
      TimedOutNext(s, now, done, rest);
      var next;
      r, next := ScanOne(at, r, kept, rest, pdu, now);
      if Overdue(pdu, now) {
        done := done + [E.Done(pdu.id, E.Timeout)];
      } else {
        kept := kept + [pdu];
      }
      rest := rest[1..];
      pdu := next;
    }
    assert kept + rest == kept;
  }

  lemma {:induction false} KeptShows(at: set<Pdu>, s: seq<Pdu>, v: seq<E.Pdu>, now: nat)
    requires Shows(at, s, v)
    ensures Shows(at, Kept(s, now), E.Unexpired(v, now))
    ensures TimedOut(s, now) == E.ExpireLog(v, now)
  {
    if s != [] {
      KeptShows(at, s[1..], v[1..], now);
    }
  }

  lemma {:induction false} KeptFrom(s: seq<Pdu>, now: nat, p: Pdu)
    ensures p in Kept(s, now) <==> p in s && !Overdue(p, now)
  {
    if s != [] {
      KeptFrom(s[1..], now, p);
    }
  }

  lemma {:induction false} KeptLast(s: seq<Pdu>, now: nat)
    requires s != [] && !Overdue(s[|s| - 1], now)
    ensures Kept(s, now) != [] && Last(Kept(s, now)) == Last(s)
  {
    if |s| > 1 {
      KeptLast(s[1..], now);
    }
  }

  /** After a scan head and tail agree exactly when the queue was safe to scan. */
  lemma {:induction false} ScanKeepsTail(at: set<Pdu>, s: seq<Pdu>, v: seq<E.Pdu>, now: nat, tail: Pdu?, tail': Pdu?)
    requires Shows(at, s, v) && tail == Last(s)
    requires tail' == if Kept(s, now) == [] then null else tail
    ensures tail' == Last(Kept(s, now)) <==> D.SafeToScan(v, now)
  {
    KeptShows(at, s, v, now);
    if s != [] {
      var p := s[|s| - 1];
      KeptFrom(s, now, p);
      if !Overdue(p, now) {
        KeptLast(s, now);
      }
    }
  }

  // ---------------------------------------------------------------- draining

  ghost function Purged(s: seq<Pdu>, status: E.Status): seq<E.Done> {
    if s == [] then [] else [E.Done(s[0].id, status)] + Purged(s[1..], status)
  }

  lemma {:induction false} PurgedShows(at: set<Pdu>, s: seq<Pdu>, v: seq<E.Pdu>, status: E.Status)
    requires Shows(at, s, v)
    ensures Purged(s, status) == E.PurgeLog(v, status)
  {
    if s != [] {
      PurgedShows(at, s[1..], v[1..], status);
    }
  }

  /** Detach the first element. */
  method Detach(ghost at: set<Pdu>, head: Pdu, ghost s: seq<Pdu>) returns (next: Pdu?)
    requires Chained(at, head, s)
    modifies {head}`next
    ensures Chained(at, next, s[1..])
  {
    NextOf(at, head, s, 0);
    next := head.next;
    head.next := null;
  }

  lemma {:induction false} PurgedNext(s: seq<Pdu>, status: E.Status, done: seq<E.Done>, rest: seq<Pdu>)
    requires rest != [] && Purged(s, status) == done + Purged(rest, status)
    ensures Purged(s, status) == done + [E.Done(rest[0].id, status)] + Purged(rest[1..], status)
  {
  }

  /** The drain loop of rpc_purge_all_pdus. */
  method PurgeQueue(ghost at: set<Pdu>, q: Queue, ghost s: seq<Pdu>, status: E.Status) returns (done: seq<E.Done>)
    requires Linked(at, q, s)
    modifies at`next
    ensures done == Purged(s, status)
  {
    done := [];
    var head := q.head;
    ghost var rest := s;
    while head != null
      invariant Chained(at, head, rest)
      invariant Purged(s, status) == done + Purged(rest, status)
      decreases |rest|
    {
      PurgedNext(s, status, done, rest);
      done := done + [E.Done(head.id, status)];
      head := Detach(at, head, rest);
      rest := rest[1..];
    }
  }
}
