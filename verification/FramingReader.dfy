/** The receive side of the client as the library runs it: the record marker is collected
    in a 4-byte buffer, the record in a buffer of the size it announces, and the fragments
    of a message are copied together. Each round takes the step of `Framing.Receive`. */
module FramingReader {
  import opened Bytes
  import F = Framing

  lemma {:induction false} ConcatLength(parts: seq<seq<byte>>, i: nat)
    requires i <= |parts|
    ensures Concat(parts) == Concat(parts[..i]) + Concat(parts[i..])
    ensures i < |parts| ==> Concat(parts[..i + 1]) == Concat(parts[..i]) + parts[i]
  {
    ConcatAppend(parts[..i], parts[i..]);
    assert parts == parts[..i] + parts[i..];
    if i < |parts| {
      ConcatAppend(parts[..i], [parts[i]]);
      assert parts[..i + 1] == parts[..i] + [parts[i]];
      assert Concat([parts[i]]) == parts[i] + Concat([]);
    }
  }

  /** The reassembly of rpc_process_pdu: add up the sizes, then copy the fragments and the
      last payload one behind the other. */
  method Reassemble(fragments: seq<seq<byte>>, payload: seq<byte>) returns (message: seq<byte>)
    ensures message == Concat(fragments) + payload
  {
    var total := |payload|;
    var i := 0;
    while i < |fragments|
      invariant 0 <= i <= |fragments| && total == |payload| + |Concat(fragments[..i])|
    {
      ConcatLength(fragments, i);
      total := total + |fragments[i]|;
      i := i + 1;
    }
    assert fragments[..|fragments|] == fragments;
    var reasbuf := new byte[total];
    var ptr := 0;
    i := 0;
    while i < |fragments|
      invariant 0 <= i <= |fragments| && ptr == |Concat(fragments[..i])|
      invariant ptr + |payload| <= total == |payload| + |Concat(fragments)| == reasbuf.Length
      invariant reasbuf[..ptr] == Concat(fragments[..i])
    {
      ConcatLength(fragments, i);
      ConcatLength(fragments, i + 1);
      CopyBytes(reasbuf, ptr, fragments[i]);
      ptr := ptr + |fragments[i]|;
      i := i + 1;
    }
    CopyBytes(reasbuf, ptr, payload);
    message := reasbuf[..];
  }

  class Reader {
    var inpos: nat
    const rmBuf: array<byte>
    var inbuf: array?<byte>
    var fragments: seq<seq<byte>>
    var delivered: seq<seq<byte>>
    var closed: bool

    ghost predicate Valid()
      reads this, rmBuf, inbuf
    {
      && rmBuf.Length == 4
      && (inbuf == null ==> inpos <= 4)
      && (inbuf != null ==>
            && inbuf != rmBuf && 4 <= inpos < inbuf.Length == F.PduSize(rmBuf[..])
            && inbuf.Length <= F.LIMIT && inbuf[..4] == rmBuf[..])
    }

    ghost function View(): F.Receiver
      requires Valid()
      reads this, rmBuf, inbuf
    {
      F.Receiver(if inpos <= 4 then rmBuf[..inpos] else inbuf[..inpos], fragments, delivered, closed)
    }

    constructor ()
      ensures Valid() && fresh(rmBuf) && inbuf == null && View() == F.START
    {
      rmBuf := new byte[4];
      inpos, inbuf, fragments, delivered, closed := 0, null, [], [], false;
    }

    /** rpc_process_pdu, up to the lookup of the transaction id. */
    method ProcessPdu(record: seq<byte>)
      requires Valid() && inbuf == null && inpos == 0 && |record| >= 4
      modifies this
      ensures Valid() && inbuf == old(inbuf)
      ensures View() == F.Process(old(View()), record)
    {
      if FromBe32(record[..4]) < TWO31 {
        fragments := fragments + [record[4..]];
        return;
      }
      var message := record[4..];
      assert Concat<byte>([]) + message == message;
      if fragments != [] {
        message := Reassemble(fragments, message);
        fragments := [];
      }
      if |message| < 4 {
        closed := true;
      } else {
        delivered := delivered + [message];
      }
    }

    /** The record buffer, allocated with the marker copied in when there is none yet. */
    method RecordBuffer(size: nat)
      requires Valid() && inpos >= 4 && 4 < size == F.PduSize(rmBuf[..]) <= F.LIMIT
      modifies this
      ensures Valid() && inbuf != null && (inbuf == old(inbuf) || fresh(inbuf))
      ensures View() == old(View()) && inpos == old(inpos)
    {
      if inbuf == null {
        inbuf := new byte[size];
        CopyBytes(inbuf, 0, rmBuf[..]);
      }
    }

    /** Store what `recv` yielded; `buf` is what the record then holds. */
    method Store(data: seq<byte>) returns (buf: seq<byte>)
      requires Valid() && inbuf != null && 0 < |data| <= inbuf.Length - inpos
      modifies this, inbuf
      ensures buf == old(View()).buf + data
      ensures |buf| < F.PduSize(rmBuf[..]) ==> Valid() && inbuf == old(inbuf) && View() == old(View()).(buf := buf)
      ensures |buf| == F.PduSize(rmBuf[..]) ==> Valid() && inbuf == null && View() == old(View()).(buf := [])
    {
      ghost var was := View().buf;
      assert was == inbuf[..inpos];
      CopyBytes(inbuf, inpos, data);
      inpos := inpos + |data|;
      buf := inbuf[..inpos];
      assert buf == was + data;
      assert inbuf[..4] == buf[..4] == was[..4];
      if inpos == inbuf.Length {
        inbuf, inpos := null, 0;
      }
    }

    /** One round of rpc_read_from_socket in which `recv` yields `data`. */
    method Round(data: seq<byte>)
      requires Valid() && F.Shape(View()) && 0 < |data|
      requires |data| <= F.Wanted(View()) || F.Wanted(View()) == 0
      modifies this, rmBuf, inbuf
      ensures Valid() && (inbuf != old(inbuf) ==> inbuf == null || fresh(inbuf))
      ensures View() == F.Receive(old(View()), data)
    {
      if closed {
        return;
      }
      if inpos < 4 {
        CopyBytes(rmBuf, inpos, data);
        inpos := inpos + |data|;
        return;
      }
      var size := F.PduSize(rmBuf[..]);
      assert View().buf[..4] == rmBuf[..];
      if size > F.LIMIT || size == inpos {
        closed := true;
        return;
      }
      RecordBuffer(size);
      var buf := Store(data);
      assert buf[..4] == rmBuf[..];
      if |buf| == size {
        ProcessPdu(buf);
      }
    }

    /** Rounds until the pieces are used up. */
    method Rounds(pieces: seq<seq<byte>>)
      requires Valid() && F.Shape(View()) && F.Receivable(View(), pieces)
      modifies this, rmBuf, inbuf
      ensures Valid() && (inbuf != old(inbuf) ==> inbuf == null || fresh(inbuf))
      ensures View() == F.ReceiveAll(old(View()), pieces)
    {
      var rest := pieces;
      while |rest| > 0
        invariant Valid() && F.Shape(View()) && (inbuf != old(inbuf) ==> inbuf == null || fresh(inbuf))
        invariant F.Receivable(View(), rest) && F.ReceiveAll(View(), rest) == F.ReceiveAll(old(View()), pieces)
        decreases |rest|
      {
        Round(rest[0]);
        rest := rest[1..];
      }
    }
  }
}
