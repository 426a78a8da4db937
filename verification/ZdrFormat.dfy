/** The grammar of RPC messages and mount results (section 9 of RFC 5531, appendix I of RFC 1813)
    as a list of words and counted opaques, one behind the other, and the proof that this is
    what the routines put on the wire. */
module ZdrFormat {
  import opened Bytes
  import opened Zdr
  import opened ZdrMounts
  import opened ZdrMessages

  datatype Item = W(n: uint32) | B(b: Opaque)

  /** A word, most significant byte first. */
  function WordBytes(n: uint32): (r: seq<byte>)
    ensures |r| == 4
  {
    [n / 0x100_0000, n / 0x1_0000 % 256, n / 0x100 % 256, n % 256]
  }

  /** A word as it is; an opaque as its length, its bytes and zeros up to a multiple of four. */
  function ItemBytes(i: Item): seq<byte> {
    match i
    case W(n) => WordBytes(n)
    case B(b) => WordBytes(|b|) + b + seq((4 - |b| % 4) % 4, _ => 0)
  }

  function Wire(items: seq<Item>): seq<byte> {
    if items == [] then [] else ItemBytes(items[0]) + Wire(items[1..])
  }

  // The grammar

  function AuthItems(a: Auth): seq<Item> {
    [W(a.flavor), B(a.body)]
  }

  function GroupsItems(g: Groups): seq<Item> {
    match g
    case NoGroups => [W(0)]
    case Group(name, next) => [W(1), B(name)] + GroupsItems(next)
  }

  function ExportsItems(x: Exports): seq<Item> {
    match x
    case NoExports => [W(0)]
    case Export(dir, groups, next) => [W(1), B(dir)] + GroupsItems(groups) + ExportsItems(next)
  }

  function MountsItems(m: Mounts): seq<Item> {
    match m
    case NoMounts => [W(0)]
    case Mount(host, dir, next) => [W(1), B(host), B(dir)] + MountsItems(next)
  }

  function IntsItems(a: seq<uint32>): seq<Item> {
    if a == [] then [] else [W(a[0])] + IntsItems(a[1..])
  }

  function ResultsItems(r: Results): seq<Item>
    requires ResultsOk(r)
  {
    match r
    case Nothing => []
    case ExportResults(x) => ExportsItems(x)
    case MountsResults(m) => MountsItems(m)
    case MountResult(MountOk(handle, flavors)) => [W(0), B(handle), W(|flavors|)] + IntsItems(flavors)
    case MountResult(MountError(status)) => [W(status)]
  }

  function AcceptItems(a: AcceptData): seq<Item>
    requires AcceptOk(a)
  {
    match a
    case Success(r) => [W(0)] + ResultsItems(r)
    case ProgMismatch(low, high) => [W(2), W(low), W(high)]
    case OtherStat(stat) => [W(stat)]
  }

  function RejectItems(r: Rejection): seq<Item> {
    match r
    case RpcMismatch(low, high) => [W(0), W(low), W(high)]
    case AuthFailed(why) => [W(1), W(why)]
    case OtherReject(stat) => [W(stat)]
  }

  function ReplyItems(r: ReplyBody): seq<Item>
    requires r.Accepted? ==> AcceptOk(r.data)
  {
    match r
    case Accepted(verf, data) => [W(0)] + (AuthItems(verf) + AcceptItems(data))
    case Denied(why) => [W(1)] + RejectItems(why)
  }

  function MsgItems(m: Msg): seq<Item>
    requires MsgOk(m)
  {
    match m
    case Call(xid, CallBody(rpcvers, prog, vers, proc, cred, verf)) =>
      [W(xid), W(0), W(rpcvers), W(prog), W(vers), W(proc)] + AuthItems(cred) + AuthItems(verf)
    case Reply(xid, reply) => [W(xid), W(1)] + ReplyItems(reply)
  }

  // What is on the wire

  lemma {:induction false} FourBytes(n: nat)
    requires n < TWO32
    ensures BigEndian(n, 4) == [n / 256 / 256 / 256 % 256, n / 256 / 256 % 256, n / 256 % 256, n % 256]
  {
    assert BigEndian(n / 256 / 256 / 256, 1) == [n / 256 / 256 / 256 % 256];
    assert BigEndian(n / 256 / 256, 2) == [n / 256 / 256 / 256 % 256, n / 256 / 256 % 256];
    assert BigEndian(n / 256, 3) == [n / 256 / 256 / 256 % 256, n / 256 / 256 % 256, n / 256 % 256];
  }

  lemma {:induction false} Quotients(n: uint32)
    ensures n / 256 / 256 == n / 0x1_0000 && n / 256 / 256 / 256 == n / 0x100_0000 < 256
  {
  }

  /** The routines write words in this byte order. */
  lemma {:induction false} WordOnWire(n: uint32)
    ensures Be32(n) == WordBytes(n)
  {
    FourBytes(n);
    Quotients(n);
  }

  lemma {:induction false} LongOnWire(n: uint64)
    ensures EncU64(n) == WordBytes(n / TWO32) + WordBytes(n % TWO32)
  {
    WordOnWire(n / TWO32);
    WordOnWire(n % TWO32);
  }

  lemma {:induction false} PadIs(n: nat)
    ensures PadLength(n) == (4 - n % 4) % 4
  {
    Round4IsMask(n);
  }

  lemma {:induction false} OpaqueOnWire(b: Opaque)
    ensures EncBytes(b) == ItemBytes(B(b))
  {
    WordOnWire(|b|);
    PadIs(|b|);
    assert Pad(|b|) == seq((4 - |b| % 4) % 4, _ => 0);
    Assoc(WordBytes(|b|), b, Pad(|b|));
  }

  lemma {:induction false} WireAppend(a: seq<Item>, b: seq<Item>)
    ensures Wire(a + b) == Wire(a) + Wire(b)
  {
    if a == [] {
      assert a + b == b;
    } else {
      assert (a + b)[1..] == a[1..] + b;
      WireAppend(a[1..], b);
    }
  }

  lemma {:induction false} WireWord(n: uint32, rest: seq<Item>)
    ensures Wire([W(n)] + rest) == Be32(n) + Wire(rest)
  {
    assert ([W(n)] + rest)[1..] == rest;
    WordOnWire(n);
  }

  lemma {:induction false} WireOpaque(b: Opaque, rest: seq<Item>)
    ensures Wire([B(b)] + rest) == EncBytes(b) + Wire(rest)
  {
    assert ([B(b)] + rest)[1..] == rest;
    OpaqueOnWire(b);
  }

  lemma {:induction false} OneWord(n: uint32)
    ensures Wire([W(n)]) == Be32(n)
  {
    WireWord(n, []);
    assert [W(n)] + [] == [W(n)];
  }

  lemma {:induction false} OneOpaque(b: Opaque)
    ensures Wire([B(b)]) == EncBytes(b)
  {
    WireOpaque(b, []);
    assert [B(b)] + [] == [B(b)];
  }

  lemma {:induction false} TwoWords(a: uint32, b: uint32)
    ensures Wire([W(a), W(b)]) == EncPair(a, b)
  {
    assert [W(a)] + [W(b)] == [W(a), W(b)];
    WireWord(a, [W(b)]);
    OneWord(b);
  }

  lemma {:induction false} AuthOnWire(a: Auth)
    ensures Wire(AuthItems(a)) == EncAuth(a)
  {
    assert [W(a.flavor)] + [B(a.body)] == AuthItems(a);
    WireWord(a.flavor, [B(a.body)]);
    OneOpaque(a.body);
  }

  lemma {:induction false} GroupsOnWire(g: Groups)
    ensures EncGroups(g) == Wire(GroupsItems(g))
  {
    match g
    case NoGroups => OneWord(0);
    case Group(name, next) =>
      var rest := GroupsItems(next);
      GroupsOnWire(next);
      WireOpaque(name, rest);
      WireWord(1, [B(name)] + rest);
      assert [W(1), B(name)] + rest == [W(1)] + ([B(name)] + rest);
  }

  lemma {:induction false} ExportOnWire(dir: Opaque, groups: seq<Item>, rest: seq<Item>)
    ensures Wire([W(1), B(dir)] + groups + rest) == Be32(1) + (EncBytes(dir) + (Wire(groups) + Wire(rest)))
  {
    WireAppend(groups, rest);
    WireOpaque(dir, groups + rest);
    WireWord(1, [B(dir)] + (groups + rest));
    assert [W(1), B(dir)] + groups + rest == [W(1)] + ([B(dir)] + (groups + rest));
  }

  /** Before each export a one, at the end a zero; in each its directory, then its groups. */
  lemma {:induction false} ExportsOnWire(x: Exports)
    ensures EncExports(x) == Wire(ExportsItems(x))
  {
    match x
    case NoExports => OneWord(0);
    case Export(dir, groups, next) =>
      GroupsOnWire(groups);
      ExportsOnWire(next);
      ExportOnWire(dir, GroupsItems(groups), ExportsItems(next));
  }

  lemma {:induction false} MountsOnWire(m: Mounts)
    ensures EncMounts(m) == Wire(MountsItems(m))
  {
    match m
    case NoMounts => OneWord(0);
    case Mount(host, dir, next) =>
      var rest := MountsItems(next);
      MountsOnWire(next);
      WireOpaque(dir, rest);
      WireOpaque(host, [B(dir)] + rest);
      WireWord(1, [B(host)] + ([B(dir)] + rest));
      assert [W(1), B(host), B(dir)] + rest == [W(1)] + ([B(host)] + ([B(dir)] + rest));
  }

  lemma {:induction false} IntsOnWire(a: seq<uint32>)
    ensures EncInts(a) == Wire(IntsItems(a))
  {
    if a != [] {
      IntsOnWire(a[1..]);
      WireWord(a[0], IntsItems(a[1..]));
    }
  }

  lemma {:induction false} MountOkOnWire(handle: Opaque, flavors: seq<uint32>)
    requires |flavors| < TWO31
    ensures EncMountRes(MountOk(handle, flavors)) == Wire([W(0), B(handle), W(|flavors|)] + IntsItems(flavors))
  {
    var ints := IntsItems(flavors);
    IntsOnWire(flavors);
    WireWord(|flavors|, ints);
    WireOpaque(handle, [W(|flavors|)] + ints);
    WireWord(0, [B(handle)] + ([W(|flavors|)] + ints));
    assert [W(0), B(handle), W(|flavors|)] + ints == [W(0)] + ([B(handle)] + ([W(|flavors|)] + ints));
  }

  lemma {:induction false} ResultsOnWire(r: Results)
    requires ResultsOk(r)
    ensures EncResults(r) == Wire(ResultsItems(r))
  {
    match r
    case Nothing =>
    case ExportResults(x) => ExportsOnWire(x);
    case MountsResults(m) => MountsOnWire(m);
    case MountResult(MountOk(handle, flavors)) => MountOkOnWire(handle, flavors);
    case MountResult(MountError(status)) => OneWord(status);
  }

  lemma {:induction false} AcceptOnWire(a: AcceptData)
    requires AcceptOk(a)
    ensures EncAccept(a) == Wire(AcceptItems(a))
  {
    match a
    case Success(r) =>
      ResultsOnWire(r);
      WireWord(0, ResultsItems(r));
    case ProgMismatch(low, high) =>
      TwoWords(low, high);
      WireWord(2, [W(low), W(high)]);
      assert [W(2), W(low), W(high)] == [W(2)] + [W(low), W(high)];
    case OtherStat(stat) => OneWord(stat);
  }

  lemma {:induction false} RejectOnWire(r: Rejection)
    ensures EncReject(r) == Wire(RejectItems(r))
  {
    match r
    case RpcMismatch(low, high) =>
      TwoWords(low, high);
      WireWord(0, [W(low), W(high)]);
      assert [W(0), W(low), W(high)] == [W(0)] + [W(low), W(high)];
    case AuthFailed(why) =>
      OneWord(why);
      WireWord(1, [W(why)]);
      assert [W(1), W(why)] == [W(1)] + [W(why)];
    case OtherReject(stat) => OneWord(stat);
  }

  lemma {:induction false} CallOnWire(c: CallBody)
    ensures EncCall(c) ==
            Wire([W(c.rpcvers), W(c.prog), W(c.vers), W(c.proc)] + AuthItems(c.cred) + AuthItems(c.verf))
  {
    var a, b, auths := [W(c.rpcvers), W(c.prog)], [W(c.vers), W(c.proc)], AuthItems(c.cred) + AuthItems(c.verf);
    TwoWords(c.rpcvers, c.prog);
    TwoWords(c.vers, c.proc);
    AuthOnWire(c.cred);
    AuthOnWire(c.verf);
    WireAppend(AuthItems(c.cred), AuthItems(c.verf));
    WireAppend(b, auths);
    WireAppend(a, b + auths);
    assert [W(c.rpcvers), W(c.prog), W(c.vers), W(c.proc)] + AuthItems(c.cred) + AuthItems(c.verf) == a + (b + auths);
  }

  lemma {:induction false} ReplyOnWire(r: ReplyBody)
    requires r.Accepted? ==> AcceptOk(r.data)
    ensures EncReply(r) == Wire(ReplyItems(r))
  {
    match r
    case Accepted(verf, data) =>
      AuthOnWire(verf);
      AcceptOnWire(data);
      WireAppend(AuthItems(verf), AcceptItems(data));
      WireWord(0, AuthItems(verf) + AcceptItems(data));
    case Denied(why) =>
      RejectOnWire(why);
      WireWord(1, RejectItems(why));
  }

  /** A message is on the wire as the grammar says, item by item. */
  lemma {:induction false} MsgOnWire(m: Msg)
    requires MsgOk(m)
    ensures EncMsg(m) == Wire(MsgItems(m))
  {
    match m
    case Call(xid, c) =>
      var body := [W(c.rpcvers), W(c.prog), W(c.vers), W(c.proc)] + AuthItems(c.cred) + AuthItems(c.verf);
      CallOnWire(c);
      TwoWords(xid, 0);
      WireAppend([W(xid), W(0)], body);
      assert MsgItems(m) == [W(xid), W(0)] + body;
    case Reply(xid, reply) =>
      ReplyOnWire(reply);
      TwoWords(xid, 1);
      WireAppend([W(xid), W(1)], ReplyItems(reply));
  }

  // Where each word is

  lemma {:induction false} Middle(a: seq<byte>, b: seq<byte>, c: seq<byte>)
    ensures (a + (b + c))[|a|..|a| + |b|] == b
  {
  }

  /** Item k starts behind the bytes of the items before it. */
  lemma {:induction false} ItemAt(items: seq<Item>, k: nat)
    requires k < |items|
    ensures var at, e := |Wire(items[..k])|, ItemBytes(items[k]);
            at + |e| <= |Wire(items)| && Wire(items)[at..at + |e|] == e
  {
    var a, b := items[..k], items[k..];
    assert items == a + b && b[0] == items[k];
    WireAppend(a, b);
    Middle(Wire(a), ItemBytes(b[0]), Wire(b[1..]));
  }

  lemma {:induction false} WordsBefore(items: seq<Item>, k: nat)
    requires k <= |items| && forall i | 0 <= i < k :: items[i].W?
    ensures |Wire(items[..k])| == 4 * k
  {
    if k > 0 {
      WordsBefore(items[1..], k - 1);
      assert items[..k][1..] == items[1..][..k - 1];
    }
  }

  lemma {:induction false} WordIsAt(items: seq<Item>, k: nat)
    requires k < |items| && forall i | 0 <= i <= k :: items[i].W?
    ensures 4 * k + 4 <= |Wire(items)| && Wire(items)[4 * k..4 * k + 4] == WordBytes(items[k].n)
  {
    ItemAt(items, k);
    WordsBefore(items, k);
  }

  /** Word k of a call: id, direction, version of RPC, program, version, procedure and the
      flavour of the credential. */
  function CallWord(m: Msg, k: nat): uint32
    requires m.Call? && k < 7
  {
    match k
    case 0 => m.xid
    case 1 => 0
    case 2 => m.call.rpcvers
    case 3 => m.call.prog
    case 4 => m.call.vers
    case 5 => m.call.proc
    case 6 => m.call.cred.flavor
  }

  lemma {:induction false} CallItem(m: Msg, k: nat)
    requires m.Call? && k < 7
    ensures k < |MsgItems(m)| && MsgItems(m)[k] == W(CallWord(m, k))
  {
  }

  lemma {:induction false} CallWords(m: Msg, k: nat)
    requires m.Call? && k < 7
    ensures 4 * k + 4 <= |EncMsg(m)| && EncMsg(m)[4 * k..4 * k + 4] == WordBytes(CallWord(m, k))
  {
    MsgOnWire(m);
    forall i: nat | i <= k ensures i < |MsgItems(m)| && MsgItems(m)[i] == W(CallWord(m, i)) {
      CallItem(m, i);
    }
    WordIsAt(MsgItems(m), k);
  }

  /** Word k of a reply: id, direction, whether it is accepted. */
  function ReplyWord(m: Msg, k: nat): uint32
    requires m.Reply? && k < 3
  {
    match k
    case 0 => m.xid
    case 1 => 1
    case 2 => if m.reply.Accepted? then 0 else 1
  }

  lemma {:induction false} ReplyItem(m: Msg, k: nat)
    requires m.Reply? && MsgOk(m) && k < 3
    ensures k < |MsgItems(m)| && MsgItems(m)[k] == W(ReplyWord(m, k))
  {
  }

  lemma {:induction false} ReplyWords(m: Msg, k: nat)
    requires m.Reply? && MsgOk(m) && k < 3
    ensures 4 * k + 4 <= |EncMsg(m)| && EncMsg(m)[4 * k..4 * k + 4] == WordBytes(ReplyWord(m, k))
  {
    MsgOnWire(m);
    forall i: nat | i <= k ensures i < |MsgItems(m)| && MsgItems(m)[i] == W(ReplyWord(m, i)) {
      ReplyItem(m, i);
    }
    WordIsAt(MsgItems(m), k);
  }

  // What is refused

  lemma {:induction false} PairIsRead(a: uint32, b: uint32, t: seq<byte>)
    ensures ParsePair(Wire([W(a), W(b)]) + t) == Ok((a, b), t)
  {
    TwoWords(a, b);
    PairRoundTrip(a, b, t);
  }

  /** A direction that is neither call nor reply is refused, and so is a reply that is neither
      accepted nor denied. */
  lemma {:induction false} OthersAreRefused(xid: uint32, direction: uint32, stat: uint32, t: seq<byte>, k: Kind)
    ensures direction > 1 ==> ParseMsg(Wire([W(xid), W(direction)]) + t, k) == Fail
    ensures stat > 1 ==> ParseMsg(Wire([W(xid), W(1)]) + (Wire([W(stat)]) + t), k) == Fail
  {
    PairIsRead(xid, direction, t);
    PairIsRead(xid, 1, Wire([W(stat)]) + t);
    OneWord(stat);
    U32RoundTrip(stat, t);
  }
}
