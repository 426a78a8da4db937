/** RPC messages (section 9 of RFC 5531): calls, accepted and rejected replies, with the
    results of the procedures in ZdrMounts. */
module ZdrMessages {
  import opened Bytes
  import opened Zdr
  import opened ZdrMounts

  const CALL: uint32 := 0
  const REPLY: uint32 := 1
  const MSG_ACCEPTED: uint32 := 0
  const MSG_DENIED: uint32 := 1
  const SUCCESS: uint32 := 0
  const PROG_MISMATCH: uint32 := 2
  const RPC_MISMATCH: uint32 := 0
  const AUTH_ERROR: uint32 := 1

  datatype Auth = Auth(flavor: uint32, body: Opaque)

  /** What a procedure returns, and which routine reads it. */
  datatype Results = Nothing | ExportResults(exports: Exports) | MountsResults(mounts: Mounts) | MountResult(res: MountRes)
  datatype Kind = VoidKind | ExportsKind | MountsKind | MountResKind

  datatype AcceptData = Success(results: Results) | ProgMismatch(low: uint32, high: uint32) | OtherStat(stat: uint32)
  datatype Rejection = RpcMismatch(low: uint32, high: uint32) | AuthFailed(why: uint32) | OtherReject(stat: uint32)
  datatype ReplyBody = Accepted(verf: Auth, data: AcceptData) | Denied(why: Rejection)
  datatype CallBody = CallBody(rpcvers: uint32, prog: uint32, vers: uint32, proc: uint32, cred: Auth, verf: Auth)
  datatype Msg = Call(xid: uint32, call: CallBody) | Reply(xid: uint32, reply: ReplyBody)

  function KindOf(r: Results): Kind {
    match r
    case Nothing => VoidKind
    case ExportResults(_) => ExportsKind
    case MountsResults(_) => MountsKind
    case MountResult(_) => MountResKind
  }

  /** Values the wire can carry: counts fit, and a status that has its own case is not used
      for another. */
  predicate ResultsOk(r: Results) {
    r.MountResult? ==>
      (r.res.MountOk? ==> |r.res.flavors| < TWO31) && (r.res.MountError? ==> r.res.status != 0)
  }

  predicate AcceptOk(a: AcceptData) {
    (a.Success? ==> ResultsOk(a.results)) && (a.OtherStat? ==> a.stat != SUCCESS && a.stat != PROG_MISMATCH)
  }

  predicate MsgOk(m: Msg) {
    m.Reply? ==>
      (m.reply.Accepted? ==> AcceptOk(m.reply.data)) &&
      (m.reply.Denied? && m.reply.why.OtherReject? ==>
         m.reply.why.stat != RPC_MISMATCH && m.reply.why.stat != AUTH_ERROR)
  }

  // On the wire

  function EncPair(a: uint32, b: uint32): seq<byte> {
    Be32(a) + Be32(b)
  }

  function EncAuth(a: Auth): seq<byte> {
    Be32(a.flavor) + EncBytes(a.body)
  }

  function EncResults(r: Results): seq<byte>
    requires ResultsOk(r)
  {
    match r
    case Nothing => []
    case ExportResults(x) => EncExports(x)
    case MountsResults(m) => EncMounts(m)
    case MountResult(m) => EncMountRes(m)
  }

  function EncAccept(a: AcceptData): seq<byte>
    requires AcceptOk(a)
  {
    match a
    case Success(r) => Be32(SUCCESS) + EncResults(r)
    case ProgMismatch(low, high) => Be32(PROG_MISMATCH) + EncPair(low, high)
    case OtherStat(stat) => Be32(stat)
  }

  function EncReject(r: Rejection): seq<byte> {
    match r
    case RpcMismatch(low, high) => Be32(RPC_MISMATCH) + EncPair(low, high)
    case AuthFailed(why) => Be32(AUTH_ERROR) + Be32(why)
    case OtherReject(stat) => Be32(stat)
  }

  function EncCall(c: CallBody): seq<byte> {
    EncPair(c.rpcvers, c.prog) + (EncPair(c.vers, c.proc) + (EncAuth(c.cred) + EncAuth(c.verf)))
  }

  function ReplyStat(r: ReplyBody): uint32 {
    if r.Accepted? then MSG_ACCEPTED else MSG_DENIED
  }

  function EncVerdict(r: ReplyBody): seq<byte>
    requires r.Accepted? ==> AcceptOk(r.data)
  {
    match r
    case Accepted(verf, data) => EncAuth(verf) + EncAccept(data)
    case Denied(why) => EncReject(why)
  }

  function EncReply(r: ReplyBody): seq<byte>
    requires r.Accepted? ==> AcceptOk(r.data)
  {
    Be32(ReplyStat(r)) + EncVerdict(r)
  }

  function Direction(m: Msg): uint32 {
    if m.Call? then CALL else REPLY
  }

  function EncBody(m: Msg): seq<byte>
    requires MsgOk(m)
  {
    match m
    case Call(_, call) => EncCall(call)
    case Reply(_, reply) => EncReply(reply)
  }

  function EncMsg(m: Msg): seq<byte>
    requires MsgOk(m)
  {
    EncPair(m.xid, Direction(m)) + EncBody(m)
  }

  // As it is read

  function ParseAuth(s: seq<byte>): (r: Res<Auth>) {
    match ParseU32(s)
    case Fail => Fail
    case Lacks(c) => Lacks(c)
    case Ok(flavor, s1) =>
      match ParseBytes(s1)
      case Fail => Fail
      case Lacks(c) => Lacks(c)
      case Ok(body, s2) => Ok(Auth(flavor, body), s2)
  }

  function ParseResults(s: seq<byte>, k: Kind): (r: Res<Results>) {
    match k
    case VoidKind => Ok(Nothing, s)
    case ExportsKind => (
      match ParseExports(s)
      case Fail => Fail
      case Lacks(c) => Lacks(c)
      case Ok(x, t) => Ok(ExportResults(x), t))
    case MountsKind => (
      match ParseMounts(s)
      case Fail => Fail
      case Lacks(c) => Lacks(c)
      case Ok(m, t) => Ok(MountsResults(m), t))
    case MountResKind => (
      match ParseMountRes(s)
      case Fail => Fail
      case Lacks(c) => Lacks(c)
      case Ok(m, t) => Ok(MountResult(m), t))
  }

  function ParsePair(s: seq<byte>): (r: Res<(uint32, uint32)>) {
    match ParseU32(s)
    case Fail => Fail
    case Lacks(c) => Lacks(c)
    case Ok(low, s1) =>
      match ParseU32(s1)
      case Fail => Fail
      case Lacks(c) => Lacks(c)
      case Ok(high, s2) => Ok((low, high), s2)
  }

  function ParseAccept(s: seq<byte>, k: Kind): (r: Res<AcceptData>) {
    match ParseU32(s)
    case Fail => Fail
    case Lacks(c) => Lacks(c)
    case Ok(stat, s1) =>
      if stat == SUCCESS then
        match ParseResults(s1, k) case Fail => Fail case Lacks(c) => Lacks(c) case Ok(r, s2) => Ok(Success(r), s2)
      else if stat == PROG_MISMATCH then
        match ParsePair(s1) case Fail => Fail case Lacks(c) => Lacks(c) case Ok(p, s2) => Ok(ProgMismatch(p.0, p.1), s2)
      else Ok(OtherStat(stat), s1)
  }

  function ParseReject(s: seq<byte>): (r: Res<Rejection>) {
    match ParseU32(s)
    case Fail => Fail
    case Lacks(c) => Lacks(c)
    case Ok(stat, s1) =>
      if stat == RPC_MISMATCH then
        match ParsePair(s1) case Fail => Fail case Lacks(c) => Lacks(c) case Ok(p, s2) => Ok(RpcMismatch(p.0, p.1), s2)
      else if stat == AUTH_ERROR then
        match ParseU32(s1) case Fail => Fail case Lacks(c) => Lacks(c) case Ok(why, s2) => Ok(AuthFailed(why), s2)
      else Ok(OtherReject(stat), s1)
  }

  function ParseAuths(s: seq<byte>): (r: Res<(Auth, Auth)>) {
    match ParseAuth(s)
    case Fail => Fail
    case Lacks(c) => Lacks(c)
    case Ok(a, s1) =>
      match ParseAuth(s1)
      case Fail => Fail
      case Lacks(c) => Lacks(c)
      case Ok(b, s2) => Ok((a, b), s2)
  }

  function ParseCall(s: seq<byte>): (r: Res<CallBody>) {
    match ParsePair(s)
    case Fail => Fail
    case Lacks(c) => Lacks(c)
    case Ok(a, s1) =>
      match ParsePair(s1)
      case Fail => Fail
      case Lacks(c) => Lacks(c)
      case Ok(b, s2) =>
        match ParseAuths(s2)
        case Fail => Fail
        case Lacks(c) => Lacks(c)
        case Ok(c, s3) => Ok(CallBody(a.0, a.1, b.0, b.1, c.0, c.1), s3)
  }

  function ParseAccepted(s: seq<byte>, k: Kind): (r: Res<(Auth, AcceptData)>) {
    match ParseAuth(s)
    case Fail => Fail
    case Lacks(c) => Lacks(c)
    case Ok(verf, s1) =>
      match ParseAccept(s1, k)
      case Fail => Fail
      case Lacks(c) => Lacks(c)
      case Ok(data, s2) => Ok((verf, data), s2)
  }

  /** What follows the word that tells accepted from denied. */
  function ParseVerdict(stat: uint32, s: seq<byte>, k: Kind): (r: Res<ReplyBody>) {
    if stat == MSG_ACCEPTED then
      match ParseAccepted(s, k) case Fail => Fail case Lacks(c) => Lacks(c) case Ok(a, t) => Ok(Accepted(a.0, a.1), t)
    else if stat == MSG_DENIED then
      match ParseReject(s) case Fail => Fail case Lacks(c) => Lacks(c) case Ok(why, t) => Ok(Denied(why), t)
    else Fail
  }

  function ParseReply(s: seq<byte>, k: Kind): (r: Res<ReplyBody>) {
    match ParseU32(s)
    case Fail => Fail
    case Lacks(c) => Lacks(c)
    case Ok(stat, t) => ParseVerdict(stat, t, k)
  }

  /** What follows the id and the direction. */
  function ParseBody(xid: uint32, direction: uint32, s: seq<byte>, k: Kind): (r: Res<Msg>) {
    if direction == CALL then
      match ParseCall(s) case Fail => Fail case Lacks(c) => Lacks(c) case Ok(c, t) => Ok(Call(xid, c), t)
    else if direction == REPLY then
      match ParseReply(s, k) case Fail => Fail case Lacks(c) => Lacks(c) case Ok(r, t) => Ok(Reply(xid, r), t)
    else Fail
  }

  function ParseMsg(s: seq<byte>, k: Kind): (r: Res<Msg>) {
    match ParsePair(s)
    case Fail => Fail
    case Lacks(c) => Lacks(c)
    case Ok(h, t) => ParseBody(h.0, h.1, t, k)
  }

  // Reading undoes writing

  lemma {:induction false} AuthRoundTrip(a: Auth, t: seq<byte>)
    ensures ParseAuth(EncAuth(a) + t) == Ok(a, t)
  {
    Assoc(Be32(a.flavor), EncBytes(a.body), t);
    U32RoundTrip(a.flavor, EncBytes(a.body) + t);
    BytesRoundTrip(a.body, t);
  }

  lemma {:induction false} ResultsRoundTrip(r: Results, t: seq<byte>)
    requires ResultsOk(r)
    ensures ParseResults(EncResults(r) + t, KindOf(r)) == Ok(r, t)
  {
    match r
    case Nothing => assert [] + t == t;
    case ExportResults(x) => ExportsRoundTrip(x, t);
    case MountsResults(m) => MountsRoundTrip(m, t);
    case MountResult(m) => MountResRoundTrip(m, t);
  }

  lemma {:induction false} PairRoundTrip(a: uint32, b: uint32, t: seq<byte>)
    ensures ParsePair(EncPair(a, b) + t) == Ok((a, b), t)
  {
    Assoc(Be32(a), Be32(b), t);
    U32RoundTrip(a, Be32(b) + t);
    U32RoundTrip(b, t);
  }

  lemma {:induction false} AcceptRoundTrip(a: AcceptData, k: Kind, t: seq<byte>)
    requires AcceptOk(a) && (a.Success? ==> k == KindOf(a.results))
    ensures ParseAccept(EncAccept(a) + t, k) == Ok(a, t)
  {
    match a
    case Success(r) =>
      Assoc(Be32(SUCCESS), EncResults(r), t);
      U32RoundTrip(SUCCESS, EncResults(r) + t);
      ResultsRoundTrip(r, t);
    case ProgMismatch(low, high) =>
      Assoc(Be32(PROG_MISMATCH), EncPair(low, high), t);
      U32RoundTrip(PROG_MISMATCH, EncPair(low, high) + t);
      PairRoundTrip(low, high, t);
    case OtherStat(stat) =>
      U32RoundTrip(stat, t);
  }

  lemma {:induction false} RejectRoundTrip(r: Rejection, t: seq<byte>)
    requires r.OtherReject? ==> r.stat != RPC_MISMATCH && r.stat != AUTH_ERROR
    ensures ParseReject(EncReject(r) + t) == Ok(r, t)
  {
    match r
    case RpcMismatch(low, high) =>
      Assoc(Be32(RPC_MISMATCH), EncPair(low, high), t);
      U32RoundTrip(RPC_MISMATCH, EncPair(low, high) + t);
      PairRoundTrip(low, high, t);
    case AuthFailed(why) =>
      Assoc(Be32(AUTH_ERROR), Be32(why), t);
      U32RoundTrip(AUTH_ERROR, Be32(why) + t);
      U32RoundTrip(why, t);
    case OtherReject(stat) =>
      U32RoundTrip(stat, t);
  }

  lemma {:induction false} CallRoundTrip(c: CallBody, t: seq<byte>)
    ensures ParseCall(EncCall(c) + t) == Ok(c, t)
  {
    var a, b, e, f := EncPair(c.rpcvers, c.prog), EncPair(c.vers, c.proc), EncAuth(c.cred), EncAuth(c.verf);
    Assoc4(a, b, e, f, t);
    PairRoundTrip(c.rpcvers, c.prog, b + (e + (f + t)));
    PairRoundTrip(c.vers, c.proc, e + (f + t));
    AuthRoundTrip(c.cred, f + t);
    AuthRoundTrip(c.verf, t);
  }

  lemma {:induction false} ReplyRoundTrip(r: ReplyBody, k: Kind, t: seq<byte>)
    requires r.Accepted? ==> AcceptOk(r.data) && (r.data.Success? ==> k == KindOf(r.data.results))
    requires r.Denied? && r.why.OtherReject? ==> r.why.stat != RPC_MISMATCH && r.why.stat != AUTH_ERROR
    ensures ParseReply(EncReply(r) + t, k) == Ok(r, t)
  {
    Assoc(Be32(ReplyStat(r)), EncVerdict(r), t);
    U32RoundTrip(ReplyStat(r), EncVerdict(r) + t);
    match r
    case Accepted(verf, data) =>
      Assoc(EncAuth(verf), EncAccept(data), t);
      AuthRoundTrip(verf, EncAccept(data) + t);
      AcceptRoundTrip(data, k, t);
    case Denied(why) =>
      RejectRoundTrip(why, t);
  }

  /** A message is read back whole, whatever follows it, by a reader that expects its kind of
      results. */
  lemma {:induction false} MsgRoundTrip(m: Msg, k: Kind, t: seq<byte>)
    requires MsgOk(m)
    requires m.Reply? && m.reply.Accepted? && m.reply.data.Success? ==> k == KindOf(m.reply.data.results)
    ensures ParseMsg(EncMsg(m) + t, k) == Ok(m, t)
  {
    Assoc(EncPair(m.xid, Direction(m)), EncBody(m), t);
    PairRoundTrip(m.xid, Direction(m), EncBody(m) + t);
    match m
    case Call(_, call) => CallRoundTrip(call, t);
    case Reply(_, reply) => ReplyRoundTrip(reply, k, t);
  }
}
