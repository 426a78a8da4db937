/** The results of the MOUNT protocol: recursive lists of exports, groups and mounts, and the
    file handle that a mount returns. */
module ZdrMounts {
  import opened Bytes
  import opened Zdr

  datatype Groups = NoGroups | Group(name: Text, next: Groups)
  datatype Exports = NoExports | Export(dir: Text, groups: Groups, next: Exports)
  datatype Mounts = NoMounts | Mount(host: Text, dir: Text, next: Mounts)

  /** The status is not zero in the second case. */
  datatype MountRes = MountOk(handle: Opaque, flavors: seq<uint32>) | MountError(status: uint32)

  function EncGroups(g: Groups): (e: seq<byte>)
    decreases g, 1
  {
    if g.NoGroups? then Be32(0) else Be32(1) + EncGroupNode(g)
  }

  function EncGroupNode(g: Groups): (e: seq<byte>)
    requires g.Group?
    decreases g, 0
  {
    EncBytes(g.name) + EncGroups(g.next)
  }

  function EncExports(x: Exports): (e: seq<byte>)
    decreases x, 1
  {
    if x.NoExports? then Be32(0) else Be32(1) + EncExportNode(x)
  }

  function EncExportNode(x: Exports): (e: seq<byte>)
    requires x.Export?
    decreases x, 0
  {
    EncBytes(x.dir) + (EncGroups(x.groups) + EncExports(x.next))
  }

  function EncMounts(m: Mounts): (e: seq<byte>)
    decreases m, 1
  {
    if m.NoMounts? then Be32(0) else Be32(1) + EncMountBody(m)
  }

  function EncMountBody(m: Mounts): (e: seq<byte>)
    requires m.Mount?
    decreases m, 0
  {
    EncBytes(m.host) + (EncBytes(m.dir) + EncMounts(m.next))
  }

  function EncInts(a: seq<uint32>): (e: seq<byte>)
    ensures |e| == 4 * |a|
  {
    if |a| == 0 then [] else Be32(a[0]) + EncInts(a[1..])
  }

  function EncArray(a: seq<uint32>): (e: seq<byte>)
    requires |a| < TWO31
  {
    Be32(|a|) + EncInts(a)
  }

  function EncMountRes(m: MountRes): (e: seq<byte>)
    requires m.MountOk? ==> |m.flavors| < TWO31
  {
    match m
    case MountOk(handle, flavors) => Be32(0) + (EncBytes(handle) + EncArray(flavors))
    case MountError(status) => Be32(status)
  }

  function ParseGroups(s: seq<byte>): (r: Res<Groups>)
    ensures r.Ok? ==> |r.rest| + 4 <= |s|
    decreases |s|, 1
  {
    match ParseU32(s)
    case Fail => Fail
    case Lacks(c) => Lacks(c)
    case Ok(more, t) => if more == 0 then Ok(NoGroups, t) else ParseGroupNode(t)
  }

  function ParseGroupNode(s: seq<byte>): (r: Res<Groups>)
    ensures r.Ok? ==> |r.rest| + 4 <= |s|
    decreases |s|, 0
  {
    match ParseString(s)
    case Fail => Fail
    case Lacks(c) => Lacks(c)
    case Ok(name, s1) =>
      match ParseGroups(s1)
      case Fail => Fail
      case Lacks(c) => Lacks(c)
      case Ok(next, s2) => Ok(Group(name, next), s2)
  }

  function ParseExportHead(s: seq<byte>): (r: Res<(Text, Groups)>)
    ensures r.Ok? ==> |r.rest| + 4 <= |s|
  {
    match ParseString(s)
    case Fail => Fail
    case Lacks(c) => Lacks(c)
    case Ok(dir, s1) =>
      match ParseGroups(s1)
      case Fail => Fail
      case Lacks(c) => Lacks(c)
      case Ok(groups, s2) => Ok((dir, groups), s2)
  }

  function ParseExports(s: seq<byte>): (r: Res<Exports>)
    ensures r.Ok? ==> |r.rest| + 4 <= |s|
    decreases |s|, 1
  {
    match ParseU32(s)
    case Fail => Fail
    case Lacks(c) => Lacks(c)
    case Ok(more, t) => if more == 0 then Ok(NoExports, t) else ParseExportNode(t)
  }

  function ParseExportNode(s: seq<byte>): (r: Res<Exports>)
    ensures r.Ok? ==> |r.rest| + 4 <= |s|
    decreases |s|, 0
  {
    match ParseExportHead(s)
    case Fail => Fail
    case Lacks(c) => Lacks(c)
    case Ok(head, s1) =>
      match ParseExports(s1)
      case Fail => Fail
      case Lacks(c) => Lacks(c)
      case Ok(next, s2) => Ok(Export(head.0, head.1, next), s2)
  }

  function ParseMountHead(s: seq<byte>): (r: Res<(Text, Text)>)
    ensures r.Ok? ==> |r.rest| + 4 <= |s|
  {
    match ParseString(s)
    case Fail => Fail
    case Lacks(c) => Lacks(c)
    case Ok(host, s1) =>
      match ParseString(s1)
      case Fail => Fail
      case Lacks(c) => Lacks(c)
      case Ok(dir, s2) => Ok((host, dir), s2)
  }

  function ParseMounts(s: seq<byte>): (r: Res<Mounts>)
    ensures r.Ok? ==> |r.rest| + 4 <= |s|
    decreases |s|, 1
  {
    match ParseU32(s)
    case Fail => Fail
    case Lacks(c) => Lacks(c)
    case Ok(more, t) => if more == 0 then Ok(NoMounts, t) else ParseMountBody(t)
  }

  function ParseMountBody(s: seq<byte>): (r: Res<Mounts>)
    ensures r.Ok? ==> |r.rest| + 4 <= |s|
    decreases |s|, 0
  {
    match ParseMountHead(s)
    case Fail => Fail
    case Lacks(c) => Lacks(c)
    case Ok(head, s1) =>
      match ParseMounts(s1)
      case Fail => Fail
      case Lacks(c) => Lacks(c)
      case Ok(next, s2) => Ok(Mount(head.0, head.1, next), s2)
  }

  function ParseInts(s: seq<byte>, n: nat): (r: Res<seq<uint32>>)
    ensures r.Ok? ==> |r.v| == n && |r.rest| + 4 * n == |s|
    decreases n
  {
    if n == 0 then Ok([], s)
    else
      match ParseU32(s)
      case Fail => Fail
      case Lacks(c) => Lacks(c)
      case Ok(x, t) =>
        match ParseInts(t, n - 1)
        case Fail => Fail
        case Lacks(c) => Lacks(c)
        case Ok(xs, t') => Ok([x] + xs, t')
  }

  function ParseArray(s: seq<byte>): (r: Res<seq<uint32>>)
    ensures r.Ok? ==> |r.v| < TWO31 && |r.rest| + 4 <= |s|
  {
    match ParseU32(s)
    case Fail => Fail
    case Lacks(c) => Lacks(c)
    case Ok(n, t) =>
      if n >= TWO31 then Lacks(OfWords(n, |t|))
      else match ParseInts(t, n)
        case Ok(v, rest) => Ok(v, rest)
        case _ => Lacks(OfWords(n, |t|))
  }

  function ParseInfo(s: seq<byte>): (r: Res<(Opaque, seq<uint32>)>)
    ensures r.Ok? ==> |r.v.1| < TWO31 && |r.rest| + 4 <= |s|
  {
    match ParseBytes(s)
    case Fail => Fail
    case Lacks(c) => Lacks(c)
    case Ok(handle, s1) =>
      match ParseArray(s1)
      case Fail => Fail
      case Lacks(c) => Lacks(c)
      case Ok(flavors, s2) => Ok((handle, flavors), s2)
  }

  function ParseMountRes(s: seq<byte>): (r: Res<MountRes>)
    ensures r.Ok? ==> |r.rest| + 4 <= |s|
    ensures r.Ok? && r.v.MountOk? ==> |r.v.flavors| < TWO31
  {
    match ParseU32(s)
    case Fail => Fail
    case Lacks(c) => Lacks(c)
    case Ok(status, s1) =>
      if status != 0 then Ok(MountError(status), s1)
      else
        match ParseInfo(s1)
        case Fail => Fail
        case Lacks(c) => Lacks(c)
        case Ok(info, s2) => Ok(MountOk(info.0, info.1), s2)
  }

  lemma {:induction false} Assoc3(a: seq<byte>, b: seq<byte>, c: seq<byte>, t: seq<byte>)
    ensures a + (b + c) + t == a + (b + (c + t))
  {
    Assoc(a, b + c, t);
    Assoc(b, c, t);
  }

  lemma {:induction false} Assoc4(a: seq<byte>, b: seq<byte>, c: seq<byte>, d: seq<byte>, t: seq<byte>)
    ensures a + (b + (c + d)) + t == a + (b + (c + (d + t)))
  {
    Assoc(a, b + (c + d), t);
    Assoc3(b, c, d, t);
  }

  lemma {:induction false} GroupsRoundTrip(g: Groups, t: seq<byte>)
    ensures ParseGroups(EncGroups(g) + t) == Ok(g, t)
    decreases g
  {
    match g
    case NoGroups => U32RoundTrip(0, t);
    case Group(name, next) =>
      var e1, e2 := EncBytes(name), EncGroups(next);
      Assoc3(Be32(1), e1, e2, t);
      U32RoundTrip(1, e1 + (e2 + t));
      StringRoundTrip(name, e2 + t);
      GroupsRoundTrip(next, t);
  }

  /** Export lists of any length, each with groups of any number. */
  lemma {:induction false} ExportsRoundTrip(x: Exports, t: seq<byte>)
    ensures ParseExports(EncExports(x) + t) == Ok(x, t)
    decreases x
  {
    match x
    case NoExports => U32RoundTrip(0, t);
    case Export(dir, groups, next) =>
      var e1, e2, e3 := EncBytes(dir), EncGroups(groups), EncExports(next);
      Assoc4(Be32(1), e1, e2, e3, t);
      U32RoundTrip(1, e1 + (e2 + (e3 + t)));
      StringRoundTrip(dir, e2 + (e3 + t));
      GroupsRoundTrip(groups, e3 + t);
      ExportsRoundTrip(next, t);
  }

  lemma {:induction false} MountsRoundTrip(m: Mounts, t: seq<byte>)
    ensures ParseMounts(EncMounts(m) + t) == Ok(m, t)
    decreases m
  {
    match m
    case NoMounts => U32RoundTrip(0, t);
    case Mount(host, dir, next) =>
      var e1, e2, e3 := EncBytes(host), EncBytes(dir), EncMounts(next);
      Assoc4(Be32(1), e1, e2, e3, t);
      U32RoundTrip(1, e1 + (e2 + (e3 + t)));
      StringRoundTrip(host, e2 + (e3 + t));
      StringRoundTrip(dir, e3 + t);
      MountsRoundTrip(next, t);
  }

  lemma {:induction false} IntsRoundTrip(a: seq<uint32>, t: seq<byte>)
    ensures ParseInts(EncInts(a) + t, |a|) == Ok(a, t)
    decreases |a|
  {
    if |a| == 0 {
      assert [] + t == t;
    } else {
      Assoc(Be32(a[0]), EncInts(a[1..]), t);
      U32RoundTrip(a[0], EncInts(a[1..]) + t);
      IntsRoundTrip(a[1..], t);
      assert [a[0]] + a[1..] == a;
    }
  }

  lemma {:induction false} MountResRoundTrip(m: MountRes, t: seq<byte>)
    requires (m.MountOk? ==> |m.flavors| < TWO31) && (m.MountError? ==> m.status != 0)
    ensures ParseMountRes(EncMountRes(m) + t) == Ok(m, t)
  {
    match m
    case MountOk(handle, flavors) =>
      var e1, n, e2 := EncBytes(handle), Be32(|flavors|), EncInts(flavors);
      Assoc4(Be32(0), e1, n, e2, t);
      U32RoundTrip(0, e1 + (n + (e2 + t)));
      BytesRoundTrip(handle, n + (e2 + t));
      U32RoundTrip(|flavors|, e2 + t);
      IntsRoundTrip(flavors, t);
    case MountError(status) =>
      U32RoundTrip(status, t);
  }
}
