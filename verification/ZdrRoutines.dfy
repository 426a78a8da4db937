/** The routines for the recursive MOUNT lists and for RPC messages. One body serves both
    directions: it writes the value it is given, or fills in the value it returns. */
module ZdrRoutines {
  import opened Bytes
  import opened Zdr
  import opened ZdrMounts
  import opened ZdrMessages
  import opened ZdrStreams

  function GroupsSize(g: Groups): nat {
    match g
    case NoGroups => 0
    case Group(_, next) => 1 + GroupsSize(next)
  }

  function ExportsSize(x: Exports): nat {
    match x
    case NoExports => 0
    case Export(_, _, next) => 1 + ExportsSize(next)
  }

  function MountsSize(m: Mounts): nat {
    match m
    case NoMounts => 0
    case Mount(_, _, next) => 1 + MountsSize(next)
  }

  /** zdr_groups */
  method GroupList(z: Stream, g: Groups) returns (ok: bool, v: Groups)
    requires z.Ready()
    modifies z`pos, z`track, z.buf
    ensures z.Valid()
    ensures z.encoding ==> v == g && Appended(old(z.Out()), z.Out(), EncGroups(g), 0, ok)
    ensures !z.encoding ==> z.buf[..] == old(z.buf[..]) && z.Got(ParseGroups(old(z.Left())), ok, v)
    decreases if z.encoding then GroupsSize(g) else |z.Left()|, 1
  {
    var more: uint32;
    ok, more := z.UInt(if g.NoGroups? then 0 else 1);
    if !ok || more == 0 {
      return ok, if z.encoding then g else NoGroups;
    }
    ghost var c1 := z.Out();
    ok, v := GroupNode(z, g);
    if z.encoding {
      AppendedThen(old(z.Out()), c1, z.Out(), Be32(1), 0, EncGroupNode(g), 0, ok);
    }
  }

  /** zdr_groupnode; when it reads, it fills in an empty node. */
  method GroupNode(z: Stream, g: Groups) returns (ok: bool, v: Groups)
    requires z.Ready() && (z.encoding ==> g.Group?)
    modifies z`pos, z`track, z.buf
    ensures z.Valid()
    ensures z.encoding ==> v == g && Appended(old(z.Out()), z.Out(), EncGroupNode(g), 0, ok)
    ensures !z.encoding ==> z.buf[..] == old(z.buf[..]) && z.Got(ParseGroupNode(old(z.Left())), ok, v)
    decreases if z.encoding then GroupsSize(g) else |z.Left()|, 0
  {
    var node := if z.encoding then g else Group([], NoGroups);
    ghost var c0, e1, t1, e2 := z.Out(), EncBytes(node.name), PadLength(|node.name|), EncGroups(node.next);
    var name: Text, next: Groups;
    ok, name := z.Str(node.name);
    if !ok || !z.track.OnTrack? {
      if z.encoding {
        NotAppended(c0, z.Out(), e1, t1, e2, 0, ok);
      }
      return ok, node;
    }
    ghost var c1 := z.Out();
    ok, next := GroupList(z, node.next);
    if z.encoding {
      AppendedThen(c0, c1, z.Out(), e1, t1, e2, 0, ok);
    }
    v := Group(name, next);
  }

  /** Directory and groups of an export. */
  method ExportHead(z: Stream, dir: Text, groups: Groups) returns (ok: bool, d: Text, g: Groups)
    requires z.Ready()
    modifies z`pos, z`track, z.buf
    ensures z.Valid()
    ensures z.encoding ==>
              d == dir && g == groups && Appended(old(z.Out()), z.Out(), EncBytes(dir) + EncGroups(groups), 0, ok)
    ensures !z.encoding ==> z.buf[..] == old(z.buf[..]) && z.Got(ParseExportHead(old(z.Left())), ok, (d, g))
  {
    g := groups;
    ghost var c0, e1, t1, e2 := z.Out(), EncBytes(dir), PadLength(|dir|), EncGroups(groups);
    ok, d := z.Str(dir);
    if !ok || !z.track.OnTrack? {
      if z.encoding {
        NotAppended(c0, z.Out(), e1, t1, e2, 0, ok);
      }
      return;
    }
    ghost var c1 := z.Out();
    ok, g := GroupList(z, groups);
    if z.encoding {
      AppendedThen(c0, c1, z.Out(), e1, t1, e2, 0, ok);
    }
  }

  /** zdr_exports */
  method ExportList(z: Stream, x: Exports) returns (ok: bool, v: Exports)
    requires z.Ready()
    modifies z`pos, z`track, z.buf
    ensures z.Valid()
    ensures z.encoding ==> v == x && Appended(old(z.Out()), z.Out(), EncExports(x), 0, ok)
    ensures !z.encoding ==> z.buf[..] == old(z.buf[..]) && z.Got(ParseExports(old(z.Left())), ok, v)
    decreases if z.encoding then ExportsSize(x) else |z.Left()|, 1
  {
    var more: uint32;
    ok, more := z.UInt(if x.NoExports? then 0 else 1);
    if !ok || more == 0 {
      return ok, if z.encoding then x else NoExports;
    }
    ghost var c1 := z.Out();
    ok, v := ExportNode(z, x);
    if z.encoding {
      AppendedThen(old(z.Out()), c1, z.Out(), Be32(1), 0, EncExportNode(x), 0, ok);
    }
  }

  /** zdr_exportnode */
  method ExportNode(z: Stream, x: Exports) returns (ok: bool, v: Exports)
    requires z.Ready() && (z.encoding ==> x.Export?)
    modifies z`pos, z`track, z.buf
    ensures z.Valid()
    ensures z.encoding ==> v == x && Appended(old(z.Out()), z.Out(), EncExportNode(x), 0, ok)
    ensures !z.encoding ==> z.buf[..] == old(z.buf[..]) && z.Got(ParseExportNode(old(z.Left())), ok, v)
    decreases if z.encoding then ExportsSize(x) else |z.Left()|, 0
  {
    var node := if z.encoding then x else Export([], NoGroups, NoExports);
    ghost var c0, e1, e2 := z.Out(), EncBytes(node.dir) + EncGroups(node.groups), EncExports(node.next);
    Assoc(EncBytes(node.dir), EncGroups(node.groups), e2);
    var dir: Text, groups: Groups, next: Exports;
    ok, dir, groups := ExportHead(z, node.dir, node.groups);
    if !ok || !z.track.OnTrack? {
      if z.encoding {
        NotAppended(c0, z.Out(), e1, 0, e2, 0, ok);
      }
      return ok, node;
    }
    ghost var c1 := z.Out();
    ok, next := ExportList(z, node.next);
    if z.encoding {
      AppendedThen(c0, c1, z.Out(), e1, 0, e2, 0, ok);
    }
    v := Export(dir, groups, next);
  }

  /** Host and directory of a mount. */
  method MountHead(z: Stream, host: Text, dir: Text) returns (ok: bool, h: Text, d: Text)
    requires z.Ready()
    modifies z`pos, z`track, z.buf
    ensures z.Valid()
    ensures z.encoding ==>
              h == host && d == dir &&
              Appended(old(z.Out()), z.Out(), EncBytes(host) + EncBytes(dir), PadLength(|dir|), ok)
    ensures !z.encoding ==> z.buf[..] == old(z.buf[..]) && z.Got(ParseMountHead(old(z.Left())), ok, (h, d))
  {
    d := dir;
    ghost var c0, e1, t1, e2, t2 := z.Out(), EncBytes(host), PadLength(|host|), EncBytes(dir), PadLength(|dir|);
    ok, h := z.Str(host);
    if !ok || !z.track.OnTrack? {
      if z.encoding {
        NotAppended(c0, z.Out(), e1, t1, e2, t2, ok);
      }
      return;
    }
    ghost var c1 := z.Out();
    ok, d := z.Str(dir);
    if z.encoding {
      AppendedThen(c0, c1, z.Out(), e1, t1, e2, t2, ok);
    }
  }

  /** zdr_mountlist */
  method MountList(z: Stream, m: Mounts) returns (ok: bool, v: Mounts)
    requires z.Ready()
    modifies z`pos, z`track, z.buf
    ensures z.Valid()
    ensures z.encoding ==> v == m && Appended(old(z.Out()), z.Out(), EncMounts(m), 0, ok)
    ensures !z.encoding ==> z.buf[..] == old(z.buf[..]) && z.Got(ParseMounts(old(z.Left())), ok, v)
    decreases if z.encoding then MountsSize(m) else |z.Left()|, 1
  {
    var more: uint32;
    ok, more := z.UInt(if m.NoMounts? then 0 else 1);
    if !ok || more == 0 {
      return ok, if z.encoding then m else NoMounts;
    }
    ghost var c1 := z.Out();
    ok, v := MountBody(z, m);
    if z.encoding {
      AppendedThen(old(z.Out()), c1, z.Out(), Be32(1), 0, EncMountBody(m), 0, ok);
    }
  }

  /** zdr_mountbody */
  method MountBody(z: Stream, m: Mounts) returns (ok: bool, v: Mounts)
    requires z.Ready() && (z.encoding ==> m.Mount?)
    modifies z`pos, z`track, z.buf
    ensures z.Valid()
    ensures z.encoding ==> v == m && Appended(old(z.Out()), z.Out(), EncMountBody(m), 0, ok)
    ensures !z.encoding ==> z.buf[..] == old(z.buf[..]) && z.Got(ParseMountBody(old(z.Left())), ok, v)
    decreases if z.encoding then MountsSize(m) else |z.Left()|, 0
  {
    var node := if z.encoding then m else Mount([], [], NoMounts);
    ghost var c0, e1, t1 := z.Out(), EncBytes(node.host) + EncBytes(node.dir), PadLength(|node.dir|);
    ghost var e2 := EncMounts(node.next);
    Assoc(EncBytes(node.host), EncBytes(node.dir), e2);
    var host: Text, dir: Text, next: Mounts;
    ok, host, dir := MountHead(z, node.host, node.dir);
    if !ok || !z.track.OnTrack? {
      if z.encoding {
        NotAppended(c0, z.Out(), e1, t1, e2, 0, ok);
      }
      return ok, node;
    }
    ghost var c1 := z.Out();
    ok, next := MountList(z, node.next);
    if z.encoding {
      AppendedThen(c0, c1, z.Out(), e1, t1, e2, 0, ok);
    }
    v := Mount(host, dir, next);
  }

  // Arrays

  function Prepend(xs: seq<uint32>, r: Res<seq<uint32>>): Res<seq<uint32>> {
    match r
    case Fail => Fail
    case Lacks(c) => Lacks(c)
    case Ok(v, rest) => Ok(xs + v, rest)
  }

  lemma {:induction false} IntsAppend(a: seq<uint32>, b: seq<uint32>)
    ensures EncInts(a + b) == EncInts(a) + EncInts(b)
  {
    if |a| == 0 {
      assert a + b == b;
      assert EncInts(a) + EncInts(b) == EncInts(b);
    } else {
      assert (a + b)[1..] == a[1..] + b;
      IntsAppend(a[1..], b);
      Assoc(Be32(a[0]), EncInts(a[1..]), EncInts(b));
    }
  }

  lemma {:induction false} IntsSnoc(a: seq<uint32>, x: uint32)
    ensures EncInts(a + [x]) == EncInts(a) + Be32(x)
  {
    IntsAppend(a, [x]);
    assert EncInts([x]) == Be32(x);
  }

  /** With v read, k elements at s complete the result. */
  ghost predicate Partway(goal: Res<seq<uint32>>, v: seq<uint32>, s: seq<byte>, k: nat) {
    goal == Prepend(v, ParseInts(s, k))
  }

  lemma {:induction false} NoneRead(s: seq<byte>, k: nat)
    ensures Partway(ParseInts(s, k), [], s, k)
  {
    if ParseInts(s, k).Ok? {
      assert [] + ParseInts(s, k).v == ParseInts(s, k).v;
    }
  }

  lemma {:induction false} OneRead(goal: Res<seq<uint32>>, v: seq<uint32>, s: seq<byte>, k: nat)
    requires Partway(goal, v, s, k) && k > 0
    ensures var r := ParseU32(s);
            if r.Ok? then Partway(goal, v + [r.v], r.rest, k - 1) else goal.Fail?
  {
    var r := ParseU32(s);
    if r.Ok? && ParseInts(r.rest, k - 1).Ok? {
      Assoc(v, [r.v], ParseInts(r.rest, k - 1).v);
    }
  }

  lemma {:induction false} AllRead(goal: Res<seq<uint32>>, v: seq<uint32>, s: seq<byte>)
    requires Partway(goal, v, s, 0)
    ensures goal == Ok(v, s)
  {
    assert v + [] == v;
  }

  /** Element i is written after the ones before it, or the array does not fit. */
  lemma {:induction false} ElementAppended(c0: Cursor, c1: Cursor, c2: Cursor, a: seq<uint32>, i: nat, ok: bool)
    requires i < |a| && Appended(c0, c1, EncInts(a[..i]), 0, true) && Appended(c1, c2, Be32(a[i]), 0, ok) && !c2.lost
    ensures if ok then Appended(c0, c2, EncInts(a[..i + 1]), 0, true) else Appended(c0, c2, EncInts(a), 0, false)
  {
    AppendedThen(c0, c1, c2, EncInts(a[..i]), 0, Be32(a[i]), 0, ok);
    IntsSnoc(a[..i], a[i]);
    assert a[..i] + [a[i]] == a[..i + 1];
    if !ok {
      NotAppended(c0, c2, EncInts(a[..i + 1]), 0, EncInts(a[i + 1..]), 0, false);
      IntsAppend(a[..i + 1], a[i + 1..]);
      assert a == a[..i + 1] + a[i + 1..];
    }
  }

  /** n words can be read exactly when their bytes are there. */
  lemma {:induction false} IntsThere(s: seq<byte>, n: nat)
    ensures if 4 * n <= |s| then ParseInts(s, n).Ok? else ParseInts(s, n).Fail?
    decreases n
  {
    if n > 0 && |s| >= 4 {
      IntsThere(s[4..], n - 1);
    }
  }

  /** The array as far as it has been written or read; or all of it. Of the `total` bytes to
      read, the elements have taken four each. */
  ghost predicate Progress(encoding: bool, c0: Cursor, c: Cursor, goal: Res<seq<uint32>>, total: nat, left: seq<byte>,
                           a: seq<uint32>, v: seq<uint32>, n: nat, ok: bool)
    requires |v| <= n && (encoding ==> n == |a|)
  {
    if encoding then
      !c.lost && if ok then v == a[..|v|] && Appended(c0, c, EncInts(v), 0, true) else Appended(c0, c, EncInts(a), 0, false)
    else
      c.bytes == c0.bytes &&
      if ok then Partway(goal, v, left, n - |v|) && |left| + 4 * |v| == total
      else goal.Fail? && total < 4 * (|v| + 1)
  }

  lemma {:induction false} Advance(encoding: bool, c0: Cursor, c: Cursor, d: Cursor, goal: Res<seq<uint32>>, total: nat,
                                   s: seq<byte>, t: seq<byte>, a: seq<uint32>, v: seq<uint32>, n: nat, x: uint32, ok: bool)
    requires |v| < n && (encoding ==> n == |a|) && Progress(encoding, c0, c, goal, total, s, a, v, n, true)
    requires encoding ==> x == a[|v|] && Appended(c, d, Be32(x), 0, ok) && !d.lost
    requires !encoding ==> d.bytes == c.bytes && Read(c.size, ParseU32(s), ok, x, t, false)
    ensures Progress(encoding, c0, d, goal, total, t, a, if ok then v + [x] else v, n, ok)
    ensures !encoding && ok ==> 4 * (|v| + 1) <= total
  {
    if encoding {
      ElementAppended(c0, c, d, a, |v|, ok);
      assert a[..|v| + 1] == v + [x];
    } else {
      OneRead(goal, v, s, n - |v|);
    }
  }

  /** The loop over elements has got on, or has stored one behind their memory. */
  ghost predicate Looping(z: Stream, c0: Cursor, goal: Res<seq<uint32>>, total: nat, a: seq<uint32>, v: seq<uint32>,
                          n: nat, room: nat, ok: bool)
    requires |v| <= n && (z.encoding ==> n == |a|)
    reads z, z.buf
  {
    && z.Valid() && (!z.encoding ==> |v| <= room && z.buf[..] == c0.bytes)
    && if z.track.OnTrack? then Progress(z.encoding, c0, z.Out(), goal, total, z.Left(), a, v, n, ok)
       else !z.encoding && z.track == Behind(room) && room < n && 4 * (room + 1) <= total
  }

  method Element(z: Stream, a: seq<uint32>, v: seq<uint32>, n: nat, room: nat,
                 ghost c0: Cursor, ghost goal: Res<seq<uint32>>, ghost total: nat)
    returns (ok: bool, w: seq<uint32>)
    requires |v| < n && (z.encoding ==> n == |a|)
    requires Looping(z, c0, goal, total, a, v, n, room, true) && z.track.OnTrack?
    modifies z`pos, z`track, z.buf
    ensures |w| == |v| + if ok && z.track.OnTrack? then 1 else 0
    ensures Looping(z, c0, goal, total, a, w, n, room, ok)
  {
    ghost var c, s := z.Out(), z.Left();
    var x: uint32;
    ok, x := z.UInt(if z.encoding then a[|v|] else 0);
    Advance(z.encoding, c0, c, z.Out(), goal, total, s, z.Left(), a, v, n, x, ok);
    w := v;
    if ok && !z.encoding && |v| == room {
      z.track := Behind(|v|);
    } else if ok {
      w := v + [x];
    }
  }

  /** The elements of an array, one after the other. The ones that are read are stored in
      memory with room for `room` of them. */
  method IntElements(z: Stream, a: seq<uint32>, n: nat, room: nat) returns (ok: bool, v: seq<uint32>)
    requires z.Ready() && (z.encoding ==> n == |a| && z.pos <= z.size)
    modifies z`pos, z`track, z.buf
    ensures z.Valid()
    ensures z.encoding ==> z.track.OnTrack? && (ok ==> v == a) && Appended(old(z.Out()), z.Out(), EncInts(a), 0, ok)
    ensures !z.encoding ==>
              && z.buf[..] == old(z.buf[..])
              && z.track == (if room < n && 4 * (room + 1) <= |old(z.Left())| then Behind(room) else OnTrack)
              && (z.track.OnTrack? ==> Read(z.size, ParseInts(old(z.Left()), n), ok, v, z.Left(), false))
  {
    ghost var c0, goal, total := z.Out(), ParseInts(z.Left(), n), |z.Left()|;
    NoneRead(z.Left(), n);
    ok, v := true, [];
    while ok && z.track.OnTrack? && |v| < n
      invariant |v| <= n && (ok || |v| < n) && Looping(z, c0, goal, total, a, v, n, room, ok)
      decreases z.track.OnTrack?, n - |v|, ok
    {
      ok, v := Element(z, a, v, n, room, c0, goal, total);
    }
    if !z.track.OnTrack? || !ok {
    } else if z.encoding {
      assert a[..n] == a;
    } else {
      AllRead(goal, v, z.Left());
    }
  }

  /** What becomes of an array's count. */
  lemma {:induction false} ArrayReads(s: seq<byte>, t: seq<byte>, n: uint32, size: nat)
    requires ParseU32(s) == Ok(n, t) && n < TWO31 && |t| <= size < TWO31
    ensures ParseArray(s) == (if 4 * n <= |t| then ParseInts(t, n) else Lacks(OfWords(n, |t|)))
    ensures 4 * n <= |t| ==> ParseInts(t, n).Ok? && n <= Room(n)
    ensures 4 * n > |t| ==> ParseInts(t, n).Fail?
    ensures 4 * n > |t| ==> (Misleads(size, OfWords(n, |t|)) <==> Room(n) < n && 4 * (Room(n) + 1) <= |t|)
  {
    IntsThere(t, n);
  }

  /** libnfs_zdr_array of zdr_int. The elements get 4 n bytes in 32-bit arithmetic, and the
      loop compares its index with the count as a signed number: for a count of 2^31 or more
      it succeeds and reads no element. */
  method IntArray(z: Stream, a: seq<uint32>) returns (ok: bool, v: seq<uint32>)
    requires z.Ready() && |a| < TWO31
    modifies z`pos, z`track, z.buf
    ensures z.Valid() && |v| < TWO31
    ensures z.encoding ==> z.track.OnTrack? && (ok ==> v == a) && Appended(old(z.Out()), z.Out(), EncArray(a), 0, ok)
    ensures !z.encoding ==> z.buf[..] == old(z.buf[..]) && z.Got(ParseArray(old(z.Left())), ok, v)
    ensures !z.encoding && ParseU32(old(z.Left())).Ok? ==>
              var n, left := ParseU32(old(z.Left())).v, |ParseU32(old(z.Left())).rest|;
              && (n >= TWO31 ==> ok && v == [] && z.track == NoElements)
              && (n < TWO31 ==> z.track == if Stores(n, left) > Room(n) then Behind(Room(n)) else OnTrack)
  {
    var n: uint32;
    ok, n := z.UInt(|a|);
    if !ok {
      return false, [];
    }
    if n >= TWO31 {
      z.track := NoElements;
      return true, [];
    }
    ghost var c1 := z.Out();
    if !z.encoding {
      ArrayReads(old(z.Left()), z.Left(), n, z.size);
    }
    ok, v := IntElements(z, a, n, Room(n));
    if z.encoding {
      AppendedThen(old(z.Out()), c1, z.Out(), Be32(|a|), 0, EncInts(a), 0, ok);
    }
    if !ok || !z.track.OnTrack? {
      v := [];
    }
  }

  /** A count of 2^30 and one word: its element is stored behind memory of no bytes. */
  method ElementBehindMemory(x: uint32) returns (element: nat)
    ensures Room(0x4000_0000) == 0 && element == 0
  {
    U32RoundTrip(0x4000_0000, Be32(x));
    var z := Reader(Be32(0x4000_0000) + Be32(x));
    var ok: bool, v: seq<uint32>;
    ok, v := IntArray(z, []);
    element := z.track.element;
  }

  /** zdr_mountres3_ok */
  method MountInfo(z: Stream, handle: Opaque, flavors: seq<uint32>) returns (ok: bool, h: Opaque, f: seq<uint32>)
    requires z.Ready() && |flavors| < TWO31
    modifies z`pos, z`track, z.buf
    ensures z.Valid() && |f| < TWO31
    ensures z.encoding ==>
              (ok ==> h == handle && f == flavors) &&
              Appended(old(z.Out()), z.Out(), EncBytes(handle) + EncArray(flavors), 0, ok)
    ensures !z.encoding ==> z.buf[..] == old(z.buf[..]) && z.Got(ParseInfo(old(z.Left())), ok, (h, f))
  {
    f := flavors;
    ghost var c0, e1, t1, e2 := z.Out(), EncBytes(handle), PadLength(|handle|), EncArray(flavors);
    ok, h := z.Counted(handle);
    if !ok || !z.track.OnTrack? {
      if z.encoding {
        NotAppended(c0, z.Out(), e1, t1, e2, 0, ok);
      }
      return;
    }
    ghost var c1 := z.Out();
    ok, f := IntArray(z, flavors);
    if z.encoding {
      AppendedThen(c0, c1, z.Out(), e1, t1, e2, 0, ok);
    }
  }

  /** zdr_mountres3 */
  method MountReply(z: Stream, m: MountRes) returns (ok: bool, v: MountRes)
    requires z.Ready() && ResultsOk(MountResult(m))
    modifies z`pos, z`track, z.buf
    ensures z.Valid()
    ensures z.encoding ==> (ok ==> v == m) && Appended(old(z.Out()), z.Out(), EncMountRes(m), 0, ok)
    ensures !z.encoding ==> z.buf[..] == old(z.buf[..]) && z.Got(ParseMountRes(old(z.Left())), ok, v)
  {
    var status: uint32;
    ok, status := z.UInt(if m.MountOk? then 0 else m.status);
    if !ok || status != 0 {
      return ok, MountError(status);
    }
    var handle: Opaque, flavors := [], [];
    if z.encoding {
      handle, flavors := m.handle, m.flavors;
    }
    ghost var c1, e := z.Out(), EncBytes(handle) + EncArray(flavors);
    ok, handle, flavors := MountInfo(z, handle, flavors);
    if z.encoding {
      AppendedThen(old(z.Out()), c1, z.Out(), Be32(0), 0, e, 0, ok);
    }
    v := MountOk(handle, flavors);
  }

  // Messages

  method UPair(z: Stream, a: uint32, b: uint32) returns (ok: bool, x: uint32, y: uint32)
    requires z.Ready()
    modifies z`pos, z.buf
    ensures z.Ready() && (ok ==> z.pos <= z.size)
    ensures z.encoding ==>
              (ok ==> x == a && y == b) && Appended(old(z.Out()), z.Out(), EncPair(a, b), 0, ok)
    ensures !z.encoding ==> z.buf[..] == old(z.buf[..]) && z.Got(ParsePair(old(z.Left())), ok, (x, y))
  {
    y := b;
    ok, x := z.UInt(a);
    if !ok {
      return;
    }
    ghost var c1 := z.Out();
    ok, y := z.UInt(b);
    if z.encoding {
      AppendedThen(old(z.Out()), c1, z.Out(), Be32(a), 0, Be32(b), 0, ok);
    }
  }

  /** libnfs_opaque_auth */
  method AuthField(z: Stream, a: Auth) returns (ok: bool, v: Auth)
    requires z.Ready()
    modifies z`pos, z`track, z.buf
    ensures z.Valid()
    ensures z.encoding ==> (ok ==> v == a) && Appended(old(z.Out()), z.Out(), EncAuth(a), PadLength(|a.body|), ok)
    ensures !z.encoding ==> z.buf[..] == old(z.buf[..]) && z.Got(ParseAuth(old(z.Left())), ok, v)
  {
    v := a;
    var flavor: uint32, body: Opaque;
    ok, flavor := z.UInt(a.flavor);
    if !ok {
      return;
    }
    ghost var c1 := z.Out();
    ok, body := z.Counted(a.body);
    if z.encoding {
      AppendedThen(old(z.Out()), c1, z.Out(), Be32(a.flavor), 0, EncBytes(a.body), PadLength(|a.body|), ok);
    }
    v := Auth(flavor, body);
  }

  method AuthPair(z: Stream, a: Auth, b: Auth) returns (ok: bool, x: Auth, y: Auth)
    requires z.Ready()
    modifies z`pos, z`track, z.buf
    ensures z.Valid()
    ensures z.encoding ==>
              (ok ==> x == a && y == b) &&
              Appended(old(z.Out()), z.Out(), EncAuth(a) + EncAuth(b), PadLength(|b.body|), ok)
    ensures !z.encoding ==> z.buf[..] == old(z.buf[..]) && z.Got(ParseAuths(old(z.Left())), ok, (x, y))
  {
    y := b;
    ghost var c0, e1, t1, e2, t2 := z.Out(), EncAuth(a), PadLength(|a.body|), EncAuth(b), PadLength(|b.body|);
    ok, x := AuthField(z, a);
    if !ok || !z.track.OnTrack? {
      if z.encoding {
        NotAppended(c0, z.Out(), e1, t1, e2, t2, ok);
      }
      return;
    }
    ghost var c1 := z.Out();
    ok, y := AuthField(z, b);
    if z.encoding {
      AppendedThen(c0, c1, z.Out(), e1, t1, e2, t2, ok);
    }
  }

  /** libnfs_rpc_call_body */
  method CallFields(z: Stream, c: CallBody) returns (ok: bool, v: CallBody)
    requires z.Ready()
    modifies z`pos, z`track, z.buf
    ensures z.Valid()
    ensures z.encoding ==> (ok ==> v == c) && Appended(old(z.Out()), z.Out(), EncCall(c), PadLength(|c.verf.body|), ok)
    ensures !z.encoding ==> z.buf[..] == old(z.buf[..]) && z.Got(ParseCall(old(z.Left())), ok, v)
  {
    v := c;
    ghost var c0, e1, e2 := z.Out(), EncPair(c.rpcvers, c.prog), EncPair(c.vers, c.proc);
    ghost var e3, t := EncAuth(c.cred) + EncAuth(c.verf), PadLength(|c.verf.body|);
    var rpcvers: uint32, prog: uint32, vers: uint32, proc: uint32, cred: Auth, verf: Auth;
    ok, rpcvers, prog := UPair(z, c.rpcvers, c.prog);
    if !ok {
      if z.encoding {
        NotAppended(c0, z.Out(), e1, 0, e2 + e3, t, ok);
      }
      return;
    }
    ghost var c1 := z.Out();
    ok, vers, proc := UPair(z, c.vers, c.proc);
    if !ok {
      if z.encoding {
        SecondNotAppended(c0, c1, z.Out(), e1, 0, e2, 0, e3, t, ok);
      }
      return;
    }
    ghost var c2 := z.Out();
    ok, cred, verf := AuthPair(z, c.cred, c.verf);
    if z.encoding {
      AppendedThree(c0, c1, c2, z.Out(), e1, 0, e2, 0, e3, t, ok);
    }
    v := CallBody(rpcvers, prog, vers, proc, cred, verf);
  }

  /** The routine that the caller named for the results. */
  method ResultsField(z: Stream, r: Results, k: Kind) returns (ok: bool, v: Results)
    requires z.Ready() && (z.encoding ==> ResultsOk(r) && k == KindOf(r) && z.pos <= z.size)
    modifies z`pos, z`track, z.buf
    ensures z.Valid()
    ensures z.encoding ==> (ok ==> v == r) && Appended(old(z.Out()), z.Out(), EncResults(r), 0, ok)
    ensures !z.encoding ==> z.buf[..] == old(z.buf[..]) && z.Got(ParseResults(old(z.Left()), k), ok, v)
  {
    match k
    case VoidKind =>
      assert z.encoding ==> z.buf[..][..z.pos] + [] == z.buf[..][..z.pos];
      return true, Nothing;
    case ExportsKind =>
      var x: Exports;
      ok, x := ExportList(z, if z.encoding then r.exports else NoExports);
      return ok, ExportResults(x);
    case MountsKind =>
      var m: Mounts;
      ok, m := MountList(z, if z.encoding then r.mounts else NoMounts);
      return ok, MountsResults(m);
    case MountResKind =>
      var m: MountRes;
      ok, m := MountReply(z, if z.encoding then r.res else MountError(1));
      return ok, MountResult(m);
  }

  function AcceptStat(a: AcceptData): uint32 {
    match a
    case Success(_) => SUCCESS
    case ProgMismatch(_, _) => PROG_MISMATCH
    case OtherStat(stat) => stat
  }

  /** libnfs_accepted_reply, after the verifier */
  method AcceptFields(z: Stream, a: AcceptData, k: Kind) returns (ok: bool, v: AcceptData)
    requires z.Ready() && (z.encoding ==> AcceptOk(a) && (a.Success? ==> k == KindOf(a.results)))
    modifies z`pos, z`track, z.buf
    ensures z.Valid()
    ensures z.encoding ==> (ok ==> v == a) && Appended(old(z.Out()), z.Out(), EncAccept(a), 0, ok)
    ensures !z.encoding ==> z.buf[..] == old(z.buf[..]) && z.Got(ParseAccept(old(z.Left()), k), ok, v)
  {
    var stat: uint32;
    v := a;
    ok, stat := z.UInt(AcceptStat(a));
    if !ok {
      return;
    }
    ghost var c1 := z.Out();
    if stat == SUCCESS {
      var r: Results;
      ok, r := ResultsField(z, if z.encoding then a.results else Nothing, k);
      v := Success(r);
      if z.encoding {
        AppendedThen(old(z.Out()), c1, z.Out(), Be32(SUCCESS), 0, EncResults(a.results), 0, ok);
      }
    } else if stat == PROG_MISMATCH {
      var low: uint32, high: uint32 := 0, 0;
      if z.encoding {
        low, high := a.low, a.high;
      }
      ok, low, high := UPair(z, low, high);
      v := ProgMismatch(low, high);
      if z.encoding {
        AppendedThen(old(z.Out()), c1, z.Out(), Be32(PROG_MISMATCH), 0, EncPair(a.low, a.high), 0, ok);
      }
    } else {
      v := OtherStat(stat);
    }
  }

  function RejectStat(r: Rejection): uint32 {
    match r
    case RpcMismatch(_, _) => RPC_MISMATCH
    case AuthFailed(_) => AUTH_ERROR
    case OtherReject(stat) => stat
  }

  /** libnfs_rejected_reply */
  method RejectFields(z: Stream, r: Rejection) returns (ok: bool, v: Rejection)
    requires z.Ready()
    requires z.encoding && r.OtherReject? ==> r.stat != RPC_MISMATCH && r.stat != AUTH_ERROR
    modifies z`pos, z`track, z.buf
    ensures z.Valid()
    ensures z.encoding ==> (ok ==> v == r) && Appended(old(z.Out()), z.Out(), EncReject(r), 0, ok)
    ensures !z.encoding ==> z.buf[..] == old(z.buf[..]) && z.Got(ParseReject(old(z.Left())), ok, v)
  {
    var stat: uint32;
    v := r;
    ok, stat := z.UInt(RejectStat(r));
    if !ok {
      return;
    }
    ghost var c1 := z.Out();
    if stat == RPC_MISMATCH {
      var low: uint32, high: uint32 := 0, 0;
      if z.encoding {
        low, high := r.low, r.high;
      }
      ok, low, high := UPair(z, low, high);
      v := RpcMismatch(low, high);
      if z.encoding {
        AppendedThen(old(z.Out()), c1, z.Out(), Be32(RPC_MISMATCH), 0, EncPair(r.low, r.high), 0, ok);
      }
    } else if stat == AUTH_ERROR {
      var why: uint32;
      ok, why := z.UInt(if z.encoding then r.why else 0);
      v := AuthFailed(why);
      if z.encoding {
        AppendedThen(old(z.Out()), c1, z.Out(), Be32(AUTH_ERROR), 0, Be32(r.why), 0, ok);
      }
    } else {
      v := OtherReject(stat);
    }
  }

  lemma {:induction false} NoVerifierRead(size: nat, s: seq<byte>, k: Kind, ok: bool, x: Auth, y: AcceptData,
                                          left: seq<byte>, lost: bool)
    requires Read(size, ParseAuth(s), ok, x, left, lost) && (!ok || lost)
    ensures Read(size, ParseAccepted(s, k), ok, (x, y), left, lost)
  {
  }

  lemma {:induction false} AcceptedRead(size: nat, s: seq<byte>, k: Kind, x: Auth, s1: seq<byte>, ok: bool, y: AcceptData,
                                        left: seq<byte>, lost: bool)
    requires Read(size, ParseAuth(s), true, x, s1, false) && Read(size, ParseAccept(s1, k), ok, y, left, lost)
    ensures Read(size, ParseAccepted(s, k), ok, (x, y), left, lost)
  {
  }

  /** libnfs_accepted_reply */
  method AcceptedReply(z: Stream, verf: Auth, data: AcceptData, k: Kind) returns (ok: bool, x: Auth, y: AcceptData)
    requires z.Ready() && (z.encoding ==> AcceptOk(data) && (data.Success? ==> k == KindOf(data.results)))
    modifies z`pos, z`track, z.buf
    ensures z.Valid()
    ensures z.encoding ==>
              (ok ==> x == verf && y == data) &&
              Appended(old(z.Out()), z.Out(), EncAuth(verf) + EncAccept(data), 0, ok)
    ensures !z.encoding ==> z.buf[..] == old(z.buf[..]) && z.Got(ParseAccepted(old(z.Left()), k), ok, (x, y))
  {
    y := data;
    ghost var s, c0, e1, t1 := z.Left(), z.Out(), EncAuth(verf), PadLength(|verf.body|);
    ok, x := AuthField(z, verf);
    if !ok || !z.track.OnTrack? {
      if z.encoding {
        NotAppended(c0, z.Out(), e1, t1, EncAccept(data), 0, ok);
      } else {
        NoVerifierRead(z.size, s, k, ok, x, y, z.Left(), !z.track.OnTrack?);
      }
      return;
    }
    ghost var c1, s1 := z.Out(), z.Left();
    ok, y := AcceptFields(z, data, k);
    if z.encoding {
      AppendedThen(c0, c1, z.Out(), e1, t1, EncAccept(data), 0, ok);
    } else {
      AcceptedRead(z.size, s, k, x, s1, ok, y, z.Left(), !z.track.OnTrack?);
    }
  }

  ghost predicate ReplyOk(r: ReplyBody, k: Kind) {
    (r.Accepted? ==> AcceptOk(r.data) && (r.data.Success? ==> k == KindOf(r.data.results))) &&
    (r.Denied? && r.why.OtherReject? ==> r.why.stat != RPC_MISMATCH && r.why.stat != AUTH_ERROR)
  }

  /** The accepted or the denied part of a reply. */
  method VerdictFields(z: Stream, r: ReplyBody, k: Kind, stat: uint32) returns (ok: bool, v: ReplyBody)
    requires z.Ready() && (z.encoding ==> ReplyOk(r, k) && stat == ReplyStat(r))
    modifies z`pos, z`track, z.buf
    ensures z.Valid()
    ensures z.encoding ==> (ok ==> v == r) && Appended(old(z.Out()), z.Out(), EncVerdict(r), 0, ok)
    ensures !z.encoding ==> z.buf[..] == old(z.buf[..]) && z.Got(ParseVerdict(stat, old(z.Left()), k), ok, v)
  {
    if stat == MSG_ACCEPTED {
      var verf, data := Auth(0, []), OtherStat(1);
      if z.encoding {
        verf, data := r.verf, r.data;
      }
      ok, verf, data := AcceptedReply(z, verf, data, k);
      v := Accepted(verf, data);
    } else if stat == MSG_DENIED {
      var why := if z.encoding then r.why else OtherReject(2);
      ok, why := RejectFields(z, why);
      v := Denied(why);
    } else {
      ok, v := false, r;
    }
  }

  /** libnfs_rpc_reply_body */
  method ReplyFields(z: Stream, r: ReplyBody, k: Kind) returns (ok: bool, v: ReplyBody)
    requires z.Ready() && (z.encoding ==> ReplyOk(r, k))
    modifies z`pos, z`track, z.buf
    ensures z.Valid()
    ensures z.encoding ==> (ok ==> v == r) && Appended(old(z.Out()), z.Out(), EncReply(r), 0, ok)
    ensures !z.encoding ==> z.buf[..] == old(z.buf[..]) && z.Got(ParseReply(old(z.Left()), k), ok, v)
  {
    var stat: uint32;
    v := r;
    ok, stat := z.UInt(ReplyStat(r));
    if !ok {
      return;
    }
    ghost var c1 := z.Out();
    ok, v := VerdictFields(z, r, k, stat);
    if z.encoding {
      AppendedThen(old(z.Out()), c1, z.Out(), Be32(ReplyStat(r)), 0, EncVerdict(r), 0, ok);
    }
  }

  ghost predicate Sendable(m: Msg, k: Kind) {
    MsgOk(m) && (m.Reply? ==> ReplyOk(m.reply, k))
  }

  /** How much of a message is padding that is not compared with the size of the buffer: the
      verifier's, which ends a call. */
  function Slack(m: Msg): nat {
    if m.Call? then PadLength(|m.call.verf.body|) else 0
  }

  /** The message passes the routines' tests at p in a buffer of the given size. */
  ghost predicate Fits(size: nat, p: nat, m: Msg) {
    MsgOk(m) && p + |EncMsg(m)| <= size + Slack(m)
  }

  lemma {:induction false} AlignedBelow(a: nat, b: nat)
    requires Aligned(a) && Aligned(b) && a < b + 4
    ensures a <= b
  {
    if a >= 4 && b >= 4 {
      AlignedBelow(a - 4, b - 4);
    }
  }

  lemma {:induction false} CallLength(c: CallBody)
    ensures |EncCall(c)| == 32 + Round4(|c.cred.body|) + Round4(|c.verf.body|) && Aligned(|EncCall(c)|)
  {
    AlignedSum(Round4(|c.cred.body|), Round4(|c.verf.body|));
    AlignedSum(Round4(|c.cred.body|) + Round4(|c.verf.body|), 32);
  }

  /** A call whose verifier fills the buffer, so that its padding lies behind it. */
  function Overflowing(size: nat): (m: Msg)
    requires 40 <= size < TWO31
    ensures m.Call?
  {
    var none, body: Opaque := [], seq(size - 40, _ => 0);
    Call(0, CallBody(2, 0, 0, 0, Auth(0, none), Auth(0, body)))
  }

  /** The call or the reply in a message. */
  method BodyFields(z: Stream, m: Msg, k: Kind, xid: uint32, direction: uint32) returns (ok: bool, v: Msg)
    requires z.Ready() && (z.encoding ==> Sendable(m, k) && xid == m.xid && direction == Direction(m))
    modifies z`pos, z`track, z.buf
    ensures z.Valid()
    ensures z.encoding ==> (ok ==> v == m) && Appended(old(z.Out()), z.Out(), EncBody(m), Slack(m), ok)
    ensures !z.encoding ==> z.buf[..] == old(z.buf[..]) && z.Got(ParseBody(xid, direction, old(z.Left()), k), ok, v)
  {
    if direction == CALL {
      var c := if z.encoding then m.call else CallBody(0, 0, 0, 0, Auth(0, []), Auth(0, []));
      ok, c := CallFields(z, c);
      v := Call(xid, c);
    } else if direction == REPLY {
      var r := if z.encoding then m.reply else Denied(OtherReject(2));
      ok, r := ReplyFields(z, r, k);
      v := Reply(xid, r);
    } else {
      ok, v := false, m;
    }
  }

  /** libnfs_rpc_msg: a message is written exactly when it fits, and read as the format says
      up to a count that leads it astray. */
  method Message(z: Stream, m: Msg, k: Kind) returns (ok: bool, v: Msg)
    requires z.Ready() && (z.encoding ==> Sendable(m, k))
    modifies z`pos, z`track, z.buf
    ensures z.Valid()
    ensures z.encoding ==> (ok ==> v == m) && Appended(old(z.Out()), z.Out(), EncMsg(m), Slack(m), ok)
    ensures !z.encoding ==> z.buf[..] == old(z.buf[..]) && z.Got(ParseMsg(old(z.Left()), k), ok, v)
  {
    v := m;
    ghost var c0, first := z.Out(), EncPair(m.xid, Direction(m));
    var xid: uint32, direction: uint32;
    ok, xid, direction := UPair(z, m.xid, Direction(m));
    if !ok {
      if z.encoding {
        NotAppended(c0, z.Out(), first, 0, EncBody(m), Slack(m), ok);
      }
      return;
    }
    ghost var c1 := z.Out();
    ok, v := BodyFields(z, m, k, xid, direction);
    if z.encoding {
      AppendedThen(c0, c1, z.Out(), first, 0, EncBody(m), Slack(m), ok);
    }
  }

  /** No message leaves the buffer, padding and all, exactly when the size is a multiple of
      four, or too small for any call. */
  lemma {:induction false} MessagesStayInside(size: nat)
    requires size < TWO31
    ensures (forall p: nat, m: Msg :: Aligned(p) && Fits(size, p, m) ==> p + |EncMsg(m)| <= size) <==>
            size % 4 == 0 || size < 40
  {
    AlignedIsMultiple(size);
    if size % 4 == 0 || size < 40 {
      forall p: nat, m: Msg | Aligned(p) && Fits(size, p, m) ensures p + |EncMsg(m)| <= size {
        if m.Call? {
          CallLength(m.call);
          if Aligned(size) {
            AlignedSum(p, |EncMsg(m)|);
            AlignedBelow(p + |EncMsg(m)|, size);
          }
        }
      }
    } else {
      var m := Overflowing(size);
      CallLength(m.call);
      AlignedSum(40, Round4(size - 40));
      assert Aligned(0) && Fits(size, 0, m);
    }
  }

  lemma {:induction false} WrittenFirst(b: seq<byte>, p: nat, e: seq<byte>)
    requires p == |e| <= |b| && b[..p] == [] + e
    ensures b == e + b[p..] && Drop(b, 0) == b
  {
    assert [] + e == e;
    assert b == b[..p] + b[p..];
    assert b[0..] == b;
  }

  /** A message written to a buffer and read from it again comes back whole, and what is left
      to read is what follows it. */
  method WriteThenRead(m: Msg, k: Kind, buf: array<byte>, size: nat) returns (ok: bool, v: Msg, ghost left: seq<byte>)
    requires Sendable(m, k) && Round4(size) <= buf.Length < TWO31
    modifies buf
    ensures |EncMsg(m)| < TWO31 ==> (ok <==> Fits(size, 0, m))
    ensures ok ==> Fits(size, 0, m) && v == m && buf[..] == EncMsg(m) + left
  {
    left := [];
    var w := new Stream(true, buf, size);
    ok, v := Message(w, m, k);
    if !ok || !w.track.OnTrack? {
      return false, v, [];
    }
    ghost var b, e := buf[..], EncMsg(m);
    WrittenFirst(b, w.pos, e);
    left := b[w.pos..];
    MsgRoundTrip(m, k, left);
    var r := new Stream(false, buf, buf.Length);
    ok, v := Message(r, m, k);
    left := r.Left();
  }
}
