/** The ZDR routines: each one writes or reads at a cursor in one buffer, depending on the
    direction the stream was created for. */
module ZdrStreams {
  import opened Bytes
  import opened Zdr

  // Writing

  /** The memory that starts with a buffer of the given size, the position in it, and whether
      that has gone astray. */
  datatype Cursor = Cursor(size: nat, bytes: seq<byte>, pos: nat, lost: bool)

  /** Encoding e at a, where the last `slack` bytes of e are padding that is not compared with
      the size: the bytes are appended exactly when the rest of them fit, and no other byte of
      the memory changes; unless the position goes astray, for which 2^31 bytes are needed. */
  ghost predicate Appended(a: Cursor, b: Cursor, e: seq<byte>, slack: nat, ok: bool) {
    && !a.lost && b.size == a.size
    && if b.lost then a.pos + |e| >= TWO31
       else
         && |b.bytes| == |a.bytes| && a.pos <= |a.bytes| && b.bytes[..a.pos] == a.bytes[..a.pos]
         && (ok <==> a.pos + |e| <= a.size + slack)
         && (ok ==>
               b.pos == a.pos + |e| <= |a.bytes| &&
               b.bytes[..b.pos] == a.bytes[..a.pos] + e && b.bytes[b.pos..] == a.bytes[b.pos..])
  }

  lemma {:induction false} AppendedThen(a: Cursor, b: Cursor, c: Cursor,
                                        e1: seq<byte>, t1: nat, e2: seq<byte>, t2: nat, ok: bool)
    requires Appended(a, b, e1, t1, true) && Appended(b, c, e2, t2, ok)
    ensures Appended(a, c, e1 + e2, t2, ok)
  {
    if !c.lost {
      assert c.bytes[..a.pos] == c.bytes[..b.pos][..a.pos];
      assert b.bytes[..a.pos] == b.bytes[..b.pos][..a.pos];
      if ok {
        Assoc(a.bytes[..a.pos], e1, e2);
        var k := c.pos - b.pos;
        assert b.bytes[c.pos..] == b.bytes[b.pos..][k..] && a.bytes[c.pos..] == a.bytes[b.pos..][k..];
      }
    }
  }

  lemma {:induction false} NotAppended(a: Cursor, b: Cursor, e1: seq<byte>, t1: nat, e2: seq<byte>, t2: nat, ok: bool)
    requires Appended(a, b, e1, t1, ok) && (!ok || b.lost) && t2 <= t1 + |e2|
    ensures Appended(a, b, e1 + e2, t2, ok)
  {
  }

  lemma {:induction false} SecondNotAppended(a: Cursor, b: Cursor, c: Cursor, e1: seq<byte>, t1: nat,
                                             e2: seq<byte>, t2: nat, e3: seq<byte>, t3: nat, ok: bool)
    requires Appended(a, b, e1, t1, true) && Appended(b, c, e2, t2, ok) && (!ok || c.lost) && t3 <= t2 + |e3|
    ensures Appended(a, c, e1 + (e2 + e3), t3, ok)
  {
    NotAppended(b, c, e2, t2, e3, t3, ok);
    AppendedThen(a, b, c, e1, t1, e2 + e3, t3, ok);
  }

  lemma {:induction false} AppendedThree(a: Cursor, b: Cursor, c: Cursor, d: Cursor, e1: seq<byte>, t1: nat,
                                         e2: seq<byte>, t2: nat, e3: seq<byte>, t3: nat, ok: bool)
    requires Appended(a, b, e1, t1, true) && Appended(b, c, e2, t2, true) && Appended(c, d, e3, t3, ok)
    ensures Appended(a, d, e1 + (e2 + e3), t3, ok)
  {
    AppendedThen(b, c, d, e2, t2, e3, t3, ok);
    AppendedThen(a, b, d, e1, t1, e2 + e3, t3, ok);
  }

  lemma {:induction false} RoundFits(p: nat, n: nat, size: nat)
    requires Aligned(p) && Aligned(size) && p + n <= size
    ensures p + Round4(n) <= size
    decreases size
  {
    if n > 0 && p > 0 {
      RoundFits(p - 4, n, size - 4);
    } else if n > 4 {
      RoundFits(p, n - 4, size - 4);
    }
  }

  /** Whole words in the buffer leave the cursor within its rounded size. */
  lemma {:induction false} WordFits(p: nat, size: nat)
    requires Aligned(p) && p <= size
    ensures p <= Round4(size)
  {
  }

  /** An opaque of n bytes passes the routine's test at p in a buffer of `size` bytes, and the
      sum does not overflow. */
  predicate Accepts(size: nat, p: nat, n: uint32) {
    p + 4 <= size && p + 4 + n < TWO31 && Passes(p + 4, n, size)
  }

  /** Every opaque that is so accepted stays inside the buffer, padding and all, exactly when
      the size is a multiple of four, or too small for any. */
  lemma {:induction false} WritesStayInside(size: nat)
    requires size < TWO31
    ensures (forall p: nat, n: uint32 :: Aligned(p) && Accepts(size, p, n) ==> p + 4 + Round4(n) <= size) <==>
            size % 4 == 0 || size < 4
  {
    AlignedIsMultiple(size);
    if size % 4 == 0 {
      forall p: nat, n: uint32 | Aligned(p) && Accepts(size, p, n) ensures p + 4 + Round4(n) <= size {
        TestIsRight(p + 4, n, size);
        AlignedSum(p, 4);
        RoundFits(p + 4, n, size);
      }
    } else if size >= 4 {
      var n: uint32 := size - 4;
      TestIsRight(4, n, size);
      assert Aligned(0) && Accepts(size, 0, n);
      AlignedSum(4, Round4(n));
    }
  }

  // Reading

  /** What a routine that reads returns and leaves is what the format says, unless it meets a
      count that leads it astray. */
  ghost predicate Read<T>(size: nat, r: Res<T>, ok: bool, v: T, left: seq<byte>, lost: bool) {
    match r
    case Fail => !lost && !ok
    case Lacks(c) => (lost <==> Misleads(size, c)) && (!lost ==> !ok)
    case Ok(x, rest) => !lost && ok && v == x && left == rest
  }

  lemma {:induction false} RoundAligned(p: nat)
    requires Aligned(p)
    ensures Round4(p) == p
  {
    if p > 4 {
      RoundAligned(p - 4);
    }
  }

  lemma {:induction false} RoundShift(p: nat, n: nat)
    requires Aligned(p)
    ensures Round4(p + n) == p + Round4(n) && Aligned(p + Round4(n))
  {
    if p > 0 {
      RoundShift(p - 4, n);
    }
    if n == 0 {
      RoundAligned(p);
    }
  }

  lemma {:induction false} DropTwice(s: seq<byte>, m: nat, n: nat)
    ensures Drop(Drop(s, m), n) == Drop(s, m + n)
  {
  }

  lemma {:induction false} TakeLeft(b: seq<byte>, p: nat, n: nat)
    requires p + n <= |b|
    ensures |Drop(b, p)| >= n && Drop(b, p)[..n] == b[p..p + n]
  {
  }

  lemma {:induction false} TwoWordsRead(b: seq<byte>, p: nat)
    requires p + 8 <= |b|
    ensures ParseU64(Drop(b, p)) == Ok(FromBe32(b[p..p + 4]) * TWO32 + FromBe32(b[p + 4..p + 8]), Drop(b, p + 8))
  {
    var s := Drop(b, p);
    assert s[4..] == Drop(b, p + 4) && s[4..][4..] == Drop(b, p + 8);
    TakeLeft(b, p, 4);
    TakeLeft(b, p + 4, 4);
  }

  /** A count and that many bytes are an opaque. */
  lemma {:induction false} CountedReads(s: seq<byte>, t: seq<byte>, n: uint32)
    requires ParseU32(s) == Ok(n, t)
    ensures n > |t| || n >= TWO31 ==> ParseBytes(s) == ParseString(s) == Lacks(OfBytes(n, |t|))
    ensures n <= |t| && n < TWO31 ==> ParseBytes(s) == Ok(t[..n], Drop(t, Round4(n)))
  {
  }

  /** What is read of a string of n bytes at p, after its count. */
  lemma {:induction false} StringReads(s: seq<byte>, b: seq<byte>, p: nat, n: uint32)
    requires p + n <= |b| && n < TWO31 && ParseU32(s) == Ok(n, Drop(b, p))
    ensures 0 !in UpToNul(b[p..p + n]) && ParseString(s) == Ok(UpToNul(b[p..p + n]), Drop(b, p + Round4(n)))
  {
    CountedReads(s, Drop(b, p), n);
    TakeLeft(b, p, n);
    DropTwice(b, p, Round4(n));
  }

  /** A zero after n bytes ends the string there at the latest. */
  lemma {:induction false} NulAfter(b: seq<byte>, n: nat)
    requires n < |b| && b[n] == 0
    ensures UpToNul(b) == UpToNul(b[..n])
  {
    if n > 0 && b[0] != 0 {
      NulAfter(b[1..], n - 1);
      assert b[..n][1..] == b[1..][..n - 1];
    }
  }

  lemma {:induction false} StringAt(m: seq<byte>, at: nat, n: nat)
    requires at + n < |m| && m[at + n] == 0
    ensures 0 in m[at..] && UpToNul(m[at..]) == UpToNul(m[at..at + n])
  {
    assert m[at..][n] == 0 && m[at..][..n] == m[at..at + n];
    NulAfter(m[at..], n);
  }

  /** Where a count has led a stream: the cursor went back to a position that may lie before
      the buffer, or the loop over elements did not run, or an element was stored behind the
      memory that the elements have. */
  datatype Track = OnTrack | Back(cursor: int) | NoElements | Behind(element: nat)

  class Stream {
    const encoding: bool
    /** The memory that starts with the buffer, and the buffer's size. */
    const buf: array<byte>
    const size: nat
    var pos: nat
    var track: Track

    /** The cursor is a multiple of four. Memory goes on behind a buffer to write to, for
        padding is not kept out of it; a cursor that reads may come to stand just past the
        end. */
    ghost predicate Valid()
      reads this
    {
      Aligned(pos) && size < TWO31 &&
      (if encoding then pos <= Round4(size) <= buf.Length else size == buf.Length)
    }

    ghost predicate Ready()
      reads this
    {
      Valid() && track.OnTrack?
    }

    ghost function Out(): Cursor
      reads this, buf
    {
      Cursor(size, buf[..], pos, !track.OnTrack?)
    }

    /** What is left to read. */
    ghost function Left(): seq<byte>
      reads this, buf
    {
      Drop(buf[..], pos)
    }

    /** What was read is what the format says, as far as it has been read. */
    ghost predicate Got<T>(r: Res<T>, ok: bool, v: T)
      reads this, buf
    {
      Read(size, r, ok, v, Left(), !track.OnTrack?)
    }

    constructor (encoding: bool, buf: array<byte>, size: nat)
      requires size < TWO31 && if encoding then Round4(size) <= buf.Length else size == buf.Length
      ensures Valid() && this.encoding == encoding && this.buf == buf && this.size == size && pos == 0 && track == OnTrack
    {
      this.encoding, this.buf, this.size, pos, track := encoding, buf, size, 0, OnTrack;
    }

    /** memcpy to the buffer at the cursor. */
    method Put(src: seq<byte>)
      requires pos + |src| <= buf.Length
      modifies this`pos, buf
      ensures pos == old(pos) + |src| && buf[..pos] == old(buf[..pos]) + src && buf[pos..] == old(buf[pos + |src|..])
    {
      CopyBytes(buf, pos, src);
      pos := pos + |src|;
    }

    /** Whole words, of which the last `slack` bytes may lie behind the buffer. */
    method PutWords(src: seq<byte>, ghost slack: nat)
      requires Ready() && encoding && Aligned(|src|) && pos + |src| <= Round4(size) && pos + |src| <= size + slack
      modifies this`pos, buf
      ensures Ready() && pos == old(pos) + |src| && Appended(old(Out()), Out(), src, slack, true)
    {
      AlignedSum(pos, |src|);
      Put(src);
    }

    method UInt(u: uint32) returns (ok: bool, v: uint32)
      requires Ready()
      modifies this`pos, buf
      ensures Ready() && pos <= old(pos) + 4
      ensures encoding ==> v == u && Appended(old(Out()), Out(), Be32(u), 0, ok)
      ensures !encoding ==> buf[..] == old(buf[..]) && Got(ParseU32(old(Left())), ok, v)
      ensures ok ==> pos == old(pos) + 4 <= size
    {
      if pos + 4 > size {
        return false, u;
      }
      if encoding {
        WordFits(pos + 4, size);
        PutWords(Be32(u), 0);
        return true, u;
      } else {
        ghost var s := Left();
        v := FromBe32(buf[pos..pos + 4]);
        assert s[..4] == buf[pos..pos + 4];
        DropTwice(buf[..], pos, 4);
        AlignedSum(pos, 4);
        pos := pos + 4;
        return true, v;
      }
    }

    method ReadWords() returns (v: uint64)
      requires Ready() && !encoding && pos + 8 <= size
      modifies this`pos
      ensures Ready() && ParseU64(old(Left())) == Ok(v, Left())
    {
      TwoWordsRead(buf[..], pos);
      AlignedSum(4, 4);
      AlignedSum(pos, 8);
      v := FromBe32(buf[..][pos..pos + 4]) * TWO32 + FromBe32(buf[..][pos + 4..pos + 8]);
      pos := pos + 8;
    }

    method UInt64(u: uint64) returns (ok: bool, v: uint64)
      requires Ready()
      modifies this`pos, buf
      ensures Ready()
      ensures encoding ==> v == u && Appended(old(Out()), Out(), EncU64(u), 0, ok)
      ensures !encoding ==> buf[..] == old(buf[..]) && Got(ParseU64(old(Left())), ok, v)
    {
      if pos + 8 > size {
        return false, u;
      }
      AlignedSum(4, 4);
      if encoding {
        WordFits(pos + 8, size);
        PutWords(EncU64(u), 0);
        return true, u;
      } else {
        v := ReadWords();
        return true, v;
      }
    }

    /** The bytes of an opaque, with zeros after them up to a multiple of four. */
    method PutPadded(b: Opaque)
      requires Ready() && encoding && pos + |b| <= size
      modifies this`pos, buf
      ensures Ready() && pos == old(pos) + Round4(|b|)
      ensures Appended(old(Out()), Out(), b + Pad(|b|), PadLength(|b|), true)
    {
      RoundFits(pos, |b|, Round4(size));
      PutWords(b + Pad(|b|), PadLength(|b|));
    }

    /** Moves the cursor over n bytes and what pads them. */
    method Skip(n: nat)
      requires Valid() && !encoding
      modifies this`pos
      ensures Valid() && pos == old(pos) + Round4(n) && Left() == Drop(old(Left()), Round4(n))
    {
      RoundShift(pos, n);
      DropTwice(buf[..], pos, Round4(n));
      pos := Round4(pos + n);
    }

    /** The bytes of an opaque that is read. */
    method ReadCounted(n: uint32) returns (v: Opaque)
      requires Ready() && !encoding && pos + n <= size
      modifies this`pos
      ensures Ready() && n <= |old(Left())| && v == old(Left())[..n] && Left() == Drop(old(Left()), Round4(n))
    {
      v := buf[..][pos..pos + n];
      TakeLeft(buf[..], pos, n);
      Skip(n);
    }

    /** libnfs_zdr_bytes. In both directions the test of the count is right exactly when cursor
        and count add up to less than 2^31; otherwise the routine succeeds and the cursor moves
        back. */
    method Counted(b: Opaque) returns (ok: bool, v: Opaque)
      requires Ready()
      modifies this`pos, this`track, buf
      ensures Valid()
      ensures encoding ==> v == b && Appended(old(Out()), Out(), EncBytes(b), PadLength(|b|), ok)
      ensures !encoding ==> buf[..] == old(buf[..]) && Got(ParseBytes(old(Left())), ok, v)
      ensures var n := if encoding then |b| else if ParseU32(old(Left())).Ok? then ParseU32(old(Left())).v else 0;
              var end := old(pos) + 4 + n;
              old(pos) + 4 <= size ==>
                ((ok <==> end <= size) <==> end < TWO31) &&
                track == if end < TWO31 then OnTrack else Back(CursorAfter(old(pos) + 4, n))
    {
      v := b;
      var n: uint32;
      ok, n := UInt(|b|);
      if !ok {
        return;
      }
      TestIsRight(pos, n, size);
      ok := Passes(pos, n, size);
      if pos + n >= TWO31 {
        if !encoding {
          CountedReads(old(Left()), Left(), n);
        }
        track := Back(CursorAfter(pos, n));
      } else if encoding {
        ghost var counted := Out();
        if ok {
          PutPadded(b);
          AppendedThen(old(Out()), counted, Out(), Be32(|b|), 0, b + Pad(|b|), PadLength(|b|), true);
        }
      } else {
        CountedReads(old(Left()), Left(), n);
        if ok {
          v := ReadCounted(n);
        }
      }
    }

    /** The n bytes at p as a C string: in the buffer if a zero follows them there, otherwise
        copied, to the caller's memory or to new memory. */
    method Terminate(p: nat, n: nat, preset: array?<byte>) returns (mem: array<byte>, at: nat)
      requires p + n <= size == buf.Length && (preset != null ==> preset != buf && preset.Length > buf.Length)
      modifies buf, preset
      ensures buf[..] == old(buf[..]) && (mem == buf || mem == preset || fresh(mem))
      ensures at + n < mem.Length && mem[..][at..at + n] == buf[..][p..p + n] && mem[at + n] == 0
    {
      ghost var raw := buf[..][p..p + n];
      if size > p + n && buf[p + n] == 0 {
        if preset == null {
          mem, at := buf, p;
          mem[at + n] := 0;
          assert buf[..] == old(buf[..]);
        } else {
          mem, at := preset, 0;
          mem[n] := 0;
          CopyBytes(mem, 0, buf[p..p + n]);
        }
      } else {
        mem, at := new byte[n + 1], 0;
        mem[n] := 0;
        CopyBytes(mem, 0, buf[p..p + n]);
      }
      assert mem[..][at..at + n] == raw;
    }

    /** The string in whichever memory it is put, up to its first zero. */
    method TextAt(p: nat, n: nat, preset: array?<byte>) returns (v: Text, mem: array<byte>, at: nat)
      requires p + n <= size == buf.Length < TWO31
      requires preset != null ==> preset != buf && preset.Length > buf.Length
      modifies buf, preset
      ensures buf[..] == old(buf[..]) && v == UpToNul(old(buf[..])[p..p + n])
      ensures mem == buf || mem == preset || fresh(mem)
      ensures at <= mem.Length && 0 in mem[..][at..] && UpToNul(mem[..][at..]) == v
    {
      v := UpToNul(buf[p..p + n]);
      mem, at := Terminate(p, n, preset);
      StringAt(mem[..], at, n);
    }

    /** The string after its count. */
    method StringBody(ghost s: seq<byte>, n: uint32, preset: array?<byte>) returns (v: Text, mem: array<byte>, at: nat)
      requires Ready() && !encoding && pos + n <= size && ParseU32(s) == Ok(n, Left())
      requires preset != null ==> preset != buf && preset.Length > buf.Length
      modifies this`pos, buf, preset
      ensures Ready() && buf[..] == old(buf[..]) && ParseString(s) == Ok(v, Left())
      ensures mem == buf || mem == preset || fresh(mem)
      ensures at <= mem.Length && 0 in mem[..][at..] && UpToNul(mem[..][at..]) == v
    {
      var p := pos;
      StringReads(s, buf[..], p, n);
      RoundShift(p, n);
      pos := Round4(p + n);
      v, mem, at := TextAt(p, n, preset);
    }

    /** libnfs_zdr_string when it reads. In whichever memory the string ends up, it is the same
        and the buffer does not change. A count whose sum with the cursor overflows passes the
        test; what is done with the memory then is not defined. */
    method GetString(preset: array?<byte>) returns (ok: bool, v: Text, mem: array<byte>, at: nat)
      requires Ready() && !encoding
      requires preset != null ==> preset != buf && preset.Length > buf.Length
      modifies this`pos, this`track, buf, preset
      ensures Valid() && buf[..] == old(buf[..]) && Got(ParseString(old(Left())), ok, v)
      ensures mem == buf || mem == preset || fresh(mem)
      ensures ok && track.OnTrack? ==> at <= mem.Length && 0 in mem[..][at..] && UpToNul(mem[..][at..]) == v
    {
      v, mem, at := [], buf, 0;
      var n: uint32;
      ghost var s := Left();
      ok, n := UInt(0);
      if !ok {
        return;
      }
      CountedReads(s, Left(), n);
      TestIsRight(pos, n, size);
      ok := Passes(pos, n, size);
      if pos + n >= TWO31 {
        track := Back(CursorAfter(pos, n));
      } else if ok {
        v, mem, at := StringBody(s, n, preset);
      }
    }

    /** libnfs_zdr_string */
    method Str(x: Text) returns (ok: bool, v: Text)
      requires Ready()
      modifies this`pos, this`track, buf
      ensures Valid()
      ensures encoding ==> v == x && Appended(old(Out()), Out(), EncBytes(x), PadLength(|x|), ok)
      ensures !encoding ==> buf[..] == old(buf[..]) && Got(ParseString(old(Left())), ok, v)
    {
      v := x;
      if encoding {
        var written: Opaque;
        ok, written := Counted(x);
      } else {
        var mem: array<byte>, at: nat;
        ok, v, mem, at := GetString(null);
      }
    }
  }

  // Counts and padding that go wrong

  /** A stream that reads these bytes. */
  method Reader(bytes: seq<byte>) returns (z: Stream)
    requires |bytes| < TWO31
    ensures fresh(z) && fresh(z.buf) && z.Ready() && !z.encoding && z.pos == 0 && z.size == |bytes| && z.Left() == bytes
  {
    var buf := new byte[|bytes|];
    CopyBytes(buf, 0, bytes);
    assert buf[..] == bytes;
    z := new Stream(false, buf, |bytes|);
    assert z.Left() == Drop(bytes, 0) == bytes;
  }

  /** A count of 0xFFFFFFFC in a buffer of eight bytes: the routine succeeds, with the cursor
      back on the count. */
  method HugeCountPasses() returns (ok: bool, cursor: int)
    ensures ok && cursor == 0
  {
    var rest := [0, 0, 0, 0];
    U32RoundTrip(0xFFFF_FFFC, rest);
    var z := Reader(Be32(0xFFFF_FFFC) + rest);
    var v: Opaque;
    ok, v := z.Counted([]);
    cursor := z.track.cursor;
  }

  /** A count of 0x7FFFFFFC after one word, in a buffer of a hundred bytes: below 2^31, but not
      with the cursor added. */
  method OverflowPasses() returns (ok: bool, cursor: int)
    ensures ok && cursor == 8 + 0x7FFF_FFFC - TWO32
  {
    var rest := seq(92, _ => 0);
    var more := Be32(0x7FFF_FFFC) + rest;
    U32RoundTrip(0, more);
    U32RoundTrip(0x7FFF_FFFC, rest);
    var z := Reader(Be32(0) + more);
    var word: uint32, v: Opaque;
    ok, word := z.UInt(0);
    ok, v := z.Counted([]);
    cursor := z.track.cursor;
  }

  /** One byte written to a buffer of five: the three bytes behind it become zeros. */
  method PaddingPastTheEnd(x: byte) returns (ok: bool, memory: seq<byte>)
    ensures ok && memory == Be32(1) + [x, 0, 0, 0]
  {
    var buf := new byte[8](_ => 255);
    var z := new Stream(true, buf, 5);
    var v: Opaque;
    ok, v := z.Counted([x]);
    memory := buf[..];
    assert EncBytes([x]) == Be32(1) + [x, 0, 0, 0];
    assert memory[..8] == memory && buf[..0] == [];
  }
}
