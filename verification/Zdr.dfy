/** ZDR, the client's external data representation (RFC 4506): what the primitive types look
    like on the wire, how they are read back, and the routines that do both through one
    cursor. */
module Zdr {
  import opened Bytes

  type uint64 = x: int | 0 <= x < 0x1_0000_0000_0000_0000

  /** A counted opaque, and a C string. */
  type Opaque = b: seq<byte> | |b| < 0x8000_0000
  type Text = b: seq<byte> | |b| < 0x8000_0000 && 0 !in b

  /** A count of bytes or of words, and how many bytes are left behind it. */
  datatype Count = OfBytes(n: uint32, left: nat) | OfWords(n: uint32, left: nat)

  /** A value read, and what follows it; or a count that says more than is left. */
  datatype Res<+T> = Fail | Lacks(count: Count) | Ok(v: T, rest: seq<byte>)

  /** A multiple of four. */
  predicate Aligned(n: nat) {
    n == 0 || (n >= 4 && Aligned(n - 4))
  }

  /** The next multiple of four. */
  function Round4(n: nat): (r: nat)
    ensures n <= r < n + 4 && Aligned(r)
  {
    if n == 0 then 0 else if n <= 4 then 4 else 4 + Round4(n - 4)
  }

  lemma {:induction false} AlignedIsMultiple(n: nat)
    ensures Aligned(n) <==> n % 4 == 0
  {
    if n >= 4 {
      AlignedIsMultiple(n - 4);
    }
  }

  /** (n + 3) & ~3 */
  lemma {:induction false} Round4IsMask(n: nat)
    ensures Round4(n) == (n + 3) / 4 * 4
  {
    if n > 4 {
      Round4IsMask(n - 4);
    }
  }

  lemma {:induction false} AlignedSum(a: nat, b: nat)
    requires Aligned(a) && Aligned(b)
    ensures Aligned(a + b)
  {
    if b > 0 {
      AlignedSum(a, b - 4);
    }
  }

  /** How many zeros pad n bytes. */
  function PadLength(n: nat): (k: nat)
    ensures k < 4
  {
    Round4(n) - n
  }

  function Pad(n: nat): (p: seq<byte>)
    ensures |p| == PadLength(n)
  {
    seq(PadLength(n), _ => 0)
  }

  // What is on the wire

  function EncU64(n: uint64): (e: seq<byte>)
    ensures |e| == 8
  {
    Be32(n / TWO32) + Be32(n % TWO32)
  }

  /** A counted opaque: its length, its bytes, zeros up to a multiple of four. */
  function EncBytes(b: Opaque): (e: seq<byte>)
    ensures |e| == 4 + Round4(|b|)
  {
    Be32(|b|) + (b + Pad(|b|))
  }

  // How it is read

  function Drop(s: seq<byte>, n: nat): (r: seq<byte>)
    ensures |r| == if n < |s| then |s| - n else 0
  {
    if n < |s| then s[n..] else []
  }

  function ParseU32(s: seq<byte>): (r: Res<uint32>)
    ensures !r.Lacks? && (r.Ok? ==> |r.rest| + 4 == |s|)
  {
    if |s| < 4 then Fail else Ok(FromBe32(s[..4]), s[4..])
  }

  function ParseU64(s: seq<byte>): (r: Res<uint64>)
    ensures !r.Lacks? && (r.Ok? ==> |r.rest| + 8 == |s|)
  {
    if |s| < 8 then Fail else Ok(FromBe32(s[..4]) * TWO32 + FromBe32(s[4..][..4]), s[4..][4..])
  }

  function ParseBytes(s: seq<byte>): (r: Res<Opaque>)
    ensures r.Ok? ==> |r.rest| + 4 <= |s|
  {
    match ParseU32(s)
    case Fail => Fail
    case Lacks(c) => Lacks(c)
    case Ok(n, t) =>
      if n > |t| || n >= TWO31 then Lacks(OfBytes(n, |t|))
      else
        var b: Opaque := t[..n];
        Ok(b, Drop(t, Round4(n)))
  }

  /** The C string at the start of b: the bytes before the first zero. */
  function UpToNul(b: seq<byte>): (r: seq<byte>)
    ensures r <= b && 0 !in r
  {
    if |b| == 0 || b[0] == 0 then [] else [b[0]] + UpToNul(b[1..])
  }

  function ParseString(s: seq<byte>): (r: Res<Text>)
    ensures r.Ok? ==> |r.rest| + 4 <= |s|
  {
    match ParseBytes(s)
    case Fail => Fail
    case Lacks(c) => Lacks(c)
    case Ok(b, t) =>
      var text: Text := UpToNul(b);
      Ok(text, t)
  }

  // The test of a count

  /** A sum in signed 32-bit arithmetic, which wraps around. */
  function Wrapped(x: nat): (r: int)
    ensures 0 - TWO31 <= r < TWO31 && (r - x) % TWO32 == 0
  {
    if x % TWO32 < TWO31 then x % TWO32 else x % TWO32 - TWO32
  }

  /** The routines' test that n bytes at p lie in a buffer of the given size. */
  predicate Passes(p: nat, n: uint32, size: nat) {
    Wrapped(p + n) <= size
  }

  /** Where the cursor stands after n bytes at p, rounded up to a multiple of four. */
  function CursorAfter(p: nat, n: uint32): int {
    (Wrapped(p + n) + 3) / 4 * 4
  }

  /** The test says whether the bytes are there exactly when cursor and count add up to less
      than 2^31; it lets every larger count pass, and the cursor then moves back. */
  lemma {:induction false} TestIsRight(p: nat, n: uint32, size: nat)
    requires p <= size < TWO31
    ensures (Passes(p, n, size) <==> p + n <= size) <==> p + n < TWO31
    ensures p + n >= TWO31 ==> Passes(p, n, size) && CursorAfter(p, n) <= Round4(p)
    ensures TWO31 <= p + n && n <= TWO32 - 4 ==> CursorAfter(p, n) < Round4(p)
  {
    Round4IsMask(p);
  }

  /** The elements of an array get 4 n bytes, in 32-bit arithmetic. */
  function Room(n: uint32): nat {
    4 * n % TWO32 / 4
  }

  /** How many elements are stored: as many as are asked for and there, for counts below 2^31,
      and none for larger ones. */
  function Stores(n: uint32, left: nat): nat {
    if n >= TWO31 then 0 else if n <= left / 4 then n else left / 4
  }

  /** All elements that are read go in their memory exactly when the count is below 2^30, or
      the words are few enough, or the count is 2^31 or more and none is read. */
  lemma {:induction false} ElementsStayInside(n: uint32, left: nat)
    requires left < TWO31
    ensures Stores(n, left) <= Room(n) <==> n < 0x4000_0000 || n >= TWO31 || left / 4 <= n - 0x4000_0000
  {
  }

  /** A count that leads the routines astray in a buffer of the given size: the sum with the
      cursor overflows, elements are stored behind their memory, or the loop over them does
      not run. */
  predicate Misleads(size: nat, c: Count) {
    match c
    case OfBytes(n, left) => size - left + n >= TWO31
    case OfWords(n, left) => n >= TWO31 || Stores(n, left) > Room(n)
  }

  // Reading undoes writing

  lemma {:induction false} TakeDrop(a: seq<byte>, b: seq<byte>)
    ensures (a + b)[..|a|] == a && (a + b)[|a|..] == b
  {
  }

  lemma {:induction false} U32RoundTrip(n: uint32, t: seq<byte>)
    ensures ParseU32(Be32(n) + t) == Ok(n, t)
  {
    TakeDrop(Be32(n), t);
    Be32RoundTrip(n);
  }

  lemma {:induction false} U64RoundTrip(n: uint64, t: seq<byte>)
    ensures ParseU64(EncU64(n) + t) == Ok(n, t)
  {
    var a, b := Be32(n / TWO32), Be32(n % TWO32);
    Assoc(a, b, t);
    TakeDrop(a, b + t);
    TakeDrop(b, t);
    Be32RoundTrip(n / TWO32);
    Be32RoundTrip(n % TWO32);
  }

  lemma {:induction false} BytesRoundTrip(b: Opaque, t: seq<byte>)
    ensures ParseBytes(EncBytes(b) + t) == Ok(b, t)
  {
    var padded := b + Pad(|b|);
    Assoc(Be32(|b|), padded, t);
    U32RoundTrip(|b|, padded + t);
    TakeDrop(padded, t);
    assert (padded + t)[..|b|] == b;
  }

  lemma {:induction false} UpToNulWhole(b: seq<byte>)
    requires 0 !in b
    ensures UpToNul(b) == b
  {
    if |b| > 0 {
      UpToNulWhole(b[1..]);
      assert b == [b[0]] + b[1..];
    }
  }

  lemma {:induction false} StringRoundTrip(b: Text, t: seq<byte>)
    ensures ParseString(EncBytes(b) + t) == Ok(b, t)
  {
    BytesRoundTrip(b, t);
    UpToNulWhole(b);
  }
}
