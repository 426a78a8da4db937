/** Bytes, 32-bit big-endian words, concatenation and copying, and other basics. */
module Bytes {
  datatype Option<T> = None | Some(value: T)

  type byte = x: int | 0 <= x < 256
  type uint32 = x: int | 0 <= x < 0x1_0000_0000

  const TWO31 := 0x8000_0000
  const TWO32 := 0x1_0000_0000

  /** The last k base-256 digits of n, most significant first. */
  function BigEndian(n: nat, k: nat): (b: seq<byte>)
    ensures |b| == k
  {
    if k == 0 then [] else BigEndian(n / 256, k - 1) + [n % 256]
  }

  function Pow256(k: nat): nat {
    if k == 0 then 1 else 256 * Pow256(k - 1)
  }

  function FromBigEndian(b: seq<byte>): (n: nat)
    ensures n < Pow256(|b|)
  {
    if |b| == 0 then 0 else FromBigEndian(b[..|b| - 1]) * 256 + b[|b| - 1]
  }

  lemma {:induction false} BigEndianRoundTrip(n: nat, k: nat)
    requires n < Pow256(k)
    ensures FromBigEndian(BigEndian(n, k)) == n
  {
    if k > 0 {
      BigEndianRoundTrip(n / 256, k - 1);
      assert BigEndian(n, k)[..k - 1] == BigEndian(n / 256, k - 1);
    }
  }

  lemma {:induction false} FourDigits()
    ensures Pow256(4) == TWO32
  {
  }

  /** htonl: the four bytes of a word, most significant first. */
  function Be32(n: uint32): (b: seq<byte>)
    ensures |b| == 4
  {
    BigEndian(n, 4)
  }

  /** ntohl. */
  function FromBe32(b: seq<byte>): (n: uint32)
    requires |b| == 4
  {
    FourDigits();
    FromBigEndian(b)
  }

  lemma {:induction false} Be32RoundTrip(n: uint32)
    ensures FromBe32(Be32(n)) == n
  {
    FourDigits();
    BigEndianRoundTrip(n, 4);
  }

  function Without<T>(s: seq<T>, k: nat): (t: seq<T>)
    requires k < |s|
    ensures |t| == |s| - 1 && forall j | 0 <= j < |t| :: t[j] == if j < k then s[j] else s[j + 1]
  {
    s[..k] + s[k + 1..]
  }

  function Concat<T>(parts: seq<seq<T>>): (r: seq<T>) {
    if parts == [] then [] else parts[0] + Concat(parts[1..])
  }

  lemma {:induction false} ConcatAppend<T>(a: seq<seq<T>>, b: seq<seq<T>>)
    ensures Concat(a + b) == Concat(a) + Concat(b)
  {
    if a == [] {
      assert a + b == b;
    } else {
      assert (a + b)[1..] == a[1..] + b;
      ConcatAppend(a[1..], b);
    }
  }

  lemma {:induction false} Assoc<T>(a: seq<T>, b: seq<T>, c: seq<T>)
    ensures a + b + c == a + (b + c)
  {
  }

  /** memcpy(&dst[at], src, |src|) */
  method CopyBytes(dst: array<byte>, at: nat, src: seq<byte>)
    requires at + |src| <= dst.Length
    modifies dst
    ensures dst[..] == old(dst[..at]) + src + old(dst[at + |src|..])
  {
    for k := 0 to |src|
      invariant forall j :: 0 <= j < dst.Length ==> dst[j] == if at <= j < at + k then src[j - at] else old(dst[j])
    {
      dst[at + k] := src[k];
    }
  }
}
