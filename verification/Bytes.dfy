/** Bytes, fixed-width integer layouts and the block copies the C code is made of. */
module Bytes {

  type byte = x: int | 0 <= x < 256

  datatype Option<+T> = None | Some(value: T)

  /** What an assignment to an unsigned short keeps. */
  function Trunc16(x: int): (r: nat)
    ensures r < 0x1_0000
    ensures 0 <= x < 0x1_0000 ==> r == x
  {
    x % 0x1_0000
  }

  /** What an assignment to an unsigned int keeps. */
  function Trunc32(x: int): (r: nat)
    ensures r < 0x1_0000_0000
    ensures 0 <= x < 0x1_0000_0000 ==> r == x
  {
    x % 0x1_0000_0000
  }

  /** Little-endian images of the two field widths of struct talkdata1. */
  function Le16(x: nat): (b: seq<byte>)
    requires x < 0x1_0000
    ensures |b| == 2
  {
    [x % 0x100, x / 0x100]
  }

  function Le32(x: nat): (b: seq<byte>)
    requires x < 0x1_0000_0000
    ensures |b| == 4
  {
    Le16(x % 0x1_0000) + Le16(x / 0x1_0000)
  }

  function FromLe16(b: seq<byte>): (x: nat)
    requires |b| == 2
    ensures x < 0x1_0000
    ensures Le16(x) == b
  {
    b[0] + 0x100 * (b[1] as int)
  }

  function FromLe32(b: seq<byte>): (x: nat)
    requires |b| == 4
    ensures x < 0x1_0000_0000
    ensures Le32(x) == b
  {
    FromLe16(b[..2]) + 0x1_0000 * FromLe16(b[2..])
  }

  /** The four bytes (n & mask) >> shift of a 32-bit count, most significant first. */
  function Be32(n: int): (b: seq<byte>)
    ensures |b| == 4
  {
    var high, low := Trunc32(n) / 0x1_0000, Trunc32(n) % 0x1_0000;
    [high / 0x100, high % 0x100, low / 0x100, low % 0x100]
  }

  function FromBe32(b: seq<byte>): nat
    requires |b| == 4
  {
    b[3] + 0x100 * (b[2] as int) + 0x1_0000 * (b[1] + 0x100 * (b[0] as int))
  }

  lemma Be32Bytes(n: int)
    ensures Be32(n) == [n / 0x100_0000 % 0x100, n / 0x1_0000 % 0x100, n / 0x100 % 0x100, n % 0x100]
  {
    var q, r := n / 0x1_0000_0000, n % 0x1_0000_0000;
    assert n == 0x1_0000_0000 * q + r;
    var a, b := r / 0x1_0000, r % 0x1_0000;
    assert n == 0x1_0000 * (0x1_0000 * q + a) + b;
    assert n / 0x1_0000 == 0x1_0000 * q + a;
    Halves(0x1_0000 * q + a, q, a);
    Halves(n, 0x1_0000 * q + a, b);
    assert n / 0x100_0000 == n / 0x1_0000 / 0x100;
  }

  lemma Halves(n: int, high: int, low: int)
    requires 0 <= low < 0x1_0000 && n == 0x1_0000 * high + low
    ensures n / 0x100 % 0x100 == low / 0x100 && n % 0x100 == low % 0x100
  {
    var c, d := low / 0x100, low % 0x100;
    assert n == 0x100 * (0x100 * high + c) + d;
    assert n / 0x100 == 0x100 * high + c;
  }

  lemma Be32Decodes(n: int)
    ensures FromBe32(Be32(n)) == Trunc32(n)
  {
  }

  /** memcpy(dst + at, src, |src|). */
  function Splice(dst: seq<byte>, at: nat, src: seq<byte>): (r: seq<byte>)
    requires at + |src| <= |dst|
    ensures |r| == |dst|
  {
    dst[..at] + src + dst[at + |src|..]
  }

  /** memcpy into a buffer, in place. */
  method CopyInto(dst: array<byte>, at: nat, src: seq<byte>)
    requires at + |src| <= dst.Length
    modifies dst
    ensures dst[..] == Splice(old(dst[..]), at, src)
  {
    forall k | 0 <= k < |src| {
      dst[at + k] := src[k];
    }
  }

  function Concat(parts: seq<seq<byte>>): seq<byte> {
    if parts == [] then [] else parts[0] + Concat(parts[1..])
  }

  lemma {:induction false} ConcatAppend(a: seq<seq<byte>>, b: seq<seq<byte>>)
    ensures Concat(a + b) == Concat(a) + Concat(b)
  {
    if a == [] {
      assert a + b == b;
    } else {
      assert (a + b)[1..] == a[1..] + b;
      ConcatAppend(a[1..], b);
    }
  }
}
