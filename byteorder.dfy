/**
 * Fixed-width unsigned integers as bytes, in the two orders of Go's
 * `encoding/binary`: `BigEndian.PutUint64` and `LittleEndian.PutUint64`
 * write the eight bytes of a `uint64` most significant first and least
 * significant first respectively (used by instauuid.go, lines 86-116).
 */
module ByteOrder {

  type Byte = b: int | 0 <= b < 256

  function Pow256(n: nat): (p: nat)
    ensures p > 0
  {
    if n == 0 then 1 else 256 * Pow256(n - 1)
  }

  /** The low `n` bytes of `x`, most significant first. */
  function BigEndian(x: nat, n: nat): (bs: seq<Byte>)
    ensures |bs| == n
  {
    if n == 0 then [] else BigEndian(x / 256, n - 1) + [x % 256]
  }

  /** The low `n` bytes of `x`, least significant first. */
  function LittleEndian(x: nat, n: nat): (bs: seq<Byte>)
    ensures |bs| == n
  {
    if n == 0 then [] else [x % 256] + LittleEndian(x / 256, n - 1)
  }

  /** The number whose big-endian bytes are `bs` (`binary.BigEndian.Uint64` for eight bytes). */
  function FromBigEndian(bs: seq<Byte>): (x: nat)
    ensures x < Pow256(|bs|)
  {
    if bs == [] then 0 else FromBigEndian(bs[..|bs| - 1]) * 256 + bs[|bs| - 1]
  }

  /** The number whose little-endian bytes are `bs` (`binary.LittleEndian.Uint64` for eight bytes). */
  function FromLittleEndian(bs: seq<Byte>): (x: nat)
    ensures x < Pow256(|bs|)
  {
    if bs == [] then 0 else bs[0] + 256 * FromLittleEndian(bs[1..])
  }

  function Reverse<T>(s: seq<T>): (r: seq<T>)
    ensures |r| == |s|
    ensures forall i :: 0 <= i < |s| ==> r[i] == s[|s| - 1 - i]
  {
    if s == [] then [] else Reverse(s[1..]) + [s[0]]
  }

  lemma {:induction false} FromBigEndianOfBigEndian(x: nat, n: nat)
    requires x < Pow256(n)
    ensures FromBigEndian(BigEndian(x, n)) == x
  {
    if n > 0 {
      var bs := BigEndian(x, n);
      assert bs[..n - 1] == BigEndian(x / 256, n - 1) && bs[n - 1] == x % 256;
      assert x / 256 < Pow256(n - 1) by {
        assert Pow256(n) == 256 * Pow256(n - 1);
      }
      FromBigEndianOfBigEndian(x / 256, n - 1);
      assert x == (x / 256) * 256 + x % 256;
    }
  }

  lemma {:induction false} BigEndianOfFromBigEndian(bs: seq<Byte>)
    ensures BigEndian(FromBigEndian(bs), |bs|) == bs
  {
    if bs != [] {
      var init, last := bs[..|bs| - 1], bs[|bs| - 1];
      var x, y := FromBigEndian(bs), FromBigEndian(init);
      assert x == y * 256 + last;
      assert x / 256 == y && x % 256 == last;
      BigEndianOfFromBigEndian(init);
      assert bs == init + [last];
    }
  }

  lemma {:induction false} FromLittleEndianOfLittleEndian(x: nat, n: nat)
    requires x < Pow256(n)
    ensures FromLittleEndian(LittleEndian(x, n)) == x
  {
    if n > 0 {
      FromLittleEndianOfLittleEndian(x / 256, n - 1);
    }
  }

  lemma {:induction false} LittleEndianOfFromLittleEndian(bs: seq<Byte>)
    ensures LittleEndian(FromLittleEndian(bs), |bs|) == bs
  {
    if bs != [] {
      var x, y := FromLittleEndian(bs), FromLittleEndian(bs[1..]);
      assert x == bs[0] + 256 * y;
      assert x / 256 == y && x % 256 == bs[0];
      LittleEndianOfFromLittleEndian(bs[1..]);
      assert bs == [bs[0]] + bs[1..];
    }
  }

  /** The big-endian bytes are the little-endian bytes in reverse order. */
  lemma {:induction false} BigEndianIsReversedLittleEndian(x: nat, n: nat)
    ensures BigEndian(x, n) == Reverse(LittleEndian(x, n))
  {
    if n > 0 {
      BigEndianIsReversedLittleEndian(x / 256, n - 1);
      var le := LittleEndian(x, n);
      assert le[1..] == LittleEndian(x / 256, n - 1);
    }
  }

  lemma Pow256Of8()
    ensures Pow256(8) == 0x1_0000_0000_0000_0000
  {
  }

  /** `binary.BigEndian.PutUint64` into a fresh eight-byte buffer. */
  function PutUint64BE(v: nat): (bs: seq<Byte>)
    requires v < 0x1_0000_0000_0000_0000
    ensures |bs| == 8 && FromBigEndian(bs) == v
  {
    Pow256Of8();
    FromBigEndianOfBigEndian(v, 8);
    BigEndian(v, 8)
  }

  /** `binary.LittleEndian.PutUint64` into a fresh eight-byte buffer. */
  function PutUint64LE(v: nat): (bs: seq<Byte>)
    requires v < 0x1_0000_0000_0000_0000
    ensures |bs| == 8 && FromLittleEndian(bs) == v
    ensures Reverse(bs) == PutUint64BE(v)
  {
    Pow256Of8();
    FromLittleEndianOfLittleEndian(v, 8);
    BigEndianIsReversedLittleEndian(v, 8);
    LittleEndian(v, 8)
  }
}
