/** Fixed-width unsigned integers laid out as bytes in either byte order.
    This stands in for the `encoding/binary` byte orders that the boot
    information header is written with. */
module Bytes {

  /** One octet of memory. */
  newtype byte = x: int | 0 <= x < 256

  /** The order in which the bytes of a multi-byte integer appear in memory. */
  datatype ByteOrder = LittleEndian | BigEndian

  /** 256 to the power n: the number of values an n-byte integer can hold. */
  function Pow256(n: nat): (r: nat)
    ensures r >= 1
  {
    if n == 0 then 1 else 256 * Pow256(n - 1)
  }

  /** The `width` bytes of x, least significant first. */
  function LittleEndianBytes(x: nat, width: nat): (r: seq<byte>)
    requires x < Pow256(width)
    ensures |r| == width
  {
    if width == 0 then [] else [(x % 256) as byte] + LittleEndianBytes(x / 256, width - 1)
  }

  /** The `width` bytes of x, most significant first. */
  function BigEndianBytes(x: nat, width: nat): (r: seq<byte>)
    requires x < Pow256(width)
    ensures |r| == width
  {
    if width == 0 then [] else BigEndianBytes(x / 256, width - 1) + [(x % 256) as byte]
  }

  /** The number whose least significant byte comes first in bs. */
  function FromLittleEndian(bs: seq<byte>): (x: nat)
    ensures x < Pow256(|bs|)
  {
    if bs == [] then 0 else bs[0] as int + 256 * FromLittleEndian(bs[1..])
  }

  /** The number whose most significant byte comes first in bs. */
  function FromBigEndian(bs: seq<byte>): (x: nat)
    ensures x < Pow256(|bs|)
  {
    if bs == [] then 0 else 256 * FromBigEndian(bs[..|bs| - 1]) + bs[|bs| - 1] as int
  }

  /** Writes x as a `width`-byte unsigned integer in the given byte order. */
  function EncodeUint(x: nat, width: nat, order: ByteOrder): (r: seq<byte>)
    requires x < Pow256(width)
    ensures |r| == width
  {
    match order
    case LittleEndian => LittleEndianBytes(x, width)
    case BigEndian => BigEndianBytes(x, width)
  }

  /** Reads bs as an unsigned integer in the given byte order. */
  function DecodeUint(bs: seq<byte>, order: ByteOrder): (x: nat)
    ensures x < Pow256(|bs|)
  {
    match order
    case LittleEndian => FromLittleEndian(bs)
    case BigEndian => FromBigEndian(bs)
  }

  lemma {:induction false} FromLittleEndianBytes(x: nat, width: nat)
    requires x < Pow256(width)
    ensures FromLittleEndian(LittleEndianBytes(x, width)) == x
  {
    if width > 0 {
      var r := LittleEndianBytes(x, width);
      assert r[1..] == LittleEndianBytes(x / 256, width - 1);
      FromLittleEndianBytes(x / 256, width - 1);
    }
  }

  lemma {:induction false} FromBigEndianBytes(x: nat, width: nat)
    requires x < Pow256(width)
    ensures FromBigEndian(BigEndianBytes(x, width)) == x
  {
    if width > 0 {
      var r := BigEndianBytes(x, width);
      assert r[..|r| - 1] == BigEndianBytes(x / 256, width - 1);
      FromBigEndianBytes(x / 256, width - 1);
    }
  }

  lemma {:induction false} LittleEndianBytesFrom(bs: seq<byte>)
    ensures LittleEndianBytes(FromLittleEndian(bs), |bs|) == bs
  {
    if bs != [] {
      var x := FromLittleEndian(bs);
      var rest := FromLittleEndian(bs[1..]);
      assert x % 256 == bs[0] as int && x / 256 == rest;
      LittleEndianBytesFrom(bs[1..]);
    }
  }

  lemma {:induction false} BigEndianBytesFrom(bs: seq<byte>)
    ensures BigEndianBytes(FromBigEndian(bs), |bs|) == bs
  {
    if bs != [] {
      var n := |bs|;
      var x := FromBigEndian(bs);
      var rest := FromBigEndian(bs[..n - 1]);
      assert x % 256 == bs[n - 1] as int && x / 256 == rest;
      BigEndianBytesFrom(bs[..n - 1]);
    }
  }

  /** Reading back an encoded integer gives the integer. */
  lemma DecodeEncodeUint(x: nat, width: nat, order: ByteOrder)
    requires x < Pow256(width)
    ensures DecodeUint(EncodeUint(x, width, order), order) == x
  {
    match order
    case LittleEndian => FromLittleEndianBytes(x, width);
    case BigEndian => FromBigEndianBytes(x, width);
  }

  /** Encoding a decoded byte string of the same width gives the bytes back:
      with DecodeEncodeUint, the two are inverse bijections. */
  lemma EncodeDecodeUint(bs: seq<byte>, order: ByteOrder)
    ensures EncodeUint(DecodeUint(bs, order), |bs|, order) == bs
  {
    match order
    case LittleEndian => LittleEndianBytesFrom(bs);
    case BigEndian => BigEndianBytesFrom(bs);
  }

  /** Two integers of one width are encoded alike only when they are equal. */
  lemma EncodeUintInjective(x: nat, y: nat, width: nat, order: ByteOrder)
    requires x < Pow256(width) && y < Pow256(width)
    requires EncodeUint(x, width, order) == EncodeUint(y, width, order)
    ensures x == y
  {
    DecodeEncodeUint(x, width, order);
    DecodeEncodeUint(y, width, order);
  }
}
