/**
 * Byte-level encodings used by the capture format: the little-endian layouts
 * that BitConverter.GetBytes produces for int, long and float, and the
 * ToInt32 / ToInt64 / ToSingle readers that reverse them.
 */
module Bytes {

  newtype byte = x: int | 0 <= x < 256

  type int32 = x: int | -0x8000_0000 <= x < 0x8000_0000
  type int64 = x: int | -0x8000_0000_0000_0000 <= x < 0x8000_0000_0000_0000
  /** The raw IEEE 754 binary32 bit pattern of a float; it is only ever copied. */
  type bits32 = x: int | 0 <= x < 0x1_0000_0000

  function Pow256(n: nat): (r: nat)
    ensures r >= 1
  {
    if n == 0 then 1 else 256 * Pow256(n - 1)
  }

  lemma Pow256Values()
    ensures Pow256(4) == 0x1_0000_0000
    ensures Pow256(8) == 0x1_0000_0000_0000_0000
  {
  }

  /** The `n` low-order bytes of `x`, least significant first. */
  function ToLE(x: nat, n: nat): (r: seq<byte>)
    ensures |r| == n
  {
    if n == 0 then [] else [(x % 256) as byte] + ToLE(x / 256, n - 1)
  }

  /** The unsigned number whose little-endian bytes are `s`. */
  function FromLE(s: seq<byte>): (r: nat)
    ensures r < Pow256(|s|)
  {
    if s == [] then 0
    else
      var rest := FromLE(s[1..]);
      assert rest <= Pow256(|s| - 1) - 1;
      assert 256 * rest <= 256 * Pow256(|s| - 1) - 256;
      s[0] as nat + 256 * rest
  }

  lemma {:induction false} FromToLE(x: nat, n: nat)
    requires x < Pow256(n)
    ensures FromLE(ToLE(x, n)) == x
  {
    if n > 0 {
      var q := x / 256;
      assert x == 256 * q + x % 256;
      assert q < Pow256(n - 1);
      FromToLE(q, n - 1);
      assert ToLE(x, n)[1..] == ToLE(q, n - 1);
    }
  }

  lemma {:induction false} ToFromLE(s: seq<byte>)
    ensures ToLE(FromLE(s), |s|) == s
  {
    if s != [] {
      var x := FromLE(s);
      assert x == s[0] as nat + 256 * FromLE(s[1..]);
      assert x % 256 == s[0] as nat && x / 256 == FromLE(s[1..]);
      ToFromLE(s[1..]);
    }
  }

  /** BitConverter.GetBytes(int): two's complement, so the value is taken modulo 2^32. */
  function Int32Bytes(x: int): (r: seq<byte>)
    ensures |r| == 4
  {
    ToLE(x % 0x1_0000_0000, 4)
  }

  /** BitConverter.GetBytes(long), taken modulo 2^64. */
  function Int64Bytes(x: int): (r: seq<byte>)
    ensures |r| == 8
  {
    ToLE(x % 0x1_0000_0000_0000_0000, 8)
  }

  /** BitConverter.GetBytes(float): the bit pattern, little-endian. */
  function FloatBytes(b: bits32): (r: seq<byte>)
    ensures |r| == 4
  {
    ToLE(b, 4)
  }

  /** BitConverter.ToInt32 on four bytes. */
  function ToInt32(b: seq<byte>): (r: int32)
    requires |b| == 4
  {
    Pow256Values();
    var u := FromLE(b);
    if u < 0x8000_0000 then u else u - 0x1_0000_0000
  }

  /** BitConverter.ToInt64 on eight bytes. */
  function ToInt64(b: seq<byte>): (r: int64)
    requires |b| == 8
  {
    Pow256Values();
    var u := FromLE(b);
    if u < 0x8000_0000_0000_0000 then u else u - 0x1_0000_0000_0000_0000
  }

  /** BitConverter.ToSingle on four bytes, as a bit pattern. */
  function ToSingle(b: seq<byte>): (r: bits32)
    requires |b| == 4
  {
    Pow256Values();
    FromLE(b)
  }

  lemma Int32RoundTrip(x: int32)
    ensures ToInt32(Int32Bytes(x)) == x
  {
    Pow256Values();
    FromToLE(x % 0x1_0000_0000, 4);
  }

  lemma Int64RoundTrip(x: int64)
    ensures ToInt64(Int64Bytes(x)) == x
  {
    Pow256Values();
    FromToLE(x % 0x1_0000_0000_0000_0000, 8);
  }

  lemma FloatRoundTrip(b: bits32)
    ensures ToSingle(FloatBytes(b)) == b
  {
    Pow256Values();
    FromToLE(b, 4);
  }

  /** Every four bytes are the encoding of the int they decode to. */
  lemma Int32BytesOnto(b: seq<byte>)
    requires |b| == 4
    ensures Int32Bytes(ToInt32(b)) == b
  {
    Pow256Values();
    ToFromLE(b);
    var u := FromLE(b);
    assert u < 0x1_0000_0000;
    if u >= 0x8000_0000 {
      var x: int := u as int - 0x1_0000_0000;
      assert ToInt32(b) == x;
      assert x % 0x1_0000_0000 == u;
    }
  }

  /** C# unchecked int arithmetic: `x` reduced into the int32 range, two's complement. */
  function Wrap32(x: int): int32
  {
    var u := x % 0x1_0000_0000;
    if u < 0x8000_0000 then u else u - 0x1_0000_0000
  }

  lemma Int32BytesWrap(x: int)
    ensures ToInt32(Int32Bytes(x)) == Wrap32(x)
  {
    Pow256Values();
    FromToLE(x % 0x1_0000_0000, 4);
  }
}
