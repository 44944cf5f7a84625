/** Little-endian integers of a fixed width, as read by memcpy followed by little_endian_to_host. */
module ByteOrder {

  type byte = b: int | 0 <= b < 256

  type uint16 = n: int | 0 <= n < 0x1_0000
  type uint32 = n: int | 0 <= n < 0x1_0000_0000
  type uint64 = n: int | 0 <= n < 0x1_0000_0000_0000_0000
  type int32 = n: int | -0x8000_0000 <= n < 0x8000_0000
  type int64 = n: int | -0x8000_0000_0000_0000 <= n < 0x8000_0000_0000_0000

  /** The number of values that `width` bytes can hold. */
  function Values(width: nat): (r: int)
    ensures r >= 1
    ensures width > 0 ==> r % 2 == 0
  {
    if width == 0 then 1 else 256 * Values(width - 1)
  }

  function DecodeUnsigned(bytes: seq<byte>): (n: nat)
    ensures n < Values(|bytes|)
  {
    if bytes == [] then 0 else bytes[0] + 256 * DecodeUnsigned(bytes[1..])
  }

  function EncodeUnsigned(n: nat, width: nat): (bytes: seq<byte>)
    ensures |bytes| == width
  {
    if width == 0 then [] else [n % 256] + EncodeUnsigned(n / 256, width - 1)
  }

  lemma {:induction false} UnsignedDecodesWhatItEncodes(n: nat, width: nat)
    requires n < Values(width)
    ensures DecodeUnsigned(EncodeUnsigned(n, width)) == n
  {
    if width > 0 {
      UnsignedDecodesWhatItEncodes(n / 256, width - 1);
      assert EncodeUnsigned(n, width)[1..] == EncodeUnsigned(n / 256, width - 1);
    }
  }

  lemma LowByteFirst(low: byte, high: nat)
    ensures (low + 256 * high) % 256 == low && (low + 256 * high) / 256 == high
  {
  }

  lemma {:induction false} UnsignedEncodesWhatItDecodes(bytes: seq<byte>)
    ensures EncodeUnsigned(DecodeUnsigned(bytes), |bytes|) == bytes
  {
    if bytes != [] {
      var first, rest := bytes[0], DecodeUnsigned(bytes[1..]);
      LowByteFirst(first, rest);
      UnsignedEncodesWhatItDecodes(bytes[1..]);
    }
  }

  /** Two's complement: the upper half of the unsigned range stands for the negative numbers. */
  function DecodeSigned(bytes: seq<byte>): (n: int)
    ensures -Values(|bytes|) <= 2 * n < Values(|bytes|) || bytes == []
  {
    var u := DecodeUnsigned(bytes);
    if 2 * u < Values(|bytes|) then u else u - Values(|bytes|)
  }

  function EncodeSigned(n: int, width: nat): (bytes: seq<byte>)
    requires -Values(width) <= 2 * n < Values(width)
    ensures |bytes| == width
  {
    EncodeUnsigned(if n < 0 then n + Values(width) else n, width)
  }

  lemma SignedDecodesWhatItEncodes(n: int, width: nat)
    requires width > 0 && -Values(width) <= 2 * n < Values(width)
    ensures DecodeSigned(EncodeSigned(n, width)) == n
  {
    UnsignedDecodesWhatItEncodes(if n < 0 then n + Values(width) else n, width);
  }

  lemma SignedEncodesWhatItDecodes(bytes: seq<byte>)
    requires bytes != []
    ensures EncodeSigned(DecodeSigned(bytes), |bytes|) == bytes
  {
    UnsignedEncodesWhatItDecodes(bytes);
  }

  lemma DecodeCons(low: byte, high: seq<byte>)
    ensures DecodeUnsigned([low] + high) == low + 256 * DecodeUnsigned(high)
  {
    assert ([low] + high)[1..] == high;
  }

  lemma DecodeTwo(a: byte, b: byte)
    ensures DecodeUnsigned([a, b]) == a + 0x100 * b
  {
    assert [a, b] == [a] + ([b] + []);
    DecodeCons(b, []);
    DecodeCons(a, [b] + []);
  }

  lemma DecodeFour(a: byte, b: byte, c: byte, d: byte)
    ensures DecodeUnsigned([a, b, c, d]) == a + 0x100 * b + 0x1_0000 * c + 0x100_0000 * d
  {
    DecodeTwo(c, d);
    DecodeCons(b, [c, d]);
    DecodeCons(a, [b] + [c, d]);
    assert [a, b, c, d] == [a] + ([b] + [c, d]);
  }

  /** Byte i of a 64-bit number weighs 256^i. */
  lemma DecodeEight(a: byte, b: byte, c: byte, d: byte, e: byte, f: byte, g: byte, h: byte)
    ensures DecodeUnsigned([a, b, c, d, e, f, g, h])
         == a + 0x100 * b + 0x1_0000 * c + 0x100_0000 * d
            + 0x1_0000_0000 * e + 0x100_0000_0000 * f + 0x1_0000_0000_0000 * g + 0x100_0000_0000_0000 * h
  {
    DecodeFour(e, f, g, h);
    DecodeCons(d, [e, f, g, h]);
    DecodeCons(c, [d, e, f, g, h]);
    DecodeCons(b, [c, d, e, f, g, h]);
    DecodeCons(a, [b, c, d, e, f, g, h]);
    assert [d, e, f, g, h] == [d] + [e, f, g, h];
    assert [c, d, e, f, g, h] == [c] + [d, e, f, g, h];
    assert [b, c, d, e, f, g, h] == [b] + [c, d, e, f, g, h];
    assert [a, b, c, d, e, f, g, h] == [a] + [b, c, d, e, f, g, h];
  }
}
