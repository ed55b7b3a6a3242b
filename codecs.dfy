/**
 * Fixed-width byte images of trivially copyable types.
 *
 * The serializer copies a trivially copyable value as its `sizeof(T)` raw
 * bytes and reads it back with `memcpy`. A `Codec<T>` stands for that object
 * representation: `size` is `sizeof(T)`, `enc` the bytes of a value, `dec` the
 * value a run of bytes stands for. `TriviallyCopyable(c)` is the type-level
 * restriction the source enforces with `static_assert`: every value has an
 * image of exactly `size` bytes and copying that image back yields the value.
 */
module Codecs {
  import opened Bytes

  datatype Codec<!T> = Codec(size: nat, enc: T -> seq<Byte>, dec: seq<Byte> -> T)

  ghost predicate TriviallyCopyable<T(!new)>(c: Codec<T>)
  {
    forall x: T :: |c.enc(x)| == c.size && c.dec(c.enc(x)) == x
  }

  /** C++ `int`, 4 bytes. */
  newtype Int32 = x: int | -0x8000_0000 <= x < 0x8000_0000
  /** C++ `long long` / `int64_t`, 8 bytes. */
  newtype Int64 = x: int | -0x8000_0000_0000_0000 <= x < 0x8000_0000_0000_0000
  /** C++ `std::size_t` / `uint64_t`, 8 bytes. */
  newtype UInt64 = x: int | 0 <= x < 0x1_0000_0000_0000_0000

  lemma Widths()
    ensures Pow256(4) == 0x1_0000_0000 && Half(4) == 0x8000_0000
    ensures Pow256(8) == 0x1_0000_0000_0000_0000 && Half(8) == 0x8000_0000_0000_0000
  {
  }

  /** The 4-byte little-endian image of a value below 2^32, byte by byte. */
  lemma LittleEndianFour(u: nat)
    requires u < Pow256(4)
    ensures LittleEndian(u, 4)
         == [(u % 0x100) as Byte, (u / 0x100 % 0x100) as Byte,
             (u / 0x100 / 0x100 % 0x100) as Byte, (u / 0x100 / 0x100 / 0x100 % 0x100) as Byte]
  {
    var q1 := u / 0x100;
    var q2 := q1 / 0x100;
    var q3 := q2 / 0x100;
    assert LittleEndian(u, 4) == [(u % 0x100) as Byte] + LittleEndian(q1, 3);
    assert LittleEndian(q1, 3) == [(q1 % 0x100) as Byte] + LittleEndian(q2, 2);
    assert LittleEndian(q2, 2) == [(q2 % 0x100) as Byte] + LittleEndian(q3, 1);
  }

  /** The value of a 4-byte little-endian image, byte by byte. */
  lemma FromLittleEndianFour(t: seq<Byte>)
    requires |t| == 4
    ensures FromLittleEndian(t) == t[0] as int + 0x100 * (t[1] as int + 0x100 * (t[2] as int + 0x100 * t[3] as int))
  {
    assert FromLittleEndian(t[3..]) == t[3] as int;
    assert t[2..][1..] == t[3..];
    assert FromLittleEndian(t[2..]) == t[2] as int + 0x100 * t[3] as int;
    assert t[1..][1..] == t[2..];
  }

  /**
   * The 4-byte image of an `int`: its two's complement pattern, low byte
   * first, so the sign bit is the top bit of the last byte.
   */
  function EncodeInt32(x: Int32): (r: seq<Byte>)
    ensures |r| == 4
    ensures r[3] >= 0x80 <==> x < 0
  {
    var u := if x < 0 then x as int + 0x1_0000_0000 else x as int;
    var q1 := u / 0x100;
    var q2 := q1 / 0x100;
    var q3 := q2 / 0x100;
    [(u % 0x100) as Byte, (q1 % 0x100) as Byte, (q2 % 0x100) as Byte, q3 as Byte]
  }

  /**
   * The `int` whose image is s; only the first four bytes are looked at, and
   * the value is negative exactly when the top bit of the fourth is set.
   */
  function DecodeInt32(s: seq<Byte>): (r: Int32)
    ensures |s| >= 4 ==> (r < 0 <==> s[3] >= 0x80)
  {
    if |s| < 4 then 0
    else
      var u := s[0] as int + 0x100 * (s[1] as int + 0x100 * (s[2] as int + 0x100 * s[3] as int));
      (if u < 0x8000_0000 then u else u - 0x1_0000_0000) as Int32
  }

  function EncodeInt64(x: Int64): (r: seq<Byte>)
    ensures |r| == 8
  {
    Widths();
    EncodeSigned(x as int, 8)
  }

  function DecodeInt64(s: seq<Byte>): Int64
  {
    if |s| < 8 then 0
    else
      Widths();
      DecodeSigned(s[..8]) as Int64
  }

  function EncodeUInt64(x: UInt64): (r: seq<Byte>)
    ensures |r| == 8
  {
    Widths();
    LittleEndian(x as nat, 8)
  }

  function DecodeUInt64(s: seq<Byte>): UInt64
  {
    if |s| < 8 then 0
    else
      Widths();
      FromLittleEndian(s[..8]) as UInt64
  }

  function EncodeChar(x: Byte): (r: seq<Byte>)
    ensures |r| == 1
  {
    [x]
  }

  function DecodeChar(s: seq<Byte>): Byte
  {
    if s == [] then 0 else s[0]
  }

  const Int32Codec: Codec<Int32> := Codec(4, EncodeInt32, DecodeInt32)
  const Int64Codec: Codec<Int64> := Codec(8, EncodeInt64, DecodeInt64)
  const UInt64Codec: Codec<UInt64> := Codec(8, EncodeUInt64, DecodeUInt64)
  const CharCodec: Codec<Byte> := Codec(1, EncodeChar, DecodeChar)

  /** The `int` image is the generic n-byte signed image at n = 4. */
  lemma Int32IsSigned(x: Int32)
    ensures EncodeInt32(x) == EncodeSigned(x as int, 4)
  {
    Widths();
    LittleEndianFour(ToTwosComplement(x as int, 4));
  }

  /** Reading an `int` is the generic n-byte signed reading at n = 4. */
  lemma Int32ReadIsSigned(s: seq<Byte>)
    requires |s| >= 4
    ensures DecodeInt32(s) as int == DecodeSigned(s[..4])
  {
    Widths();
    FromLittleEndianFour(s[..4]);
  }

  /** The `int` codec is the generic 4-byte signed codec, so it inverts. */
  lemma Int32IsTriviallyCopyable()
    ensures TriviallyCopyable(Int32Codec)
  {
    forall x: Int32 ensures DecodeInt32(EncodeInt32(x)) == x {
      Widths();
      var s := EncodeInt32(x);
      Int32IsSigned(x);
      Int32ReadIsSigned(s);
      assert s[..4] == s;
      SignedRoundTrip(x as int, 4);
    }
  }

  lemma Int64IsTriviallyCopyable()
    ensures TriviallyCopyable(Int64Codec)
  {
    forall x: Int64 ensures DecodeInt64(EncodeInt64(x)) == x {
      Widths();
      var s := EncodeInt64(x);
      assert s[..8] == s;
      SignedRoundTrip(x as int, 8);
    }
  }

  lemma UInt64IsTriviallyCopyable()
    ensures TriviallyCopyable(UInt64Codec)
  {
    forall x: UInt64 ensures DecodeUInt64(EncodeUInt64(x)) == x {
      Widths();
      var s := EncodeUInt64(x);
      assert s[..8] == s;
      FromLittleEndianOfLittleEndian(x as nat, 8);
    }
  }

  lemma CharIsTriviallyCopyable()
    ensures TriviallyCopyable(CharCodec)
  {
  }

  /**
   * `static_cast<int>(n)` of a size: the `int` congruent to n modulo 2^32
   * (the conversion C++20 defines and every supported compiler performs).
   */
  function WrapInt32(n: nat): (r: Int32)
    ensures 0 <= r ==> r as int <= n
  {
    var low := n % 0x1_0000_0000;
    (if low < 0x8000_0000 then low else low - 0x1_0000_0000) as Int32
  }

  /** The cast keeps the size modulo 2^32. */
  lemma WrapInt32Congruent(n: nat)
    ensures (n - WrapInt32(n) as int) % 0x1_0000_0000 == 0
  {
    var low := n % 0x1_0000_0000;
    assert n == 0x1_0000_0000 * (n / 0x1_0000_0000) + low;
    if low >= 0x8000_0000 {
      assert n - WrapInt32(n) as int == 0x1_0000_0000 * (n / 0x1_0000_0000 + 1);
    }
  }

  /** A size below 2^31 survives the cast unchanged; larger ones do not. */
  lemma WrapInt32Exact(n: nat)
    ensures WrapInt32(n) as int == n <==> n < 0x8000_0000
  {
  }
}
