/**
 * Raw bytes and the fixed-width integer images built from them.
 *
 * A `char` of the byte vector is one unsigned byte. Multi-byte integers are
 * laid out little-endian, and signed integers use two's complement: this is
 * the object representation that `reinterpret_cast`/`memcpy` expose on the
 * platforms the serializer is built for.
 */
module Bytes {

  /** One `char` of a `std::vector<char>`, taken as its unsigned bit pattern. */
  newtype Byte = b: int | 0 <= b < 256

  /** 256^n: the number of distinct values an n-byte image can hold. */
  function Pow256(n: nat): (r: nat)
    ensures r >= 1
  {
    if n == 0 then 1 else 256 * Pow256(n - 1)
  }

  /** Half the range of an n-byte image: the bound of the signed values. */
  function Half(n: nat): (h: int)
    requires n > 0
    ensures h >= 1 && 2 * h == Pow256(n)
  {
    128 * Pow256(n - 1)
  }

  /** The n-byte little-endian image of an unsigned value below 256^n: the low byte comes first. */
  function LittleEndian(u: nat, n: nat): (r: seq<Byte>)
    requires u < Pow256(n)
    ensures |r| == n
    ensures n > 0 ==> r[0] as int == u % 256
  {
    if n == 0 then []
    else
      var p := Pow256(n - 1);
      assert u / 256 < p by { DivBound(u, p); }
      [(u % 256) as Byte] + LittleEndian(u / 256, n - 1)
  }

  /** The unsigned value whose little-endian image is s. */
  function FromLittleEndian(s: seq<Byte>): (r: nat)
    ensures r < Pow256(|s|)
  {
    if s == [] then 0
    else
      var rest := FromLittleEndian(s[1..]);
      var p := Pow256(|s| - 1);
      assert s[0] as nat + 256 * rest < 256 * p by { MulStep(rest, p); }
      s[0] as nat + 256 * rest
  }

  lemma DivBound(u: nat, p: nat)
    requires u < 256 * p
    ensures u / 256 < p
  {
    assert u == 256 * (u / 256) + u % 256;
  }

  lemma Congruent(u: int, x: int, p: int)
    requires p >= 1 && (u == x || u == x + p)
    ensures (u - x) % p == 0
  {
    if u != x {
      assert u - x == p;
    }
  }

  lemma MulStep(a: nat, p: nat)
    requires a < p
    ensures 256 * a + 255 < 256 * p
  {
  }

  lemma DigitSplit(d: nat, rest: nat)
    requires d < 256
    ensures (d + 256 * rest) % 256 == d
    ensures (d + 256 * rest) / 256 == rest
  {
  }

  /** Reading back an image gives the value that was written. */
  lemma {:induction false} FromLittleEndianOfLittleEndian(u: nat, n: nat)
    requires u < Pow256(n)
    ensures FromLittleEndian(LittleEndian(u, n)) == u
  {
    if n > 0 {
      var s := LittleEndian(u, n);
      assert s[1..] == LittleEndian(u / 256, n - 1);
      FromLittleEndianOfLittleEndian(u / 256, n - 1);
    }
  }

  /** Every n-byte sequence is the image of exactly one value: the codec is a bijection. */
  lemma {:induction false} LittleEndianOfFromLittleEndian(s: seq<Byte>)
    ensures LittleEndian(FromLittleEndian(s), |s|) == s
  {
    if s != [] {
      var rest := FromLittleEndian(s[1..]);
      DigitSplit(s[0] as nat, rest);
      LittleEndianOfFromLittleEndian(s[1..]);
      assert LittleEndian(FromLittleEndian(s), |s|) == [s[0]] + s[1..];
    }
  }

  /** The two's complement pattern of x in n bytes. */
  function ToTwosComplement(x: int, n: nat): (u: nat)
    requires n > 0 && -Half(n) <= x < Half(n)
    ensures u < Pow256(n)
    ensures (u - x) % Pow256(n) == 0
  {
    var u := if x < 0 then x + Pow256(n) else x;
    Congruent(u, x, Pow256(n));
    u
  }

  /** The signed value an n-byte two's complement pattern stands for. */
  function FromTwosComplement(u: nat, n: nat): (x: int)
    requires n > 0 && u < Pow256(n)
    ensures -Half(n) <= x < Half(n)
    ensures (u - x) % Pow256(n) == 0
  {
    var x := if u >= Half(n) then u - Pow256(n) else u;
    Congruent(u, x, Pow256(n));
    x
  }

  /** The n-byte image of a signed value. */
  function EncodeSigned(x: int, n: nat): (r: seq<Byte>)
    requires n > 0 && -Half(n) <= x < Half(n)
    ensures |r| == n
  {
    LittleEndian(ToTwosComplement(x, n), n)
  }

  /** The signed value an image of |s| bytes stands for. */
  function DecodeSigned(s: seq<Byte>): (x: int)
    requires |s| > 0
    ensures -Half(|s|) <= x < Half(|s|)
  {
    FromTwosComplement(FromLittleEndian(s), |s|)
  }

  /** Decoding the image of a signed value gives that value back. */
  lemma SignedRoundTrip(x: int, n: nat)
    requires n > 0 && -Half(n) <= x < Half(n)
    ensures DecodeSigned(EncodeSigned(x, n)) == x
  {
    FromLittleEndianOfLittleEndian(ToTwosComplement(x, n), n);
  }
}
