/**
 * The byte layout the serializer writes, and what reading it at a position
 * yields, as functions on byte sequences. The methods in `Serialization`
 * are proved to append exactly these encodings and to return exactly these
 * readings; the lemmas here state that every reading inverts its encoding
 * wherever the encoding sits in the byte vector.
 *
 * Layouts (all counts and lengths are a 4-byte `int`):
 *   scalar T          sizeof(T) bytes of its object representation
 *   std::string       length, then the characters
 *   std::vector<T>    element count, then each element's scalar image
 *   std::vector<char> element count, then the characters (fast path)
 *   vector<string>    element count, then each string's encoding
 */
module WireFormat {
  import opened Bytes
  import opened Codecs

  const IntSize: nat := 4

  // ---------------------------------------------------------------- writing

  /** `put_in(static_cast<int>(n), vec)`: a size written as an `int`. */
  function EncodeCount(n: nat): (r: seq<Byte>)
    ensures |r| == IntSize
  {
    EncodeInt32(WrapInt32(n))
  }

  /** The `int` length of a string after the cast is non-negative. */
  predicate LengthCastFits(s: seq<Byte>)
  {
    WrapInt32(|s|) >= 0
  }

  /**
   * `put_in<std::string>`: the cast length, then that many characters
   * from the start of the string.
   */
  function EncodeString(s: seq<Byte>): (r: seq<Byte>)
    requires LengthCastFits(s)
    ensures |r| == IntSize + WrapInt32(|s|) as int
  {
    var length := WrapInt32(|s|);
    EncodeInt32(length) + s[..length]
  }

  /**
   * The scalar images of the elements of v, in order: for a trivially
   * copyable type, n elements take n times sizeof(T) bytes.
   */
  function EncodeElems<T(!new)>(c: Codec<T>, v: seq<T>): (r: seq<Byte>)
    ensures TriviallyCopyable(c) ==> |r| == |v| * c.size
  {
    if v == [] then []
    else
      MulSucc(|v| - 1, c.size);
      EncodeElems(c, v[..|v| - 1]) + c.enc(v[|v| - 1])
  }

  lemma EncodeElemsSnoc<T(!new)>(c: Codec<T>, v: seq<T>, x: T)
    ensures EncodeElems(c, v + [x]) == EncodeElems(c, v) + c.enc(x)
  {
    assert (v + [x])[..|v|] == v;
  }

  /**
   * `put_in_vec<T>` for a trivially copyable T (the generic branch): the
   * 4-byte count, then the elements' images, 4 + n * sizeof(T) bytes in all.
   */
  function EncodeVec<T(!new)>(c: Codec<T>, v: seq<T>): (r: seq<Byte>)
    ensures |r| >= IntSize && r[..IntSize] == EncodeCount(|v|) && r[IntSize..] == EncodeElems(c, v)
    ensures TriviallyCopyable(c) ==> |r| == IntSize + |v| * c.size
  {
    EncodeCount(|v|) + EncodeElems(c, v)
  }

  /** `put_in_vec<char>`: the count, then the characters copied as a block. */
  function EncodeCharVec(v: seq<Byte>): (r: seq<Byte>)
    ensures |r| == IntSize + |v|
    ensures r[..IntSize] == EncodeCount(|v|) && r[IntSize..] == v
  {
    EncodeCount(|v|) + v
  }

  predicate AllLengthCastsFit(v: seq<seq<Byte>>)
  {
    forall i :: 0 <= i < |v| ==> LengthCastFits(v[i])
  }

  /** Every string of v is shorter than 2^31 characters. */
  predicate AllShort(v: seq<seq<Byte>>)
  {
    forall i :: 0 <= i < |v| ==> |v[i]| < 0x8000_0000
  }

  /** The number of characters in all the strings of v. */
  function TotalLength(v: seq<seq<Byte>>): nat
  {
    if v == [] then 0 else TotalLength(v[..|v| - 1]) + |v[|v| - 1]|
  }

  /**
   * The string encodings of the elements of v, in order: at least a 4-byte
   * length per string, and exactly 4 + length bytes per string below 2^31.
   */
  function EncodeStrings(v: seq<seq<Byte>>): (r: seq<Byte>)
    requires AllLengthCastsFit(v)
    ensures |r| >= IntSize * |v|
    ensures AllShort(v) ==> |r| == IntSize * |v| + TotalLength(v)
  {
    if v == [] then []
    else
      WrapInt32Exact(|v[|v| - 1]|);
      EncodeStrings(v[..|v| - 1]) + EncodeString(v[|v| - 1])
  }

  lemma EncodeStringsSnoc(v: seq<seq<Byte>>, s: seq<Byte>)
    requires AllLengthCastsFit(v) && LengthCastFits(s)
    ensures AllLengthCastsFit(v + [s])
    ensures EncodeStrings(v + [s]) == EncodeStrings(v) + EncodeString(s)
  {
    assert (v + [s])[..|v|] == v;
  }

  /**
   * `put_in_vec<std::string>` (the generic branch with `std::string`
   * elements): the 4-byte count, then each string's encoding.
   */
  function EncodeStringVec(v: seq<seq<Byte>>): (r: seq<Byte>)
    requires AllLengthCastsFit(v)
    ensures |r| >= IntSize && r[..IntSize] == EncodeCount(|v|) && r[IntSize..] == EncodeStrings(v)
    ensures AllShort(v) ==> |r| == IntSize * (|v| + 1) + TotalLength(v)
  {
    EncodeCount(|v|) + EncodeStrings(v)
  }

  // ---------------------------------------------------------------- reading

  /** `get_out<T>` for a trivially copyable T: the value and the next position. */
  function ReadScalar<T>(c: Codec<T>, data: seq<Byte>, pos: nat): (r: (T, nat))
    requires pos + c.size <= |data|
    ensures r.1 == pos + c.size
  {
    (c.dec(data[pos..pos + c.size]), pos + c.size)
  }

  /** The `int` stored at pos; it is negative exactly when the top bit of its last byte is set. */
  function CountAt(data: seq<Byte>, pos: nat): (r: int)
    requires pos + IntSize <= |data|
    ensures r < 0 <==> data[pos + 3] >= 0x80
  {
    ReadScalar(Int32Codec, data, pos).0 as int
  }

  /** The bytes at pos hold a length that is non-negative and in range. */
  predicate StringAt(data: seq<Byte>, pos: nat)
  {
    pos + IntSize <= |data| && 0 <= CountAt(data, pos) && pos + IntSize + CountAt(data, pos) <= |data|
  }

  /** `get_out<std::string>`: the string and the next position. */
  function ReadString(data: seq<Byte>, pos: nat): (r: (seq<Byte>, nat))
    requires StringAt(data, pos)
    ensures |r.0| == CountAt(data, pos) && r.1 == pos + IntSize + |r.0|
    ensures r.0 == data[pos + IntSize..r.1]
  {
    var length := CountAt(data, pos);
    (data[pos + IntSize..pos + IntSize + length], pos + IntSize + length)
  }

  lemma MulMono(a: nat, b: nat, k: nat)
    requires a <= b
    ensures a * k <= b * k
  {
  }

  lemma MulSucc(i: nat, k: nat)
    ensures (i + 1) * k == i * k + k
  {
  }

  /** n elements read one after another from pos. */
  function ReadElems<T>(c: Codec<T>, data: seq<Byte>, pos: nat, n: nat): (r: seq<T>)
    requires pos + n * c.size <= |data|
    ensures |r| == n
  {
    if n == 0 then []
    else
      MulMono(n - 1, n, c.size);
      var start := pos + (n - 1) * c.size;
      ReadElems(c, data, pos, n - 1) + [ReadScalar(c, data, start).0]
  }

  lemma ReadElemsSnoc<T>(c: Codec<T>, data: seq<Byte>, pos: nat, i: nat)
    requires pos + (i + 1) * c.size <= |data|
    ensures pos + i * c.size + c.size <= |data|
    ensures ReadElems(c, data, pos, i + 1)
         == ReadElems(c, data, pos, i) + [ReadScalar(c, data, pos + i * c.size).0]
  {
    MulSucc(i, c.size);
  }

  /** The bytes at pos hold a count that is non-negative and elements in range. */
  predicate VecAt<T>(c: Codec<T>, data: seq<Byte>, pos: nat)
  {
    pos + IntSize <= |data| && 0 <= CountAt(data, pos)
    && pos + IntSize + CountAt(data, pos) * c.size <= |data|
  }

  /** `get_out_vec<T>` for a trivially copyable T: the vector and the next position. */
  function ReadVec<T>(c: Codec<T>, data: seq<Byte>, pos: nat): (r: (seq<T>, nat))
    requires VecAt(c, data, pos)
    ensures |r.0| == CountAt(data, pos) && r.1 == pos + IntSize + |r.0| * c.size
    ensures pos + IntSize <= r.1 <= |data|
  {
    var n: nat := CountAt(data, pos);
    MulMono(0, n, c.size);
    (ReadElems(c, data, pos + IntSize, n), pos + IntSize + n * c.size)
  }

  // ------------------------------------------------------------ round trips

  /** The bytes e sit in data starting at pos. */
  predicate Holds(data: seq<Byte>, pos: nat, e: seq<Byte>)
  {
    pos + |e| <= |data| && data[pos..pos + |e|] == e
  }

  /** Bytes a + b at pos are a at pos followed by b right after it. */
  lemma Split(data: seq<Byte>, pos: nat, a: seq<Byte>, b: seq<Byte>)
    requires Holds(data, pos, a + b)
    ensures Holds(data, pos, a) && Holds(data, pos + |a|, b)
  {
    assert data[pos..pos + |a|] == (a + b)[..|a|];
    assert data[pos + |a|..pos + |a| + |b|] == (a + b)[|a|..];
  }

  /** Three runs of bytes written one after another, each where the previous one ends. */
  lemma Layout3(data: seq<Byte>, a: seq<Byte>, b: seq<Byte>, c: seq<Byte>)
    requires data == a + b + c
    ensures Holds(data, 0, a) && Holds(data, |a|, b) && Holds(data, |a| + |b|, c)
  {
    assert data[0..|a|] == a;
    assert data[|a|..|a| + |b|] == b;
    assert data[|a| + |b|..|a| + |b| + |c|] == c;
  }

  /** A whole byte vector holds itself at position 0. */
  lemma HoldsWhole(data: seq<Byte>)
    ensures Holds(data, 0, data)
  {
    assert data[0..|data|] == data;
  }

  lemma Assoc(a: seq<Byte>, b: seq<Byte>, c: seq<Byte>)
    ensures a + b + c == a + (b + c)
  {
  }

  lemma LastSplit<X>(v: seq<X>)
    requires v != []
    ensures v == v[..|v| - 1] + [v[|v| - 1]]
  {
  }

  /** Byte runs written one after another. */
  function Concat(es: seq<seq<Byte>>): seq<Byte>
  {
    if es == [] then [] else Concat(es[..|es| - 1]) + es[|es| - 1]
  }

  /** The first i + 1 runs are the first i followed by the i-th. */
  lemma ConcatStep(es: seq<seq<Byte>>, i: nat)
    requires i < |es|
    ensures Concat(es[..i + 1]) == Concat(es[..i]) + es[i]
  {
    assert es[..i + 1][..i] == es[..i];
  }

  /** Runs written back to back: the i-th run sits right after the first i. */
  lemma {:induction false} ConcatAt(es: seq<seq<Byte>>, data: seq<Byte>, pos: nat, i: nat)
    requires Holds(data, pos, Concat(es)) && i < |es|
    ensures Holds(data, pos + |Concat(es[..i])|, es[i])
  {
    var init := es[..|es| - 1];
    Split(data, pos, Concat(init), es[|es| - 1]);
    if i < |es| - 1 {
      ConcatAt(init, data, pos, i);
      assert init[..i] == es[..i];
    }
  }

  /** A scalar is read back wherever its image sits, and the cursor moves past exactly that image. */
  lemma ScalarRoundTrip<T(!new)>(c: Codec<T>, x: T, data: seq<Byte>, pos: nat)
    requires TriviallyCopyable(c) && Holds(data, pos, c.enc(x))
    ensures pos + c.size <= |data|
    ensures ReadScalar(c, data, pos) == (x, pos + c.size)
  {
  }

  /** A count is read back as the `int` it was cast to; below 2^31 that is the count itself. */
  lemma CountRoundTrip(n: nat, data: seq<Byte>, pos: nat)
    requires Holds(data, pos, EncodeCount(n))
    ensures pos + IntSize <= |data|
    ensures CountAt(data, pos) == WrapInt32(n) as int
    ensures n < 0x8000_0000 ==> CountAt(data, pos) == n
  {
    Int32IsTriviallyCopyable();
    ScalarRoundTrip(Int32Codec, WrapInt32(n), data, pos);
    WrapInt32Exact(n);
  }

  /**
   * `get_out<std::string>` at the start of `put_in<std::string>(s)` returns
   * the characters that were written, and the cursor ends right after them.
   * For strings shorter than 2^31 that is s itself.
   */
  lemma StringRoundTrip(s: seq<Byte>, data: seq<Byte>, pos: nat)
    requires LengthCastFits(s) && Holds(data, pos, EncodeString(s))
    ensures StringAt(data, pos)
    ensures ReadString(data, pos) == (s[..WrapInt32(|s|)], pos + |EncodeString(s)|)
    ensures |s| < 0x8000_0000 ==> ReadString(data, pos) == (s, pos + IntSize + |s|)
  {
    var length := WrapInt32(|s|);
    Split(data, pos, EncodeCount(|s|), s[..length]);
    CountRoundTrip(|s|, data, pos);
    WrapInt32Exact(|s|);
    if |s| < 0x8000_0000 {
      assert s[..length] == s;
    }
  }

  /** A string shorter than 2^31 characters is read back whole, and the cursor lands at next. */
  lemma ShortStringRoundTrip(s: seq<Byte>, data: seq<Byte>, pos: nat, next: nat)
    requires |s| < 0x8000_0000 && LengthCastFits(s) && Holds(data, pos, EncodeString(s))
    requires next == pos + IntSize + |s|
    ensures StringAt(data, pos) && ReadString(data, pos) == (s, next)
  {
    StringRoundTrip(s, data, pos);
  }

  /** The elements of v but the last, and the last one, where their images sit. */
  lemma ElemsInit<T(!new)>(c: Codec<T>, v: seq<T>, data: seq<Byte>, pos: nat) returns (at: nat)
    requires TriviallyCopyable(c) && v != [] && Holds(data, pos, EncodeElems(c, v))
    ensures at == pos + (|v| - 1) * c.size
    ensures Holds(data, pos, EncodeElems(c, v[..|v| - 1])) && Holds(data, at, c.enc(v[|v| - 1]))
  {
    MulMono(0, |v| - 1, c.size);
    at := pos + (|v| - 1) * c.size;
    Split(data, pos, EncodeElems(c, v[..|v| - 1]), c.enc(v[|v| - 1]));
  }

  /** Once the elements of v but the last are read back, so is v. */
  lemma ElemsStep<T(!new)>(c: Codec<T>, v: seq<T>, data: seq<Byte>, pos: nat, at: nat)
    requires TriviallyCopyable(c) && v != [] && pos + |v| * c.size <= |data|
    requires at == pos + (|v| - 1) * c.size && Holds(data, at, c.enc(v[|v| - 1]))
    requires ReadElems(c, data, pos, |v| - 1) == v[..|v| - 1]
    ensures ReadElems(c, data, pos, |v|) == v
  {
    LastSplit(v);
    ScalarRoundTrip(c, v[|v| - 1], data, at);
    ReadElemsSnoc(c, data, pos, |v| - 1);
  }

  /** Elements written one after another are read back in order. */
  lemma {:induction false} ElemsRoundTrip<T(!new)>(c: Codec<T>, v: seq<T>, data: seq<Byte>, pos: nat)
    requires TriviallyCopyable(c) && Holds(data, pos, EncodeElems(c, v))
    ensures pos + |v| * c.size <= |data|
    ensures ReadElems(c, data, pos, |v|) == v
  {
    if v != [] {
      var at := ElemsInit(c, v, data, pos);
      ElemsRoundTrip(c, v[..|v| - 1], data, pos);
      ElemsStep(c, v, data, pos, at);
    }
  }

  /**
   * `get_out_vec<T>` at the start of `put_in_vec<T>(v)` returns v, and the
   * cursor ends right after the encoding.
   */
  lemma VecRoundTrip<T(!new)>(c: Codec<T>, v: seq<T>, data: seq<Byte>, pos: nat)
    requires TriviallyCopyable(c) && Holds(data, pos, EncodeVec(c, v))
    requires |v| < 0x8000_0000
    ensures VecAt(c, data, pos)
    ensures ReadVec(c, data, pos) == (v, pos + |EncodeVec(c, v)|)
  {
    Split(data, pos, EncodeCount(|v|), EncodeElems(c, v));
    CountRoundTrip(|v|, data, pos);
    ElemsRoundTrip(c, v, data, pos + IntSize);
  }

  /** Per-character scalar images concatenate to the characters themselves. */
  lemma {:induction false} CharElemsAreRaw(v: seq<Byte>)
    ensures EncodeElems(CharCodec, v) == v
  {
    if v != [] {
      CharElemsAreRaw(v[..|v| - 1]);
      assert v == v[..|v| - 1] + [v[|v| - 1]];
    }
  }

  /** The `char` fast path writes the same bytes as the generic per-element branch. */
  lemma CharFastPathIsGeneric(v: seq<Byte>)
    ensures EncodeCharVec(v) == EncodeVec(CharCodec, v)
  {
    CharElemsAreRaw(v);
  }

  /** What the `char` fast path writes, the generic branch of `get_out_vec<char>` reads back. */
  lemma CharVecRoundTrip(v: seq<Byte>, data: seq<Byte>, pos: nat)
    requires Holds(data, pos, EncodeCharVec(v))
    requires |v| < 0x8000_0000
    ensures VecAt(CharCodec, data, pos)
    ensures ReadVec(CharCodec, data, pos) == (v, pos + IntSize + |v|)
  {
    CharFastPathIsGeneric(v);
    CharIsTriviallyCopyable();
    VecRoundTrip(CharCodec, v, data, pos);
  }

  // ----------------------------------------------------- vectors of strings

  /** The result of reading several strings: the strings and the position after them, or a failure. */
  datatype StringsRead = Misread | Read(strings: seq<seq<Byte>>, next: nat)

  /** Strings shorter than 2^31 keep their length through the cast to `int`. */
  lemma ShortFits(v: seq<seq<Byte>>)
    requires AllShort(v)
    ensures AllLengthCastsFit(v)
  {
    forall i | 0 <= i < |v| ensures LengthCastFits(v[i]) {
      WrapInt32Exact(|v[i]|);
    }
  }

  /**
   * n strings read one after another by `get_out<std::string>` from pos:
   * the strings and the position after the last one, or Misread when a length
   * met on the way is negative or runs past the end of the bytes.
   */
  function ReadStrings(data: seq<Byte>, pos: nat, n: nat): (r: StringsRead)
    ensures r.Read? ==> |r.strings| == n && pos <= r.next
  {
    if n == 0 then Read([], pos)
    else
      match ReadStrings(data, pos, n - 1)
      case Misread => Misread
      case Read(init, p) =>
        if StringAt(data, p) then
          var (s, q) := ReadString(data, p);
          Read(init + [s], q)
        else Misread
  }

  /** When n strings can be read, so can the first i of them. */
  lemma {:induction false} ReadStringsPrefix(data: seq<Byte>, pos: nat, i: nat, n: nat)
    requires i <= n && ReadStrings(data, pos, n).Read?
    ensures ReadStrings(data, pos, i).Read?
  {
    if i < n {
      ReadStringsPrefix(data, pos, i, n - 1);
    }
  }

  /** One more string read after the first n - 1. */
  lemma ReadStringsSnoc(data: seq<Byte>, pos: nat, v: seq<seq<Byte>>, p: nat, q: nat)
    requires v != [] && ReadStrings(data, pos, |v| - 1) == Read(v[..|v| - 1], p)
    requires StringAt(data, p) && ReadString(data, p).0 == v[|v| - 1] && ReadString(data, p).1 == q
    ensures ReadStrings(data, pos, |v|) == Read(v, q)
  {
    LastSplit(v);
  }

  /** When n strings can be read, the (i + 1)-th one, i < n, is the one at the end of the first i. */
  lemma ReadStringsNext(data: seq<Byte>, pos: nat, i: nat, n: nat, init: seq<seq<Byte>>, q: nat)
    requires i < n && ReadStrings(data, pos, n).Read? && ReadStrings(data, pos, i) == Read(init, q)
    ensures StringAt(data, q)
    ensures ReadStrings(data, pos, i + 1) == Read(init + [ReadString(data, q).0], ReadString(data, q).1)
  {
    ReadStringsPrefix(data, pos, i + 1, n);
  }

  /**
   * `get_out_vec<std::string>` as the generic branch reads it with T =
   * std::string: the `int` count, then that many strings.
   */
  function ReadStringVec(data: seq<Byte>, pos: nat): (r: StringsRead)
    ensures r.Read? <==> pos + IntSize <= |data| && 0 <= CountAt(data, pos)
                         && ReadStrings(data, pos + IntSize, CountAt(data, pos)).Read?
    ensures r.Read? ==> |r.strings| == CountAt(data, pos) && pos + IntSize <= r.next
  {
    if pos + IntSize <= |data| && 0 <= CountAt(data, pos) then
      ReadStrings(data, pos + IntSize, CountAt(data, pos))
    else Misread
  }

  /** The strings of v but the last are short and fit the cast too. */
  lemma ShortPrefix(v: seq<seq<Byte>>)
    requires v != [] && AllShort(v) && AllLengthCastsFit(v)
    ensures AllShort(v[..|v| - 1]) && AllLengthCastsFit(v[..|v| - 1])
    ensures |v[|v| - 1]| < 0x8000_0000 && LengthCastFits(v[|v| - 1])
  {
  }

  /** The encodings of the strings of v but the last, followed by the last one's. */
  lemma EncodeStringsLast(v: seq<seq<Byte>>)
    requires v != [] && AllShort(v) && AllLengthCastsFit(v) && AllLengthCastsFit(v[..|v| - 1])
    ensures EncodeStrings(v) == EncodeStrings(v[..|v| - 1]) + EncodeString(v[|v| - 1])
    ensures |EncodeStrings(v)| == |EncodeStrings(v[..|v| - 1])| + IntSize + |v[|v| - 1]|
  {
    WrapInt32Exact(|v[|v| - 1]|);
  }

  /** The strings of v but the last, and where their encodings sit. */
  lemma StringsInit(v: seq<seq<Byte>>, data: seq<Byte>, pos: nat)
    requires v != [] && AllShort(v) && AllLengthCastsFit(v) && Holds(data, pos, EncodeStrings(v))
    ensures AllShort(v[..|v| - 1]) && AllLengthCastsFit(v[..|v| - 1])
    ensures |v[|v| - 1]| < 0x8000_0000 && LengthCastFits(v[|v| - 1])
    ensures Holds(data, pos, EncodeStrings(v[..|v| - 1]) + EncodeString(v[|v| - 1]))
    ensures Holds(data, pos, EncodeStrings(v[..|v| - 1]))
    ensures |EncodeStrings(v)| == |EncodeStrings(v[..|v| - 1])| + IntSize + |v[|v| - 1]|
  {
    ShortPrefix(v);
    EncodeStringsLast(v);
    Split(data, pos, EncodeStrings(v[..|v| - 1]), EncodeString(v[|v| - 1]));
  }

  /** The string written right after init is read back where their encodings end. */
  lemma StringAfter(init: seq<seq<Byte>>, last: seq<Byte>, data: seq<Byte>, pos: nat, at: nat, end: nat)
    requires |last| < 0x8000_0000 && AllLengthCastsFit(init) && LengthCastFits(last)
    requires Holds(data, pos, EncodeStrings(init) + EncodeString(last))
    requires at == pos + |EncodeStrings(init)| && end == at + IntSize + |last|
    ensures StringAt(data, at) && ReadString(data, at).0 == last && ReadString(data, at).1 == end
  {
    Split(data, pos, EncodeStrings(init), EncodeString(last));
    ShortStringRoundTrip(last, data, at, end);
  }

  /** Once the strings of v but the last are read back, so is v. */
  lemma StringsStep(v: seq<seq<Byte>>, data: seq<Byte>, pos: nat)
    requires v != [] && AllLengthCastsFit(v) && AllLengthCastsFit(v[..|v| - 1])
    requires |v[|v| - 1]| < 0x8000_0000 && LengthCastFits(v[|v| - 1])
    requires |EncodeStrings(v)| == |EncodeStrings(v[..|v| - 1])| + IntSize + |v[|v| - 1]|
    requires Holds(data, pos, EncodeStrings(v[..|v| - 1]) + EncodeString(v[|v| - 1]))
    requires ReadStrings(data, pos, |v| - 1) == Read(v[..|v| - 1], pos + |EncodeStrings(v[..|v| - 1])|)
    ensures ReadStrings(data, pos, |v|) == Read(v, pos + |EncodeStrings(v)|)
  {
    var init, last := v[..|v| - 1], v[|v| - 1];
    var at: nat := pos + |EncodeStrings(init)|;
    var end: nat := pos + |EncodeStrings(v)|;
    StringAfter(init, last, data, pos, at, end);
    ReadStringsSnoc(data, pos, v, at, end);
  }

  /** Strings written back to back are read back in order, and the cursor lands right after them. */
  lemma {:induction false} StringsRoundTrip(v: seq<seq<Byte>>, data: seq<Byte>, pos: nat)
    requires AllShort(v) && AllLengthCastsFit(v) && Holds(data, pos, EncodeStrings(v))
    ensures ReadStrings(data, pos, |v|) == Read(v, pos + |EncodeStrings(v)|)
  {
    if v != [] {
      StringsInit(v, data, pos);
      StringsRoundTrip(v[..|v| - 1], data, pos);
      StringsStep(v, data, pos);
    }
  }

  /**
   * What `put_in_vec<std::string>` writes, the per-string reading of
   * `get_out_vec<std::string>` returns, with the cursor right after it.
   */
  lemma StringVecRoundTrip(v: seq<seq<Byte>>, data: seq<Byte>, pos: nat)
    requires AllShort(v) && AllLengthCastsFit(v) && |v| < 0x8000_0000
    requires Holds(data, pos, EncodeStringVec(v))
    ensures ReadStringVec(data, pos) == Read(v, pos + |EncodeStringVec(v)|)
  {
    Split(data, pos, EncodeCount(|v|), EncodeStrings(v));
    CountRoundTrip(|v|, data, pos);
    StringsRoundTrip(v, data, pos + IntSize);
  }

  /** The count 1 is written as the bytes 1, 0, 0, 0. */
  lemma EncodeCountOne()
    ensures EncodeCount(1) == [1, 0, 0, 0]
  {
    Widths();
    assert WrapInt32(1) == 1;
  }

  /**
   * The `std::string` branch of `get_out_vec` reads one length and that many
   * bytes. On the bytes `put_in_vec<std::string>` writes for the one-string
   * vector {"a"} it takes the string's length prefix for a character and
   * stops in the middle of the encoding, where the per-string reading
   * returns the vector.
   */
  lemma StringBranchMisreads()
    ensures var data := EncodeStringVec([[97]]);
      |data| == 9 && StringAt(data, 0) && ReadString(data, 0) == ([1], 5)
      && ReadStringVec(data, 0) == Read([[97]], 9)
  {
    var v: seq<seq<Byte>> := [[97]];
    ShortFits(v);
    var data := EncodeStringVec(v);
    assert |data| == 9 by {
      assert v[..0] == [];
    }
    assert Holds(data, 0, EncodeCount(1));
    CountRoundTrip(1, data, 0);
    assert data[4] == 1 by {
      EncodeCountOne();
      assert v[..0] == [];
      assert EncodeStrings(v) == EncodeString([97]);
      assert data[4] == EncodeStrings(v)[0];
    }
    assert ReadString(data, 0).0 == [data[4]];
    StringVecRoundTrip(v, data, 0);
  }
}
