/**
 * `ablastr::utils::serialization`: the writers append to a growable byte
 * vector in place; the readers take the bytes a `const_iterator` ranges over
 * and the iterator's position, and return the value read together with the
 * advanced position. Readers have no `modifies` clause: they cannot change
 * the bytes, only move the cursor.
 */
module Serialization {
  import opened Bytes
  import opened Codecs
  import opened WireFormat

  /** The `std::vector<char>` the writers append to. */
  class ByteVector {
    var data: seq<Byte>

    constructor ()
      ensures data == []
    {
      data := [];
    }
  }

  /** `put_in<T>` for a trivially copyable T: append the value's `sizeof(T)` bytes. */
  method PutIn<T(!new)>(c: Codec<T>, val: T, vec: ByteVector)
    requires TriviallyCopyable(c)
    modifies vec
    ensures vec.data == old(vec.data) + c.enc(val)
    ensures |vec.data| == |old(vec.data)| + c.size
    ensures vec.data[..|old(vec.data)|] == old(vec.data)
  {
    vec.data := vec.data + c.enc(val);
  }

  /** `put_in(static_cast<int>(n), vec)`: append a size as a 4-byte `int`. */
  method PutInCount(n: nat, vec: ByteVector)
    modifies vec
    ensures vec.data == old(vec.data) + EncodeCount(n)
  {
    Int32IsTriviallyCopyable();
    PutIn(Int32Codec, WrapInt32(n), vec);
  }

  /** `put_in<std::string>`: append the `int` length, then the characters. */
  method PutInString(val: seq<Byte>, vec: ByteVector)
    requires LengthCastFits(val)
    modifies vec
    ensures vec.data == old(vec.data) + EncodeString(val)
    ensures |val| < 0x8000_0000 ==> |vec.data| == |old(vec.data)| + IntSize + |val|
  {
    var length := WrapInt32(|val|);
    PutInCount(|val|, vec);
    vec.data := vec.data + val[..length];
  }

  /** `put_in_vec<T>`, generic branch: the `int` count, then each element via `put_in`. */
  method PutInVec<T(!new)>(c: Codec<T>, val: seq<T>, vec: ByteVector)
    requires TriviallyCopyable(c)
    modifies vec
    ensures vec.data == old(vec.data) + EncodeVec(c, val)
  {
    ghost var header := old(vec.data) + EncodeCount(|val|);
    PutInCount(|val|, vec);
    for i := 0 to |val|
      invariant vec.data == header + EncodeElems(c, val[..i])
    {
      var el := val[i];
      ghost var done := val[..i];
      assert val[..i + 1] == done + [el];
      EncodeElemsSnoc(c, done, el);
      PutIn(c, el, vec);
      Assoc(header, EncodeElems(c, done), c.enc(el));
    }
    assert val[..|val|] == val;
  }

  /** `put_in_vec<char>`, fast path: the `int` count, then the characters as one block. */
  method PutInCharVec(val: seq<Byte>, vec: ByteVector)
    modifies vec
    ensures vec.data == old(vec.data) + EncodeCharVec(val)
    ensures vec.data == old(vec.data) + EncodeVec(CharCodec, val)
  {
    PutInCount(|val|, vec);
    vec.data := vec.data + val;
    CharFastPathIsGeneric(val);
  }

  /** `put_in_vec<std::string>`: the `int` count, then each string via `put_in<std::string>`. */
  method PutInStringVec(val: seq<seq<Byte>>, vec: ByteVector)
    requires AllLengthCastsFit(val)
    modifies vec
    ensures vec.data == old(vec.data) + EncodeStringVec(val)
  {
    ghost var header := old(vec.data) + EncodeCount(|val|);
    PutInCount(|val|, vec);
    for i := 0 to |val|
      invariant vec.data == header + EncodeStrings(val[..i])
    {
      var el := val[i];
      ghost var done := val[..i];
      assert val[..i + 1] == done + [el];
      EncodeStringsSnoc(done, el);
      PutInString(el, vec);
      Assoc(header, EncodeStrings(done), EncodeString(el));
    }
    assert val[..|val|] == val;
  }

  /** `get_out<T>` for a trivially copyable T: copy `sizeof(T)` bytes out and advance past them. */
  method GetOut<T>(c: Codec<T>, data: seq<Byte>, it: nat) returns (res: T, next: nat)
    requires it + c.size <= |data|
    ensures res == ReadScalar(c, data, it).0 && next == ReadScalar(c, data, it).1
  {
    var temp := data[it..it + c.size];
    next := it + c.size;
    res := c.dec(temp);
  }

  /** `get_out<std::string>`: read the `int` length, then that many characters. */
  method GetOutString(data: seq<Byte>, it: nat) returns (str: seq<Byte>, next: nat)
    requires StringAt(data, it)
    ensures str == ReadString(data, it).0 && next == ReadString(data, it).1
  {
    var length, p := GetOutCount(data, it);
    str := data[p..p + length];
    next := p + length;
  }

  /** `get_out<int>(it)`: the 4-byte count or length stored at the cursor. */
  method GetOutCount(data: seq<Byte>, it: nat) returns (n: int, next: nat)
    requires it + IntSize <= |data|
    ensures n == CountAt(data, it) && next == it + IntSize
  {
    var length;
    length, next := GetOut(Int32Codec, data, it);
    n := length as int;
  }

  /** `get_out_vec<T>`, generic branch: read the `int` count, then that many elements. */
  method GetOutVec<T(0)>(c: Codec<T>, data: seq<Byte>, it: nat) returns (res: seq<T>, next: nat)
    requires VecAt(c, data, it)
    ensures res == ReadVec(c, data, it).0 && next == ReadVec(c, data, it).1
  {
    var length, p := GetOutCount(data, it);
    res, next := GetOutElems(c, data, p, length);
  }

  /**
   * The counted loop of `get_out_vec<T>`: allocate `res(length)`, then fill
   * `res[i]` by successive `get_out<T>` calls on the one cursor.
   */
  method GetOutElems<T(0)>(c: Codec<T>, data: seq<Byte>, it: nat, length: nat)
    returns (res: seq<T>, next: nat)
    requires it + length * c.size <= |data|
    ensures res == ReadElems(c, data, it, length)
    ensures next == it + length * c.size
  {
    var a := new T[length];
    next := it;
    for i := 0 to length
      invariant next == it + i * c.size
      invariant a[..i] == ReadElems(c, data, it, i)
    {
      MulMono(i + 1, length, c.size);
      ReadElemsSnoc(c, data, it, i);
      var el;
      el, next := GetOut(c, data, next);
      a[i] := el;
      assert a[..i + 1] == a[..i] + [el];
    }
    res := a[..];
    assert res == a[..length];
  }

  /**
   * The `std::string` branch of `get_out_vec` as written: one `int` length,
   * then that many bytes copied into a `std::vector<char>`, which is what the
   * branch returns in place of the declared `std::vector<std::string>`.
   */
  method GetOutVecStringBranch(data: seq<Byte>, it: nat) returns (res: seq<Byte>, next: nat)
    requires StringAt(data, it)
    ensures res == ReadString(data, it).0 && next == ReadString(data, it).1
  {
    var length, p := GetOutCount(data, it);
    res := data[p..p + length];
    next := p + length;
  }

  /**
   * `get_out_vec<std::string>` read as the generic branch reads any element
   * type: allocate `res(length)`, then fill `res[i]` by successive
   * `get_out<std::string>` calls on the one cursor.
   */
  method GetOutStringVec(data: seq<Byte>, it: nat) returns (res: seq<seq<Byte>>, next: nat)
    requires ReadStringVec(data, it).Read?
    ensures ReadStringVec(data, it) == Read(res, next)
  {
    var length, p := GetOutCount(data, it);
    var a := new seq<Byte>[length];
    next := p;
    for i := 0 to length
      invariant ReadStrings(data, p, i) == Read(a[..i], next)
    {
      ghost var done := a[..i];
      ReadStringsNext(data, p, i, length, done, next);
      var s;
      s, next := GetOutString(data, next);
      a[i] := s;
      assert a[..i + 1] == done + [s];
    }
    res := a[..];
    assert res == a[..length];
  }

  /** A vector of strings written by `put_in_vec` comes back whole from the per-string reading. */
  method PutThenGetStrings(v: seq<seq<Byte>>) returns (v2: seq<seq<Byte>>, end: nat)
    requires AllShort(v) && |v| < 0x8000_0000
    ensures v2 == v
    ensures AllLengthCastsFit(v) && end == |EncodeStringVec(v)|
  {
    ShortFits(v);
    var vec := new ByteVector();
    PutInStringVec(v, vec);
    var data := vec.data;
    HoldsWhole(data);
    StringVecRoundTrip(v, data, 0);
    v2, end := GetOutStringVec(data, 0);
  }

  /** Where each value of a record of a scalar, a string and a vector sits in its bytes. */
  lemma RecordLayout<T(!new)>(c: Codec<T>, x: T, s: seq<Byte>, v: seq<T>, data: seq<Byte>)
    requires TriviallyCopyable(c) && |s| < 0x8000_0000 && LengthCastFits(s)
    requires data == c.enc(x) + EncodeString(s) + EncodeVec(c, v)
    ensures Holds(data, 0, c.enc(x)) && Holds(data, c.size, EncodeString(s))
    ensures Holds(data, c.size + IntSize + |s|, EncodeVec(c, v))
    ensures |data| == c.size + IntSize + |s| + IntSize + |v| * c.size
  {
    assert |EncodeString(s)| == IntSize + |s| by {
      WrapInt32Exact(|s|);
    }
    Layout3(data, c.enc(x), EncodeString(s), EncodeVec(c, v));
  }

  /**
   * The bytes of a record of a scalar, a string and a vector written back to
   * back: each value is read back where the previous reading stopped.
   */
  lemma RecordReadsBack<T(!new)>(c: Codec<T>, x: T, s: seq<Byte>, v: seq<T>, data: seq<Byte>, p1: nat, p2: nat)
    requires TriviallyCopyable(c)
    requires |s| < 0x8000_0000 && |v| < 0x8000_0000 && LengthCastFits(s)
    requires p1 == c.size && p2 == p1 + IntSize + |s|
    requires Holds(data, 0, c.enc(x)) && Holds(data, p1, EncodeString(s)) && Holds(data, p2, EncodeVec(c, v))
    requires |data| == p2 + |EncodeVec(c, v)|
    ensures ReadScalar(c, data, 0).0 == x && ReadScalar(c, data, 0).1 == p1
    ensures StringAt(data, p1) && ReadString(data, p1).0 == s && ReadString(data, p1).1 == p2
    ensures VecAt(c, data, p2) && ReadVec(c, data, p2).0 == v && ReadVec(c, data, p2).1 == |data|
  {
    ScalarRoundTrip(c, x, data, 0);
    ShortStringRoundTrip(s, data, p1, p2);
    VecRoundTrip(c, v, data, p2);
  }

  /**
   * A record written back to back (a scalar, a string, a vector) and read
   * back with one cursor: each read starts where the previous one stopped,
   * and every value comes back in order.
   */
  method PutThenGet<T(0,!new)>(c: Codec<T>, x: T, s: seq<Byte>, v: seq<T>)
    returns (x2: T, s2: seq<Byte>, v2: seq<T>, end: nat)
    requires TriviallyCopyable(c)
    requires |s| < 0x8000_0000 && |v| < 0x8000_0000
    ensures x2 == x && s2 == s && v2 == v
    ensures end == c.size + IntSize + |s| + IntSize + |v| * c.size
  {
    WrapInt32Exact(|s|);
    var vec := new ByteVector();
    PutIn(c, x, vec);
    PutInString(s, vec);
    PutInVec(c, v, vec);
    var data := vec.data;
    RecordLayout(c, x, s, v, data);
    RecordReadsBack(c, x, s, v, data, c.size, c.size + IntSize + |s|);

    var it := 0;
    x2, it := GetOut(c, data, it);
    s2, it := GetOutString(data, it);
    v2, it := GetOutVec(c, data, it);
    end := it;
  }
}
