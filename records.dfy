/**
 * Several values written back to back with `put_in`/`put_in_vec` into one
 * byte vector, and read back by successive `get_out`/`get_out_vec` calls on
 * one iterator. Because every reading advances the cursor by exactly what the
 * matching writing appended, each value comes back, in order, and the cursor
 * ends right after the last one.
 */
module Records {
  import opened Bytes
  import opened Codecs
  import opened WireFormat

  /** One value of a record, over a trivially copyable element type T. */
  datatype Field<T> =
    | Scalar(x: T)             // put_in<T> / get_out<T>
    | Text(s: seq<Byte>)       // put_in<std::string> / get_out<std::string>
    | Vector(v: seq<T>)        // put_in_vec<T> / get_out_vec<T>
    | Chars(cs: seq<Byte>)     // put_in_vec<char> (fast path) / get_out_vec<char>

  /** The sizes a field holds fit the `int` the serializer writes them as. */
  predicate Encodable<T>(f: Field<T>)
  {
    match f
    case Scalar(_) => true
    case Text(s) => |s| < 0x8000_0000
    case Vector(v) => |v| < 0x8000_0000
    case Chars(cs) => |cs| < 0x8000_0000
  }

  predicate AllEncodable<T>(fs: seq<Field<T>>)
  {
    forall i :: 0 <= i < |fs| ==> Encodable(fs[i])
  }

  /**
   * The bytes the matching writer appends for one field: sizeof(T) for a
   * scalar, the 4-byte size prefix plus the contents for the others.
   */
  function EncodeField<T(!new)>(c: Codec<T>, f: Field<T>): (r: seq<Byte>)
    requires Encodable(f)
    ensures f.Text? ==> |r| == IntSize + |f.s|
    ensures f.Chars? ==> |r| == IntSize + |f.cs|
    ensures TriviallyCopyable(c) && f.Scalar? ==> |r| == c.size
    ensures TriviallyCopyable(c) && f.Vector? ==> |r| == IntSize + |f.v| * c.size
  {
    match f
    case Scalar(x) => c.enc(x)
    case Text(s) => WrapInt32Exact(|s|); EncodeString(s)
    case Vector(v) => EncodeVec(c, v)
    case Chars(cs) => EncodeCharVec(cs)
  }

  /** The bytes each field of fs is written as, in order. */
  function Images<T(!new)>(c: Codec<T>, fs: seq<Field<T>>): (r: seq<seq<Byte>>)
    requires AllEncodable(fs)
    ensures |r| == |fs| && forall i :: 0 <= i < |fs| ==> r[i] == EncodeField(c, fs[i])
  {
    seq(|fs|, i requires 0 <= i < |fs| && Encodable(fs[i]) => EncodeField(c, fs[i]))
  }

  /** The fields written one after another. */
  function EncodeFields<T(!new)>(c: Codec<T>, fs: seq<Field<T>>): seq<Byte>
    requires AllEncodable(fs)
  {
    Concat(Images(c, fs))
  }

  /** The getter the reader calls for a field: the type it instantiates it with. */
  datatype Kind = ScalarKind | TextKind | VectorKind | CharsKind

  function KindOf<T>(f: Field<T>): Kind
  {
    match f
    case Scalar(_) => ScalarKind
    case Text(_) => TextKind
    case Vector(_) => VectorKind
    case Chars(_) => CharsKind
  }

  /** The bytes at pos are in range for the getter of kind k. */
  predicate FieldAt<T>(c: Codec<T>, k: Kind, data: seq<Byte>, pos: nat)
  {
    match k
    case ScalarKind => pos + c.size <= |data|
    case TextKind => StringAt(data, pos)
    case VectorKind => VecAt(c, data, pos)
    case CharsKind => VecAt(CharCodec, data, pos)
  }

  /**
   * What the getter of kind k returns at pos, with the advanced cursor: a
   * field of that kind, and a cursor that stays within the bytes.
   */
  function ReadField<T>(c: Codec<T>, k: Kind, data: seq<Byte>, pos: nat): (r: (Field<T>, nat))
    requires FieldAt(c, k, data, pos)
    ensures KindOf(r.0) == k && pos <= r.1 <= |data|
  {
    match k
    case ScalarKind => var (x, next) := ReadScalar(c, data, pos); (Scalar(x), next)
    case TextKind => var (s, next) := ReadString(data, pos); (Text(s), next)
    case VectorKind => var (v, next) := ReadVec(c, data, pos); (Vector(v), next)
    case CharsKind => var (cs, next) := ReadVec(CharCodec, data, pos); (Chars(cs), next)
  }

  /** The getter for f, called with the cursor at pos, returns f and leaves the cursor at next. */
  ghost predicate Decodes<T>(c: Codec<T>, data: seq<Byte>, pos: nat, f: Field<T>, next: nat)
  {
    FieldAt(c, KindOf(f), data, pos) && ReadField(c, KindOf(f), data, pos) == (f, next)
  }

  lemma ScalarFieldRoundTrip<T(!new)>(c: Codec<T>, x: T, data: seq<Byte>, pos: nat, next: nat)
    requires TriviallyCopyable(c) && Holds(data, pos, c.enc(x)) && next == pos + |c.enc(x)|
    ensures Decodes(c, data, pos, Scalar(x), next)
  {
    ScalarRoundTrip(c, x, data, pos);
  }

  lemma TextFieldRoundTrip<T>(c: Codec<T>, s: seq<Byte>, data: seq<Byte>, pos: nat, next: nat)
    requires |s| < 0x8000_0000 && LengthCastFits(s) && Holds(data, pos, EncodeString(s))
    requires next == pos + |EncodeString(s)|
    ensures Decodes(c, data, pos, Text(s), next)
  {
    WrapInt32Exact(|s|);
    ShortStringRoundTrip(s, data, pos, next);
  }

  lemma VectorFieldRoundTrip<T(!new)>(c: Codec<T>, v: seq<T>, data: seq<Byte>, pos: nat, next: nat)
    requires TriviallyCopyable(c) && |v| < 0x8000_0000 && Holds(data, pos, EncodeVec(c, v))
    requires next == pos + |EncodeVec(c, v)|
    ensures Decodes(c, data, pos, Vector(v), next)
  {
    VecRoundTrip(c, v, data, pos);
  }

  lemma CharsFieldRoundTrip<T>(c: Codec<T>, cs: seq<Byte>, data: seq<Byte>, pos: nat, next: nat)
    requires |cs| < 0x8000_0000 && Holds(data, pos, EncodeCharVec(cs))
    requires next == pos + |EncodeCharVec(cs)|
    ensures Decodes(c, data, pos, Chars(cs), next)
  {
    CharVecRoundTrip(cs, data, pos);
  }

  /** One field is read back by its getter, wherever it sits. */
  lemma FieldRoundTrip<T(!new)>(c: Codec<T>, f: Field<T>, data: seq<Byte>, pos: nat, next: nat)
    requires TriviallyCopyable(c) && Encodable(f) && Holds(data, pos, EncodeField(c, f))
    requires next == pos + |EncodeField(c, f)|
    ensures Decodes(c, data, pos, f, next)
  {
    match f
    case Scalar(x) => ScalarFieldRoundTrip(c, x, data, pos, next);
    case Text(s) =>
      WrapInt32Exact(|s|);
      TextFieldRoundTrip(c, s, data, pos, next);
    case Vector(v) => VectorFieldRoundTrip(c, v, data, pos, next);
    case Chars(cs) => CharsFieldRoundTrip(c, cs, data, pos, next);
  }

  /** Where the i-th field starts when fs is written from pos on. */
  function Offset<T(!new)>(c: Codec<T>, fs: seq<Field<T>>, pos: nat, i: nat): nat
    requires AllEncodable(fs) && i <= |fs|
  {
    pos + |Concat(Images(c, fs)[..i])|
  }

  /** The i-th field of a record written from pos on sits at its offset and ends at the next one. */
  lemma FieldPlacement<T(!new)>(c: Codec<T>, fs: seq<Field<T>>, data: seq<Byte>, pos: nat, i: nat)
    requires AllEncodable(fs) && i < |fs| && Holds(data, pos, EncodeFields(c, fs))
    ensures Holds(data, Offset(c, fs, pos, i), EncodeField(c, fs[i]))
    ensures Offset(c, fs, pos, i + 1) == Offset(c, fs, pos, i) + |EncodeField(c, fs[i])|
  {
    var es := Images(c, fs);
    ConcatAt(es, data, pos, i);
    ConcatStep(es, i);
  }

  /** The i-th field of a record written from pos on reads back at its offset. */
  lemma FieldReadBackAt<T(!new)>(c: Codec<T>, fs: seq<Field<T>>, data: seq<Byte>, pos: nat, i: nat)
    requires TriviallyCopyable(c) && AllEncodable(fs) && i < |fs|
    requires Holds(data, pos, EncodeFields(c, fs))
    ensures Decodes(c, data, Offset(c, fs, pos, i), fs[i], Offset(c, fs, pos, i + 1))
  {
    FieldPlacement(c, fs, data, pos, i);
    FieldRoundTrip(c, fs[i], data, Offset(c, fs, pos, i), Offset(c, fs, pos, i + 1));
  }

  /**
   * Fields written back to back are recovered in order by successive reads
   * on one cursor: the i-th read, started where the previous one stopped,
   * returns the i-th field, and the last read stops right after the record.
   */
  lemma FieldsRoundTrip<T(!new)>(c: Codec<T>, fs: seq<Field<T>>, data: seq<Byte>, pos: nat)
    requires TriviallyCopyable(c) && AllEncodable(fs) && Holds(data, pos, EncodeFields(c, fs))
    ensures Offset(c, fs, pos, 0) == pos && Offset(c, fs, pos, |fs|) == pos + |EncodeFields(c, fs)|
    ensures forall i :: 0 <= i < |fs| ==> Decodes(c, data, Offset(c, fs, pos, i), fs[i], Offset(c, fs, pos, i + 1))
  {
    var es := Images(c, fs);
    assert es[..0] == [] && es[..|fs|] == es;
    forall i | 0 <= i < |fs|
      ensures Decodes(c, data, Offset(c, fs, pos, i), fs[i], Offset(c, fs, pos, i + 1))
    {
      FieldReadBackAt(c, fs, data, pos, i);
    }
  }
}
