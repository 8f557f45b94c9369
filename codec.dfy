/**
 * The reflection-driven value encoder of the compact map (`serialize` and
 * `deserialize` in map.go). Go dispatches on the reflect.Kind of the type
 * parameter; here that kind is an explicit `Kind` value.
 */
module Codec {
  import opened LittleEndian
  import opened Wrappers

  /** Byte size of a Go integer type: int8/uint8 .. int64/uint64 (int and uint are 8). */
  type Width = w: nat | w == 1 || w == 2 || w == 4 || w == 8 witness 1

  /** The reflect.Kind cases that serialize/deserialize distinguish. */
  datatype Kind =
    | Int(width: Width)
    | Uint(width: Width)
    | String
    | ByteSlice
    | Unsupported   // any other kind (structs, maps, ...): "unsupported type"

  /** A Go value of a supported kind: an integer, or the bytes of a string or []byte. */
  datatype Value = Num(n: int) | Blob(data: seq<byte>)

  /** The failures: the two error returns, and a Go runtime panic on a slice bound. */
  datatype Error = TooShort | UnsupportedType | OutOfRange

  const Uint32Range: nat := 0x1_0000_0000
  const Uint64Range: nat := 0x1_0000_0000_0000_0000

  lemma Pow256Values()
    ensures Pow256(1) == 0x100 && Pow256(2) == 0x1_0000
    ensures Pow256(4) == Uint32Range && Pow256(8) == Uint64Range
  {
  }

  /** What Go's static typing guarantees of a value of a type of this kind. */
  predicate OfKind(kind: Kind, v: Value)
  {
    match kind
    case Int(w) => v.Num? && -(Pow256(w) as int) <= 2 * v.n < Pow256(w)
    case Uint(w) => v.Num? && 0 <= v.n < Pow256(w)
    case String => v.Blob?
    case ByteSlice => v.Blob?
    case Unsupported => true
  }

  /**
   * serialize: an integer is the low `width` bytes of the little-endian
   * encoding of its 64-bit two's complement; a string or byte slice is a
   * 4-byte little-endian length (uint32, so taken modulo 2^32) followed by that
   * many bytes. The buffer size 4+length is also computed in uint32; when it
   * wraps below 4 the length store indexes out of range.
   */
  function Serialize(kind: Kind, v: Value): (r: Result<seq<byte>, Error>)
    requires OfKind(kind, v)
    ensures r.Err? ==> (r.error == UnsupportedType <==> kind.Unsupported?)
    ensures r.Ok? && (kind.Int? || kind.Uint?) ==> |r.value| == kind.width
    ensures r.Ok? && (kind.String? || kind.ByteSlice?) ==>
      |r.value| >= 4 && FromLE(r.value[..4]) == |r.value| - 4 <= |v.data|
      && r.value[4..] == v.data[..|r.value| - 4]
  {
    match kind
    case Int(w) => Ok(LE(v.n % Uint64Range, 8)[..w])
    case Uint(w) => Ok(LE(v.n, 8)[..w])
    case String => SerializeBlob(v.data)
    case ByteSlice => SerializeBlob(v.data)
    case Unsupported => Err(UnsupportedType)
  }

  function SerializeBlob(data: seq<byte>): (r: Result<seq<byte>, Error>)
    ensures r.Ok? ==>
      |r.value| >= 4 && FromLE(r.value[..4]) == |r.value| - 4 <= |data|
      && r.value[4..] == data[..|r.value| - 4]
    ensures r.Err? ==> r.error == OutOfRange
  {
    var n := |data| % Uint32Range;
    var size := (4 + n) % Uint32Range;
    if size < 4 then Err(OutOfRange)
    else
      var out := LE(n, 4) + data[..n];
      assert out[..4] == LE(n, 4) && out[4..] == data[..n];
      Pow256Values();
      FromLEOfLESmall(n, 4);
      Ok(out)
  }

  /** Storing an int64 into a `width`-byte signed integer keeps the two's complement. */
  function Signed(raw: nat, w: Width): int
  {
    if 2 * raw < Pow256(w) then raw else raw - Pow256(w)
  }

  /**
   * deserialize, with the string/[]byte bound 4+length computed without
   * wrap-around (see DeserializeAsWritten for map.go's uint32 arithmetic).
   * Extra bytes after what the kind needs are ignored.
   */
  function Deserialize(kind: Kind, data: seq<byte>): (r: Result<Value, Error>)
    ensures r.Ok? ==> OfKind(kind, r.value)
    ensures r.Err? ==> (r.error == UnsupportedType <==> kind.Unsupported?)
    ensures r != Err(OutOfRange)
    ensures r == Err(TooShort) <==> ShortFor(kind, data)
  {
    match kind
    case Int(w) =>
      if |data| < w then Err(TooShort) else Ok(Num(Signed(FromLE(data[..w]), w)))
    case Uint(w) =>
      if |data| < w then Err(TooShort) else Ok(Num(FromLE(data[..w])))
    case String => DeserializeBlob(data)
    case ByteSlice => DeserializeBlob(data)
    case Unsupported => Err(UnsupportedType)
  }

  function DeserializeBlob(data: seq<byte>): (r: Result<Value, Error>)
    ensures r.Ok? ==> r.value.Blob?
    ensures r.Err? ==> r.error == TooShort
  {
    if |data| < 4 then Err(TooShort)
    else
      var n := FromLE(data[..4]);
      if |data| < 4 + n then Err(TooShort) else Ok(Blob(data[4..4 + n]))
  }

  /** "data is too short": fewer bytes than the integer width, than the 4-byte
      length prefix, or than the prefix plus the length it declares. */
  predicate ShortFor(kind: Kind, data: seq<byte>)
  {
    match kind
    case Int(w) => |data| < w
    case Uint(w) => |data| < w
    case String => |data| < 4 || |data| < 4 + FromLE(data[..4])
    case ByteSlice => |data| < 4 || |data| < 4 + FromLE(data[..4])
    case Unsupported => false
  }

  /** deserialize exactly as map.go writes it: `4+strLen` is uint32 arithmetic. */
  function DeserializeAsWritten(kind: Kind, data: seq<byte>): (r: Result<Value, Error>)
    ensures !(kind.String? || kind.ByteSlice?) ==> r == Deserialize(kind, data)
  {
    match kind
    case String => DeserializeBlobAsWritten(data)
    case ByteSlice => DeserializeBlobAsWritten(data)
    case _ => Deserialize(kind, data)
  }

  function DeserializeBlobAsWritten(data: seq<byte>): Result<Value, Error>
  {
    if |data| < 4 then Err(TooShort)
    else
      var n := FromLE(data[..4]);
      var end := (4 + n) % Uint32Range;
      if |data| < end then Err(TooShort)
      else if end < 4 then Err(OutOfRange)  // data[4:end] with end < 4 panics
      else Ok(Blob(data[4..end]))
  }

  /** A length header of 0xFFFFFFFF makes map.go's bound wrap to 3: a panic,
      where the corrected decoder reports "data is too short". */
  lemma AsWrittenPanicsOnWrappedLength()
    ensures DeserializeAsWritten(String, [255, 255, 255, 255]) == Err(OutOfRange)
    ensures Deserialize(String, [255, 255, 255, 255]) == Err(TooShort)
  {
    var d: seq<byte> := [255, 255, 255, 255];
    assert d[..4] == d;
    assert FromLE(d[3..]) == 255;
    assert FromLE(d[2..]) == 255 + 256 * 255 by { assert d[2..][1..] == d[3..]; }
    assert FromLE(d[1..]) == 255 + 256 * (255 + 256 * 255) by { assert d[1..][1..] == d[2..]; }
    assert FromLE(d) == Uint32Range - 1 by { assert d[1..] == d[1..]; }
  }

  /** Wherever the declared length leaves 4+length below 2^32, the two decoders agree. */
  lemma AsWrittenAgreesWithoutWrap(kind: Kind, data: seq<byte>)
    requires |data| >= 4 ==> FromLE(data[..4]) < Uint32Range - 4
    ensures DeserializeAsWritten(kind, data) == Deserialize(kind, data)
  {
  }

  /** Integer serialization keeps the value modulo 256^width. */
  lemma {:induction false} IntegerBytes(v: int, w: Width)
    ensures FromLE(LE(v % Uint64Range, 8)[..w]) == v % Pow256(w)
  {
    LEPrefix(v % Uint64Range, 8, w);
    FromLEOfLE(v % Uint64Range, w);
    Pow256Values();
    Pow256Split(w, 8 - w);
    ModOfMultipleMod(v, Pow256(w), Pow256(8 - w));
  }

  lemma {:induction false} Pow256Split(a: nat, b: nat)
    ensures Pow256(a + b) == Pow256(a) * Pow256(b)
  {
    if a > 0 {
      Pow256Split(a - 1, b);
      assert Pow256(a + b) == 256 * Pow256(a - 1 + b);
    }
  }

  /** deserialize(serialize(x)) == x for every value of a supported kind whose
      length, if any, is far enough below 2^32 for 4+length not to wrap. */
  lemma SerializeRoundTrip(kind: Kind, v: Value)
    requires OfKind(kind, v) && !kind.Unsupported?
    requires v.Blob? ==> |v.data| < Uint32Range - 4
    ensures Serialize(kind, v).Ok?
    ensures Deserialize(kind, Serialize(kind, v).value) == Ok(v)
  {
    match kind
    case Int(w) =>
      var bytes := LE(v.n % Uint64Range, 8)[..w];
      assert Serialize(kind, v) == Ok(bytes);
      SignedRoundTrip(v.n, w);
      assert bytes[..w] == bytes;
    case Uint(w) =>
      var bytes := LE(v.n, 8)[..w];
      assert Serialize(kind, v) == Ok(bytes);
      UnsignedRoundTrip(v.n, w);
      assert bytes[..w] == bytes;
    case String => BlobRoundTrip(v.data);
    case ByteSlice => BlobRoundTrip(v.data);
  }

  lemma UnsignedRoundTrip(n: nat, w: Width)
    requires n < Pow256(w)
    ensures FromLE(LE(n, 8)[..w]) == n
  {
    IntegerBytes(n, w);
    DivModUnique(n, Pow256(w), 0, n);
    Pow256Values();
    DivModUnique(n, Uint64Range, 0, n);
  }

  lemma SignedRoundTrip(n: int, w: Width)
    requires -(Pow256(w) as int) <= 2 * n < Pow256(w)
    ensures Signed(FromLE(LE(n % Uint64Range, 8)[..w]), w) == n
  {
    IntegerBytes(n, w);
    var p := Pow256(w);
    if n >= 0 {
      DivModUnique(n, p, 0, n);
    } else {
      DivModUnique(n, p, -1, n + p);
    }
  }

  lemma BlobRoundTrip(data: seq<byte>)
    requires |data| < Uint32Range - 4
    ensures SerializeBlob(data).Ok?
    ensures DeserializeBlob(SerializeBlob(data).value) == Ok(Blob(data))
  {
    var out := SerializeBlob(data).value;
    assert |data| % Uint32Range == |data|;
    assert out[4..4 + |data|] == data;
  }
}
