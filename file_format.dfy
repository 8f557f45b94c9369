/**
 * The file Save writes and Load reads (map.go): an 8-byte little-endian entry
 * count, then for every entry in stored order a 4-byte little-endian key
 * length, the key bytes, a 4-byte little-endian value length and the value
 * bytes. Save writes the lengths as uint32; Load reads the count as int64 and
 * the lengths as int32.
 */
module FileFormat {
  import opened Wrappers
  import opened Seqs
  import opened LittleEndian
  import opened Codec
  import opened Buffers

  /** Keys of the map are Go integers. */
  predicate IntegerKind(kind: Kind)
  {
    kind.Int? || kind.Uint?
  }

  /** An entry of a map whose key type has kind kk and value type kind vk. */
  predicate Typed(kk: Kind, vk: Kind, e: Entry)
  {
    OfKind(kk, Num(e.key)) && OfKind(vk, e.value)
  }

  predicate AllTyped(kk: Kind, vk: Kind, es: seq<Entry>)
  {
    forall e :: e in es ==> Typed(kk, vk, e)
  }

  // ---------------------------------------------------------------------------
  // Writing.

  /** A length as Save stores it: uint32, little-endian. */
  function Length32(n: nat): seq<byte>
  {
    LE(n % Uint32Range, 4)
  }

  /** The bytes Save writes for one entry, or serialize's error for its key or,
      failing that, for its value. */
  function Record(kk: Kind, vk: Kind, e: Entry): Result<seq<byte>, Error>
    requires Typed(kk, vk, e)
  {
    match Serialize(kk, Num(e.key))
    case Err(x) => Err(x)
    case Ok(kd) =>
      match Serialize(vk, e.value)
      case Err(x) => Err(x)
      case Ok(vd) => Ok(Field(kd) + Field(vd))
  }

  /** A length-prefixed field: key or value bytes after their uint32 length. */
  function Field(d: seq<byte>): seq<byte>
  {
    Length32(|d|) + d
  }

  /** The bytes of the records before the first that fails, and that failure. */
  function Stream(rs: seq<Result<seq<byte>, Error>>): (seq<byte>, Option<Error>)
    decreases |rs|
  {
    if rs == [] then ([], None)
    else
      match rs[0]
      case Err(x) => ([], Some(x))
      case Ok(rec) =>
        var rest := Stream(rs[1..]);
        (rec + rest.0, rest.1)
  }

  /** Each entry's record or error, in order. */
  function RecordResults(kk: Kind, vk: Kind, es: seq<Entry>): (rs: seq<Result<seq<byte>, Error>>)
    requires AllTyped(kk, vk, es)
    ensures |rs| == |es|
  {
    seq(|es|, i requires 0 <= i < |es| => assert es[i] in es; Record(kk, vk, es[i]))
  }

  function Records(kk: Kind, vk: Kind, es: seq<Entry>): (seq<byte>, Option<Error>)
    requires AllTyped(kk, vk, es)
  {
    Stream(RecordResults(kk, vk, es))
  }

  /** The 8-byte entry count, uint64. */
  function Header(count: nat): seq<byte>
  {
    LE(count % Uint64Range, 8)
  }

  /** The whole stream Save produces for these entries: count and records, up
      to the first entry that fails to serialize. */
  function Image(kk: Kind, vk: Kind, es: seq<Entry>): (seq<byte>, Option<Error>)
    requires AllTyped(kk, vk, es)
  {
    var r := Records(kk, vk, es);
    (Header(|es|) + r.0, r.1)
  }

  /** The stream grows one record at a time, and stops at the first failure. */
  lemma {:induction false} StreamSnoc(rs: seq<Result<seq<byte>, Error>>, r: Result<seq<byte>, Error>)
    ensures Stream(rs).1.Some? ==> Stream(rs + [r]) == Stream(rs)
    ensures Stream(rs).1.None? && r.Ok? ==> Stream(rs + [r]) == (Stream(rs).0 + r.value, None)
    ensures Stream(rs).1.None? && r.Err? ==> Stream(rs + [r]) == (Stream(rs).0, Some(r.error))
    decreases |rs|
  {
    if rs == [] {
      assert rs + [r] == [r];
      assert [r][1..] == [];
      if r.Ok? {
        assert Stream([r]) == (r.value + Stream([r][1..]).0, Stream([r][1..]).1);
        assert Stream([r][1..]) == ([], None);
        assert r.value + [] == r.value;
        assert Stream(rs).0 + r.value == r.value;
      }
    } else {
      assert (rs + [r])[0] == rs[0];
      assert (rs + [r])[1..] == rs[1..] + [r];
      if rs[0].Ok? {
        StreamSnoc(rs[1..], r);
        var s1 := Stream(rs[1..]).0;
        if Stream(rs[1..]).1.None? && r.Ok? {
          assert rs[0].value + (s1 + r.value) == (rs[0].value + s1) + r.value;
        }
      }
    }
  }

  /** Records grow one entry at a time, which is how Save produces them. */
  lemma RecordsSnoc(kk: Kind, vk: Kind, es: seq<Entry>, e: Entry)
    requires AllTyped(kk, vk, es) && Typed(kk, vk, e)
    ensures AllTyped(kk, vk, es + [e])
    ensures Records(kk, vk, es).1.Some? ==> Records(kk, vk, es + [e]) == Records(kk, vk, es)
    ensures Records(kk, vk, es).1.None? && Record(kk, vk, e).Ok? ==>
      Records(kk, vk, es + [e]) == (Records(kk, vk, es).0 + Record(kk, vk, e).value, None)
    ensures Records(kk, vk, es).1.None? && Record(kk, vk, e).Err? ==>
      Records(kk, vk, es + [e]) == (Records(kk, vk, es).0, Some(Record(kk, vk, e).error))
  {
    assert RecordResults(kk, vk, es + [e]) == RecordResults(kk, vk, es) + [Record(kk, vk, e)];
    StreamSnoc(RecordResults(kk, vk, es), Record(kk, vk, e));
  }

  // ---------------------------------------------------------------------------
  // Reading.

  /** Load's failures: the reader ran out, make([]byte, n) with a negative n
      panicked, or deserialize reported an error. */
  datatype LoadError = Eof | NegativeLength | BadData(error: Error)

  /** binary.Read of a little-endian int32 at pos. */
  function ReadInt32(data: seq<byte>, pos: nat): (r: Result<int, LoadError>)
    requires pos <= |data|
    ensures r.Ok? <==> pos + 4 <= |data|
  {
    if |data| - pos < 4 then Err(Eof) else Ok(Signed(FromLE(data[pos..pos + 4]), 4))
  }

  /**
   * reader.Read into a fresh n-byte slice, the whole file being in the
   * reader's 50 MB buffer: it copies up to n of the remaining bytes and
   * leaves the rest of the slice zero; with nothing left and n > 0 it reports
   * end of file. The second component is the new read position.
   */
  function ReadInto(data: seq<byte>, pos: nat, n: nat): (r: Result<(seq<byte>, nat), LoadError>)
    requires pos <= |data|
    ensures r.Ok? ==> |r.value.0| == n && pos <= r.value.1 <= |data| && r.value.1 - pos <= n
    ensures r.Ok? ==> r.value.0[..r.value.1 - pos] == data[pos..r.value.1]
    ensures r.Err? <==> n > 0 && pos == |data|
  {
    if n == 0 then Ok(([], pos))
    else if pos == |data| then Err(Eof)
    else
      var k := if n < |data| - pos then n else |data| - pos;
      Ok((data[pos..pos + k] + seq(n - k, _ => 0), pos + k))
  }

  /** Reads one length-prefixed field at pos and decodes it as kind. */
  function ParseField(kind: Kind, data: seq<byte>, pos: nat): (r: Result<(Value, nat), LoadError>)
    requires pos <= |data|
    ensures r.Ok? ==> OfKind(kind, r.value.0) && pos + 4 <= r.value.1 <= |data|
  {
    match ReadInt32(data, pos)
    case Err(x) => Err(x)
    case Ok(size) =>
      if size < 0 then Err(NegativeLength)
      else
        match ReadInto(data, pos + 4, size)
        case Err(x) => Err(x)
        case Ok(read) =>
          match Deserialize(kind, read.0)
          case Err(x) => Err(BadData(x))
          case Ok(v) => Ok((v, read.1))
  }

  /** One iteration of Load's loop: key size, key, value size, value. */
  function ParseRecord(kk: Kind, vk: Kind, data: seq<byte>, pos: nat): (r: Result<(Entry, nat), LoadError>)
    requires IntegerKind(kk) && pos <= |data|
    ensures r.Ok? ==> Typed(kk, vk, r.value.0) && pos + 8 <= r.value.1 <= |data|
  {
    match ParseField(kk, data, pos)
    case Err(x) => Err(x)
    case Ok(key) =>
      match ParseField(vk, data, key.1)
      case Err(x) => Err(x)
      case Ok(value) => Ok((Entry(key.0.n, value.0), value.1))
  }

  /** The entries Load reads from pos with `remaining` iterations to go, and the
      error that ended the loop, if any. */
  function DecodeFrom(kk: Kind, vk: Kind, data: seq<byte>, pos: nat, remaining: nat): (r: (seq<Entry>, Option<LoadError>))
    requires IntegerKind(kk) && pos <= |data|
    ensures AllTyped(kk, vk, r.0)
    ensures |r.0| <= remaining
    decreases remaining
  {
    if remaining == 0 then ([], None)
    else
      match ParseRecord(kk, vk, data, pos)
      case Err(x) => ([], Some(x))
      case Ok(rec) =>
        var rest := DecodeFrom(kk, vk, data, rec.1, remaining - 1);
        ([rec.0] + rest.0, rest.1)
  }

  /** The entries Load adds, in order, and the error it returns. A negative
      int64 count reads as no entries. */
  function Decoded(kk: Kind, vk: Kind, data: seq<byte>): (r: (seq<Entry>, Option<LoadError>))
    requires IntegerKind(kk)
    ensures AllTyped(kk, vk, r.0)
  {
    if |data| < 8 then ([], Some(Eof))
    else
      var count := Signed(FromLE(data[..8]), 8);
      if count <= 0 then ([], None) else DecodeFrom(kk, vk, data, 8, count)
  }

  // ---------------------------------------------------------------------------
  // Round trip.

  /** Values Load can read back: a string or byte slice must fit an int32
      length once its own 4-byte prefix is added. */
  predicate Fits(v: Value)
  {
    v.Blob? ==> |v.data| < 0x8000_0000 - 4
  }

  /** The serialized field of a value that fits has a length below 2^31. */
  lemma SerializedFits(kind: Kind, v: Value)
    requires OfKind(kind, v) && !kind.Unsupported? && Fits(v)
    ensures Serialize(kind, v).Ok?
    ensures |Serialize(kind, v).value| < 0x8000_0000
    ensures Deserialize(kind, Serialize(kind, v).value) == Ok(v)
  {
    SerializeRoundTrip(kind, v);
  }

  /** A length below 2^31 reads back as itself through uint32 then int32. */
  lemma Length32RoundTrip(n: nat)
    requires n < 0x8000_0000
    ensures Signed(FromLE(Length32(n)), 4) == n
  {
    Pow256Values();
    DivModUnique(n, Uint32Range, 0, n);
    FromLEOfLESmall(n, 4);
    assert FromLE(Length32(n)) == n;
  }

  /** A field whose bytes decode to v reads back as v. */
  lemma ParseFieldOfField(kind: Kind, v: Value, fd: seq<byte>, data: seq<byte>, pos: nat, end: nat)
    requires Deserialize(kind, fd) == Ok(v) && |fd| < 0x8000_0000
    requires end == pos + |Field(fd)| && end <= |data| && data[pos..end] == Field(fd)
    ensures ParseField(kind, data, pos) == Ok((v, end))
  {
    var f := Field(fd);
    assert data[pos..pos + 4] == f[..4] == Length32(|fd|);
    Length32RoundTrip(|fd|);
    assert ReadInt32(data, pos) == Ok(|fd|);
    assert data[pos + 4..pos + 4 + |fd|] == f[4..] == fd;
    if |fd| > 0 {
      assert ReadInto(data, pos + 4, |fd|) == Ok((fd, pos + 4 + |fd|)) by {
        assert fd + seq(0, _ => 0) == fd;
      }
    }
  }

  /** A record made of two fields that decode to the entry's key and value
      parses as that entry. */
  lemma ParseRecordOfFields(kk: Kind, vk: Kind, e: Entry, kd: seq<byte>, vd: seq<byte>, data: seq<byte>, pos: nat, p1: nat, p2: nat)
    requires IntegerKind(kk)
    requires Deserialize(kk, kd) == Ok(Num(e.key)) && |kd| < 0x8000_0000
    requires Deserialize(vk, vd) == Ok(e.value) && |vd| < 0x8000_0000
    requires p1 == pos + |Field(kd)| && p2 == p1 + |Field(vd)| && p2 <= |data|
    requires data[pos..p1] == Field(kd) && data[p1..p2] == Field(vd)
    ensures ParseRecord(kk, vk, data, pos) == Ok((e, p2))
  {
    ParseFieldOfField(kk, Num(e.key), kd, data, pos, p1);
    ParseFieldOfField(vk, e.value, vd, data, p1, p2);
    ParseRecordOfParsed(kk, vk, data, pos, e.key, p1, e.value, p2);
    assert Entry(e.key, e.value) == e;
  }

  /** ParseRecord is the key field's parse followed by the value field's. */
  lemma ParseRecordOfParsed(kk: Kind, vk: Kind, data: seq<byte>, pos: nat, key: int, p1: nat, value: Value, p2: nat)
    requires IntegerKind(kk) && pos <= |data|
    requires ParseField(kk, data, pos) == Ok((Num(key), p1))
    requires p1 <= |data| && ParseField(vk, data, p1) == Ok((value, p2))
    ensures ParseRecord(kk, vk, data, pos) == Ok((Entry(key, value), p2))
  {
  }

  /** The record of an entry that fits: two fields that decode to its key and value. */
  lemma RecordFields(kk: Kind, vk: Kind, e: Entry) returns (kd: seq<byte>, vd: seq<byte>)
    requires IntegerKind(kk) && !vk.Unsupported? && Typed(kk, vk, e) && Fits(e.value)
    ensures Record(kk, vk, e) == Ok(Field(kd) + Field(vd))
    ensures Deserialize(kk, kd) == Ok(Num(e.key)) && |kd| < 0x8000_0000
    ensures Deserialize(vk, vd) == Ok(e.value) && |vd| < 0x8000_0000
  {
    SerializedFits(kk, Num(e.key));
    SerializedFits(vk, e.value);
    kd := Serialize(kk, Num(e.key)).value;
    vd := Serialize(vk, e.value).value;
  }

  predicate AllFit(es: seq<Entry>)
  {
    forall e :: e in es ==> Fits(e.value)
  }

  /** The records of a non-empty list: the first entry's, then the rest's. */
  lemma RecordsCons(kk: Kind, vk: Kind, es: seq<Entry>)
    requires AllTyped(kk, vk, es) && es != []
    ensures AllTyped(kk, vk, es[1..]) && Typed(kk, vk, es[0])
    ensures Record(kk, vk, es[0]).Ok? ==>
      Records(kk, vk, es) == (Record(kk, vk, es[0]).value + Records(kk, vk, es[1..]).0, Records(kk, vk, es[1..]).1)
    ensures Record(kk, vk, es[0]).Err? ==> Records(kk, vk, es) == ([], Some(Record(kk, vk, es[0]).error))
  {
    assert es[0] in es;
    assert forall e :: e in es[1..] ==> e in es;
    assert RecordResults(kk, vk, es)[1..] == RecordResults(kk, vk, es[1..]);
  }

  /** Bytes (a + b) + c found at pos: a up to p1, then b up to p2, then c. */
  lemma SliceThree(data: seq<byte>, pos: nat, a: seq<byte>, b: seq<byte>, c: seq<byte>, p1: nat, p2: nat)
    requires p1 == pos + |a| && p2 == p1 + |b|
    requires p2 + |c| <= |data| && data[pos..pos + |(a + b) + c|] == (a + b) + c
    ensures data[pos..p1] == a && data[p1..p2] == b && data[p2..p2 + |c|] == c
  {
    var s := (a + b) + c;
    forall k | 0 <= k < |s| ensures data[pos + k] == s[k] {
      assert data[pos..pos + |s|][k] == s[k];
    }
    forall k | 0 <= k < |a| ensures data[pos..p1][k] == a[k] {
      assert data[pos + k] == s[k];
    }
    forall k | 0 <= k < |b| ensures data[p1..p2][k] == b[k] {
      assert data[pos + |a| + k] == s[|a| + k];
    }
    forall k | 0 <= k < |c| ensures data[p2..p2 + |c|][k] == c[k] {
      assert data[pos + |a| + |b| + k] == s[|a| + |b| + k];
    }
  }

  /** A record that parses at pos is the first entry read from pos. */
  lemma DecodeFromCons(kk: Kind, vk: Kind, data: seq<byte>, pos: nat, m: nat, e: Entry, next: nat)
    requires IntegerKind(kk) && pos <= |data|
    requires ParseRecord(kk, vk, data, pos) == Ok((e, next))
    ensures next <= |data|
    ensures DecodeFrom(kk, vk, data, pos, m + 1)
      == ([e] + DecodeFrom(kk, vk, data, next, m).0, DecodeFrom(kk, vk, data, next, m).1)
  {
  }

  /** Entries whose values fit serialize without error. */
  lemma {:induction false} RecordsNoError(kk: Kind, vk: Kind, es: seq<Entry>)
    requires IntegerKind(kk) && !vk.Unsupported? && AllTyped(kk, vk, es) && AllFit(es)
    ensures Records(kk, vk, es).1 == None
    decreases |es|
  {
    if es != [] {
      assert es[0] in es;
      RecordsCons(kk, vk, es);
      var kd, vd := RecordFields(kk, vk, es[0]);
      RecordsNoError(kk, vk, es[1..]);
    }
  }

  /** Every entry whose records are written out is read back, in order. */
  lemma {:induction false} DecodeFromRecords(kk: Kind, vk: Kind, es: seq<Entry>, data: seq<byte>, pos: nat)
    requires IntegerKind(kk) && !vk.Unsupported? && AllTyped(kk, vk, es) && AllFit(es)
    requires pos + |Records(kk, vk, es).0| <= |data|
    requires data[pos..pos + |Records(kk, vk, es).0|] == Records(kk, vk, es).0
    ensures DecodeFrom(kk, vk, data, pos, |es|) == (es, None)
    decreases |es|
  {
    if es != [] {
      var e, tail := es[0], es[1..];
      assert e in es;
      RecordsCons(kk, vk, es);
      var kd, vd := RecordFields(kk, vk, e);
      var kf, vf := Field(kd), Field(vd);
      var p1 := pos + |kf|;
      var next := p1 + |vf|;
      var rest := Records(kk, vk, tail).0;
      var rs := Records(kk, vk, es).0;
      assert rs == (kf + vf) + rest;
      SliceThree(data, pos, kf, vf, rest, p1, next);
      DecodeFromRecords(kk, vk, tail, data, next);
      ParseRecordOfFields(kk, vk, e, kd, vd, data, pos, p1, next);
      ConsSplit(es);
      DecodeFromCons(kk, vk, data, pos, |tail|, e, next);
    }
  }

  /** Load reads back exactly the entries Save wrote, and reports no error,
      for every map whose values fit Load's int32 lengths and whose count fits
      its int64. */
  lemma ImageRoundTrip(kk: Kind, vk: Kind, es: seq<Entry>)
    requires IntegerKind(kk) && !vk.Unsupported? && AllTyped(kk, vk, es) && AllFit(es)
    requires |es| < 0x8000_0000_0000_0000
    ensures Image(kk, vk, es).1 == None
    ensures Decoded(kk, vk, Image(kk, vk, es).0) == (es, None)
  {
    RecordsNoError(kk, vk, es);
    var data := Image(kk, vk, es).0;
    var rs := Records(kk, vk, es).0;
    assert data == Header(|es|) + rs;
    assert Signed(FromLE(data[..8]), 8) == |es| by {
      assert data[..8] == Header(|es|);
      Pow256Values();
      DivModUnique(|es|, Uint64Range, 0, |es|);
      FromLEOfLESmall(|es|, 8);
    }
    assert data[8..8 + |rs|] == rs;
    DecodeFromRecords(kk, vk, es, data, 8);
  }
}
