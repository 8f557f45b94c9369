/**
 * CompactMap (map.go): a sorted map kept as a list of sorted buffers of at
 * most 1000 entries each, with Save and Load to a file in the FileFormat
 * layout. The Go type parameters K and V become the kinds of the keys and the
 * values; the map's mutex is not modelled, since every operation here runs to
 * completion on its own.
 */
module CompactMap {
  import opened Wrappers
  import opened Seqs
  import opened LittleEndian
  import opened Codec
  import opened Buffers
  import opened FileFormat

  /** Go's zero value of a value type of this kind, which Get returns on a miss. */
  function Zero(kind: Kind): (r: Value)
    ensures OfKind(kind, r)
    ensures kind.String? || kind.ByteSlice? ==> r == Blob([])
    ensures kind.Int? || kind.Uint? ==> r == Num(0)
  {
    if kind.String? || kind.ByteSlice? then Blob([]) else Num(0)
  }

  /** The entries Iterate hands to fn: in stored order, up to and including
      the first one for which fn returns false. */
  function Visited(es: seq<Entry>, fn: (int, Value) -> bool): (r: seq<Entry>)
    ensures |r| <= |es| && r == es[..|r|]
    ensures forall p :: 0 <= p < |r| - 1 ==> fn(r[p].key, r[p].value)
    ensures |r| < |es| ==> |r| > 0 && !fn(r[|r| - 1].key, r[|r| - 1].value)
    ensures (forall p :: 0 <= p < |es| ==> fn(es[p].key, es[p].value)) ==> r == es
    decreases |es|
  {
    if es == [] then []
    else if !fn(es[0].key, es[0].value) then [es[0]]
    else [es[0]] + Visited(es[1..], fn)
  }

  /** fn holding on the first k entries and failing on entry k ends the
      iteration right after entry k. */
  lemma VisitedStops(es: seq<Entry>, fn: (int, Value) -> bool, k: nat)
    requires k < |es|
    requires forall p :: 0 <= p < k ==> fn(es[p].key, es[p].value)
    requires !fn(es[k].key, es[k].value)
    ensures Visited(es, fn) == es[..k + 1]
  {
  }

  /** Iterate stopping on entry j of buffer i has visited exactly what
      Visited says. */
  lemma IterateStops(bufs: Buffers, i: nat, j: nat, fn: (int, Value) -> bool, calls: seq<Entry>)
    requires i < |bufs| && j < |bufs[i]|
    requires calls == Flatten(bufs[..i]) + bufs[i][..j + 1]
    requires forall p :: 0 <= p < |calls| - 1 ==> fn(calls[p].key, calls[p].value)
    requires !fn(calls[|calls| - 1].key, calls[|calls| - 1].value)
    ensures calls == Visited(Flatten(bufs), fn)
  {
    var entries := Flatten(bufs);
    FlattenAt(bufs, i, j + 1);
    forall p | 0 <= p < |calls| - 1
      ensures fn(entries[p].key, entries[p].value)
    {
      assert entries[p] == calls[p];
    }
    VisitedStops(entries, fn, |calls| - 1);
  }

  /** What Save returns: nothing to do, the bytes of the file, or the
      serialize error together with the bytes already flushed to the file. */
  datatype SaveOutcome = Skipped | Saved(bytes: seq<byte>) | Failed(error: Error, partial: seq<byte>)

  /** The size of Save's write buffer. */
  const BufferSize: nat := 6

  /**
   * writeToFile's state inside Save: a fixed 6-byte buffer with a fill
   * position, in front of the file. Data that would overflow the buffer
   * flushes it first; data longer than the buffer goes straight to the file.
   */
  class FileWriter {
    const buffer: array<byte>
    var bufferPos: nat
    var file: seq<byte>

    ghost predicate Valid()
      reads this
    {
      buffer.Length == BufferSize && bufferPos <= BufferSize
    }

    /** Everything written so far: the file, then what waits in the buffer. */
    function Pending(): seq<byte>
      reads this, buffer
      requires Valid()
    {
      file + buffer[..bufferPos]
    }

    constructor ()
      ensures Valid() && fresh(buffer)
      ensures bufferPos == 0 && file == []
    {
      buffer := new byte[BufferSize](_ => 0);
      bufferPos := 0;
      file := [];
    }

    method Write(data: seq<byte>)
      requires Valid()
      modifies this, buffer
      ensures Valid() && Pending() == old(Pending()) + data
      ensures old(bufferPos) + |data| <= BufferSize ==> file == old(file) && bufferPos == old(bufferPos) + |data|
      ensures old(bufferPos) + |data| > BufferSize && |data| <= BufferSize ==> file == old(Pending()) && bufferPos == |data|
      ensures |data| > BufferSize ==> file == old(Pending()) + data && bufferPos == 0
    {
      if bufferPos + |data| > BufferSize {
        file := file + buffer[..bufferPos];
        bufferPos := 0;
      }
      if |data| > BufferSize {
        file := file + data;
        return;
      }
      ghost var written, staged := file, buffer[..bufferPos];
      Stage(data);
      AppendAssoc(written, staged, data);
    }

    /** Copies data into the free part of the buffer, byte by byte. */
    method Stage(data: seq<byte>)
      requires Valid() && bufferPos + |data| <= BufferSize
      modifies this, buffer
      ensures Valid() && file == old(file) && bufferPos == old(bufferPos) + |data|
      ensures buffer[..bufferPos] == old(buffer[..bufferPos]) + data
    {
      var k := 0;
      while k < |data|
        invariant 0 <= k <= |data|
        invariant bufferPos == old(bufferPos) && file == old(file)
        invariant forall i :: 0 <= i < bufferPos ==> buffer[i] == old(buffer[i])
        invariant forall i :: 0 <= i < k ==> buffer[bufferPos + i] == data[i]
      {
        buffer[bufferPos + k] := data[k];
        k := k + 1;
      }
      ghost var before := old(buffer[..bufferPos]);
      bufferPos := bufferPos + |data|;
      assert forall i :: 0 <= i < bufferPos ==> buffer[..bufferPos][i] == (before + data)[i];
    }

    /** The final flush of whatever remains in the buffer. */
    method Flush()
      requires Valid()
      modifies this
      ensures Valid() && bufferPos == old(bufferPos)
      ensures file == old(Pending())
    {
      if bufferPos > 0 {
        file := file + buffer[..bufferPos];
      }
    }
  }

  class CompactMap {
    const keyKind: Kind
    const valueKind: Kind
    var buffers: Buffers
    var changed: bool
    var loadedFile: string

    /** What every operation keeps: integer keys, every buffer ascending, and
        every stored entry of the map's types. */
    ghost predicate Valid()
      reads this
    {
      IntegerKind(keyKind) && EachSorted(buffers) && AllTyped(keyKind, valueKind, Flatten(buffers))
    }

    /** NewCompactMap. */
    constructor (keyKind: Kind, valueKind: Kind)
      requires IntegerKind(keyKind)
      ensures Valid()
      ensures this.keyKind == keyKind && this.valueKind == valueKind
      ensures buffers == [] && !changed && loadedFile == ""
    {
      this.keyKind := keyKind;
      this.valueKind := valueKind;
      buffers := [];
      changed := false;
      loadedFile := "";
    }

    method Add(key: int, value: Value)
      requires Valid() && Typed(keyKind, valueKind, Entry(key, value))
      modifies this
      ensures Valid()
      ensures buffers == Inserted(old(buffers), key, value)
      ensures changed && loadedFile == old(loadedFile)
    {
      var e := Entry(key, value);
      ghost var before := buffers;
      if |buffers| == 0 {
        buffers := buffers + [[e]];
      } else {
        var bi := BufferIndex(buffers, key);
        if bi < |buffers| && |buffers[bi]| < MaxSliceSize {
          var buffer := buffers[bi];
          var index := EntryIndex(buffer, key);
          if index < |buffer| && buffer[index].key == key {
            buffer := buffer[index := e];
          } else {
            // Append a zero entry, shift the tail right by one, store e in the gap.
            buffer := buffer + [Entry(0, Zero(valueKind))];
            buffer := buffer[..index + 1] + buffer[index..|buffer| - 1];
            buffer := buffer[index := e];
            assert buffer == before[bi][..index] + [e] + before[bi][index..];
          }
          buffers := buffers[bi := buffer];
        } else {
          buffers := SortByFirstKey(buffers + [[e]]);
        }
      }
      changed := true;
      InsertedEachSorted(before, key, value);
      InsertedTyped(keyKind, valueKind, before, key, value);
    }

    function Get(key: int): (r: (Value, bool))
      reads this
      ensures r.1 ==> Entry(key, r.0) in Flatten(buffers)
      ensures !r.1 ==> r.0 == Zero(valueKind)
      ensures Ordered(buffers) ==> (r.1 <==> exists v :: Entry(key, v) in Flatten(buffers))
    {
      LookupMissAbsent(buffers, key);
      match Lookup(buffers, key)
      case Some(v) => (v, true)
      case None => (Zero(valueKind), false)
    }

    method Delete(key: int)
      requires Valid()
      modifies this
      ensures Valid()
      ensures buffers == Removed(old(buffers), key)
      ensures changed == (old(changed) || Lookup(old(buffers), key).Some?)
      ensures loadedFile == old(loadedFile)
    {
      ghost var before := buffers;
      var bi := BufferIndex(buffers, key);
      if bi < |buffers| {
        var buffer := buffers[bi];
        var index := EntryIndex(buffer, key);
        if index < |buffer| && buffer[index].key == key {
          buffers := buffers[bi := buffer[..index] + buffer[index + 1..]];
          changed := true;
        }
      }
      RemovedAscending(before, key);
      RemovedTyped(keyKind, valueKind, before, key);
    }

    /** Iterate: the result is the sequence of entries fn was called with. */
    method Iterate(fn: (int, Value) -> bool) returns (calls: seq<Entry>)
      ensures calls == Visited(Flatten(buffers), fn)
    {
      calls := [];
      var i := 0;
      while i < |buffers|
        invariant 0 <= i <= |buffers|
        invariant calls == Flatten(buffers[..i])
        invariant forall p :: 0 <= p < |calls| ==> fn(calls[p].key, calls[p].value)
      {
        var buffer := buffers[i];
        var j := 0;
        while j < |buffer|
          invariant 0 <= j <= |buffer|
          invariant calls == Flatten(buffers[..i]) + buffer[..j]
          invariant forall p :: 0 <= p < |calls| ==> fn(calls[p].key, calls[p].value)
        {
          var entry := buffer[j];
          PrefixStep(Flatten(buffers[..i]), buffer, j);
          calls := calls + [entry];
          if !fn(entry.key, entry.value) {
            IterateStops(buffers, i, j, fn, calls);
            return;
          }
          j := j + 1;
        }
        assert buffer[..j] == buffer;
        FlattenStep(buffers, i);
        i := i + 1;
      }
      assert buffers[..i] == buffers;
    }

    /** Exist: whether Get would find the key. */
    function Exist(key: int): (r: bool)
      reads this
      ensures r ==> exists v :: Entry(key, v) in Flatten(buffers)
      ensures Ordered(buffers) ==> (r <==> exists v :: Entry(key, v) in Flatten(buffers))
    {
      LookupMissAbsent(buffers, key);
      Lookup(buffers, key).Some?
    }

    method Count() returns (count: nat)
      ensures count == |Flatten(buffers)|
    {
      count := 0;
      var i := 0;
      while i < |buffers|
        invariant 0 <= i <= |buffers|
        invariant count == |Flatten(buffers[..i])|
      {
        FlattenSnoc(buffers[..i], buffers[i]);
        assert buffers[..i] + [buffers[i]] == buffers[..i + 1];
        count := count + |buffers[i]|;
        i := i + 1;
      }
      assert buffers[..i] == buffers;
    }

    /**
     * Save: skipped when the map is unchanged since it was loaded from or
     * saved to this file; otherwise the count and each entry's record go
     * through the 6-byte write buffer, and the first serialize error stops it
     * with only the bytes flushed so far in the file.
     */
    method Save(filename: string) returns (outcome: SaveOutcome)
      requires Valid()
      modifies this
      ensures Valid() && buffers == old(buffers)
      ensures old(loadedFile) == filename && !old(changed) ==>
        outcome == Skipped && changed == old(changed) && loadedFile == old(loadedFile)
      ensures !(old(loadedFile) == filename && !old(changed)) ==>
        var image := Image(keyKind, valueKind, Flatten(buffers));
        && (outcome.Saved? <==> image.1 == None)
        && (outcome.Saved? ==> outcome.bytes == image.0 && !changed && loadedFile == filename)
        && (outcome.Failed? ==>
              image.1 == Some(outcome.error) && outcome.partial <= image.0
              && changed == old(changed) && loadedFile == old(loadedFile))
    {
      if loadedFile == filename && !changed {
        return Skipped;
      }
      var w := new FileWriter();
      var totalEntries := Count();
      w.Write(Header(totalEntries));
      assert Records(keyKind, valueKind, []) == ([], None);
      assert w.Pending() == Header(totalEntries) + [];
      var failure := WriteRecords(w, keyKind, valueKind, buffers, totalEntries);
      if failure.Some? {
        return Failed(failure.value, w.file);
      }
      w.Flush();
      changed := false;
      loadedFile := filename;
      return Saved(w.file);
    }

    /**
     * Load, with the file's bytes given: every record read is added with Add,
     * in file order, until the count is reached or a read fails; a failure
     * keeps the entries already added and leaves the file name alone.
     */
    method Load(filename: string, data: seq<byte>) returns (err: Option<LoadError>)
      requires Valid()
      modifies this
      ensures Valid()
      ensures var d := Decoded(keyKind, valueKind, data);
        && buffers == AddAll(old(buffers), d.0)
        && err == d.1
        && (err.None? ==> !changed && loadedFile == filename)
        && (err.Some? ==> changed == (old(changed) || |d.0| > 0) && loadedFile == old(loadedFile))
    {
      if |data| < 8 {
        return Some(Eof);
      }
      var numEntries := Signed(FromLE(data[..8]), 8);
      DecodedFrom(keyKind, valueKind, data);
      var es;
      es, err := ReadRecords(keyKind, valueKind, data, numEntries);
      AddEntries(es);
      if err.None? {
        changed := false;
        loadedFile := filename;
      }
    }

    /** Adds the entries Load read, in order. */
    method AddEntries(es: seq<Entry>)
      requires Valid() && AllTyped(keyKind, valueKind, es)
      modifies this
      ensures Valid() && buffers == AddAll(old(buffers), es)
      ensures changed == (old(changed) || |es| > 0) && loadedFile == old(loadedFile)
    {
      var k := 0;
      while k < |es|
        invariant 0 <= k <= |es|
        invariant Valid() && buffers == AddAll(old(buffers), es[..k])
        invariant changed == (old(changed) || k > 0) && loadedFile == old(loadedFile)
      {
        SplitAt(es, k);
        AddLoaded(es[k], old(buffers), es[..k], es[..k + 1]);
        k := k + 1;
      }
      assert es[..k] == es;
    }

    /** Load's Add of one decoded record: the map is the saved entries added
        in order. */
    method AddLoaded(e: Entry, ghost start: Buffers, ghost got: seq<Entry>, ghost got': seq<Entry>)
      requires Valid() && Typed(keyKind, valueKind, e) && buffers == AddAll(start, got)
      requires got' == got + [e]
      modifies this
      ensures Valid() && buffers == AddAll(start, got')
      ensures changed && loadedFile == old(loadedFile)
    {
      AddAllSnoc(start, got, e);
      Add(e.key, e.value);
    }
  }

  /** Load's loop over the records that follow the count: read one after
      another until numEntries are read or a read fails. */
  method ReadRecords(kk: Kind, vk: Kind, data: seq<byte>, numEntries: int) returns (es: seq<Entry>, err: Option<LoadError>)
    requires IntegerKind(kk) && |data| >= 8
    ensures (es, err) == DecodeFrom(kk, vk, data, 8, if numEntries > 0 then numEntries else 0)
  {
    ghost var total: nat := if numEntries > 0 then numEntries else 0;
    ghost var whole := DecodeFrom(kk, vk, data, 8, total);
    es := [];
    var pos := 8;
    var i := 0;
    ghost var left := total;
    assert es + whole.0 == whole.0;
    while i < numEntries
      invariant 0 <= i <= total && left == total - i
      invariant 8 <= pos <= |data|
      invariant whole == Remaining(kk, vk, data, es, pos, left)
    {
      var record := ParseRecord(kk, vk, data, pos);
      if record.Err? {
        DecodeFromFail(kk, vk, data, whole, es, pos, left, record);
        return es, Some(record.error);
      }
      ghost var es0, pos0, left0 := es, pos, left;
      es := es + [record.value.0];
      pos := record.value.1;
      i := i + 1;
      left := left - 1;
      DecodeFromStep(kk, vk, data, whole, es0, pos0, left0, record, es, pos, left);
    }
    DecodeFromDone(kk, vk, data, whole, es, pos);
    return es, None;
  }

  /** The writer holds the count and the records of the entries done, none of
      which failed. */
  ghost predicate Written(w: FileWriter, kk: Kind, vk: Kind, total: nat, done: seq<Entry>)
    reads w, w.buffer
  {
    && w.Valid() && AllTyped(kk, vk, done)
    && Records(kk, vk, done).1 == None
    && w.Pending() == Header(total) + Records(kk, vk, done).0
  }

  /** Save's outer loop: the buffers in order, until an entry fails. */
  method WriteRecords(w: FileWriter, kk: Kind, vk: Kind, bufs: Buffers, ghost total: nat)
    returns (failure: Option<Error>)
    requires Written(w, kk, vk, total, []) && AllTyped(kk, vk, Flatten(bufs))
    modifies w, w.buffer
    ensures w.Valid()
    ensures failure.None? ==> Written(w, kk, vk, total, Flatten(bufs))
    ensures failure.Some? ==>
      && Records(kk, vk, Flatten(bufs)).1 == Some(failure.value)
      && w.file <= Header(total) + Records(kk, vk, Flatten(bufs)).0
  {
    failure := None;
    var i := 0;
    assert bufs[..0] == [];
    while i < |bufs|
      invariant 0 <= i <= |bufs|
      invariant failure.None? && Written(w, kk, vk, total, Flatten(bufs[..i]))
    {
      BuffersStep(kk, vk, bufs, i);
      failure := WriteBuffer(w, kk, vk, bufs[i], total, Flatten(bufs[..i]));
      if failure.Some? {
        RecordsStickAppend(kk, vk, Flatten(bufs[..i + 1]), Flatten(bufs[i + 1..]));
        return;
      }
      i := i + 1;
    }
    assert bufs[..i] == bufs;
  }

  /** The entries of the buffers before i, then buffer i's, then the rest's,
      are the map's entries in order. */
  lemma BuffersStep(kk: Kind, vk: Kind, bufs: Buffers, i: nat)
    requires i < |bufs| && AllTyped(kk, vk, Flatten(bufs))
    ensures Flatten(bufs[..i]) + bufs[i] == Flatten(bufs[..i + 1])
    ensures Flatten(bufs[..i + 1]) + Flatten(bufs[i + 1..]) == Flatten(bufs)
    ensures AllTyped(kk, vk, Flatten(bufs[..i + 1]))
  {
    TypedPrefix(kk, vk, bufs, i);
    FlattenStep(bufs, i);
  }

  lemma FlattenStep(bufs: Buffers, i: nat)
    requires i < |bufs|
    ensures Flatten(bufs[..i]) + bufs[i] == Flatten(bufs[..i + 1])
    ensures Flatten(bufs[..i + 1]) + Flatten(bufs[i + 1..]) == Flatten(bufs)
  {
    FlattenSnoc(bufs[..i], bufs[i]);
    SplitAt(bufs, i);
    FlattenAppend(bufs[..i + 1], bufs[i + 1..]);
  }

  /** The inner loop of Save: one buffer's entries, in order. */
  method WriteBuffer(w: FileWriter, kk: Kind, vk: Kind, buffer: seq<Entry>, ghost total: nat, ghost done: seq<Entry>)
    returns (failure: Option<Error>)
    requires Written(w, kk, vk, total, done) && AllTyped(kk, vk, done + buffer)
    modifies w, w.buffer
    ensures w.Valid()
    ensures failure.None? ==> Written(w, kk, vk, total, done + buffer)
    ensures failure.Some? ==>
      && Records(kk, vk, done + buffer).1 == Some(failure.value)
      && w.file <= Header(total) + Records(kk, vk, done + buffer).0
  {
    failure := None;
    var j := 0;
    assert done + buffer[..0] == done;
    while j < |buffer|
      invariant 0 <= j <= |buffer|
      invariant failure.None? && Written(w, kk, vk, total, done + buffer[..j])
    {
      var entry := buffer[j];
      ghost var prefix := done + buffer[..j];
      ghost var file, pending := w.file, w.Pending();
      PrefixStep(done, buffer, j);
      failure := WriteEntry(w, kk, vk, entry);
      if failure.Some? {
        RecordsFail(kk, vk, total, prefix, entry, failure.value, file, pending);
        RecordsStickAppend(kk, vk, prefix + [entry], buffer[j + 1..]);
        return;
      }
      RecordsExtend(kk, vk, total, prefix, entry, pending,
        Serialize(kk, Num(entry.key)).value, Serialize(vk, entry.value).value, w.Pending());
      j := j + 1;
    }
    assert buffer[..j] == buffer;
  }

  /** One pass of Save's inner loop: serialize the key, then the value, and on
      success write each behind its uint32 length. */
  method WriteEntry(w: FileWriter, kk: Kind, vk: Kind, entry: Entry) returns (failure: Option<Error>)
    requires w.Valid() && Typed(kk, vk, entry)
    modifies w, w.buffer
    ensures w.Valid()
    ensures failure.Some? ==> Record(kk, vk, entry) == Err(failure.value) && w.file == old(w.file)
    ensures failure.None? ==>
      && Serialize(kk, Num(entry.key)).Ok? && Serialize(vk, entry.value).Ok?
      && w.Pending() == old(w.Pending()) + Field(Serialize(kk, Num(entry.key)).value) + Field(Serialize(vk, entry.value).value)
  {
    var keyData := Serialize(kk, Num(entry.key));
    if keyData.Err? {
      return Some(keyData.error);
    }
    var valueData := Serialize(vk, entry.value);
    if valueData.Err? {
      return Some(valueData.error);
    }
    WriteField(w, keyData.value);
    WriteField(w, valueData.value);
    return None;
  }

  /** A record that fails to serialize ends the records with its error, and
      what is already in the file stays a prefix of the stream. */
  lemma RecordsFail(kk: Kind, vk: Kind, total: nat, done: seq<Entry>, entry: Entry, error: Error, file: seq<byte>, pending: seq<byte>)
    requires AllTyped(kk, vk, done) && Typed(kk, vk, entry) && Records(kk, vk, done).1 == None
    requires pending == Header(total) + Records(kk, vk, done).0 && file <= pending
    requires Record(kk, vk, entry) == Err(error)
    ensures AllTyped(kk, vk, done + [entry])
    ensures Records(kk, vk, done + [entry]).1 == Some(error)
    ensures file <= Header(total) + Records(kk, vk, done + [entry]).0
  {
    RecordsSnoc(kk, vk, done, entry);
  }

  /** A record written behind the stream so far extends the stream. */
  lemma RecordsExtend(kk: Kind, vk: Kind, total: nat, done: seq<Entry>, entry: Entry, before: seq<byte>, kd: seq<byte>, vd: seq<byte>, after: seq<byte>)
    requires AllTyped(kk, vk, done) && Typed(kk, vk, entry) && Records(kk, vk, done).1 == None
    requires before == Header(total) + Records(kk, vk, done).0
    requires Serialize(kk, Num(entry.key)) == Ok(kd) && Serialize(vk, entry.value) == Ok(vd)
    requires after == before + Field(kd) + Field(vd)
    ensures AllTyped(kk, vk, done + [entry]) && Records(kk, vk, done + [entry]).1 == None
    ensures after == Header(total) + Records(kk, vk, done + [entry]).0
  {
    var rec := Field(kd) + Field(vd);
    assert Record(kk, vk, entry) == Ok(rec);
    RecordsSnoc(kk, vk, done, entry);
    var h, r := Header(total), Records(kk, vk, done).0;
    AppendAssoc(before, Field(kd), Field(vd));
    AppendAssoc(h, r, rec);
  }

  /** A uint32 length, then the bytes. */
  method WriteField(w: FileWriter, d: seq<byte>)
    requires w.Valid()
    modifies w, w.buffer
    ensures w.Valid() && w.Pending() == old(w.Pending()) + Field(d)
  {
    w.Write(Length32(|d|));
    w.Write(d);
  }

  /** The entries of the first i buffers, and of buffer i, have the map's types. */
  lemma TypedPrefix(kk: Kind, vk: Kind, bufs: Buffers, i: nat)
    requires i < |bufs| && AllTyped(kk, vk, Flatten(bufs))
    ensures AllTyped(kk, vk, Flatten(bufs[..i]) + bufs[i])
  {
    FlattenAt(bufs, i, |bufs[i]|);
    assert bufs[i][..|bufs[i]|] == bufs[i];
    var m := |Flatten(bufs[..i])| + |bufs[i]|;
    forall x | x in Flatten(bufs[..i]) + bufs[i] ensures Typed(kk, vk, x) {
      assert x in Flatten(bufs)[..m];
    }
  }

  /** Once the records fail, appending entries changes neither the bytes
      nor the error. */
  lemma RecordsStickAppend(kk: Kind, vk: Kind, a: seq<Entry>, b: seq<Entry>)
    requires AllTyped(kk, vk, a + b) && AllTyped(kk, vk, a) && Records(kk, vk, a).1.Some?
    ensures Records(kk, vk, a + b) == Records(kk, vk, a)
  {
    assert (a + b)[..|a|] == a;
    RecordsStick(kk, vk, a + b, |a|);
  }

  /** Load's loop state: the entries read so far, then what the rest of the
      loop reads from pos, make up what Load reads in all. */
  ghost function Remaining(kk: Kind, vk: Kind, data: seq<byte>, got: seq<Entry>, pos: nat, n: nat): (seq<Entry>, Option<LoadError>)
    requires IntegerKind(kk) && pos <= |data|
  {
    Joined(got, DecodeFrom(kk, vk, data, pos, n))
  }

  /** The entries already read in front of what the rest of the records decode to. */
  function Joined(got: seq<Entry>, rest: (seq<Entry>, Option<LoadError>)): (seq<Entry>, Option<LoadError>)
  {
    (got + rest.0, rest.1)
  }

  /** Load's first read is the count; a non-positive count reads nothing. */
  lemma DecodedFrom(kk: Kind, vk: Kind, data: seq<byte>)
    requires IntegerKind(kk) && |data| >= 8
    ensures var count := Signed(FromLE(data[..8]), 8);
      Decoded(kk, vk, data) == DecodeFrom(kk, vk, data, 8, if count > 0 then count else 0)
  {
  }

  /** One iteration of Load's loop: a failed read ends it with that error, a
      record read moves the position past it. */
  lemma DecodeFromStep(kk: Kind, vk: Kind, data: seq<byte>, d: (seq<Entry>, Option<LoadError>), got: seq<Entry>, pos: nat, n: nat,
                       r: Result<(Entry, nat), LoadError>, got': seq<Entry>, pos': nat, n': nat)
    requires IntegerKind(kk) && pos <= |data| && n == n' + 1
    requires d == Remaining(kk, vk, data, got, pos, n) && r == ParseRecord(kk, vk, data, pos) && r.Ok?
    requires got' == got + [r.value.0] && pos' == r.value.1
    ensures pos' <= |data| && d == Remaining(kk, vk, data, got', pos', n')
  {
    DecodeFromCons(kk, vk, data, pos, n', r.value.0, r.value.1);
    var rest := DecodeFrom(kk, vk, data, pos', n');
    AppendAssoc(got, [r.value.0], rest.0);
  }

  /** A record that fails to read ends the loop with its error. */
  lemma DecodeFromFail(kk: Kind, vk: Kind, data: seq<byte>, d: (seq<Entry>, Option<LoadError>), got: seq<Entry>, pos: nat, n: nat,
                       r: Result<(Entry, nat), LoadError>)
    requires IntegerKind(kk) && pos <= |data| && n > 0
    requires d == Remaining(kk, vk, data, got, pos, n) && r == ParseRecord(kk, vk, data, pos) && r.Err?
    ensures d == (got, Some(r.error))
  {
    assert got + [] == got;
  }

  /** The loop ran its count out: everything was read, with no error. */
  lemma DecodeFromDone(kk: Kind, vk: Kind, data: seq<byte>, d: (seq<Entry>, Option<LoadError>), got: seq<Entry>, pos: nat)
    requires IntegerKind(kk) && pos <= |data|
    requires d == Remaining(kk, vk, data, got, pos, 0)
    ensures d == (got, None)
  {
    assert got + [] == got;
  }

  /** Adding one more entry is one more Add. */
  lemma AddAllSnoc(bufs: Buffers, es: seq<Entry>, e: Entry)
    ensures AddAll(bufs, es + [e]) == Inserted(AddAll(bufs, es), e.key, e.value)
  {
    assert (es + [e])[..|es|] == es;
  }

  /** Add keeps every stored entry of the map's types. */
  lemma InsertedTyped(kk: Kind, vk: Kind, bufs: Buffers, key: int, value: Value)
    requires AllTyped(kk, vk, Flatten(bufs)) && Typed(kk, vk, Entry(key, value))
    ensures AllTyped(kk, vk, Flatten(Inserted(bufs, key, value)))
  {
    InsertedEntries(bufs, key, value);
    var r := Flatten(Inserted(bufs, key, value));
    forall x | x in r ensures Typed(kk, vk, x) {
      assert x in multiset(r);
      assert x in multiset(Flatten(bufs)) || x == Entry(key, value);
    }
  }

  /** Delete keeps every stored entry of the map's types. */
  lemma RemovedTyped(kk: Kind, vk: Kind, bufs: Buffers, key: int)
    requires AllTyped(kk, vk, Flatten(bufs))
    ensures AllTyped(kk, vk, Flatten(Removed(bufs, key)))
  {
    RemovedEntries(bufs, key);
    var r := Flatten(Removed(bufs, key));
    forall x | x in r ensures Typed(kk, vk, x) {
      assert x in multiset(r);
      assert x in multiset(Flatten(bufs));
    }
  }

  /** Once a record fails, later entries change neither the bytes nor the error. */
  lemma {:induction false} RecordsStick(kk: Kind, vk: Kind, es: seq<Entry>, k: nat)
    requires AllTyped(kk, vk, es) && k <= |es|
    requires AllTyped(kk, vk, es[..k]) && Records(kk, vk, es[..k]).1.Some?
    ensures Records(kk, vk, es) == Records(kk, vk, es[..k])
    decreases |es| - k
  {
    if k < |es| {
      assert es[k] in es;
      RecordsSnoc(kk, vk, es[..k], es[k]);
      assert es[..k] + [es[k]] == es[..k + 1];
      RecordsStick(kk, vk, es, k + 1);
    } else {
      assert es[..k] == es;
    }
  }

  /** Two Ordered buffer lists holding the same entries answer every lookup alike. */
  lemma SameEntriesSameLookup(a: Buffers, b: Buffers, key: int)
    requires Ordered(a) && Ordered(b) && Flatten(a) == Flatten(b)
    ensures Lookup(a, key) == Lookup(b, key)
  {
    LookupMissAbsent(a, key);
    LookupMissAbsent(b, key);
    if Lookup(a, key).Some? {
      LookupComplete(b, key, Lookup(a, key).value);
    }
  }

  /**
   * Saving an Ordered map and loading the file into an empty one: Save
   * succeeds, Load reads back every entry in order with no error, and the
   * loaded map, one buffer per entry, answers every lookup as the saved one.
   */
  lemma SaveLoadRoundTrip(kk: Kind, vk: Kind, bufs: Buffers)
    requires IntegerKind(kk) && !vk.Unsupported?
    requires Ordered(bufs) && AllTyped(kk, vk, Flatten(bufs)) && AllFit(Flatten(bufs))
    requires |Flatten(bufs)| < 0x8000_0000_0000_0000
    ensures Image(kk, vk, Flatten(bufs)).1 == None
    ensures Decoded(kk, vk, Image(kk, vk, Flatten(bufs)).0) == (Flatten(bufs), None)
    ensures AddAll([], Flatten(bufs)) == Singletons(Flatten(bufs))
    ensures Ordered(AddAll([], Flatten(bufs))) && Flatten(AddAll([], Flatten(bufs))) == Flatten(bufs)
    ensures forall key :: Lookup(AddAll([], Flatten(bufs)), key) == Lookup(bufs, key)
  {
    var es := Flatten(bufs);
    ImageRoundTrip(kk, vk, es);
    AscendingFlatten(bufs);
    AddAllAscending(es);
    forall key ensures Lookup(AddAll([], es), key) == Lookup(bufs, key) {
      SameEntriesSameLookup(AddAll([], es), bufs, key);
    }
  }
}
