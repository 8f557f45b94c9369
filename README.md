# deadlock: a verified model of the compact map and the instrumented RWMutex

This Dafny project models the three core files of the Go package
`goupdate/deadlock` and proves what they promise.

- `map.go`: the **CompactMap**, a sorted map kept as a list of sorted
  buffers of at most 1000 entries. `Add`, `Get`, `Delete` and `Exist` share
  a two-level `sort.Search`: they first locate a buffer, then the entry inside
  it. When the located buffer is full, or no buffer is located, `Add` appends
  a new one-entry buffer and sorts the buffers by their first keys. The map
  also has `Iterate` and `Count`. `Save` writes an 8-byte entry count followed
  by length-prefixed keys and values, through a 6-byte write buffer. `Load`
  reads that file and `Add`s every record. `serialize`/`deserialize` encode
  integers, strings and byte slices.
- `mutex.go`: an **RWMutex** that records who holds it for writing
  (`wlockInfo`) and for reading (`rlockInfo`), per goroutine id. It refuses a
  goroutine's `Lock` while that goroutine already holds it either way, and its
  `RLock` while it holds the write lock. Every acquisition is watched by a
  timer. When the timer fires, a monitor reports a wait longer than the
  timeout, together with the site of a current holder, to a handler.
- `goid.go`: the counter `lastId` that hands out goroutine ids.

Modules:

| file | module | what it holds |
|---|---|---|
| `wrappers.dfy` | `Wrappers` | `Option` and `Result` |
| `seqs.dfy` | `Seqs` | small sequence equations the proofs cite by name |
| `little_endian.dfy` | `LittleEndian` | `binary.LittleEndian` encodings and their inverses |
| `codec.dfy` | `Codec` | `serialize`/`deserialize` over an explicit `Kind` |
| `buffers.dfy` | `Buffers` | the buffer list as a value: the searches, the effect of `Add` and `Delete`, and the properties proved about them |
| `file_format.dfy` | `FileFormat` | the bytes `Save` writes and what `Load` reads from bytes |
| `compact_map.dfy` | `CompactMap` | the `CompactMap` class, whose methods update `buffers`, `changed` and `loadedFile`; the `FileWriter` class, which is Save's `writeToFile` with its 6-byte array; Save's and Load's loops |
| `goid.dfy` | `GoroutineIds` | the `IdSource` class holding `lastId` |
| `mutex.dfy` | `Deadlock` | the `RWMutex` and `Globals` classes, and the monitor's decision |

### Modelling choices

**Compact map**
- Keys are Go integers (`int`), and values are `Num(int)` or `Blob(bytes)`. The type parameters `K` and `V` become the map's `keyKind` and `valueKind`.
- `sort.Search` is the library's own bisection (`Buffers.Bisect`). This makes the searches exact for every predicate, including the non-monotone ones that arise once a buffer is empty.
- Several properties hold only while the buffers are `Ordered`: keys ascend across the list and no buffer is empty. `Add` additionally needs `Room`: it must not insert a new buffer next to a full one. Two concrete lemmas show what goes wrong without these conditions: `FullBufferHidesKey` and `EmptiedBufferHidesKey`.

**RWMutex**
- The model is sequential. The embedded `sync.RWMutex` is an abstract pair: a writer flag and a reader count.
- An acquisition that cannot be granted at once returns `Waiting(attempt)`. `GrantLock` or `GrantRLock` completes it later.
- Timers are ids kept in `Globals`, each with the state of its channel: `Armed`, `Ticked`, `Received` or `Stopped`. A timer fires through `Fire`, and the monitor takes the tick through `MonitorTick`.
- The caller's goroutine id, its file and line, and the current time are parameters.

## Model

| member | source | states |
|---|---|---|
| `Buffers.Search` | map.go:51-53 | sort.Search over [0, n) returns an index in [0, n] |
| `Buffers.SearchBoundary` | map.go:51-53 | for any predicate, Search stops at a boundary: the predicate holds at the result (unless it is n) and fails just before it (unless it is 0) |
| `Buffers.BisectLow` | map.go:51-53 | the bisection never ends just after an index where the predicate holds |
| `Buffers.BisectHigh` | map.go:51-53 | the bisection never ends, before n, at an index where the predicate fails |
| `Buffers.SearchLeast` | map.go:51-53 | for a monotone predicate, Search returns the first index where it holds |
| `Buffers.BufferIndex` | map.go:90-92 | the first search returns a buffer index in [0, number of buffers] |
| `Buffers.EntryIndex` | map.go:96-98 | the second search returns a position in [0, buffer length] |
| `Buffers.Lookup` | map.go:90-102 | a value the two searches find belongs to a stored entry with that key, in a located buffer |
| `Buffers.EntryIndexExact` | map.go:96-100 | in a sorted buffer the lower bound splits smaller keys from the rest, and the key is stored iff the lower bound holds it |
| `Buffers.BufferIndexExact` | map.go:90-94 | under Ordered, the first search locates the only buffer that can hold the key: smaller keys before it, larger keys after it |
| `Buffers.LookupComplete` | map.go:86-107 | under Ordered, Get finds every stored key with its stored value |
| `Buffers.LookupMissAbsent` | map.go:86-107 | under Ordered, Get misses exactly when no stored entry has the key |
| `Buffers.LookupHolds` | map.go:94-102 | Get finds the key exactly when the lower bound in the located buffer holds it, and returns that entry's value |
| `Buffers.InsertByFirstKey` | map.go:79-81 | one insertion step of the sort by first key adds exactly one buffer |
| `Buffers.SortByFirstKey` | map.go:79-81 | sorting by first key keeps the number of buffers |
| `Buffers.InsertByFirstKeyEntries` | map.go:79-81 | an insertion step adds its buffer and that buffer's entries, as multisets |
| `Buffers.SortByFirstKeyEntries` | map.go:79-81 | the sort is a permutation of the buffers, and so keeps the multiset of entries |
| `Buffers.SortInOrder` | map.go:79-81 | the sort leaves a list already in order by first key unchanged |
| `Buffers.InsertByFirstKeyAt` | map.go:79-81 | a buffer that compares below every buffer from position bi on, and not below those before, is placed at bi |
| `Buffers.ReplaceSorted` | map.go:62-63 | overwriting the value at the found position keeps the buffer sorted and replaces the key's entry |
| `Buffers.InsertSorted` | map.go:64-67 | inserting at the lower bound keeps the buffer sorted and adds exactly that entry |
| `Buffers.PlacedSorted` | map.go:58-68 | Add's change to the located buffer keeps it sorted: the key maps to the new value and no other entry changes |
| `Buffers.PlacedEntries` | map.go:58-68 | as multisets, Add's change to the located buffer either swaps the key's old entry for the new one or adds the new one |
| `Buffers.InsertedEachSorted` | map.go:39-84 | Add keeps every buffer sorted, whatever state the buffers are in |
| `Buffers.PlacedFlatten` | map.go:55-71 | updating one buffer changes the map's entries by exactly that buffer's change |
| `Buffers.InsertedEntries` | map.go:39-84 | Add changes the multiset of entries by exactly one: it replaces the found entry, or adds one; the count grows only in the second case |
| `Buffers.InsertedAbove` | map.go:74-81 | a key above every stored key goes into a new last buffer |
| `Buffers.AboveReachesNone` | map.go:51-55 | under Ordered, the first search locates no buffer for a key above every stored key |
| `Buffers.AboveInOrder` | map.go:79-81 | a buffer holding a key above all others is in order at the end |
| `Buffers.InsertedUpdates` | map.go:39-84 | under Ordered and Room, Add keeps the order and is a map update: the key holds the value and every other entry stays |
| `Buffers.PlacedInOrder` | map.go:55-71 | adding into the located buffer keeps Ordered and is a map update |
| `Buffers.PlacedMembers` | map.go:55-71 | adding into the located buffer replaces the key's entry or adds one, and keeps every other entry |
| `Buffers.PlacedOrdered` | map.go:55-71 | adding into the located buffer keeps the buffers Ordered |
| `Buffers.PlacedKeys` | map.go:55-71 | every entry of the updated buffer lies above the buffers before it and below those after it |
| `Buffers.InsertBufferOrdered` | map.go:74-81 | a one-entry buffer placed between smaller and larger keys keeps Ordered and adds exactly that entry |
| `Buffers.InsertBufferEntries` | map.go:74-81 | placing a one-entry buffer with a new key adds exactly that entry |
| `Buffers.NewBufferPosition` | map.go:74-81 | when the located buffer is full and its first key is above the new key (or nothing is located), the sort puts the new buffer at the located position |
| `Buffers.OrderedInOrder` | map.go:79-81 | buffers whose keys ascend are already in order by first key |
| `Buffers.NewBufferSides` | map.go:79-81 | the new buffer compares below every buffer from the located one on, and not below any buffer before it |
| `Buffers.NewBufferInOrder` | map.go:74-84 | under Ordered and Room, the new-buffer path of Add keeps Ordered and is a map update |
| `Buffers.AddThenLookup` | map.go:39-107 | under Ordered and Room, Get after Add(key, value) returns value for key and what it returned before for every other key |
| `Buffers.FullBufferHidesKey` | map.go:55-81 | adding below the last key of a full buffer whose first key is smaller appends a buffer that sorts last; Get then misses the stored key |
| `Buffers.Cut` | map.go:124 | cutting one entry out of a buffer shortens it by one |
| `Buffers.CutEntries` | map.go:124 | the cut removes exactly that entry, as a multiset, and shifts the later entries down by one |
| `Buffers.CutSorted` | map.go:124 | cutting an entry out of a sorted buffer keeps it sorted and removes exactly that key |
| `Buffers.CutOrder` | map.go:124 | cutting an entry out of a sorted buffer keeps it sorted |
| `Buffers.CutMembers` | map.go:124 | after the cut the buffer holds exactly its other entries |
| `Buffers.ShrinkAscending` | map.go:117-128 | replacing a buffer by a sorted subset of its entries keeps the order across buffers |
| `Buffers.RemovedEntries` | map.go:109-129 | Delete removes exactly the entry Get finds, and changes nothing when Get misses |
| `Buffers.RemovedAscending` | map.go:109-129 | Delete keeps every buffer sorted and the order across buffers |
| `Buffers.RemovedUpdates` | map.go:109-129 | under Ordered, Delete removes the key and keeps every other entry; the order is kept unless the located buffer becomes empty |
| `Buffers.DeleteThenLookup` | map.go:86-129 | Get after Delete(key) misses key and, while the order holds, answers as before for every other key |
| `Buffers.EmptiedBufferHidesKey` | map.go:113-128 | deleting the only entry of a middle buffer leaves an empty buffer, after which Get misses a stored key in an earlier buffer |
| `Buffers.AscendingFlatten` | map.go:136-143 | under Ascending, the entries in stored order have strictly ascending keys |
| `Buffers.Singletons` | map.go:74-76 | the one-entry buffers Add's new-buffer path creates, one per entry: the map then holds exactly those entries in that order, and ascending entries give Ordered buffers |
| `Buffers.FlattenOneEach` | map.go:74-76 | a list of one-entry buffers holds exactly their entries, in order |
| `Buffers.OneEachOrdered` | map.go:74-76 | one-entry buffers of strictly ascending entries are Ordered |
| `Buffers.AddAllAscending` | map.go:39-84 | Adding strictly ascending entries to an empty map gives each entry its own buffer, in order |
| `Codec.Serialize` | map.go:327-364 | integers give exactly their width in bytes; strings and byte slices give a 4-byte length equal to the number of bytes that follow, which are the data; unsupported kinds give "unsupported type" |
| `Codec.SerializeBlob` | map.go:346-361 | the length prefix counts the bytes that follow, which are the data; the only failure is the out-of-range store when 4+length wraps |
| `Codec.Deserialize` | map.go:366-438 | results have the requested kind; "data is too short" exactly when the data is shorter than the width, than the prefix, or than the prefix plus its length; no panic |
| `Codec.DeserializeBlob` | map.go:414-435 | a string or byte slice decodes to bytes, and the only error is "data is too short" |
| `Codec.DeserializeAsWritten` | map.go:414-435 | with map.go's uint32 arithmetic for 4+length; for every other kind it agrees with Deserialize |
| `Codec.AsWrittenPanicsOnWrappedLength` | map.go:418-422 | the header 0xFFFFFFFF makes map.go slice out of range, where the corrected decoder reports "data is too short" |
| `Codec.AsWrittenAgreesWithoutWrap` | map.go:414-435 | whenever 4+length stays below 2^32 the two decoders agree |
| `Codec.IntegerBytes` | map.go:331-340 | the first w bytes of the 64-bit encoding decode to the value modulo 256^w |
| `Codec.SerializeRoundTrip` | map.go:327-438 | deserialize(serialize(x)) == x for every value of a supported kind whose length leaves 4+length below 2^32 |
| `Codec.UnsignedRoundTrip` | map.go:386-401 | an unsigned value of width w reads back from its w bytes |
| `Codec.SignedRoundTrip` | map.go:370-385 | a signed value of width w reads back from its w bytes through the two's complement |
| `Codec.BlobRoundTrip` | map.go:346-435 | a string or byte slice reads back from its length-prefixed bytes |
| `LittleEndian.FromLE` | map.go:418 | the number read from k bytes is below 256^k |
| `LittleEndian.FromLEOfLE` | map.go:333-334 | reading back the k low bytes of n gives n modulo 256^k |
| `LittleEndian.FromLEOfLESmall` | map.go:224-225 | a number below 256^k reads back exactly from its k bytes |
| `LittleEndian.LEPrefix` | map.go:333-335 | the first j of the k low-order bytes are the j low-order bytes, which is why `buf[:size]` encodes a narrower integer |
| `LittleEndian.LEOfFromLE` | map.go:418 | bytes are determined by the number they encode |
| `FileFormat.StreamSnoc` | map.go:232-263 | the record stream grows one record at a time and stops at the first failure |
| `FileFormat.RecordsSnoc` | map.go:232-263 | Save's records grow by one entry's bytes, or stop with that entry's serialize error |
| `FileFormat.ReadInt32` | map.go:293-296 | binary.Read of an int32 succeeds exactly when four bytes remain |
| `FileFormat.ReadInto` | map.go:297-300 | reader.Read fills a fresh n-byte slice with up to n remaining bytes, zeroes the rest, and fails exactly when n > 0 and nothing is left |
| `FileFormat.ParseField` | map.go:293-304 | reading a length and the bytes it announces and decoding them gives a value of the kind, past the length prefix; decoding uses the corrected `Codec.Deserialize` (see Left out) |
| `FileFormat.ParseRecord` | map.go:293-317 | one loop iteration reads a typed entry and moves past at least its two length prefixes |
| `FileFormat.DecodeFrom` | map.go:292-320 | the loop yields entries of the map's types, never more than its count |
| `FileFormat.Decoded` | map.go:286-320 | Load adds entries of the map's types |
| `FileFormat.SerializedFits` | map.go:327-364 | a value that fits serializes to fewer than 2^31 bytes and reads back as itself |
| `FileFormat.Length32RoundTrip` | map.go:293-297 | a length below 2^31 written as uint32 reads back as the same int32 |
| `FileFormat.ParseFieldOfField` | map.go:293-304 | a length-prefixed field whose bytes decode to v reads back as v, ending right after it |
| `FileFormat.ParseRecordOfFields` | map.go:293-317 | a key field and a value field that decode to an entry parse as that entry |
| `FileFormat.ParseRecordOfParsed` | map.go:293-317 | a record is its key field followed by its value field |
| `FileFormat.RecordFields` | map.go:236-261 | the record of an entry that fits is two fields that decode to its key and value |
| `FileFormat.RecordsCons` | map.go:232-263 | the records of a list are the first entry's record followed by the rest's, or the first entry's error |
| `FileFormat.DecodeFromCons` | map.go:292-320 | a record that parses at pos is the first entry the loop reads from pos |
| `FileFormat.RecordsNoError` | map.go:236-243 | entries whose values fit serialize without error |
| `FileFormat.DecodeFromRecords` | map.go:232-320 | the loop reads back every entry whose records Save wrote, in order, with no error |
| `FileFormat.ImageRoundTrip` | map.go:218-320 | Load reads back exactly the entries Save wrote, in order, with no error |
| `CompactMap.Zero` | map.go:105-106 | the zero value Get returns on a miss has the value kind: 0, or empty bytes |
| `CompactMap.Visited` | map.go:131-144 | Iterate's calls are a prefix of the entries, fn held on every call but the last, a shorter prefix ends with a false, and fn true everywhere visits all |
| `CompactMap.VisitedStops` | map.go:138-141 | fn failing first on entry k ends the iteration right after entry k |
| `CompactMap.IterateStops` | map.go:136-143 | the calls made up to a false are exactly Visited |
| `CompactMap.FileWriter.constructor` | map.go:192-194 | an empty 6-byte buffer and an empty file |
| `CompactMap.FileWriter.Write` | map.go:197-216 | writeToFile appends data to what is written: flushing the buffer first when data does not fit, and writing data directly when it is longer than the buffer |
| `CompactMap.FileWriter.Stage` | map.go:213-214 | the data is copied behind what the buffer holds, and the file is unchanged |
| `CompactMap.FileWriter.Flush` | map.go:265-270 | the final flush leaves the file holding everything written |
| `CompactMap.CompactMap.constructor` | map.go:31-37 | NewCompactMap: no buffers, unchanged, no file |
| `CompactMap.CompactMap.Add` | map.go:39-84 | the buffers become Inserted(old, key, value), with the invariants kept and changed set |
| `CompactMap.CompactMap.Get` | map.go:86-107 | a found value is stored under the key; a miss returns the zero value; under Ordered, found iff the key is stored |
| `CompactMap.CompactMap.Delete` | map.go:109-129 | the buffers become Removed(old, key); changed is set exactly when an entry was removed |
| `CompactMap.CompactMap.Iterate` | map.go:131-144 | fn is called with exactly Visited(entries, fn) |
| `CompactMap.CompactMap.Exist` | map.go:146-165 | true only for a stored key; under Ordered, true exactly for the stored keys |
| `CompactMap.CompactMap.Count` | map.go:167-176 | the number of stored entries |
| `CompactMap.CompactMap.Save` | map.go:178-275 | skipped when unchanged since this file; otherwise the file is the Image of the entries, or a prefix of it up to the first serialize error; success clears changed and records the file name |
| `CompactMap.CompactMap.Load` | map.go:277-325 | the map becomes the old buffers plus an Add of every decoded entry in order; the error is the decoder's, which uses the corrected `Codec.Deserialize` and returns `NegativeLength` where `make` panics on a negative length (see Left out); success clears changed and records the file name |
| `CompactMap.CompactMap.AddEntries` | map.go:292-320 | the Adds of Load's loop, in order |
| `CompactMap.CompactMap.AddLoaded` | map.go:319 | one Add of Load's loop extends AddAll by one entry |
| `CompactMap.ReadRecords` | map.go:291-320 | Load's loop reads exactly what DecodeFrom says, and a count of 0 or less reads nothing |
| `CompactMap.WriteRecords` | map.go:232-263 | Save's outer loop writes the records of all entries, or stops at the first serialize error with a prefix of them in the file |
| `CompactMap.WriteBuffer` | map.go:235-262 | Save's inner loop writes one buffer's records, or stops at the first error |
| `CompactMap.WriteEntry` | map.go:236-261 | on success the key and value fields are written behind their uint32 lengths; on a serialize error nothing reaches the file |
| `CompactMap.WriteField` | map.go:245-252 | a uint32 length and then the bytes are written |
| `CompactMap.RecordsFail` | map.go:236-243 | a failed record ends the stream with its error, and the file stays a prefix of it |
| `CompactMap.RecordsExtend` | map.go:245-261 | a record written behind the stream so far extends it |
| `CompactMap.RecordsStick` | map.go:236-243 | once a record fails, later entries change neither the bytes nor the error |
| `CompactMap.RecordsStickAppend` | map.go:236-243 | appending entries after a failure changes nothing |
| `CompactMap.DecodedFrom` | map.go:286-292 | Load's first read is the count, and a count of 0 or less reads nothing |
| `CompactMap.DecodeFromStep` | map.go:292-320 | a record read moves the loop forward with that entry |
| `CompactMap.DecodeFromFail` | map.go:293-317 | a failed read ends the loop with its error |
| `CompactMap.DecodeFromDone` | map.go:292 | a loop that runs its count out ends with no error |
| `CompactMap.AddAllSnoc` | map.go:319 | one more loaded entry is one more Add |
| `CompactMap.InsertedTyped` | map.go:39-84 | Add keeps every stored entry of the map's types |
| `CompactMap.RemovedTyped` | map.go:109-129 | Delete keeps every stored entry of the map's types |
| `CompactMap.SameEntriesSameLookup` | map.go:86-107 | two Ordered buffer lists holding the same entries answer every Get alike |
| `CompactMap.SaveLoadRoundTrip` | map.go:178-325 | after saving an Ordered map, loading into an empty map reads every entry back; the loaded map has one buffer per entry and answers every Get as the saved one |
| `GoroutineIds.WrapInt64` | goid.go:8 | int64 wrap-around: the result is in range, equals the input when in range, and differs from it by a multiple of 2^64 |
| `GoroutineIds.IdAfterCallsValue` | goid.go:5-9 | before the wrap, the n-th call leaves lastId at n + 1 |
| `GoroutineIds.IdsIncrease` | goid.go:7-9 | ids handed out before the wrap strictly increase, so no two are equal |
| `GoroutineIds.IdSource.constructor` | goid.go:5 | lastId starts at 1 |
| `GoroutineIds.IdSource.GetGoroutineId` | goid.go:7-9 | lastId grows by one, with wrap-around, and the result is the new lastId |
| `GoroutineIds.FirstId` | goid.go:5-9 | the first call returns 2 |
| `Deadlock.AcquireTimeout` | mutex.go:138-141 | the instance timeout unless it is zero; no watch exactly when the instance timeout is negative, or zero with a global timeout of 0 or less |
| `Deadlock.MonitorTimeout` | mutex.go:72-75 | the instance timeout when it is positive, else the global one |
| `Deadlock.WatchedTimeoutsAgree` | mutex.go:138-147 | for every watched acquisition the monitor compares against the timeout the timer was armed with, while neither the instance nor the global timeout is changed between the acquisition and the tick (the monitor reads both again at the tick) |
| `Deadlock.ChooseHandler` | mutex.go:79-83 | the instance handler if non-nil, else the global one |
| `Deadlock.NilHandlersCallNil` | mutex.go:77-88 | with both handlers nil, a wait past the timeout calls a nil func |
| `Deadlock.Decide` | mutex.go:77-91 | a report exactly when the wait is strictly longer than the effective timeout and some handler is set, to the chosen handler; otherwise the same decision as written |
| `Deadlock.Globals.constructor` | mutex.go:33-43 | the global timeout starts at 2 s with the default handler and no watched timers |
| `Deadlock.Globals.SetGlobalLockTimeout` | mutex.go:221-226 | sets the two globals and nothing else |
| `Deadlock.Globals.NewTimer` | mutex.go:144 | a fresh running timer |
| `Deadlock.Globals.Fire` | mutex.go:69 | a running timer sends its one tick |
| `Deadlock.Globals.Receive` | mutex.go:69 | the monitor takes the waiting tick |
| `Deadlock.Globals.Stop` | mutex.go:90 | Stop reports true exactly for a running timer, which it stops |
| `Deadlock.Globals.StopAndDrain` | mutex.go:152-155 | as written: the drain waits forever exactly when the timer was already stopped or its tick already taken |
| `Deadlock.Globals.Watch` | mutex.go:142-147 | a positive timeout arms a fresh timer and adds it to globalTimers; otherwise nothing |
| `Deadlock.Globals.Unwatch` | mutex.go:152-157 | the timer is stopped and dropped from globalTimers |
| `Deadlock.Globals.ResetGlobalTimers` | mutex.go:45-58 | every watched timer is stopped, without the drain at mutex.go:49-51 (see Findings), globalTimers ends empty, other timers and the settings are unchanged |
| `Deadlock.RWMutex.constructor` | mutex.go:23-31 | the zero RWMutex: unlocked, empty registries, no own timeout or handler |
| `Deadlock.RWMutex.SetLockTimeout` | mutex.go:212-217 | sets the instance's two fields and nothing else |
| `Deadlock.RWMutex.Lock` | mutex.go:117-158 | panics with the recorded site exactly when the caller is in wlockInfo ("Double lock") or else in rlockInfo ("Double read lock"), changing nothing; otherwise granted iff the primitive is free, storing the caller's info with globalTimers as before and every existing timer in its state; or waiting with a fresh watch iff the effective timeout is positive |
| `Deadlock.RWMutex.RLock` | mutex.go:168-202 | panics exactly when the caller is in wlockInfo, changing nothing; otherwise granted iff no writer holds the lock, counting one more reader and storing or overwriting the caller's info, every existing timer in its state; or waiting with a watch |
| `Deadlock.RWMutex.Begin` | mutex.go:137-147 | the caller's info at the current time, and a fresh running timer in globalTimers exactly when the effective timeout is positive |
| `Deadlock.RWMutex.GrantLock` | mutex.go:149-157 | the write lock is taken, the caller's info stored, and its watch stopped and removed; no other timer changes |
| `Deadlock.RWMutex.GrantRLock` | mutex.go:193-201 | one more reader, the caller's info stored, and its watch stopped and removed, without the drain at mutex.go:197-199 (see Findings); no other timer changes |
| `Deadlock.RWMutex.Unlock` | mutex.go:160-166 | the write lock is released and only the caller's wlockInfo entry is deleted |
| `Deadlock.RWMutex.RUnlock` | mutex.go:204-210 | one read hold is released and only the caller's rlockInfo entry is deleted |
| `Deadlock.RWMutex.LastLocker` | mutex.go:95-115 | the site and age of some read holder if there is one, else of some write holder, else ("", 0, 0) |
| `Deadlock.RWMutex.MonitorTick` | mutex.go:68-93 | the tick is taken; a report exactly when Decide calls a handler, carrying the wait and a holder's site, not the waiter's; the timer then has no tick left to send, so each watch reports at most once |
| `Deadlock.LockUnlockCycle` | mutex_test.go:11-21 | Lock, Unlock, RLock, RUnlock by one goroutine are all granted at once and leave both registries empty |
| `Deadlock.ReentrantLocksPanic` | mutex_test.go:252-319 | Lock after Lock and RLock after Lock panic as double locks, Lock after RLock as a double read lock, each naming the first site |
| `Deadlock.RepeatedReadLock` | mutex.go:193-209 | a second RLock by the same goroutine is granted and overwrites its single entry, so one RUnlock clears it while a read hold remains |
| `Deadlock.UnrelatedGrantKeepsWatch` | mutex.go:138-157 | a lock granted at once on another mutex, between an acquisition that waits and its timer's tick, leaves that timer running, so the waiter is still reported with its holder's site |
| `Deadlock.WaitPastTimeout` | example/main.go:10-27 | the waiting Lock(2) is reported with the holder's site after half a second; once it is granted, the stop-and-drain as written waits forever |

## Left out

- Concurrency: the map's `sync.Mutex`, the `sync.Map` registries and the `mu` guard of the globals. Every operation of the model runs to completion on its own.
- Goroutines and blocking: the monitor goroutine, which never returns from `for range timer.C` (a leak the model does not represent), and the real blocking in `sync.RWMutex`. Acquisitions are split into a begin step and a grant step instead.
- Deadlock.RWMutex.RLock: a waiting writer does not hold back new readers here, although `sync.RWMutex` makes them wait; the model grants a read lock whenever no writer holds the lock.
- Deadlock.RWMutex.Unlock: unlocking an RWMutex not locked for writing is a fatal run-time error in Go; the model requires that it does not happen.
- Deadlock.RWMutex.RUnlock: RUnlock without a read hold is a fatal run-time error in Go; the model requires that it does not happen.
- Deadlock.RWMutex.MonitorTick: decides with the corrected `Deadlock.Decide`, so a tick past the timeout with both the instance and the global handler nil gives no report, where the Go monitor calls the nil func at mutex.go:88 and panics (see Findings; `Deadlock.DecideAsWritten` models the call).
- `runtime.Caller` in `getCaller` and `goid.Get`: their results (file, line, goroutine id) are parameters. So are `time.Now` and `time.Since`, as `now`.
- Handlers are identities. What a handler does is not modelled, e.g. printing to standard error with `dur.Truncate(time.Second)`, or panicking as in the example program. The monitor returns a `Report` instead of making the call.
- The comments at mutex.go:29 and mutex.go:35 promise alerts that repeat with a doubling timeout. The code arms one single-shot timer per acquisition, so there is at most one report; the model follows the code.
- The comments at mutex.go:213 and mutex.go:220 say a zero duration turns checking off. In the code an instance timeout of zero falls back to the global timeout (`AcquireTimeout`), and a nil instance handler falls back to the global handler; the model follows the code.
- GoroutineIds.IdSource.GetGoroutineId: `atomic.AddInt64` is modelled as a plain sequential increment (the `sync/atomic` import is missing from goid.go).
- Floating-point keys and values (`float32`/`float64`), which go through `unsafe` bit reinterpretation: not modelled. A `Kind` is an integer width, `String`, `ByteSlice` or `Unsupported`.
- String keys: keys are integers, so the string ordering of `constraints.Ordered` is not modelled (string and byte-slice values are).
- File I/O: `os.Create`, `os.Open`, `file.Write` and `file.Close` and their errors. Save returns the bytes it would write; Load is given the file's bytes.
- CompactMap.CompactMap.Load: `bufio.NewReaderSize` holds at most 50 MB, so for a larger file `reader.Read` may return fewer bytes than remain. The model treats the whole file as buffered.
- CompactMap.CompactMap.Load: decodes all records first (`ReadRecords`), then Adds them in order (`AddEntries`). Go interleaves reading and Add. The result is the same, because reading never depends on the map.
- CompactMap.CompactMap.Load: decodes each field with the corrected `Codec.Deserialize` (through `FileFormat.ParseField` and `FileFormat.Decoded`), so a string or byte-slice field whose length header is 0xFFFFFFFF gives the error `BadData(TooShort)` where the Go code panics at map.go:422 or map.go:433 (see Findings; `Codec.DeserializeAsWritten` models the panic).
- CompactMap.CompactMap.Load, FileFormat.ParseField: a negative int32 field length makes `make([]byte, size)` panic at map.go:297 or map.go:310; the model returns the error `NegativeLength` instead.
- FileFormat.ParseField: built on the corrected `Codec.Deserialize`, for the reason given in the CompactMap.CompactMap.Load line above.
- CompactMap.CompactMap.Iterate: returns the sequence of entries `fn` was called with, instead of leaving the calls' effects behind.
- Buffers.SortByFirstKey: `sort.Slice` is modelled as an insertion sort by first key. It gives the same list as Go's unstable sort whenever the comparison is a strict order, i.e. no buffer is empty and first keys are distinct; with empty buffers the order Go produces may differ.
- Buffers.InsertedUpdates, Buffers.AddThenLookup, Buffers.NewBufferInOrder: proved under `Ordered` and `Room`, because Add breaks the order in the cases `FullBufferHidesKey` shows.
- Buffers.DeleteThenLookup, Buffers.RemovedUpdates: answer as before for other keys only while the order holds, because Delete can leave an empty buffer (`EmptiedBufferHidesKey`).
- Codec.SerializeRoundTrip, FileFormat.ImageRoundTrip, CompactMap.SaveLoadRoundTrip: restricted to lengths that fit, because `4+length` wraps in uint32 and Load reads the lengths as int32.

## Findings

| source | as written | input that shows it | evidently intended | confidence | as-written member | corrected member |
|---|---|---|---|---|---|---|
| map.go:418-422 | the string/[]byte bound `4+strLen` is computed in uint32 | a string field whose 4-byte header is 0xFFFFFFFF: the bound wraps to 3, the length check passes, and `data[4:3]` panics | return "data is too short" | not executed; the wrap follows from Go's uint32 arithmetic | `Codec.AsWrittenPanicsOnWrappedLength` | `Codec.Deserialize` |
| mutex.go:77-88 | when neither the instance nor the package has a handler, the monitor calls the nil func | `SetGlobalLockTimeout(2*time.Second, nil)` on a mutex with no own handler, and a Lock that waits 3 s: the monitor goroutine panics | a nil handler turns the report off, as the comment at mutex.go:219-220 says | not executed | `Deadlock.NilHandlersCallNil` | `Deadlock.Decide`, used by `Deadlock.RWMutex.MonitorTick` |
| mutex.go:152-155 | after the grant, `if !timer.Stop() { <-timer.C }` drains a channel whose only tick the monitor goroutine may already have taken (likewise at mutex.go:197-199 and mutex.go:49-51) | example/main.go with a handler that returns: Lock(2) waits past 0.5 s, the monitor takes the tick and reports, Unlock(1) lets Lock(2) take the lock, and its drain waits forever | stop the timer without draining it, since the monitor owns the channel | not executed | `Deadlock.WaitPastTimeout` | `Deadlock.RWMutex.GrantLock`, `Deadlock.RWMutex.GrantRLock`, `Deadlock.Globals.ResetGlobalTimers`: the first two stop through `Deadlock.Globals.Unwatch`, the third through `Deadlock.Globals.Stop`, none drains |
