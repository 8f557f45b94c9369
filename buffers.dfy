/**
 * The buffer list of the compact map (map.go) as a value: a sequence of
 * buffers, each a sequence of entries. This module holds the two-level search
 * that Add, Get, Exist and Delete share, the effect of Add and Delete on the
 * buffers, and what is proved about them.
 */
module Buffers {
  import opened Wrappers
  import opened Seqs
  import opened Codec

  /** maxSliceSize: a buffer only takes a new entry while it is shorter. */
  const MaxSliceSize: nat := 1000

  datatype Entry = Entry(key: int, value: Value)

  type Buffers = seq<seq<Entry>>

  // ---------------------------------------------------------------------------
  // sort.Search from Go's library: bisection over [0, n) for the first index
  // whose predicate holds, written as the library's loop does it.

  function Bisect(i: nat, j: nat, f: nat -> bool): (r: nat)
    requires i <= j
    ensures i <= r <= j
    decreases j - i
  {
    if i < j then
      var h := (i + j) / 2;
      if !f(h) then Bisect(h + 1, j, f) else Bisect(i, h, f)
    else i
  }

  function Search(n: nat, f: nat -> bool): (r: nat)
    ensures r <= n
  {
    Bisect(0, n, f)
  }

  /** The bisection never ends just after an index where the predicate holds. */
  lemma {:induction false} BisectLow(i: nat, j: nat, f: nat -> bool)
    requires i <= j
    requires i > 0 ==> !f(i - 1)
    ensures Bisect(i, j, f) > 0 ==> !f(Bisect(i, j, f) - 1)
    decreases j - i
  {
    if i < j {
      var h := (i + j) / 2;
      if !f(h) {
        BisectLow(h + 1, j, f);
      } else {
        BisectLow(i, h, f);
      }
    }
  }

  /** The bisection never ends, before n, at an index where the predicate fails. */
  lemma {:induction false} BisectHigh(n: nat, i: nat, j: nat, f: nat -> bool)
    requires i <= j <= n
    requires j < n ==> f(j)
    ensures Bisect(i, j, f) < n ==> f(Bisect(i, j, f))
    decreases j - i
  {
    if i < j {
      var h := (i + j) / 2;
      if !f(h) {
        BisectHigh(n, h + 1, j, f);
      } else {
        BisectHigh(n, i, h, f);
      }
    }
  }

  /** Whatever the predicate, Search stops at a boundary: the predicate holds at
      the result (unless it is n) and fails just before it (unless it is 0). */
  lemma SearchBoundary(n: nat, f: nat -> bool)
    ensures Search(n, f) > 0 ==> !f(Search(n, f) - 1)
    ensures Search(n, f) < n ==> f(Search(n, f))
  {
    BisectLow(0, n, f);
    BisectHigh(n, 0, n, f);
  }

  ghost predicate Monotone(n: nat, f: nat -> bool)
  {
    forall a: nat, b: nat :: a <= b < n && f(a) ==> f(b)
  }

  /** For a monotone predicate, Search finds the first index where it holds. */
  lemma SearchLeast(n: nat, f: nat -> bool)
    requires Monotone(n, f)
    ensures forall k: nat :: k < Search(n, f) ==> !f(k)
    ensures forall k: nat :: Search(n, f) <= k < n ==> f(k)
  {
    SearchBoundary(n, f);
  }

  // ---------------------------------------------------------------------------
  // The two searches of map.go.

  /** Buffer i is non-empty and its last key is at least key. */
  predicate Reaches(buf: seq<Entry>, key: int)
  {
    |buf| > 0 && buf[|buf| - 1].key >= key
  }

  function ReachesAt(bufs: Buffers, key: int): nat -> bool
  {
    (i: nat) => i < |bufs| && Reaches(bufs[i], key)
  }

  function KeyAtLeast(buf: seq<Entry>, key: int): nat -> bool
  {
    (i: nat) => i < |buf| && buf[i].key >= key
  }

  /** The first search: the first buffer whose last key is >= key. */
  function BufferIndex(bufs: Buffers, key: int): (r: nat)
    ensures r <= |bufs|
  {
    Search(|bufs|, ReachesAt(bufs, key))
  }

  /** The second search: the lower-bound index of key inside a buffer. */
  function EntryIndex(buf: seq<Entry>, key: int): (r: nat)
    ensures r <= |buf|
  {
    Search(|buf|, KeyAtLeast(buf, key))
  }

  /** The lookup that Get and Exist perform. */
  function Lookup(bufs: Buffers, key: int): (r: Option<Value>)
    ensures r.Some? ==> BufferIndex(bufs, key) < |bufs|
    ensures r.Some? ==> Entry(key, r.value) in Flatten(bufs)
  {
    var bi := BufferIndex(bufs, key);
    if bi < |bufs| then
      var buf := bufs[bi];
      var idx := EntryIndex(buf, key);
      if idx < |buf| && buf[idx].key == key then
        FlattenContains(bufs, bi, idx);
        Some(buf[idx].value)
      else None
    else None
  }

  // ---------------------------------------------------------------------------
  // Contents and invariants.

  /** All entries, buffer after buffer, in stored order (the order Iterate and Save use). */
  function Flatten(bufs: Buffers): seq<Entry>
  {
    if bufs == [] then [] else Flatten(bufs[..|bufs| - 1]) + bufs[|bufs| - 1]
  }

  ghost predicate Sorted(buf: seq<Entry>)
  {
    forall a, b :: 0 <= a < b < |buf| ==> buf[a].key < buf[b].key
  }

  /** Every buffer is strictly ascending by key. */
  ghost predicate EachSorted(bufs: Buffers)
  {
    forall i :: 0 <= i < |bufs| ==> Sorted(bufs[i])
  }

  /** Keys ascend across the whole list: each buffer sorted, and every key of an
      earlier buffer below every key of a later one. */
  ghost predicate Ascending(bufs: Buffers)
  {
    && EachSorted(bufs)
    && forall i, j, p, q ::
         0 <= i < j < |bufs| && 0 <= p < |bufs[i]| && 0 <= q < |bufs[j]| ==>
           bufs[i][p].key < bufs[j][q].key
  }

  /** The condition under which the two-level search is exact: keys ascend and
      no buffer is empty. */
  ghost predicate Ordered(bufs: Buffers)
  {
    Ascending(bufs) && forall i :: 0 <= i < |bufs| ==> |bufs[i]| > 0
  }

  // ---------------------------------------------------------------------------
  // Facts about Flatten.

  lemma {:induction false} FlattenContains(bufs: Buffers, i: nat, p: nat)
    requires i < |bufs| && p < |bufs[i]|
    ensures bufs[i][p] in Flatten(bufs)
    decreases |bufs|
  {
    var n := |bufs|;
    if i < n - 1 {
      FlattenContains(bufs[..n - 1], i, p);
    } else {
      assert Flatten(bufs) == Flatten(bufs[..n - 1]) + bufs[n - 1];
      assert bufs[i][p] == (Flatten(bufs[..n - 1]) + bufs[n - 1])[|Flatten(bufs[..n - 1])| + p];
    }
  }

  lemma {:induction false} FlattenIndex(bufs: Buffers, e: Entry) returns (i: nat, p: nat)
    requires e in Flatten(bufs)
    ensures i < |bufs| && p < |bufs[i]| && bufs[i][p] == e
    decreases |bufs|
  {
    var n := |bufs|;
    var front := Flatten(bufs[..n - 1]);
    assert Flatten(bufs) == front + bufs[n - 1];
    if e in front {
      i, p := FlattenIndex(bufs[..n - 1], e);
    } else {
      var k :| 0 <= k < |Flatten(bufs)| && Flatten(bufs)[k] == e;
      i, p := n - 1, k - |front|;
    }
  }

  lemma FlattenSnoc(bufs: Buffers, b: seq<Entry>)
    ensures Flatten(bufs + [b]) == Flatten(bufs) + b
  {
    assert (bufs + [b])[..|bufs|] == bufs;
  }

  lemma {:induction false} FlattenAppend(a: Buffers, b: Buffers)
    ensures Flatten(a + b) == Flatten(a) + Flatten(b)
    decreases |b|
  {
    if b == [] {
      assert a + b == a;
    } else {
      var n := |b|;
      var init := b[..n - 1];
      FlattenAppend(a, init);
      AppendDropLast(a, b);
      AppendAssoc(Flatten(a), Flatten(init), b[n - 1]);
    }
  }

  /** The entries of a prefix of the buffers are a prefix of all entries. */
  lemma {:induction false} FlattenPrefix(bufs: Buffers, i: nat)
    requires i <= |bufs|
    ensures |Flatten(bufs[..i])| <= |Flatten(bufs)|
    ensures Flatten(bufs)[..|Flatten(bufs[..i])|] == Flatten(bufs[..i])
    decreases |bufs|
  {
    if i < |bufs| {
      var n := |bufs|;
      assert bufs[..n - 1][..i] == bufs[..i];
      FlattenPrefix(bufs[..n - 1], i);
    } else {
      assert bufs[..i] == bufs;
    }
  }

  /** Position j of buffer i is position |Flatten(bufs[..i])| + j of all entries. */
  lemma FlattenAt(bufs: Buffers, i: nat, j: nat)
    requires i < |bufs| && j <= |bufs[i]|
    ensures |Flatten(bufs[..i])| + j <= |Flatten(bufs)|
    ensures Flatten(bufs)[..|Flatten(bufs[..i])| + j] == Flatten(bufs[..i]) + bufs[i][..j]
  {
    FlattenPrefix(bufs, i + 1);
    assert bufs[..i + 1][..i] == bufs[..i];
    assert Flatten(bufs[..i + 1]) == Flatten(bufs[..i]) + bufs[i];
    var n := |Flatten(bufs[..i])|;
    assert Flatten(bufs)[..n + j] == Flatten(bufs[..i + 1])[..n + j];
  }

  /** The entries split around any one buffer. */
  lemma {:induction false} FlattenSplit(bufs: Buffers, i: nat)
    requires i < |bufs|
    ensures Flatten(bufs) == Flatten(bufs[..i]) + bufs[i] + Flatten(bufs[i + 1..])
    decreases |bufs|
  {
    var n := |bufs|;
    if i == n - 1 {
      assert bufs[i + 1..] == [];
    } else {
      FlattenSplit(bufs[..n - 1], i);
      assert bufs[..n - 1][..i] == bufs[..i];
      assert bufs[..n - 1][i + 1..] == bufs[i + 1..n - 1];
      assert bufs[i + 1..][..|bufs[i + 1..]| - 1] == bufs[i + 1..n - 1];
    }
  }

  /** Replacing one buffer replaces its entries in place. */
  lemma FlattenUpdate(bufs: Buffers, i: nat, b: seq<Entry>)
    requires i < |bufs|
    ensures Flatten(bufs[i := b]) == Flatten(bufs[..i]) + b + Flatten(bufs[i + 1..])
  {
    FlattenSplit(bufs, i);
    FlattenSplit(bufs[i := b], i);
    assert bufs[i := b][..i] == bufs[..i];
    assert bufs[i := b][i + 1..] == bufs[i + 1..];
  }

  /** Every entry of the buffers before i, and every entry after i. */
  lemma FlattenSides(bufs: Buffers, i: nat, e: Entry)
    requires i < |bufs|
    ensures e in Flatten(bufs[..i]) ==> exists j, p :: 0 <= j < i && 0 <= p < |bufs[j]| && bufs[j][p] == e
    ensures e in Flatten(bufs[i + 1..]) ==> exists j, p :: i < j < |bufs| && 0 <= p < |bufs[j]| && bufs[j][p] == e
  {
    if e in Flatten(bufs[..i]) {
      var j, p := FlattenIndex(bufs[..i], e);
      assert bufs[j][p] == e;
    }
    if e in Flatten(bufs[i + 1..]) {
      var j, p := FlattenIndex(bufs[i + 1..], e);
      assert bufs[i + 1 + j][p] == e;
    }
  }

  // ---------------------------------------------------------------------------
  // The searches under the invariants.

  lemma SortedMonotone(buf: seq<Entry>, key: int)
    requires Sorted(buf)
    ensures Monotone(|buf|, KeyAtLeast(buf, key))
  {
  }

  lemma OrderedMonotone(bufs: Buffers, key: int)
    requires Ordered(bufs)
    ensures Monotone(|bufs|, ReachesAt(bufs, key))
  {
    var f := ReachesAt(bufs, key);
    forall a: nat, b: nat | a <= b < |bufs| && f(a) ensures f(b) {
      if a < b {
        var la, lb := |bufs[a]| - 1, |bufs[b]| - 1;
        assert bufs[a][la].key < bufs[b][lb].key;
      }
    }
  }

  /** Inside a sorted buffer the lower bound is exact: it points at the entry
      with the key if there is one, and no entry has the key otherwise. */
  lemma EntryIndexExact(buf: seq<Entry>, key: int)
    requires Sorted(buf)
    ensures var idx := EntryIndex(buf, key);
      && (forall p :: 0 <= p < idx ==> buf[p].key < key)
      && (forall p :: idx <= p < |buf| ==> buf[p].key >= key)
      && ((exists p :: 0 <= p < |buf| && buf[p].key == key) <==> idx < |buf| && buf[idx].key == key)
  {
    SortedMonotone(buf, key);
    SearchLeast(|buf|, KeyAtLeast(buf, key));
    var idx := EntryIndex(buf, key);
    forall p | 0 <= p < idx ensures buf[p].key < key {
      assert !KeyAtLeast(buf, key)(p);
    }
    forall p | idx <= p < |buf| ensures buf[p].key >= key {
      assert KeyAtLeast(buf, key)(p);
    }
  }

  /** Under Ordered, the first search finds the buffer that holds the key, and
      every buffer before it holds only smaller keys. */
  lemma BufferIndexExact(bufs: Buffers, key: int)
    requires Ordered(bufs)
    ensures var bi := BufferIndex(bufs, key);
      && (forall i, p :: 0 <= i < bi && 0 <= p < |bufs[i]| ==> bufs[i][p].key < key)
      && (bi < |bufs| ==> bufs[bi][|bufs[bi]| - 1].key >= key)
      && (forall i, p :: bi < i < |bufs| && 0 <= p < |bufs[i]| ==> bufs[i][p].key > key)
  {
    OrderedMonotone(bufs, key);
    var f := ReachesAt(bufs, key);
    SearchLeast(|bufs|, f);
    var bi := BufferIndex(bufs, key);
    forall i, p | 0 <= i < bi && 0 <= p < |bufs[i]| ensures bufs[i][p].key < key {
      assert !f(i);
      var last := |bufs[i]| - 1;
      assert p == last || bufs[i][p].key < bufs[i][last].key;
    }
    if bi < |bufs| {
      assert f(bi);
      forall i, p | bi < i < |bufs| && 0 <= p < |bufs[i]| ensures bufs[i][p].key > key {
        assert bufs[bi][|bufs[bi]| - 1].key < bufs[i][p].key;
      }
    }
  }

  /** Get and Exist find every stored key while the buffers are Ordered. */
  lemma LookupComplete(bufs: Buffers, key: int, v: Value)
    requires Ordered(bufs)
    requires Entry(key, v) in Flatten(bufs)
    ensures Lookup(bufs, key) == Some(v)
  {
    var i, p := FlattenIndex(bufs, Entry(key, v));
    BufferIndexExact(bufs, key);
    var bi := BufferIndex(bufs, key);
    assert bi == i;
    EntryIndexExact(bufs[i], key);
    var idx := EntryIndex(bufs[i], key);
    assert bufs[i][p].key == key;
    assert idx == p;
  }

  /** While Ordered, a lookup miss means the key is stored nowhere. */
  lemma LookupMissAbsent(bufs: Buffers, key: int)
    ensures Ordered(bufs) ==> (Lookup(bufs, key).None? <==> forall e :: e in Flatten(bufs) ==> e.key != key)
  {
    if Ordered(bufs) && Lookup(bufs, key).None? {
      forall e | e in Flatten(bufs) ensures e.key != key {
        if e.key == key {
          LookupComplete(bufs, key, e.value);
        }
      }
    }
  }

  // ---------------------------------------------------------------------------
  // sort.Slice by first key, as Add calls it after appending a buffer. For the
  // short lists Go sorts by insertion (up to 12 elements), this is that sort:
  // each element is swapped leftwards while it is less than its neighbour.

  /** The comparison Add passes to sort.Slice; an empty buffer compares with nothing. */
  predicate FirstKeyLess(a: seq<Entry>, b: seq<Entry>)
  {
    |a| > 0 && |b| > 0 && a[0].key < b[0].key
  }

  function InsertByFirstKey(sorted: Buffers, b: seq<Entry>): (r: Buffers)
    ensures |r| == |sorted| + 1
    decreases |sorted|
  {
    if sorted == [] || !FirstKeyLess(b, sorted[|sorted| - 1]) then sorted + [b]
    else InsertByFirstKey(sorted[..|sorted| - 1], b) + [sorted[|sorted| - 1]]
  }

  function SortByFirstKey(bufs: Buffers): (r: Buffers)
    ensures |r| == |bufs|
  {
    if bufs == [] then [] else InsertByFirstKey(SortByFirstKey(bufs[..|bufs| - 1]), bufs[|bufs| - 1])
  }

  /** No buffer is less than the one before it. */
  predicate InOrder(bufs: Buffers)
  {
    forall i :: 0 < i < |bufs| ==> !FirstKeyLess(bufs[i], bufs[i - 1])
  }

  lemma {:induction false} InsertByFirstKeyEntries(sorted: Buffers, b: seq<Entry>)
    ensures multiset(InsertByFirstKey(sorted, b)) == multiset(sorted) + multiset{b}
    ensures multiset(Flatten(InsertByFirstKey(sorted, b))) == multiset(Flatten(sorted)) + multiset(b)
    decreases |sorted|
  {
    FlattenSnoc(sorted, b);
    if sorted != [] && FirstKeyLess(b, sorted[|sorted| - 1]) {
      var n := |sorted|;
      var init, last := sorted[..n - 1], sorted[n - 1];
      InsertByFirstKeyEntries(init, b);
      FlattenSnoc(InsertByFirstKey(init, b), last);
      assert sorted == init + [last];
    }
  }

  /** Sorting moves buffers around and changes none of them. */
  lemma {:induction false} SortByFirstKeyEntries(bufs: Buffers)
    ensures multiset(SortByFirstKey(bufs)) == multiset(bufs)
    ensures multiset(Flatten(SortByFirstKey(bufs))) == multiset(Flatten(bufs))
    decreases |bufs|
  {
    if bufs != [] {
      var n := |bufs|;
      var init, last := bufs[..n - 1], bufs[n - 1];
      SortByFirstKeyEntries(init);
      InsertByFirstKeyEntries(SortByFirstKey(init), last);
      LastSplit(bufs);
      FlattenSnoc(init, last);
    }
  }

  /** A list already in order is left as it is. */
  lemma {:induction false} SortInOrder(bufs: Buffers)
    requires InOrder(bufs)
    ensures SortByFirstKey(bufs) == bufs
    decreases |bufs|
  {
    if bufs != [] {
      var n := |bufs|;
      var init, last := bufs[..n - 1], bufs[n - 1];
      forall i | 0 < i < |init|
        ensures !FirstKeyLess(init[i], init[i - 1])
      {
        assert init[i] == bufs[i] && init[i - 1] == bufs[i - 1];
      }
      SortInOrder(init);
      if n > 1 {
        assert init[n - 2] == bufs[n - 2];
      }
      assert InsertByFirstKey(init, last) == init + [last];
      LastSplit(bufs);
    }
  }

  /** A buffer below the first keys from position bi on, and above those
      before, is swapped into position bi. */
  lemma {:induction false} InsertByFirstKeyAt(sorted: Buffers, b: seq<Entry>, bi: nat)
    requires bi <= |sorted| && |b| > 0
    requires forall i :: 0 <= i < bi ==> !FirstKeyLess(b, sorted[i])
    requires forall i :: bi <= i < |sorted| ==> FirstKeyLess(b, sorted[i])
    ensures InsertByFirstKey(sorted, b) == sorted[..bi] + [b] + sorted[bi..]
    decreases |sorted|
  {
    var n := |sorted|;
    if bi == n {
      assert sorted[bi..] == [];
    } else {
      InsertByFirstKeyAt(sorted[..n - 1], b, bi);
      assert sorted[..n - 1][..bi] == sorted[..bi];
      assert sorted[..n - 1][bi..] + [sorted[n - 1]] == sorted[bi..];
    }
  }

  // ---------------------------------------------------------------------------
  // Add.

  /** The located buffer after Add: the value replaced when the lower bound
      holds the key, the new entry inserted at the lower bound otherwise. */
  function Placed(buf: seq<Entry>, key: int, value: Value): seq<Entry>
  {
    var idx := EntryIndex(buf, key);
    if idx < |buf| && buf[idx].key == key then buf[idx := Entry(key, value)]
    else buf[..idx] + [Entry(key, value)] + buf[idx..]
  }

  /** The buffers after Add(key, value). */
  function Inserted(bufs: Buffers, key: int, value: Value): Buffers
  {
    if |bufs| == 0 then [[Entry(key, value)]]
    else
      var bi := BufferIndex(bufs, key);
      if bi < |bufs| && |bufs[bi]| < MaxSliceSize then bufs[bi := Placed(bufs[bi], key, value)]
      else SortByFirstKey(bufs + [[Entry(key, value)]])
  }

  /** Add replaces a stored value, rather than adding an entry, exactly when
      the searches land on the key inside a buffer with room. */
  predicate Overwrites(bufs: Buffers, key: int)
  {
    var bi := BufferIndex(bufs, key);
    bi < |bufs| && |bufs[bi]| < MaxSliceSize && Lookup(bufs, key).Some?
  }

  /** The located buffer has room, or the new buffer sorts in front of it, or
      there is no located buffer. Adding a key where none of these holds
      breaks the order (see FullBufferHidesKey). */
  predicate Room(bufs: Buffers, key: int)
  {
    var bi := BufferIndex(bufs, key);
    bi == |bufs| || |bufs[bi]| < MaxSliceSize || (|bufs[bi]| > 0 && key < bufs[bi][0].key)
  }

  /** Writing an entry with the same key over a position keeps a buffer sorted. */
  lemma ReplaceSorted(buf: seq<Entry>, idx: nat, e: Entry)
    requires Sorted(buf) && idx < |buf| && buf[idx].key == e.key
    ensures Sorted(buf[idx := e])
    ensures forall x :: x in buf[idx := e] <==> x == e || (x in buf && x.key != e.key)
  {
    var r := buf[idx := e];
    assert r[idx] == e;
    forall x ensures x in r <==> x == e || (x in buf && x.key != e.key) {
      if x in buf && x.key != e.key {
        var p :| 0 <= p < |buf| && buf[p] == x;
        assert r[p] == x;
      }
      if x in r && x != e {
        var p :| 0 <= p < |r| && r[p] == x;
        assert p != idx && buf[p] == x;
      }
    }
  }

  /** Inserting an entry between the smaller and the larger keys keeps a buffer sorted. */
  lemma InsertSorted(buf: seq<Entry>, idx: nat, e: Entry)
    requires Sorted(buf) && idx <= |buf|
    requires forall p :: 0 <= p < idx ==> buf[p].key < e.key
    requires forall p :: idx <= p < |buf| ==> buf[p].key > e.key
    ensures Sorted(buf[..idx] + [e] + buf[idx..])
    ensures forall x :: x in buf[..idx] + [e] + buf[idx..] <==> x == e || (x in buf && x.key != e.key)
  {
    var r := buf[..idx] + [e] + buf[idx..];
    assert buf == buf[..idx] + buf[idx..];
    forall a, b | 0 <= a < b < |r| ensures r[a].key < r[b].key {
      if b < idx {
        assert r[a] == buf[a] && r[b] == buf[b];
      } else if a > idx {
        assert r[a] == buf[a - 1] && r[b] == buf[b - 1];
      } else if a < idx {
        assert r[a] == buf[a];
        if b > idx {
          assert r[b] == buf[b - 1];
        }
      } else {
        assert r[b] == buf[b - 1];
      }
    }
    forall x | x in buf ensures x.key != e.key {
      var p :| 0 <= p < |buf| && buf[p] == x;
    }
  }

  lemma PlacedSorted(buf: seq<Entry>, key: int, value: Value)
    requires Sorted(buf)
    ensures Sorted(Placed(buf, key, value))
    ensures forall e :: e in Placed(buf, key, value) <==> e == Entry(key, value) || (e in buf && e.key != key)
  {
    EntryIndexExact(buf, key);
    var idx := EntryIndex(buf, key);
    if idx < |buf| && buf[idx].key == key {
      ReplaceSorted(buf, idx, Entry(key, value));
    } else {
      forall p | idx <= p < |buf| ensures buf[p].key > key {
        assert p == idx || buf[idx].key < buf[p].key;
      }
      InsertSorted(buf, idx, Entry(key, value));
    }
  }

  lemma PlacedEntries(buf: seq<Entry>, key: int, value: Value)
    ensures var idx := EntryIndex(buf, key);
      multiset(Placed(buf, key, value)) ==
        if idx < |buf| && buf[idx].key == key then multiset(buf) - multiset{buf[idx]} + multiset{Entry(key, value)}
        else multiset(buf) + multiset{Entry(key, value)}
  {
    var idx := EntryIndex(buf, key);
    if idx < |buf| && buf[idx].key == key {
      MultisetUpdate(buf, idx, Entry(key, value));
    } else {
      MultisetInsert(buf, idx, Entry(key, value));
    }
  }

  /** Add keeps every buffer sorted, whatever else holds. */
  lemma InsertedEachSorted(bufs: Buffers, key: int, value: Value)
    requires EachSorted(bufs)
    ensures EachSorted(Inserted(bufs, key, value))
  {
    var bi := BufferIndex(bufs, key);
    if |bufs| > 0 {
      if bi < |bufs| && |bufs[bi]| < MaxSliceSize {
        PlacedSorted(bufs[bi], key, value);
      } else {
        var s := bufs + [[Entry(key, value)]];
        SortByFirstKeyEntries(s);
        forall i | 0 <= i < |SortByFirstKey(s)| ensures Sorted(SortByFirstKey(s)[i]) {
          var b := SortByFirstKey(s)[i];
          assert b in multiset(SortByFirstKey(s));
          assert b in s;
        }
      }
    }
  }

  /** The lower bound inside buf holds key. */
  predicate Holds(buf: seq<Entry>, key: int)
  {
    var idx := EntryIndex(buf, key);
    idx < |buf| && buf[idx].key == key
  }

  lemma PlacedFlatten(bufs: Buffers, i: nat, key: int, value: Value)
    requires i < |bufs|
    ensures var buf := bufs[i];
      multiset(Flatten(bufs[i := Placed(buf, key, value)])) ==
        if Holds(buf, key) then multiset(Flatten(bufs)) - multiset{buf[EntryIndex(buf, key)]} + multiset{Entry(key, value)}
        else multiset(Flatten(bufs)) + multiset{Entry(key, value)}
  {
    var buf := bufs[i];
    var pl := Placed(buf, key, value);
    var front, back := Flatten(bufs[..i]), Flatten(bufs[i + 1..]);
    FlattenUpdate(bufs, i, pl);
    FlattenSplit(bufs, i);
    PlacedEntries(buf, key, value);
    assert multiset(Flatten(bufs)) == multiset(front) + multiset(buf) + multiset(back);
    assert multiset(Flatten(bufs[i := pl])) == multiset(front) + multiset(pl) + multiset(back);
    if Holds(buf, key) {
      assert buf[EntryIndex(buf, key)] in multiset(buf);
    }
  }

  /** Get finds the key exactly when the lower bound in the located buffer holds it. */
  lemma LookupHolds(bufs: Buffers, key: int)
    ensures var bi := BufferIndex(bufs, key);
      && (Lookup(bufs, key).Some? <==> bi < |bufs| && Holds(bufs[bi], key))
      && (Lookup(bufs, key).Some? ==> bufs[bi][EntryIndex(bufs[bi], key)] == Entry(key, Lookup(bufs, key).value))
  {
  }

  /** Add changes the stored entries by exactly one: it replaces the entry it
      finds, or adds one; the count grows only in the second case. */
  lemma InsertedEntries(bufs: Buffers, key: int, value: Value)
    ensures multiset(Flatten(Inserted(bufs, key, value))) ==
      if Overwrites(bufs, key) then multiset(Flatten(bufs)) - multiset{Entry(key, Lookup(bufs, key).value)} + multiset{Entry(key, value)}
      else multiset(Flatten(bufs)) + multiset{Entry(key, value)}
    ensures |Flatten(Inserted(bufs, key, value))| == |Flatten(bufs)| + (if Overwrites(bufs, key) then 0 else 1)
  {
    var e := Entry(key, value);
    var bi := BufferIndex(bufs, key);
    var before := multiset(Flatten(bufs));
    var after := multiset(Flatten(Inserted(bufs, key, value)));
    if |bufs| == 0 {
      FlattenSnoc([], [e]);
    } else if bi < |bufs| && |bufs[bi]| < MaxSliceSize {
      PlacedFlatten(bufs, bi, key, value);
      LookupHolds(bufs, key);
      if Overwrites(bufs, key) {
        var gone := Entry(key, Lookup(bufs, key).value);
        assert gone in before;
        assert after == before - multiset{gone} + multiset{e};
        assert |after| == |before|;
      }
    } else {
      SortByFirstKeyEntries(bufs + [[e]]);
      FlattenSnoc(bufs, [e]);
    }
  }

  /** A key above every stored key, as Load adds the entries of a saved map,
      gets a one-entry buffer of its own at the end, whatever room the last
      buffer has. */
  lemma InsertedAbove(bufs: Buffers, key: int, value: Value)
    requires Ordered(bufs)
    requires forall e :: e in Flatten(bufs) ==> e.key < key
    ensures Inserted(bufs, key, value) == bufs + [[Entry(key, value)]]
  {
    if |bufs| > 0 {
      AboveReachesNone(bufs, key);
      AboveInOrder(bufs, key, value);
      SortInOrder(bufs + [[Entry(key, value)]]);
    }
  }

  /** A key above every stored key is past every buffer. */
  lemma AboveReachesNone(bufs: Buffers, key: int)
    requires Ordered(bufs)
    requires forall e :: e in Flatten(bufs) ==> e.key < key
    ensures BufferIndex(bufs, key) == |bufs|
  {
    var f := ReachesAt(bufs, key);
    forall i | 0 <= i < |bufs| ensures !f(i) {
      FlattenContains(bufs, i, |bufs[i]| - 1);
    }
    SearchBoundary(|bufs|, f);
  }

  /** A buffer holding a key above every stored key goes last in order. */
  lemma AboveInOrder(bufs: Buffers, key: int, value: Value)
    requires Ordered(bufs) && bufs != []
    requires forall e :: e in Flatten(bufs) ==> e.key < key
    ensures InOrder(bufs + [[Entry(key, value)]])
  {
    var n := |bufs|;
    var s := bufs + [[Entry(key, value)]];
    forall i | 0 < i < |s| ensures !FirstKeyLess(s[i], s[i - 1]) {
      if i < n {
        assert s[i] == bufs[i] && s[i - 1] == bufs[i - 1];
        assert bufs[i - 1][0].key < bufs[i][0].key;
      } else {
        FlattenContains(bufs, n - 1, 0);
      }
    }
  }

  /** Under Ordered and Room, Add is a map update: the order is kept, the key
      now holds the value, and every other entry stays. */
  lemma {:induction false} InsertedUpdates(bufs: Buffers, key: int, value: Value)
    requires Ordered(bufs) && Room(bufs, key)
    ensures Ordered(Inserted(bufs, key, value))
    ensures forall e :: e in Flatten(Inserted(bufs, key, value)) <==>
      e == Entry(key, value) || (e in Flatten(bufs) && e.key != key)
  {
    var e := Entry(key, value);
    var bi := BufferIndex(bufs, key);
    var r := Inserted(bufs, key, value);
    BufferIndexExact(bufs, key);
    if |bufs| == 0 {
      FlattenSnoc([], [e]);
    } else if bi < |bufs| && |bufs[bi]| < MaxSliceSize {
      PlacedInOrder(bufs, key, value);
    } else {
      NewBufferInOrder(bufs, key, value);
    }
  }

  lemma PlacedInOrder(bufs: Buffers, key: int, value: Value)
    requires Ordered(bufs)
    requires BufferIndex(bufs, key) < |bufs|
    ensures var bi := BufferIndex(bufs, key);
      var r := bufs[bi := Placed(bufs[bi], key, value)];
      && Ordered(r)
      && forall e :: e in Flatten(r) <==> e == Entry(key, value) || (e in Flatten(bufs) && e.key != key)
  {
    PlacedOrdered(bufs, key, value);
    PlacedMembers(bufs, key, value);
  }

  /** Placing the entry in the located buffer replaces the key's entry, or
      adds one, and keeps every other entry. */
  lemma PlacedMembers(bufs: Buffers, key: int, value: Value)
    requires Ordered(bufs)
    requires BufferIndex(bufs, key) < |bufs|
    ensures var bi := BufferIndex(bufs, key);
      var r := bufs[bi := Placed(bufs[bi], key, value)];
      forall e :: e in Flatten(r) <==> e == Entry(key, value) || (e in Flatten(bufs) && e.key != key)
  {
    var bi := BufferIndex(bufs, key);
    var pl := Placed(bufs[bi], key, value);
    var r: Buffers := bufs[bi := pl];
    BufferIndexExact(bufs, key);
    PlacedSorted(bufs[bi], key, value);
    FlattenUpdate(bufs, bi, pl);
    FlattenSplit(bufs, bi);
    forall x ensures x in Flatten(r) <==> x == Entry(key, value) || (x in Flatten(bufs) && x.key != key) {
      FlattenSides(bufs, bi, x);
    }
  }

  /** Placing the entry in the located buffer keeps the buffers in order. */
  lemma PlacedOrdered(bufs: Buffers, key: int, value: Value)
    requires Ordered(bufs)
    requires BufferIndex(bufs, key) < |bufs|
    ensures var bi := BufferIndex(bufs, key);
      Ordered(bufs[bi := Placed(bufs[bi], key, value)])
  {
    var bi := BufferIndex(bufs, key);
    var pl := Placed(bufs[bi], key, value);
    var r: Buffers := bufs[bi := pl];
    PlacedSorted(bufs[bi], key, value);
    PlacedKeys(bufs, key, value);
    assert pl != [] by {
      assert Entry(key, value) in pl;
    }
    forall i, j, p, q | 0 <= i < j < |r| && 0 <= p < |r[i]| && 0 <= q < |r[j]|
      ensures r[i][p].key < r[j][q].key
    {
      if i == bi {
        assert r[i][p] in pl;
      } else if j == bi {
        assert r[j][q] in pl;
      }
    }
  }

  /** Every entry of the placed buffer lies above the buffers before it and
      below the buffers after it. */
  lemma PlacedKeys(bufs: Buffers, key: int, value: Value)
    requires Ordered(bufs)
    requires BufferIndex(bufs, key) < |bufs|
    ensures var bi := BufferIndex(bufs, key);
      forall x, i, p :: x in Placed(bufs[bi], key, value) && 0 <= i < |bufs| && 0 <= p < |bufs[i]| ==>
        (i < bi ==> bufs[i][p].key < x.key) && (bi < i ==> x.key < bufs[i][p].key)
  {
    var bi := BufferIndex(bufs, key);
    var buf := bufs[bi];
    BufferIndexExact(bufs, key);
    PlacedSorted(buf, key, value);
    forall x, i, p | x in Placed(buf, key, value) && 0 <= i < |bufs| && 0 <= p < |bufs[i]|
      ensures (i < bi ==> bufs[i][p].key < x.key) && (bi < i ==> x.key < bufs[i][p].key)
    {
      if x.key != key {
        var p' :| 0 <= p' < |buf| && buf[p'] == x;
      }
    }
  }

  /** A one-entry buffer whose key lies between the buffers before bi and
      those from bi on keeps the order when placed at bi. */
  lemma InsertBufferOrdered(bufs: Buffers, bi: nat, e: Entry)
    requires Ordered(bufs) && bi <= |bufs|
    requires forall i, p :: 0 <= i < bi && 0 <= p < |bufs[i]| ==> bufs[i][p].key < e.key
    requires forall i, p :: bi <= i < |bufs| && 0 <= p < |bufs[i]| ==> bufs[i][p].key > e.key
    ensures Ordered(bufs[..bi] + [[e]] + bufs[bi..])
    ensures forall x :: x in Flatten(bufs[..bi] + [[e]] + bufs[bi..]) <==> x == e || (x in Flatten(bufs) && x.key != e.key)
  {
    var r: Buffers := bufs[..bi] + [[e]] + bufs[bi..];
    forall i, j, p, q | 0 <= i < j < |r| && 0 <= p < |r[i]| && 0 <= q < |r[j]|
      ensures r[i][p].key < r[j][q].key
    {
      if i < bi && j > bi {
        assert r[i] == bufs[i] && r[j] == bufs[j - 1];
      } else if i > bi {
        assert r[i] == bufs[i - 1] && r[j] == bufs[j - 1];
      } else if j < bi {
        assert r[i] == bufs[i] && r[j] == bufs[j];
      } else if i == bi {
        assert r[j] == bufs[j - 1];
      } else {
        assert r[i] == bufs[i];
      }
    }
    forall i | 0 <= i < |r| ensures |r[i]| > 0 && Sorted(r[i]) {
      assert r[i] == if i < bi then bufs[i] else if i == bi then [e] else bufs[i - 1];
    }
    forall x | x in Flatten(bufs) ensures x.key != e.key {
      var i, p := FlattenIndex(bufs, x);
    }
    InsertBufferEntries(bufs, bi, e);
  }

  lemma InsertBufferEntries(bufs: Buffers, bi: nat, e: Entry)
    requires bi <= |bufs|
    requires forall x :: x in Flatten(bufs) ==> x.key != e.key
    ensures forall x :: x in Flatten(bufs[..bi] + [[e]] + bufs[bi..]) <==> x == e || (x in Flatten(bufs) && x.key != e.key)
  {
    FlattenSplice(bufs, bi, [e]);
    SpliceMembers(Flatten(bufs[..bi]), Flatten(bufs[bi..]), e);
  }

  /** The entries of a buffer placed at bi sit between those before and after it. */
  lemma FlattenSplice(bufs: Buffers, bi: nat, b: seq<Entry>)
    requires bi <= |bufs|
    ensures Flatten(bufs[..bi] + [b] + bufs[bi..]) == Flatten(bufs[..bi]) + (b + Flatten(bufs[bi..]))
    ensures Flatten(bufs) == Flatten(bufs[..bi]) + Flatten(bufs[bi..])
  {
    var pre, suf := bufs[..bi], bufs[bi..];
    assert Flatten(pre + [b] + suf) == Flatten(pre) + (b + Flatten(suf)) by {
      FlattenCons(b, suf);
      AppendAssoc(pre, [b], suf);
      FlattenAppend(pre, [b] + suf);
    }
    assert Flatten(bufs) == Flatten(pre) + Flatten(suf) by {
      TakeDrop(bufs, bi);
      FlattenAppend(pre, suf);
    }
  }

  lemma FlattenCons(b: seq<Entry>, bufs: Buffers)
    ensures Flatten([b] + bufs) == b + Flatten(bufs)
  {
    FlattenAppend([b], bufs);
    FlattenSnoc([], b);
    assert [] + [b] == [b];
  }

  lemma SpliceMembers(front: seq<Entry>, back: seq<Entry>, e: Entry)
    requires forall x :: x in front + back ==> x.key != e.key
    ensures forall x :: x in front + ([e] + back) <==> x == e || (x in front + back && x.key != e.key)
  {
  }

  /** When the located buffer is full and its first key is above the new key
      (or there is none), the new buffer is sorted into the located position. */
  lemma NewBufferPosition(bufs: Buffers, key: int, value: Value)
    requires Ordered(bufs) && |bufs| > 0
    requires var bi := BufferIndex(bufs, key); bi < |bufs| ==> key < bufs[bi][0].key
    ensures var bi := BufferIndex(bufs, key);
      SortByFirstKey(bufs + [[Entry(key, value)]]) == bufs[..bi] + [[Entry(key, value)]] + bufs[bi..]
  {
    var e := Entry(key, value);
    var bi := BufferIndex(bufs, key);
    var s := bufs + [[e]];
    assert s[..|bufs|] == bufs && s[|bufs|] == [e];
    assert SortByFirstKey(s) == InsertByFirstKey(SortByFirstKey(bufs), [e]);
    OrderedInOrder(bufs);
    SortInOrder(bufs);
    NewBufferSides(bufs, key, value);
    InsertByFirstKeyAt(bufs, [e], bi);
  }

  /** Buffers whose keys ascend are in order by first key. */
  lemma OrderedInOrder(bufs: Buffers)
    requires Ordered(bufs)
    ensures InOrder(bufs)
  {
    forall i | 0 < i < |bufs| ensures !FirstKeyLess(bufs[i], bufs[i - 1]) {
      assert bufs[i - 1][0].key < bufs[i][0].key;
    }
  }

  /** A key below the first key of buffer bi compares below every buffer from
      bi on, and not below any buffer before it. */
  lemma NewBufferSides(bufs: Buffers, key: int, value: Value)
    requires Ordered(bufs)
    requires var bi := BufferIndex(bufs, key); bi < |bufs| ==> key < bufs[bi][0].key
    ensures var bi := BufferIndex(bufs, key);
      && (forall i :: 0 <= i < bi ==> !FirstKeyLess([Entry(key, value)], bufs[i]))
      && (forall i :: bi <= i < |bufs| ==> FirstKeyLess([Entry(key, value)], bufs[i]))
  {
    var e := Entry(key, value);
    var bi := BufferIndex(bufs, key);
    BufferIndexExact(bufs, key);
    forall i | 0 <= i < bi ensures !FirstKeyLess([e], bufs[i]) {
      assert bufs[i][0].key < key;
    }
    forall i | bi < i < |bufs| ensures FirstKeyLess([e], bufs[i]) {
      assert bufs[bi][0].key < bufs[i][0].key;
    }
  }

  lemma NewBufferInOrder(bufs: Buffers, key: int, value: Value)
    requires Ordered(bufs) && Room(bufs, key) && |bufs| > 0
    requires var bi := BufferIndex(bufs, key); !(bi < |bufs| && |bufs[bi]| < MaxSliceSize)
    ensures var r := SortByFirstKey(bufs + [[Entry(key, value)]]);
      && Ordered(r)
      && forall e :: e in Flatten(r) <==> e == Entry(key, value) || (e in Flatten(bufs) && e.key != key)
  {
    var bi := BufferIndex(bufs, key);
    BufferIndexExact(bufs, key);
    NewBufferPosition(bufs, key, value);
    forall i, p | bi <= i < |bufs| && 0 <= p < |bufs[i]| ensures bufs[i][p].key > key {
      if i == bi && p > 0 {
        assert bufs[bi][0].key < bufs[bi][p].key;
      }
    }
    InsertBufferOrdered(bufs, bi, Entry(key, value));
  }

  /** Under Ordered and Room, Get after Add(key, value) answers value for key and
      what it answered before for every other key. */
  lemma AddThenLookup(bufs: Buffers, key: int, value: Value)
    requires Ordered(bufs) && Room(bufs, key)
    ensures Lookup(Inserted(bufs, key, value), key) == Some(value)
    ensures forall k :: k != key ==> Lookup(Inserted(bufs, key, value), k) == Lookup(bufs, k)
  {
    var r := Inserted(bufs, key, value);
    InsertedUpdates(bufs, key, value);
    LookupComplete(r, key, value);
    forall k | k != key ensures Lookup(r, k) == Lookup(bufs, k) {
      match Lookup(bufs, k)
      case Some(v) =>
        LookupComplete(r, k, v);
      case None =>
        LookupMissAbsent(bufs, k);
        LookupMissAbsent(r, k);
    }
  }

  /** Adding to a full located buffer whose first key is below the new key
      appends a buffer that sorts at the end, and Get no longer finds the key. */
  lemma FullBufferHidesKey()
    ensures var full := seq(MaxSliceSize, (i: int) => Entry(2 * i, Num(0)));
      && Ordered([full])
      && !Room([full], 1)
      && Inserted([full], 1, Num(7)) == [full, [Entry(1, Num(7))]]
      && Entry(1, Num(7)) in Flatten(Inserted([full], 1, Num(7)))
      && Lookup(Inserted([full], 1, Num(7)), 1) == None
  {
    var full: seq<Entry> := seq(MaxSliceSize, (i: int) => Entry(2 * i, Num(0)));
    var one: Buffers := [full];
    var e := Entry(1, Num(7));
    var r: Buffers := [full, [e]];
    assert Sorted(full);
    assert BufferIndex(one, 1) == 0 by {
      assert ReachesAt(one, 1)(0);
    }
    assert Inserted(one, 1, Num(7)) == r by {
      assert SortByFirstKey(one) == one by {
        assert |one[..0]| == 0;
      }
      assert one + [[e]] == r;
      assert r[..1] == one;
    }
    assert e in Flatten(r) by {
      FlattenSnoc(one, [e]);
      assert one + [[e]] == r;
    }
    assert BufferIndex(r, 1) == 0 by {
      var f := ReachesAt(r, 1);
      assert f(0) && f(1);
      assert Bisect(0, 2, f) == Bisect(0, 1, f);
    }
    EntryIndexExact(full, 1);
    assert forall p :: 0 <= p < |full| ==> full[p].key != 1;
  }

  // ---------------------------------------------------------------------------
  // Delete.

  /** The buffer without the entry at idx. */
  function Cut(buf: seq<Entry>, idx: nat): (r: seq<Entry>)
    requires idx < |buf|
    ensures |r| == |buf| - 1
  {
    buf[..idx] + buf[idx + 1..]
  }

  /** The buffers after Delete(key): the entry at the lower bound is cut out
      of the located buffer when it holds the key. */
  function Removed(bufs: Buffers, key: int): Buffers
  {
    var bi := BufferIndex(bufs, key);
    if bi < |bufs| then
      var buf := bufs[bi];
      var idx := EntryIndex(buf, key);
      if idx < |buf| && buf[idx].key == key then bufs[bi := Cut(buf, idx)]
      else bufs
    else bufs
  }

  lemma CutEntries(buf: seq<Entry>, idx: nat)
    requires idx < |buf|
    ensures multiset(Cut(buf, idx)) == multiset(buf) - multiset{buf[idx]}
    ensures forall p :: 0 <= p < |buf| - 1 ==> Cut(buf, idx)[p] == buf[if p < idx then p else p + 1]
  {
    assert buf == buf[..idx] + [buf[idx]] + buf[idx + 1..];
  }

  lemma CutSorted(buf: seq<Entry>, idx: nat)
    requires idx < |buf| && Sorted(buf)
    ensures Sorted(Cut(buf, idx))
    ensures forall x :: x in Cut(buf, idx) <==> x in buf && x.key != buf[idx].key
  {
    CutOrder(buf, idx);
    CutMembers(buf, idx);
  }

  lemma CutOrder(buf: seq<Entry>, idx: nat)
    requires idx < |buf| && Sorted(buf)
    ensures Sorted(Cut(buf, idx))
  {
    var c := Cut(buf, idx);
    forall a, b | 0 <= a < b < |c|
      ensures c[a].key < c[b].key
    {
      var a', b' := if a < idx then a else a + 1, if b < idx then b else b + 1;
      assert c[a] == buf[a'] && c[b] == buf[b'];
    }
  }

  lemma CutMembers(buf: seq<Entry>, idx: nat)
    requires idx < |buf| && Sorted(buf)
    ensures forall x :: x in Cut(buf, idx) <==> x in buf && x.key != buf[idx].key
  {
    var c := Cut(buf, idx);
    assert buf == buf[..idx] + [buf[idx]] + buf[idx + 1..];
    forall x | x in buf && x.key != buf[idx].key
      ensures x in c
    {
      var p :| 0 <= p < |buf| && buf[p] == x;
      assert p != idx;
    }
    forall x | x in c
      ensures x in buf && x.key != buf[idx].key
    {
      var p :| 0 <= p < |buf| && buf[p] == x;
      assert p != idx;
    }
  }

  /** Replacing a buffer by a sorted one drawn from its entries keeps the order
      across buffers. */
  lemma ShrinkAscending(bufs: Buffers, i: nat, b: seq<Entry>)
    requires Ascending(bufs) && i < |bufs| && Sorted(b)
    requires forall x :: x in b ==> x in bufs[i]
    ensures Ascending(bufs[i := b])
  {
    var r: Buffers := bufs[i := b];
    forall j, k, p, q | 0 <= j < k < |r| && 0 <= p < |r[j]| && 0 <= q < |r[k]|
      ensures r[j][p].key < r[k][q].key
    {
      if j == i {
        assert r[j][p] in bufs[i];
        var p' :| 0 <= p' < |bufs[i]| && bufs[i][p'] == r[j][p];
      } else if k == i {
        assert r[k][q] in bufs[i];
        var q' :| 0 <= q' < |bufs[i]| && bufs[i][q'] == r[k][q];
      }
    }
  }

  /** Delete removes exactly the entry Get finds, and nothing when Get misses. */
  lemma RemovedEntries(bufs: Buffers, key: int)
    ensures Lookup(bufs, key).None? ==> Removed(bufs, key) == bufs
    ensures Lookup(bufs, key).Some? ==>
      multiset(Flatten(Removed(bufs, key))) == multiset(Flatten(bufs)) - multiset{Entry(key, Lookup(bufs, key).value)}
    ensures |Flatten(Removed(bufs, key))| == |Flatten(bufs)| - (if Lookup(bufs, key).Some? then 1 else 0)
  {
    if Lookup(bufs, key).Some? {
      var bi := BufferIndex(bufs, key);
      LookupHolds(bufs, key);
      var buf := bufs[bi];
      var idx := EntryIndex(buf, key);
      var gone := buf[idx];
      assert gone == Entry(key, Lookup(bufs, key).value);
      var c := Cut(buf, idx);
      var front, back := Flatten(bufs[..bi]), Flatten(bufs[bi + 1..]);
      FlattenUpdate(bufs, bi, c);
      FlattenSplit(bufs, bi);
      CutEntries(buf, idx);
      var before := multiset(Flatten(bufs));
      var after := multiset(Flatten(Removed(bufs, key)));
      assert before == multiset(front) + multiset(buf) + multiset(back);
      assert after == multiset(front) + multiset(c) + multiset(back);
      assert gone in multiset(buf);
      assert after == before - multiset{gone};
      assert |after| == |before| - 1;
    }
  }

  /** Delete keeps every buffer sorted and the order across buffers. */
  lemma RemovedAscending(bufs: Buffers, key: int)
    ensures EachSorted(bufs) ==> EachSorted(Removed(bufs, key))
    ensures Ascending(bufs) ==> Ascending(Removed(bufs, key))
  {
    var bi := BufferIndex(bufs, key);
    if EachSorted(bufs) && bi < |bufs| {
      var buf := bufs[bi];
      var idx := EntryIndex(buf, key);
      if idx < |buf| && buf[idx].key == key {
        CutSorted(buf, idx);
        if Ascending(bufs) {
          ShrinkAscending(bufs, bi, Cut(buf, idx));
        }
      }
    }
  }

  /** Under Ordered, Delete is a map removal; the order is kept unless the
      deletion leaves the located buffer empty. */
  lemma RemovedUpdates(bufs: Buffers, key: int)
    requires Ordered(bufs)
    ensures forall e :: e in Flatten(Removed(bufs, key)) <==> e in Flatten(bufs) && e.key != key
    ensures Lookup(bufs, key).None? || |bufs[BufferIndex(bufs, key)]| > 1 ==> Ordered(Removed(bufs, key))
  {
    RemovedAscending(bufs, key);
    var bi := BufferIndex(bufs, key);
    if Lookup(bufs, key).Some? {
      LookupHolds(bufs, key);
      var buf := bufs[bi];
      var idx := EntryIndex(buf, key);
      var c := Cut(buf, idx);
      BufferIndexExact(bufs, key);
      CutSorted(buf, idx);
      FlattenUpdate(bufs, bi, c);
      FlattenSplit(bufs, bi);
      forall x ensures x in Flatten(Removed(bufs, key)) <==> x in Flatten(bufs) && x.key != key {
        FlattenSides(bufs, bi, x);
      }
    } else {
      LookupMissAbsent(bufs, key);
    }
  }

  /** Get after Delete(key) misses key, and, while the order holds, answers
      as before for every other key. */
  lemma DeleteThenLookup(bufs: Buffers, key: int)
    requires Ordered(bufs)
    ensures Lookup(Removed(bufs, key), key) == None
    ensures Ordered(Removed(bufs, key)) ==>
      forall k :: k != key ==> Lookup(Removed(bufs, key), k) == Lookup(bufs, k)
  {
    var r := Removed(bufs, key);
    RemovedUpdates(bufs, key);
    if Ordered(r) {
      forall k | k != key ensures Lookup(r, k) == Lookup(bufs, k) {
        match Lookup(bufs, k)
        case Some(v) =>
          LookupComplete(r, k, v);
        case None =>
          LookupMissAbsent(bufs, k);
          LookupMissAbsent(r, k);
      }
    }
  }

  /** Deleting the only entry of a middle buffer leaves an empty buffer; the
      first search then stops early and Get misses a stored key. */
  lemma EmptiedBufferHidesKey()
    ensures var bufs := [[Entry(1, Num(0))], [Entry(3, Num(0))], [Entry(5, Num(0))]];
      && Ordered(bufs)
      && Removed(bufs, 3) == [[Entry(1, Num(0))], [], [Entry(5, Num(0))]]
      && Lookup(Removed(bufs, 3), 1) == None
      && Lookup(bufs, 1) == Some(Num(0))
  {
    var bufs: Buffers := [[Entry(1, Num(0))], [Entry(3, Num(0))], [Entry(5, Num(0))]];
    var r: Buffers := [[Entry(1, Num(0))], [], [Entry(5, Num(0))]];
    assert Removed(bufs, 3) == r by {
      EmptiedRemoved(bufs);
    }
    EmptiedOrdered(bufs);
    assert Lookup(r, 1) == None by {
      EmptiedMiss(r);
    }
    assert Lookup(bufs, 1) == Some(Num(0)) by {
      EmptiedBefore(bufs);
    }
  }

  lemma EmptiedOrdered(bufs: Buffers)
    requires bufs == [[Entry(1, Num(0))], [Entry(3, Num(0))], [Entry(5, Num(0))]]
    ensures Ordered(bufs)
  {
    assert forall i :: 0 <= i < |bufs| ==> |bufs[i]| == 1 && bufs[i][0].key == 2 * i + 1;
  }

  lemma EmptiedRemoved(bufs: Buffers)
    requires bufs == [[Entry(1, Num(0))], [Entry(3, Num(0))], [Entry(5, Num(0))]]
    ensures Removed(bufs, 3) == [[Entry(1, Num(0))], [], [Entry(5, Num(0))]]
  {
    assert BufferIndex(bufs, 3) == 1 by {
      var f := ReachesAt(bufs, 3);
      assert f(1) && !f(0);
      assert Bisect(0, 3, f) == Bisect(0, 1, f);
      assert Bisect(0, 1, f) == Bisect(1, 1, f);
    }
    assert EntryIndex(bufs[1], 3) == 0 by {
      var f := KeyAtLeast(bufs[1], 3);
      assert f(0);
      assert Bisect(0, 1, f) == Bisect(0, 0, f);
    }
    assert Cut(bufs[1], 0) == [];
  }

  lemma EmptiedMiss(r: Buffers)
    requires r == [[Entry(1, Num(0))], [], [Entry(5, Num(0))]]
    ensures Lookup(r, 1) == None
  {
    assert BufferIndex(r, 1) == 2 by {
      var g := ReachesAt(r, 1);
      assert !g(1) && g(2);
      assert Bisect(0, 3, g) == Bisect(2, 3, g);
      assert Bisect(2, 3, g) == Bisect(2, 2, g);
    }
    assert EntryIndex(r[2], 1) == 0 by {
      var f := KeyAtLeast(r[2], 1);
      assert f(0);
      assert Bisect(0, 1, f) == Bisect(0, 0, f);
    }
  }

  lemma EmptiedBefore(bufs: Buffers)
    requires bufs == [[Entry(1, Num(0))], [Entry(3, Num(0))], [Entry(5, Num(0))]]
    ensures Lookup(bufs, 1) == Some(Num(0))
  {
    assert BufferIndex(bufs, 1) == 0 by {
      var h := ReachesAt(bufs, 1);
      assert h(1) && h(0);
      assert Bisect(0, 3, h) == Bisect(0, 1, h);
      assert Bisect(0, 1, h) == Bisect(0, 0, h);
    }
    assert EntryIndex(bufs[0], 1) == 0 by {
      var f := KeyAtLeast(bufs[0], 1);
      assert f(0);
      assert Bisect(0, 1, f) == Bisect(0, 0, f);
    }
  }

  // ---------------------------------------------------------------------------
  // Whole-map facts.

  /** Under Ascending the entries, in stored order, have strictly ascending keys. */
  lemma {:induction false} AscendingFlatten(bufs: Buffers)
    requires Ascending(bufs)
    ensures Sorted(Flatten(bufs))
    decreases |bufs|
  {
    if bufs != [] {
      var n := |bufs|;
      var init := bufs[..n - 1];
      assert Ascending(init);
      AscendingFlatten(init);
      var a: seq<Entry>, b: seq<Entry> := Flatten(init), bufs[n - 1];
      var ab := a + b;
      assert Flatten(bufs) == ab;
      forall x, y | 0 <= x < y < |ab| ensures ab[x].key < ab[y].key {
        if x < |a| && y >= |a| {
          var i, p := FlattenIndex(init, a[x]);
          assert bufs[i][p] == a[x];
          assert ab[y] == b[y - |a|];
        } else if x >= |a| {
          assert ab[x] == b[x - |a|] && ab[y] == b[y - |a|];
        } else {
          assert ab[x] == a[x] && ab[y] == a[y];
        }
      }
    }
  }

  /** One buffer per entry, in order: the shape Load's Adds build from
      ascending entries (AddAllAscending). The map holds exactly the entries,
      and ascending entries give Ordered buffers. */
  function Singletons(es: seq<Entry>): (r: Buffers)
    ensures |r| == |es|
    ensures forall i :: 0 <= i < |es| ==> r[i] == [es[i]]
    ensures Flatten(r) == es
    ensures Sorted(es) ==> Ordered(r)
  {
    var r := seq(|es|, i requires 0 <= i < |es| => [es[i]]);
    FlattenOneEach(es, r);
    OneEachOrdered(es, r);
    r
  }

  /** Buffers holding one entry each hold exactly those entries, in order. */
  lemma {:induction false} FlattenOneEach(es: seq<Entry>, r: Buffers)
    requires |r| == |es| && forall i :: 0 <= i < |es| ==> r[i] == [es[i]]
    ensures Flatten(r) == es
    decreases |es|
  {
    if es != [] {
      var n := |es|;
      FlattenOneEach(es[..n - 1], r[..n - 1]);
      assert es == es[..n - 1] + [es[n - 1]];
    }
  }

  /** Buffers holding one ascending entry each are Ordered. */
  lemma OneEachOrdered(es: seq<Entry>, r: Buffers)
    requires |r| == |es| && forall i :: 0 <= i < |es| ==> r[i] == [es[i]]
    ensures Sorted(es) ==> Ordered(r)
  {
    if Sorted(es) {
      forall i, j, p, q | 0 <= i < j < |r| && 0 <= p < |r[i]| && 0 <= q < |r[j]|
        ensures r[i][p].key < r[j][q].key
      {
        assert r[i][p] == es[i] && r[j][q] == es[j];
      }
    }
  }

  /** The buffers after Add of each entry in turn. */
  function AddAll(bufs: Buffers, es: seq<Entry>): Buffers
    decreases |es|
  {
    if es == [] then bufs
    else
      var n := |es|;
      Inserted(AddAll(bufs, es[..n - 1]), es[n - 1].key, es[n - 1].value)
  }

  /** Adding entries with strictly ascending keys to an empty map gives each
      entry a buffer of its own, in order. */
  lemma {:induction false} AddAllAscending(es: seq<Entry>)
    requires Sorted(es)
    ensures AddAll([], es) == Singletons(es)
    decreases |es|
  {
    if es != [] {
      var n := |es|;
      var init := es[..n - 1];
      var last := es[n - 1];
      AddAllAscending(init);
      SingletonsBelow(es);
      InsertedAbove(Singletons(init), last.key, last.value);
      SingletonsSnoc(es);
    }
  }

  /** Every key in front of the last of ascending entries is below it. */
  lemma SingletonsBelow(es: seq<Entry>)
    requires Sorted(es) && es != []
    ensures Sorted(es[..|es| - 1]) && Ordered(Singletons(es[..|es| - 1]))
    ensures forall x :: x in Flatten(Singletons(es[..|es| - 1])) ==> x.key < es[|es| - 1].key
  {
    var init := es[..|es| - 1];
    assert Sorted(init);
    forall x | x in Flatten(Singletons(init)) ensures x.key < es[|es| - 1].key {
      var p :| 0 <= p < |init| && init[p] == x;
    }
  }

  lemma SingletonsSnoc(es: seq<Entry>)
    requires es != []
    ensures Singletons(es[..|es| - 1]) + [[es[|es| - 1]]] == Singletons(es)
  {
    var a, b := Singletons(es[..|es| - 1]) + [[es[|es| - 1]]], Singletons(es);
    assert forall i :: 0 <= i < |b| ==> a[i] == b[i];
  }
}
