/** Sorted String Tables: immutable files of records
    `KeyLen(u32) Key ValLen(u32) Value`, written once from a flushed
    MemTable. Loading a table scans the file and keeps every key with the
    offset of its record (a dense index) plus the set of keys (the "bloom
    filter"); lookups search the index and read the record at its offset. */
module SSTables {
  import opened Bytes
  import opened Wrappers
  import opened Packing
  import opened Wal
  import opened MemTables

  /** One index slot: a key and the offset of its record in the file. */
  datatype IndexEntry = IndexEntry(key: Bytes, offset: nat)

  /** A loaded table: the file's bytes, its index and its key set. The
      object never changes after loading, so it is a value here. */
  datatype SSTable = SSTable(file: Bytes, index: seq<IndexEntry>, bloom: set<Bytes>)

  /** Why reading a record failed: `struct.unpack` got fewer than four
      bytes, or `msgpack.unpackb` got a truncated or empty object. */
  datatype ReadError = StructError | UnpackFailed

  /** The bytes `write` emits for one item. */
  function Record(e: Entry): (r: Bytes)
    requires Encodable(e)
    ensures |r| == 8 + |e.key| + |Pack(e.value)|
  {
    U32(|e.key|) + e.key + U32(|Pack(e.value)|) + Pack(e.value)
  }

  /** The file `write` produces for `items`, in their order. */
  function EncodeTable(items: seq<Entry>): Bytes
    requires AllEncodable(items)
  {
    if items == [] then [] else Record(items[0]) + EncodeTable(items[1..])
  }

  lemma {:induction false} EncodeTableSnoc(items: seq<Entry>, e: Entry)
    requires AllEncodable(items) && Encodable(e)
    ensures AllEncodable(items + [e])
    ensures EncodeTable(items + [e]) == EncodeTable(items) + Record(e)
  {
    if items != [] {
      assert (items + [e])[1..] == items[1..] + [e];
      EncodeTableSnoc(items[1..], e);
    }
  }

  /** `_load_index` from `offset` on, `acc` being the index built so far: a
      record is indexed as soon as its length header has been read (even
      when the key itself is cut short by the end of the file); the scan
      stops at the end of the file, at a length header shorter than four
      bytes, or after a key whose value header is missing. */
  function ScanIndex(file: Bytes, offset: nat, acc: seq<IndexEntry>): seq<IndexEntry>
    decreases if offset <= |file| then |file| - offset + 1 else 0
  {
    if offset + 4 > |file| then acc
    else
      var kLen := ReadU32(file[offset..offset + 4]);
      var vAt := offset + 4 + kLen;
      var e := IndexEntry(file[offset + 4..Min(vAt, |file|)], offset);
      if vAt + 4 > |file| then acc + [e]
      else ScanIndex(file, vAt + 4 + ReadU32(file[vAt..vAt + 4]), acc + [e])
  }

  /** One step of the scan over a whole record header. */
  lemma {:induction false} ScanStep(file: Bytes, offset: nat, kLen: nat, vLen: nat, acc: seq<IndexEntry>)
    requires offset + 8 + kLen <= |file|
    requires ReadU32(file[offset..offset + 4]) == kLen
    requires ReadU32(file[offset + 4 + kLen..offset + 8 + kLen]) == vLen
    ensures ScanIndex(file, offset, acc) ==
      ScanIndex(file, offset + 8 + kLen + vLen, acc + [IndexEntry(file[offset + 4..offset + 4 + kLen], offset)])
  {
  }

  /** The last step of the scan: the key is indexed but its value header is
      cut off by the end of the file. */
  lemma {:induction false} ScanLast(file: Bytes, offset: nat, kLen: nat, acc: seq<IndexEntry>)
    requires offset + 4 <= |file| && ReadU32(file[offset..offset + 4]) == kLen
    requires offset + 8 + kLen > |file|
    ensures ScanIndex(file, offset, acc) == acc + [IndexEntry(file[offset + 4..Min(offset + 4 + kLen, |file|)], offset)]
  {
  }

  /** The key set built alongside the index. */
  function KeySet(index: seq<IndexEntry>): set<Bytes> {
    if index == [] then {} else KeySet(index[..|index| - 1]) + {index[|index| - 1].key}
  }

  lemma {:induction false} KeySetSnoc(index: seq<IndexEntry>, e: IndexEntry)
    ensures KeySet(index + [e]) == KeySet(index) + {e.key}
  {
    assert (index + [e])[..|index|] == index;
  }

  lemma {:induction false} KeySetMembers(index: seq<IndexEntry>, k: Bytes)
    ensures k in KeySet(index) <==> k in IndexKeys(index)
  {
    if index != [] {
      KeySetMembers(index[..|index| - 1], k);
      assert IndexKeys(index) == IndexKeys(index[..|index| - 1]) + [index[|index| - 1].key];
    }
  }

  /** The keys of the index, in order (`[k for k, _ in self.index]`). */
  function IndexKeys(index: seq<IndexEntry>): (ks: seq<Bytes>)
    ensures |ks| == |index| && forall i :: 0 <= i < |index| ==> ks[i] == index[i].key
  {
    seq(|index|, i requires 0 <= i < |index| => index[i].key)
  }

  /** A table as the constructor leaves it for the file's contents. */
  predicate Loaded(t: SSTable) {
    t.index == ScanIndex(t.file, 0, []) && t.bloom == KeySet(t.index)
  }

  /** `SSTable(path)` on an existing file: the scan loop of `_load_index`. */
  method Load(file: Bytes) returns (t: SSTable)
    ensures t.file == file && Loaded(t)
  {
    var index: seq<IndexEntry> := [];
    var bloom: set<Bytes> := {};
    var offset: nat := 0;
    while true
      invariant ScanIndex(file, offset, index) == ScanIndex(file, 0, [])
      invariant bloom == KeySet(index)
      decreases if offset <= |file| then |file| - offset + 1 else 0
    {
      if offset + 4 > |file| {
        break;
      }
      var kLen := ReadU32(file[offset..offset + 4]);
      var vAt := offset + 4 + kLen;
      var key := file[offset + 4..Min(vAt, |file|)];
      KeySetSnoc(index, IndexEntry(key, offset));
      if vAt + 4 > |file| {
        ScanLast(file, offset, kLen, index);
        index := index + [IndexEntry(key, offset)];
        bloom := bloom + {key};
        break;
      }
      var vLen := ReadU32(file[vAt..vAt + 4]);
      ScanStep(file, offset, kLen, vLen, index);
      index := index + [IndexEntry(key, offset)];
      bloom := bloom + {key};
      offset := vAt + 4 + vLen;
    }
    t := SSTable(file, index, bloom);
  }

  /** `SSTable.write`: the records of `items` one after another, then the
      table loaded from the new file. */
  method Write(items: seq<Entry>) returns (t: SSTable)
    requires AllEncodable(items)
    ensures t.file == EncodeTable(items) && Loaded(t)
  {
    var file: Bytes := [];
    for i := 0 to |items|
      invariant file == EncodeTable(items[..i])
    {
      var e := items[i];
      assert Encodable(e) by { assert e in items; }
      file := file + U32(|e.key|) + e.key + U32(|Pack(e.value)|) + Pack(e.value);
      EncodeTableSnoc(items[..i], e);
      assert items[..i + 1] == items[..i] + [e];
    }
    assert items[..|items|] == items;
    t := Load(file);
  }

  /** `bisect.bisect_left` on `keys[lo..hi]`. */
  function BisectLeft(keys: seq<Bytes>, key: Bytes, lo: nat, hi: nat): (r: nat)
    requires lo <= hi <= |keys|
    ensures lo <= r <= hi
    decreases hi - lo
  {
    if lo < hi then
      var mid := (lo + hi) / 2;
      if Less(keys[mid], key) then BisectLeft(keys, key, mid + 1, hi)
      else BisectLeft(keys, key, lo, mid)
    else lo
  }

  /** On ascending keys, `bisect_left` splits them into those below `key`
      and those not below it. */
  lemma {:induction false} BisectLeftSplits(keys: seq<Bytes>, key: Bytes, lo: nat, hi: nat)
    requires Ascending(keys) && lo <= hi <= |keys|
    requires forall j :: 0 <= j < lo ==> Less(keys[j], key)
    requires forall j :: hi <= j < |keys| ==> !Less(keys[j], key)
    ensures forall j :: 0 <= j < BisectLeft(keys, key, lo, hi) ==> Less(keys[j], key)
    ensures forall j :: BisectLeft(keys, key, lo, hi) <= j < |keys| ==> !Less(keys[j], key)
    decreases hi - lo
  {
    if lo < hi {
      var mid := (lo + hi) / 2;
      if Less(keys[mid], key) {
        forall j | 0 <= j < mid + 1
          ensures Less(keys[j], key)
        {
          if j < mid {
            LessTotal(keys[j], keys[mid]);
            if keys[j] != keys[mid] {
              LessTransitive(keys[j], keys[mid], key);
            }
          }
        }
        BisectLeftSplits(keys, key, mid + 1, hi);
      } else {
        forall j | mid <= j < |keys|
          ensures !Less(keys[j], key)
        {
          if j > mid && Less(keys[j], key) {
            LessTotal(keys[mid], keys[j]);
            if keys[mid] != keys[j] {
              LessTransitive(keys[mid], keys[j], key);
            }
          }
        }
        BisectLeftSplits(keys, key, lo, mid);
      }
    }
  }

  /** `_binary_search_index`. */
  function BinarySearchIndex(keys: seq<Bytes>, key: Bytes): (r: Option<nat>)
    ensures r.Some? ==> r.value < |keys| && keys[r.value] == key
  {
    var i := BisectLeft(keys, key, 0, |keys|);
    if i != |keys| && keys[i] == key then Some(i) else None
  }

  /** On ascending keys the search is complete, and it finds the first
      occurrence. */
  lemma {:induction false} BinarySearchFinds(keys: seq<Bytes>, key: Bytes)
    requires Ascending(keys)
    ensures BinarySearchIndex(keys, key).Some? <==> key in keys
    ensures BinarySearchIndex(keys, key).Some? ==>
      forall j :: 0 <= j < BinarySearchIndex(keys, key).value ==> keys[j] != key
  {
    var i := BisectLeft(keys, key, 0, |keys|);
    BisectLeftSplits(keys, key, 0, |keys|);
    forall j | 0 <= j < i
      ensures keys[j] != key
    {
      LessIrreflexive(key);
    }
    if key in keys && BinarySearchIndex(keys, key).None? {
      var j :| 0 <= j < |keys| && keys[j] == key;
      LessIrreflexive(key);
      LessTotal(key, keys[i]);
      assert false;
    }
  }

  /** `_read_at`: the value of the record at `offset`. */
  function ReadAt(file: Bytes, offset: nat): (r: Result<Option<Value>, ReadError>)
    ensures r.Ok? ==> offset + 8 < |file|
  {
    if offset + 4 > |file| then Err(StructError)
    else
      var vAt := offset + 4 + ReadU32(file[offset..offset + 4]);
      if vAt + 4 > |file| then Err(StructError)
      else
        var start := vAt + 4;
        var vLen := ReadU32(file[vAt..start]);
        if start + vLen > |file| then Err(UnpackFailed)
        else
          match Unpack(file[start..start + vLen])
          case Ok(v) => Ok(v)
          case Err(_) => Err(UnpackFailed)
  }

  /** `get`: a key outside the key set, or not found by the search, reads as
      `None`, exactly like a stored tombstone. */
  function Get(t: SSTable, key: Bytes): (r: Result<Option<Value>, ReadError>)
    ensures key !in t.bloom ==> r == Ok(None)
    ensures r.Ok? && r.value.Some? ==> key in IndexKeys(t.index)
  {
    if key !in t.bloom then Ok(None)
    else
      match BinarySearchIndex(IndexKeys(t.index), key)
      case None => Ok(None)
      case Some(i) => ReadAt(t.file, t.index[i].offset)
  }

  /** Where `write` puts each item's record, for a file whose first
      `base` bytes come before the table. */
  function IndexOf(items: seq<Entry>, base: nat): (ix: seq<IndexEntry>)
    requires AllEncodable(items)
    ensures |ix| == |items|
  {
    if items == [] then []
    else [IndexEntry(items[0].key, base)] + IndexOf(items[1..], base + |Record(items[0])|)
  }

  /** The four fields of a record. */
  lemma {:induction false} RecordParts(e: Entry)
    requires Encodable(e)
    ensures var r, k := Record(e), |e.key|;
      && r[0..4] == U32(k) && r[4..4 + k] == e.key
      && r[4 + k..8 + k] == U32(|Pack(e.value)|) && r[8 + k..|r|] == Pack(e.value)
  {
  }

  /** The record of `e` at `off`, as the scan and the reader see it. */
  lemma {:induction false} RecordAt(f: Bytes, off: nat, e: Entry)
    requires Encodable(e) && off + |Record(e)| <= |f| && f[off..off + |Record(e)|] == Record(e)
    ensures ReadU32(f[off..off + 4]) == |e.key|
    ensures f[off + 4..off + 4 + |e.key|] == e.key
    ensures ReadU32(f[off + 4 + |e.key|..off + 8 + |e.key|]) == |Pack(e.value)|
    ensures f[off + 8 + |e.key|..off + |Record(e)|] == Pack(e.value)
  {
    var k, n := |e.key|, |Record(e)|;
    RecordParts(e);
    SliceOfSlice(f, off, off + n, 0, 4);
    SliceOfSlice(f, off, off + n, 4, 4 + k);
    SliceOfSlice(f, off, off + n, 4 + k, 8 + k);
    SliceOfSlice(f, off, off + n, 8 + k, n);
  }

  /** A file holding a written table from `off` on holds its first record
      there, and the rest of the table after it. */
  lemma {:induction false} EncodedSplit(f: Bytes, off: nat, items: seq<Entry>)
    requires AllEncodable(items) && items != [] && off <= |f| && f[off..] == EncodeTable(items)
    ensures off + |Record(items[0])| <= |f|
    ensures f[off..off + |Record(items[0])|] == Record(items[0])
    ensures f[off + |Record(items[0])|..] == EncodeTable(items[1..])
  {
    var r, t := Record(items[0]), EncodeTable(items[1..]);
    assert f[off..] == r + t;
    assert (r + t)[..|r|] == r;
    assert (r + t)[|r|..] == t;
    assert f[off..off + |r|] == f[off..][..|r|];
    assert f[off + |r|..] == f[off..][|r|..];
  }

  /** Round trip for the index: scanning a written table recovers every key
      with the offset of its record. */
  lemma {:induction false} ScanRecord(f: Bytes, off: nat, e: Entry, acc: seq<IndexEntry>)
    requires Encodable(e) && off + |Record(e)| <= |f| && f[off..off + |Record(e)|] == Record(e)
    ensures ScanIndex(f, off, acc) == ScanIndex(f, off + |Record(e)|, acc + [IndexEntry(e.key, off)])
  {
    RecordAt(f, off, e);
    ScanStep(f, off, |e.key|, |Pack(e.value)|, acc);
  }

  /** The scan over a written table reads its first record and moves on to
      the rest of the table. */
  lemma {:induction false} ScanFirst(f: Bytes, off: nat, items: seq<Entry>, acc: seq<IndexEntry>)
    requires AllEncodable(items) && items != [] && off <= |f| && f[off..] == EncodeTable(items)
    ensures off + |Record(items[0])| <= |f| && f[off + |Record(items[0])|..] == EncodeTable(items[1..])
    ensures ScanIndex(f, off, acc) == ScanIndex(f, off + |Record(items[0])|, acc + [IndexEntry(items[0].key, off)])
  {
    EncodedSplit(f, off, items);
    ScanRecord(f, off, items[0], acc);
  }

  lemma {:induction false} ScanEncoded(f: Bytes, off: nat, items: seq<Entry>, acc: seq<IndexEntry>)
    requires AllEncodable(items) && off <= |f| && f[off..] == EncodeTable(items)
    ensures ScanIndex(f, off, acc) == acc + IndexOf(items, off)
    decreases |items|
  {
    if items == [] {
      assert acc + [] == acc;
    } else {
      var next := off + |Record(items[0])|;
      var ie := IndexEntry(items[0].key, off);
      ScanFirst(f, off, items, acc);
      ScanEncoded(f, next, items[1..], acc + [ie]);
      AppendAssoc(acc, [ie], IndexOf(items[1..], next));
    }
  }

  /** Every indexed offset of a written table holds the whole record of its
      item. */
  lemma {:induction false} RecordLocated(f: Bytes, off: nat, items: seq<Entry>, i: nat)
    requires AllEncodable(items) && off <= |f| && f[off..] == EncodeTable(items)
    requires i < |items|
    ensures Encodable(items[i])
    ensures IndexOf(items, off)[i].offset + |Record(items[i])| <= |f|
    ensures f[IndexOf(items, off)[i].offset..IndexOf(items, off)[i].offset + |Record(items[i])|] == Record(items[i])
    decreases i
  {
    assert items[i] in items;
    EncodedSplit(f, off, items);
    if i > 0 {
      IndexOfTail(items, off, i);
      RecordLocated(f, off + |Record(items[0])|, items[1..], i - 1);
    }
  }

  lemma {:induction false} IndexOfTail(items: seq<Entry>, base: nat, i: nat)
    requires AllEncodable(items) && 0 < i < |items|
    ensures IndexOf(items, base)[i] == IndexOf(items[1..], base + |Record(items[0])|)[i - 1]
  {
  }

  /** Reading at the start of a whole record gives its value. */
  lemma {:induction false} ReadRecordAt(f: Bytes, off: nat, e: Entry)
    requires Encodable(e) && off + |Record(e)| <= |f| && f[off..off + |Record(e)|] == Record(e)
    ensures ReadAt(f, off) == Ok(e.value)
  {
    RecordAt(f, off, e);
  }

  lemma {:induction false} IndexOfKey(items: seq<Entry>, base: nat, i: nat)
    requires AllEncodable(items) && i < |items|
    ensures IndexOf(items, base)[i].key == items[i].key
    decreases i
  {
    if i > 0 {
      IndexOfTail(items, base, i);
      IndexOfKey(items[1..], base + |Record(items[0])|, i - 1);
    }
  }

  lemma {:induction false} IndexOfKeys(items: seq<Entry>, base: nat)
    requires AllEncodable(items)
    ensures IndexKeys(IndexOf(items, base)) == KeysOf(items)
  {
    forall i | 0 <= i < |items|
      ensures IndexOf(items, base)[i].key == items[i].key
    {
      IndexOfKey(items, base, i);
    }
  }

  /** The `j`-th index entry of a written table carries its item's key and
      points at its item's whole record. */
  lemma {:induction false} EntryRecord(f: Bytes, items: seq<Entry>, j: nat)
    requires AllEncodable(items) && f[0..] == EncodeTable(items) && j < |items|
    ensures var o := IndexOf(items, 0)[j].offset;
      && IndexOf(items, 0)[j].key == items[j].key && Encodable(items[j])
      && o + |Record(items[j])| <= |f| && f[o..o + |Record(items[j])|] == Record(items[j])
  {
    RecordLocated(f, 0, items, j);
    IndexOfKey(items, 0, j);
  }

  /** The index and key set of a table loaded from a written file. */
  lemma {:induction false} WrittenIndex(items: seq<Entry>, t: SSTable)
    requires AllEncodable(items)
    requires t.file == EncodeTable(items) && Loaded(t)
    ensures t.file[0..] == EncodeTable(items)
    ensures t.index == IndexOf(items, 0)
    ensures IndexKeys(t.index) == KeysOf(items)
    ensures forall k :: k in t.bloom <==> k in KeysOf(items)
  {
    assert t.file[0..] == t.file;
    ScanEncoded(t.file, 0, items, []);
    assert [] + IndexOf(items, 0) == IndexOf(items, 0);
    IndexOfKeys(items, 0);
    forall k
      ensures k in t.bloom <==> k in KeysOf(items)
    {
      KeySetMembers(t.index, k);
    }
  }

  /** A table written from strictly ascending items answers every lookup
      exactly as the dictionary they were sorted from: the stored value for
      a present key (`None` for a tombstone), `None` for an absent one. */
  lemma {:induction false} GetWritten(items: seq<Entry>, t: SSTable, key: Bytes)
    requires AllEncodable(items) && StrictlyAscending(KeysOf(items))
    requires t.file == EncodeTable(items) && Loaded(t)
    ensures Get(t, key) == Ok(Lookup(Apply(map[], items), key))
  {
    WrittenIndex(items, t);
    GetIndexed(items, t, key);
  }

  lemma {:induction false} GetIndexed(items: seq<Entry>, t: SSTable, key: Bytes)
    requires AllEncodable(items) && StrictlyAscending(KeysOf(items))
    requires t.file[0..] == EncodeTable(items)
    requires t.index == IndexOf(items, 0) && IndexKeys(t.index) == KeysOf(items)
    requires forall k :: k in t.bloom <==> k in KeysOf(items)
    ensures Get(t, key) == Ok(Lookup(Apply(map[], items), key))
  {
    StrictlyAscendingIsAscending(KeysOf(items));
    BinarySearchFinds(KeysOf(items), key);
    match BinarySearchIndex(KeysOf(items), key) {
      case None =>
        LookupAbsent(items, key);
      case Some(j) =>
        RecordLocated(t.file, 0, items, j);
        ReadRecordAt(t.file, IndexOf(items, 0)[j].offset, items[j]);
        LookupSorted(items, j);
    }
  }
}
