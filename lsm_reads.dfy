/** What the LSM engine's two read paths return, as functions of the
    MemTable's dictionary and the SSTable list (newest first): the point read
    as written and as intended, and the prefix scan. */
module LsmReads {
  import opened Bytes
  import opened Wrappers
  import opened Packing
  import opened Wal
  import opened MemTables
  import opened SSTables

  /** The engine's exceptions: `ValueError` for a record without an id,
      `KeyError` for a missing or deleted record, and a failed read. */
  datatype EngineError = MissingId | NotFound | Deleted | Corrupt(cause: ReadError)

  /** What one SSTable holds for a key: nothing, or a value or tombstone. */
  datatype Hit = Absent | Found(value: Option<Value>)

  /** One table's answer with absence told apart from a stored tombstone;
      `get` is this answer with both read as `None`. */
  function Probe(t: SSTable, key: Bytes): (r: Result<Hit, ReadError>)
    ensures r == Ok(Absent) ==> Get(t, key) == Ok(None)
    ensures r.Ok? && r.value.Found? ==> Get(t, key) == Ok(r.value.value)
    ensures r.Err? ==> Get(t, key) == Err(r.error)
  {
    if key !in t.bloom then Ok(Absent)
    else
      match BinarySearchIndex(IndexKeys(t.index), key)
      case None => Ok(Absent)
      case Some(i) =>
        match ReadAt(t.file, t.index[i].offset)
        case Ok(v) => Ok(Found(v))
        case Err(e) => Err(e)
  }

  /** `read_record` as written: a MemTable value other than `None` wins,
      then the first SSTable, newest first, whose `get` is not `None`. A
      tombstone reads as `None` at both levels, so it never ends the probe. */
  function ReadAsWritten(data: Data, tables: seq<SSTable>, key: Bytes): Result<Value, EngineError> {
    match Lookup(data, key)
    case Some(v) => Ok(v)
    case None => FirstGet(tables, key)
  }

  function FirstGet(tables: seq<SSTable>, key: Bytes): Result<Value, EngineError> {
    if tables == [] then Err(NotFound)
    else
      match Get(tables[0], key)
      case Err(e) => Err(Corrupt(e))
      case Ok(Some(v)) => Ok(v)
      case Ok(None) => FirstGet(tables[1..], key)
  }

  /** The intended point read: the newest layer holding the key decides, and
      a tombstone there means the record was deleted. */
  function Newest(data: Data, tables: seq<SSTable>, key: Bytes): Result<Value, EngineError> {
    if key in data then
      (if data[key].Some? then Ok(data[key].value) else Err(Deleted))
    else NewestTables(tables, key)
  }

  function NewestTables(tables: seq<SSTable>, key: Bytes): Result<Value, EngineError> {
    if tables == [] then Err(NotFound)
    else
      match Probe(tables[0], key)
      case Err(e) => Err(Corrupt(e))
      case Ok(Absent) => NewestTables(tables[1..], key)
      case Ok(Found(None)) => Err(Deleted)
      case Ok(Found(Some(v))) => Ok(v)
  }

  /** The two reads differ only on deleted records. */
  lemma {:induction false} ReadsAgreeUnlessDeleted(data: Data, tables: seq<SSTable>, key: Bytes)
    requires Newest(data, tables, key) != Err(Deleted)
    ensures ReadAsWritten(data, tables, key) == Newest(data, tables, key)
  {
    if key !in data {
      TablesAgree(tables, key);
    }
  }

  lemma {:induction false} TablesAgree(tables: seq<SSTable>, key: Bytes)
    requires NewestTables(tables, key) != Err(Deleted)
    ensures FirstGet(tables, key) == NewestTables(tables, key)
  {
    if tables != [] && Probe(tables[0], key) == Ok(Absent) {
      TablesAgree(tables[1..], key);
    }
  }

  /** What `scan_table` builds: key to value. */
  type Results = map<Bytes, Value>

  /** `results[key] = val`, or `results.pop(key, None)` for a tombstone. */
  function Put(r: Results, key: Bytes, v: Option<Value>): Results {
    if v.Some? then r[key := v.value] else r - {key}
  }

  /** One entry as `scan_table` treats it: keys outside the prefix are skipped. */
  function Step(r: Results, e: Entry, p: Bytes): Results {
    if StartsWith(e.key, p) then Put(r, e.key, e.value) else r
  }

  function StepAll(r: Results, es: seq<Entry>, p: Bytes): Results
    decreases |es|
  {
    if es == [] then r else StepAll(Step(r, es[0], p), es[1..], p)
  }

  /** Laying a whole dictionary over `r`: each of its keys with the prefix
      replaces, or with a tombstone removes, what `r` holds. */
  function Overlay(r: Results, d: Data, p: Bytes): Results {
    map k | k in r.Keys + d.Keys && (if k in d && StartsWith(k, p) then d[k].Some? else k in r)
      :: if k in d && StartsWith(k, p) then d[k].value else r[k]
  }

  /** The inner loop of `scan_table` over one table's index, reading each
      prefixed entry at its offset. */
  function OverlayIndex(r: Results, file: Bytes, ix: seq<IndexEntry>, p: Bytes): Result<Results, ReadError>
    decreases |ix|
  {
    if ix == [] then Ok(r)
    else if !StartsWith(ix[0].key, p) then OverlayIndex(r, file, ix[1..], p)
    else
      match ReadAt(file, ix[0].offset)
      case Err(e) => Err(e)
      case Ok(v) => OverlayIndex(Put(r, ix[0].key, v), file, ix[1..], p)
  }

  /** The SSTables' part of `scan_table`: oldest first, so each table is laid
      over the ones older than it. */
  function ScanTables(tables: seq<SSTable>, p: Bytes): Result<Results, ReadError> {
    if tables == [] then Ok(map[])
    else
      match ScanTables(tables[1..], p)
      case Err(e) => Err(e)
      case Ok(r) => OverlayIndex(r, tables[0].file, tables[0].index, p)
  }

  /** `scan_table`: the SSTables, then the MemTable on top. */
  function Scan(data: Data, tables: seq<SSTable>, p: Bytes): Result<Results, ReadError> {
    match ScanTables(tables, p)
    case Err(e) => Err(e)
    case Ok(r) => Ok(Overlay(r, data, p))
  }

  /** Layers of dictionaries, newest first, merged by laying each over the
      older ones. */
  function Merge(layers: seq<Data>, p: Bytes): Results {
    if layers == [] then map[] else Overlay(Merge(layers[1..], p), layers[0], p)
  }

  /** The entry of the newest layer that holds `key`, if any. */
  function NewestLayer(layers: seq<Data>, key: Bytes): Option<Option<Value>> {
    if layers == [] then None
    else if key in layers[0] then Some(layers[0][key])
    else NewestLayer(layers[1..], key)
  }

  /** A merge holds exactly the prefixed keys whose newest entry is a value,
      with that value: the newest value wins and a newer tombstone removes. */
  lemma {:induction false} MergeNewest(layers: seq<Data>, p: Bytes, key: Bytes)
    ensures key in Merge(layers, p) <==>
      StartsWith(key, p) && NewestLayer(layers, key).Some? && NewestLayer(layers, key).value.Some?
    ensures key in Merge(layers, p) ==> Merge(layers, p)[key] == NewestLayer(layers, key).value.value
  {
    if layers != [] {
      MergeNewest(layers[1..], p, key);
    }
  }

  /** `t` is what `SSTable.write` made of `items`, sorted with distinct keys,
      and then loaded. */
  ghost predicate Written(t: SSTable, items: seq<Entry>) {
    && AllEncodable(items) && StrictlyAscending(KeysOf(items))
    && t.file == EncodeTable(items) && Loaded(t)
  }

  /** A written table holds exactly the dictionary its items came from. */
  lemma {:induction false} ProbeWritten(t: SSTable, items: seq<Entry>, key: Bytes)
    requires Written(t, items)
    ensures var d := Apply(map[], items);
      Probe(t, key) == Ok(if key in d then Found(d[key]) else Absent)
  {
    WrittenIndex(items, t);
    GetWritten(items, t, key);
    ApplyDomain(map[], items, key);
    StrictlyAscendingIsAscending(KeysOf(items));
    BinarySearchFinds(KeysOf(items), key);
  }

  lemma {:induction false} OverlayIndexStep(r: Results, f: Bytes, ix: seq<IndexEntry>, j: nat, e: Entry, p: Bytes)
    requires j < |ix| && ix[j].key == e.key && Encodable(e)
    requires ix[j].offset + |Record(e)| <= |f| && f[ix[j].offset..ix[j].offset + |Record(e)|] == Record(e)
    ensures OverlayIndex(r, f, ix[j..], p) == OverlayIndex(Step(r, e, p), f, ix[j + 1..], p)
  {
    ReadRecordAt(f, ix[j].offset, e);
    assert ix[j..][0] == ix[j] && ix[j..][1..] == ix[j + 1..];
  }

  /** Scanning the index of a written file applies its items in order. */
  lemma {:induction false} OverlayWritten(r: Results, f: Bytes, items: seq<Entry>, j: nat, p: Bytes)
    requires AllEncodable(items) && f[0..] == EncodeTable(items) && j <= |items|
    ensures OverlayIndex(r, f, IndexOf(items, 0)[j..], p) == Ok(StepAll(r, items[j..], p))
    decreases |items| - j
  {
    if j < |items| {
      EntryRecord(f, items, j);
      OverlayIndexStep(r, f, IndexOf(items, 0), j, items[j], p);
      OverlayWritten(Step(r, items[j], p), f, items, j + 1, p);
      assert items[j..][0] == items[j] && items[j..][1..] == items[j + 1..];
    }
  }

  /** Laying a key over `r` first, or inside the dictionary, is the same. */
  lemma {:induction false} OverlayStep(r: Results, e: Entry, d: Data, p: Bytes)
    requires e.key !in d
    ensures Overlay(Step(r, e, p), d, p) == Overlay(r, d[e.key := e.value], p)
  {
    var s, d' := Step(r, e, p), d[e.key := e.value];
    var a, b := Overlay(s, d, p), Overlay(r, d', p);
    forall k
      ensures (k in a <==> k in b) && (k in a ==> a[k] == b[k])
    {
      if k != e.key {
        assert (k in s <==> k in r) && (k in s ==> s[k] == r[k]);
        assert (k in d' <==> k in d) && (k in d ==> d'[k] == d[k]);
      }
    }
  }

  /** Laying one more key of the dictionary over a finished overlay. */
  lemma {:induction false} OverlayGrow(r: Results, d: Data, k: Bytes, v: Option<Value>, p: Bytes)
    requires k !in d
    ensures Step(Overlay(r, d, p), Entry(k, v), p) == Overlay(r, d[k := v], p)
  {
    var o, d' := Overlay(r, d, p), d[k := v];
    var a, b := Step(o, Entry(k, v), p), Overlay(r, d', p);
    forall x
      ensures (x in a <==> x in b) && (x in a ==> a[x] == b[x])
    {
      if x != k {
        assert (x in a <==> x in o) && (x in a ==> a[x] == o[x]);
        assert (x in d' <==> x in d) && (x in d ==> d'[x] == d[x]);
      }
    }
  }

  /** A read failure in an older table ends the whole scan with it. */
  lemma {:induction false} ScanTablesErr(tables: seq<SSTable>, i: nat, p: Bytes)
    requires i <= |tables| && ScanTables(tables[i..], p).Err?
    ensures ScanTables(tables, p) == ScanTables(tables[i..], p)
    decreases i
  {
    if i == 0 {
      assert tables[0..] == tables;
    } else {
      assert tables[1..][i - 1..] == tables[i..];
      ScanTablesErr(tables[1..], i - 1, p);
    }
  }

  lemma {:induction false} AscendingTail(ks: seq<Bytes>)
    requires ks != [] && StrictlyAscending(ks)
    ensures StrictlyAscending(ks[1..])
  {
    forall i, j | 0 <= i < j < |ks| - 1
      ensures Less(ks[1..][i], ks[1..][j])
    {
      assert ks[1..][i] == ks[i + 1] && ks[1..][j] == ks[j + 1];
    }
  }

  /** Applying sorted, distinct items one at a time is laying their
      dictionary over `r`. */
  lemma {:induction false} StepAllOverlay(r: Results, items: seq<Entry>, p: Bytes)
    requires StrictlyAscending(KeysOf(items))
    ensures StepAll(r, items, p) == Overlay(r, Apply(map[], items), p)
    decreases |items|
  {
    if items == [] {
      assert Overlay(r, map[], p) == r;
    } else {
      var e, rest := items[0], items[1..];
      assert KeysOf(rest) == KeysOf(items)[1..];
      AscendingTail(KeysOf(items));
      StepAllOverlay(Step(r, e, p), rest, p);
      LessIrreflexive(e.key);
      assert e.key !in KeysOf(rest) by {
        forall i | 0 <= i < |rest|
          ensures KeysOf(rest)[i] != e.key
        {
          assert Less(KeysOf(items)[0], KeysOf(items)[i + 1]);
        }
      }
      assert [e] + rest == items;
      ApplyFresh(map[], e, rest);
      ApplyDomain(map[], rest, e.key);
      OverlayStep(r, e, Apply(map[], rest), p);
    }
  }

  /** Scanning a written table lays its dictionary over what came before. */
  lemma {:induction false} ScanWrittenTable(r: Results, t: SSTable, items: seq<Entry>, p: Bytes)
    requires Written(t, items)
    ensures OverlayIndex(r, t.file, t.index, p) == Ok(Overlay(r, Apply(map[], items), p))
  {
    WrittenIndex(items, t);
    OverlayWritten(r, t.file, items, 0, p);
    assert IndexOf(items, 0)[0..] == IndexOf(items, 0) && items[0..] == items;
    StepAllOverlay(r, items, p);
  }

  /** Flushing the MemTable's dictionary `data` into a new newest table `t`
      changes no point read. */
  lemma {:induction false} FlushPreservesReads(data: Data, tables: seq<SSTable>, t: SSTable, items: seq<Entry>, key: Bytes)
    requires Written(t, items) && Apply(map[], items) == data
    ensures Newest(map[], [t] + tables, key) == Newest(data, tables, key)
  {
    ProbeWritten(t, items, key);
    assert ([t] + tables)[1..] == tables;
  }

  /** The same holds for `read_record` as written. */
  lemma {:induction false} FlushPreservesReadsAsWritten(data: Data, tables: seq<SSTable>, t: SSTable, items: seq<Entry>, key: Bytes)
    requires Written(t, items) && Apply(map[], items) == data
    ensures ReadAsWritten(map[], [t] + tables, key) == ReadAsWritten(data, tables, key)
  {
    GetWritten(items, t, key);
    assert ([t] + tables)[1..] == tables;
  }

  /** Flushing changes no scan either. */
  lemma {:induction false} FlushPreservesScan(data: Data, tables: seq<SSTable>, t: SSTable, items: seq<Entry>, p: Bytes)
    requires Written(t, items) && Apply(map[], items) == data
    ensures Scan(map[], [t] + tables, p) == Scan(data, tables, p)
  {
    assert ([t] + tables)[1..] == tables;
    match ScanTables(tables, p) {
      case Ok(r) =>
        ScanWrittenTable(r, t, items, p);
        assert Overlay(Overlay(r, data, p), map[], p) == Overlay(r, data, p);
      case Err(_) =>
    }
  }

  /** The dictionaries the tables were written from. */
  function Contents(itemss: seq<seq<Entry>>): (ds: seq<Data>)
    ensures |ds| == |itemss| && forall i :: 0 <= i < |itemss| ==> ds[i] == Apply(map[], itemss[i])
  {
    seq(|itemss|, i requires 0 <= i < |itemss| => Apply(map[], itemss[i]))
  }

  ghost predicate AllWritten(tables: seq<SSTable>, itemss: seq<seq<Entry>>) {
    |tables| == |itemss| && forall i :: 0 <= i < |tables| ==> Written(tables[i], itemss[i])
  }

  lemma {:induction false} ContentsTail(itemss: seq<seq<Entry>>)
    requires itemss != []
    ensures Contents(itemss)[1..] == Contents(itemss[1..])
  {
    var c, d := Contents(itemss)[1..], Contents(itemss[1..]);
    forall i | 0 <= i < |d|
      ensures c[i] == d[i]
    {
      assert itemss[1..][i] == itemss[i + 1];
    }
  }

  lemma {:induction false} AllWrittenTail(tables: seq<SSTable>, itemss: seq<seq<Entry>>)
    requires AllWritten(tables, itemss) && tables != []
    ensures Written(tables[0], itemss[0]) && AllWritten(tables[1..], itemss[1..])
    ensures Contents(itemss)[1..] == Contents(itemss[1..])
  {
    var t, s := tables[1..], itemss[1..];
    forall i | 0 <= i < |t|
      ensures Written(t[i], s[i])
    {
      assert t[i] == tables[i + 1] && s[i] == itemss[i + 1];
    }
    ContentsTail(itemss);
  }

  /** The result a layer's entry gives a point read. */
  function Outcome(h: Option<Option<Value>>): Result<Value, EngineError> {
    match h
    case None => Err(NotFound)
    case Some(None) => Err(Deleted)
    case Some(Some(v)) => Ok(v)
  }

  lemma {:induction false} NewestTablesWritten(tables: seq<SSTable>, itemss: seq<seq<Entry>>, key: Bytes)
    requires AllWritten(tables, itemss)
    ensures NewestTables(tables, key) == Outcome(NewestLayer(Contents(itemss), key))
  {
    if tables != [] {
      AllWrittenTail(tables, itemss);
      ProbeWritten(tables[0], itemss[0], key);
      NewestTablesWritten(tables[1..], itemss[1..], key);
    }
  }

  /** Over written tables, the intended point read is the newest layer's entry. */
  lemma {:induction false} NewestWritten(data: Data, tables: seq<SSTable>, itemss: seq<seq<Entry>>, key: Bytes)
    requires AllWritten(tables, itemss)
    ensures Newest(data, tables, key) == Outcome(NewestLayer([data] + Contents(itemss), key))
  {
    NewestTablesWritten(tables, itemss, key);
    assert ([data] + Contents(itemss))[1..] == Contents(itemss);
  }

  lemma {:induction false} ScanTablesWritten(tables: seq<SSTable>, itemss: seq<seq<Entry>>, p: Bytes)
    requires AllWritten(tables, itemss)
    ensures ScanTables(tables, p) == Ok(Merge(Contents(itemss), p))
  {
    if tables != [] {
      AllWrittenTail(tables, itemss);
      ScanTablesWritten(tables[1..], itemss[1..], p);
      ScanWrittenTable(Merge(Contents(itemss[1..]), p), tables[0], itemss[0], p);
    }
  }

  /** Over written tables, a scan is the merge of all layers. */
  lemma {:induction false} ScanWritten(data: Data, tables: seq<SSTable>, itemss: seq<seq<Entry>>, p: Bytes)
    requires AllWritten(tables, itemss)
    ensures Scan(data, tables, p) == Ok(Merge([data] + Contents(itemss), p))
  {
    ScanTablesWritten(tables, itemss, p);
    assert ([data] + Contents(itemss))[1..] == Contents(itemss);
  }

  /** `scan_table` and the intended point read agree: a scan lists a key iff
      it has the prefix and reads successfully, with the value read. */
  lemma {:induction false} ScanMatchesRead(data: Data, tables: seq<SSTable>, itemss: seq<seq<Entry>>, p: Bytes, key: Bytes)
    requires AllWritten(tables, itemss)
    ensures Scan(data, tables, p).Ok?
    ensures key in Scan(data, tables, p).value <==> StartsWith(key, p) && Newest(data, tables, key).Ok?
    ensures key in Scan(data, tables, p).value ==> Scan(data, tables, p).value[key] == Newest(data, tables, key).value
  {
    ScanWritten(data, tables, itemss, p);
    NewestWritten(data, tables, itemss, key);
    MergeOutcome([data] + Contents(itemss), p, key);
  }

  lemma {:induction false} MergeOutcome(layers: seq<Data>, p: Bytes, key: Bytes)
    ensures key in Merge(layers, p) <==> StartsWith(key, p) && Outcome(NewestLayer(layers, key)).Ok?
    ensures key in Merge(layers, p) ==> Merge(layers, p)[key] == Outcome(NewestLayer(layers, key)).value
  {
    MergeNewest(layers, p, key);
  }

  /** `read_record` as written brings a deleted record back: after the
      record is flushed and then deleted, the read skips the MemTable's
      tombstone and returns the flushed value, while the intended read and
      `scan_table` both treat the record as gone. */
  lemma {:induction false} TombstoneResurrects(k: Bytes, v: Value, t: SSTable, p: Bytes)
    requires Written(t, [Entry(k, Some(v))])
    ensures ReadAsWritten(map[k := None], [t], k) == Ok(v)
    ensures Newest(map[k := None], [t], k) == Err(Deleted)
    ensures Scan(map[k := None], [t], p) == Ok(map[])
  {
    var items := [Entry(k, Some(v))];
    assert items[..0] == [];
    GetWritten(items, t, k);
    assert [t][1..] == [];
    ScanWrittenTable(map[], t, items, p);
    assert Apply(map[], items) == map[k := Some(v)];
    assert ScanTables([t], p) == OverlayIndex(map[], t.file, t.index, p);
    var r := Overlay(map[], map[k := Some(v)], p);
    assert k in r <==> StartsWith(k, p);
    assert r.Keys <= {k};
    assert Overlay(r, map[k := None], p).Keys == {};
  }
}
