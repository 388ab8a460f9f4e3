/** The MemTable: an in-memory map from key to value, `None` being the
    tombstone, whose every change is logged to the write-ahead log first. */
module MemTables {
  import opened Bytes
  import opened Wrappers
  import opened Packing
  import opened Wal

  type Data = map<Bytes, Option<Value>>

  /** Applying entries to a dictionary in order (`d[k] = v` for each). */
  function Apply(d: Data, es: seq<Entry>): Data {
    if es == [] then d
    else Apply(d, es[..|es| - 1])[es[|es| - 1].key := es[|es| - 1].value]
  }

  /** `d.get(k)`: an absent key reads as `None`, like a tombstone. */
  function Lookup(d: Data, k: Bytes): Option<Value> {
    if k in d then d[k] else None
  }

  /** The keys of a list of entries, in order. */
  function KeysOf(es: seq<Entry>): (ks: seq<Bytes>)
    ensures |ks| == |es| && forall i :: 0 <= i < |es| ==> ks[i] == es[i].key
  {
    seq(|es|, i requires 0 <= i < |es| => es[i].key)
  }

  /** Last write wins: the entry that decides a key is its last one. */
  lemma {:induction false} ApplyLastWins(d: Data, es: seq<Entry>, i: nat)
    requires i < |es|
    requires forall j :: i < j < |es| ==> es[j].key != es[i].key
    ensures es[i].key in Apply(d, es) && Apply(d, es)[es[i].key] == es[i].value
  {
    if i < |es| - 1 {
      ApplyLastWins(d, es[..|es| - 1], i);
    }
  }

  /** A key no entry mentions keeps whatever it had (or stays absent). */
  lemma {:induction false} ApplyUntouched(d: Data, es: seq<Entry>, k: Bytes)
    requires forall j :: 0 <= j < |es| ==> es[j].key != k
    ensures (k in Apply(d, es)) == (k in d)
    ensures k in d ==> Apply(d, es)[k] == d[k]
  {
    if es != [] {
      ApplyUntouched(d, es[..|es| - 1], k);
    }
  }

  /** The keys present after applying entries: the old ones and the entries' own. */
  lemma {:induction false} ApplyDomain(d: Data, es: seq<Entry>, k: Bytes)
    ensures k in Apply(d, es) <==> k in d || k in KeysOf(es)
  {
    if es != [] {
      var n := |es| - 1;
      ApplyDomain(d, es[..n], k);
      assert KeysOf(es) == KeysOf(es[..n]) + [es[n].key];
    }
  }

  /** An entry whose key no later entry repeats may be applied first or last. */
  lemma {:induction false} ApplyFresh(d: Data, e: Entry, es: seq<Entry>)
    requires e.key !in KeysOf(es)
    ensures Apply(d, [e] + es) == Apply(d, es)[e.key := e.value]
  {
    if es != [] {
      var n := |es| - 1;
      assert ([e] + es)[..n + 1] == [e] + es[..n];
      assert KeysOf(es) == KeysOf(es[..n]) + [es[n].key];
      ApplyFresh(d, e, es[..n]);
    }
  }

  /** Keys of a strictly ascending sequence are unique. */
  lemma {:induction false} UniqueKeys(ks: seq<Bytes>, i: nat, j: nat)
    requires StrictlyAscending(ks) && i < |ks| && j < |ks| && ks[i] == ks[j]
    ensures i == j
  {
    LessIrreflexive(ks[i]);
  }

  /** Applying items with distinct keys gives each its own value. */
  lemma {:induction false} LookupSorted(items: seq<Entry>, j: nat)
    requires StrictlyAscending(KeysOf(items)) && j < |items|
    ensures Lookup(Apply(map[], items), items[j].key) == items[j].value
  {
    forall i | j < i < |items|
      ensures items[i].key != items[j].key
    {
      if items[i].key == items[j].key {
        UniqueKeys(KeysOf(items), i, j);
      }
    }
    ApplyLastWins(map[], items, j);
  }

  /** A key no item carries is absent after applying them to an empty map. */
  lemma {:induction false} LookupAbsent(items: seq<Entry>, key: Bytes)
    requires key !in KeysOf(items)
    ensures Lookup(Apply(map[], items), key) == None
  {
    forall j | 0 <= j < |items|
      ensures items[j].key != key
    {
      assert KeysOf(items)[j] == items[j].key;
    }
    ApplyUntouched(map[], items, key);
  }

  /** Everything `recover` parses out of a log fits the frame header. */
  lemma {:induction false} DecodedEncodable(s: Bytes)
    requires DecodeLog(s).Ok?
    ensures AllEncodable(DecodeLog(s).value)
    decreases |s|
  {
    if |s| >= HEADER_SIZE {
      var kLen := ReadU32(s[..4]);
      var vLen := ReadU32(s[4..8]);
      var end := HEADER_SIZE + kLen + vLen;
      DecodedEncodable(s[end..]);
    }
  }

  /** The loop invariant of `SortedItems`: `items` holds the least keys of
      `d` in ascending order, `rest` the others, `done` what `items` apply to. */
  ghost predicate SortInv(d: Data, items: seq<Entry>, rest: Data, done: Data) {
    && StrictlyAscending(KeysOf(items))
    && (forall i, k :: 0 <= i < |items| && k in rest ==> Less(items[i].key, k))
    && (forall i :: 0 <= i < |items| ==> items[i].key in d && d[items[i].key] == items[i].value)
    && done == Apply(map[], items)
    && done.Keys !! rest.Keys && done + rest == d
    && |items| + |rest| == |d|
  }

  /** Moving the least key of `rest` to the end of `items` keeps `SortInv`. */
  lemma {:induction false} SortStep(d: Data, items: seq<Entry>, rest: Data, done: Data, k: Bytes)
    requires SortInv(d, items, rest, done)
    requires k in rest && forall j :: j in rest && j != k ==> Less(k, j)
    ensures SortInv(d, items + [Entry(k, rest[k])], rest - {k}, done[k := rest[k]])
  {
    SortStepOrder(items, rest, k);
    SortStepMembers(d, items, rest, done, k);
    SortStepApply(items, done, Entry(k, rest[k]));
    MoveKey(done, rest, k);
  }

  lemma {:induction false} SortStepMembers(d: Data, items: seq<Entry>, rest: Data, done: Data, k: Bytes)
    requires forall i :: 0 <= i < |items| ==> items[i].key in d && d[items[i].key] == items[i].value
    requires done.Keys !! rest.Keys && done + rest == d
    requires k in rest
    ensures forall i :: 0 <= i < |items| + 1 ==>
      (items + [Entry(k, rest[k])])[i].key in d && d[(items + [Entry(k, rest[k])])[i].key] == (items + [Entry(k, rest[k])])[i].value
  {
    assert (done + rest)[k] == rest[k];
  }

  lemma {:induction false} SortStepApply(items: seq<Entry>, done: Data, e: Entry)
    requires done == Apply(map[], items)
    ensures done[e.key := e.value] == Apply(map[], items + [e])
  {
    assert (items + [e])[..|items|] == items;
  }

  lemma {:induction false} AscendingSnoc(ks: seq<Bytes>, k: Bytes)
    requires StrictlyAscending(ks)
    requires forall i :: 0 <= i < |ks| ==> Less(ks[i], k)
    ensures StrictlyAscending(ks + [k])
  {
  }

  /** The ordering half of `SortStep`. */
  lemma {:induction false} SortStepOrder(items: seq<Entry>, rest: Data, k: Bytes)
    requires StrictlyAscending(KeysOf(items))
    requires forall i, j :: 0 <= i < |items| && j in rest ==> Less(items[i].key, j)
    requires k in rest && forall j :: j in rest && j != k ==> Less(k, j)
    ensures StrictlyAscending(KeysOf(items + [Entry(k, rest[k])]))
    ensures forall i, j :: 0 <= i < |items| + 1 && j in rest - {k} ==> Less((items + [Entry(k, rest[k])])[i].key, j)
  {
    var e := Entry(k, rest[k]);
    assert KeysOf(items + [e]) == KeysOf(items) + [k];
    AscendingSnoc(KeysOf(items), k);
  }

  /** Moving one key from `rest` to `done` keeps their union. */
  lemma {:induction false} MoveKey(done: Data, rest: Data, k: Bytes)
    requires k in rest && done.Keys !! rest.Keys
    ensures done[k := rest[k]].Keys !! (rest - {k}).Keys
    ensures done[k := rest[k]] + (rest - {k}) == done + rest
    ensures |rest - {k}| == |rest| - 1
  {
  }

  /** `sorted(d.items())`: the items of a dictionary in ascending key order.
      Built by taking the least remaining key each time. */
  method SortedItems(d: Data) returns (items: seq<Entry>)
    ensures StrictlyAscending(KeysOf(items))
    ensures Apply(map[], items) == d
    ensures |items| == |d|
    ensures forall i :: 0 <= i < |items| ==> items[i].key in d && d[items[i].key] == items[i].value
  {
    var rest := d;
    ghost var done: Data := map[];
    items := [];
    while rest != map[]
      invariant SortInv(d, items, rest, done)
      decreases |rest|
    {
      ghost var m := MinimumExists(rest.Keys);
      var k :| k in rest && forall j :: j in rest && j != k ==> Less(k, j);
      SortStep(d, items, rest, done, k);
      done := done[k := rest[k]];
      items := items + [Entry(k, rest[k])];
      rest := rest - {k};
    }
    assert done + rest == done;
  }

  class MemTable {
    const capacity: int
    const wal: WAL
    var data: Data
    var size: nat

    /** Every held entry can be framed again by a flush. */
    ghost predicate Valid()
      reads this
    {
      forall k | k in data :: Encodable(Entry(k, data[k]))
    }

    constructor (walFile: Bytes, capacity: int)
      ensures Valid() && fresh(wal)
      ensures this.capacity == capacity && data == map[] && size == 0
      ensures wal.file == walFile && wal.offset == 0
    {
      this.capacity := capacity;
      wal := new WAL(walFile);
      data := map[];
      size := 0;
    }

    /** `put`: logs the entry, then applies it. `size` counts puts,
        overwrites included. */
    method Put(key: Bytes, value: Option<Value>)
      requires Valid() && Encodable(Entry(key, value))
      modifies this, wal
      ensures Valid()
      ensures wal.file == old(wal.file) + Frame(Entry(key, value))
      ensures wal.offset == old(wal.offset) + |Frame(Entry(key, value))|
      ensures data == old(data)[key := value]
      ensures size == old(size) + 1
    {
      var _ := wal.Append(key, value);
      data := data[key := value];
      size := size + 1;
    }

    /** `get`: an absent key and a tombstone both read as `None`. */
    method Get(key: Bytes) returns (v: Option<Value>)
      ensures v.Some? <==> key in data && data[key].Some?
      ensures v.Some? ==> v == data[key]
    {
      v := if key in data then data[key] else None;
    }

    /** `delete`: a put of the tombstone, which stays in `data`. */
    method Delete(key: Bytes)
      requires Valid() && FitsU32(|key|)
      modifies this, wal
      ensures Valid()
      ensures wal.file == old(wal.file) + Frame(Entry(key, None))
      ensures wal.offset == old(wal.offset) + |Frame(Entry(key, None))|
      ensures data == old(data)[key := None]
      ensures key in data && data[key] == None
      ensures size == old(size) + 1
    {
      Put(key, None);
    }

    /** `is_full` counts distinct keys, not puts. */
    predicate IsFull()
      reads this
    {
      |data| >= capacity
    }

    /** `flush`: the entries sorted by key, one per key, exactly the
        previous contents; afterwards the table and its log are empty. */
    method Flush() returns (items: seq<Entry>)
      requires Valid()
      modifies this, wal
      ensures Valid()
      ensures StrictlyAscending(KeysOf(items))
      ensures Apply(map[], items) == old(data)
      ensures |items| == |old(data)|
      ensures AllEncodable(items)
      ensures data == map[] && size == 0
      ensures wal.file == [] && wal.offset == 0
    {
      items := SortedItems(data);
      data := map[];
      size := 0;
      wal.Clear();
    }

    /** `recover`: replays the log into `data`; the last logged value of a key
        wins. `size` is left as it was. */
    method Recover() returns (err: Option<UnpackError>)
      requires Valid()
      modifies this
      ensures Valid()
      ensures err.None? ==> DecodeLog(wal.file).Ok? && data == Apply(old(data), DecodeLog(wal.file).value)
      ensures err.Some? ==> DecodeLog(wal.file) == Err(err.value) && data == old(data)
      ensures size == old(size)
    {
      var r := Wal.Recover(Some(wal.file));
      if r.Err? {
        return Some(r.error);
      }
      var entries := r.value;
      DecodedEncodable(wal.file);
      for i := 0 to |entries|
        invariant Valid()
        invariant data == Apply(old(data), entries[..i])
        invariant size == old(size)
      {
        assert entries[..i + 1][..i] == entries[..i];
        data := data[entries[i].key := entries[i].value];
      }
      assert entries[..|entries|] == entries;
      err := None;
    }
  }
}
