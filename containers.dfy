/** The storage engine as a table or a collection uses it: the container's
    list of record offsets kept in the metadata, the record each offset
    reads back as, the indexed fields, and the ids handed to
    `delete_record`. The block format and the cache behind it are modelled
    in the FileEngine module. */
module Containers {
  import opened Bytes
  import opened Wrappers
  import opened Documents
  import opened Query

  /** A record is to be deleted when it reads back, matches the query
      without error and has the id field the delete call needs; any
      failure on the way keeps it. */
  predicate Doomed(records: map<nat, Dict>, query: Dict, idField: Bytes, o: nat) {
    o in records && Matches(records[o], query) == Ok(true) && HasKey(records[o], idField)
  }

  /** The offsets that survive a delete, in their order. */
  function Kept(offsets: seq<nat>, records: map<nat, Dict>, query: Dict, idField: Bytes): (r: seq<nat>)
    ensures |r| <= |offsets|
  {
    if offsets == [] then []
    else
      var n := |offsets| - 1;
      var front := Kept(offsets[..n], records, query, idField);
      if Doomed(records, query, idField, offsets[n]) then front else front + [offsets[n]]
  }

  /** The ids of the deleted records, in listing order. */
  function DoomedIds(offsets: seq<nat>, records: map<nat, Dict>, query: Dict, idField: Bytes): seq<Val> {
    if offsets == [] then []
    else
      var n := |offsets| - 1;
      var front := DoomedIds(offsets[..n], records, query, idField);
      var o := offsets[n];
      if Doomed(records, query, idField, o) then front + [Get(records[o], idField).value] else front
  }

  /** A delete keeps exactly the offsets whose records are not doomed, in
      their order, and every offset is either kept or has its id deleted. */
  lemma {:induction false} KeptMeaning(offsets: seq<nat>, records: map<nat, Dict>, query: Dict, idField: Bytes)
    ensures var k := Kept(offsets, records, query, idField);
      && (forall o :: o in k <==> o in offsets && !Doomed(records, query, idField, o))
      && Subseq(k, offsets)
      && |k| + |DoomedIds(offsets, records, query, idField)| == |offsets|
  {
    if offsets != [] {
      var n := |offsets| - 1;
      KeptMeaning(offsets[..n], records, query, idField);
      var front := Kept(offsets[..n], records, query, idField);
      assert offsets == offsets[..n] + [offsets[n]];
      if Doomed(records, query, idField, offsets[n]) {
        SubseqExtend(front, offsets[..n], offsets[n]);
      } else {
        SubseqBoth(front, offsets[..n], offsets[n]);
      }
    }
  }

  lemma {:induction false} SubseqExtend<T>(a: seq<T>, b: seq<T>, x: T)
    requires Subseq(a, b)
    ensures Subseq(a, b + [x])
    decreases |b|
  {
    if a != [] {
      assert (b + [x])[1..] == b[1..] + [x];
      if a[0] == b[0] && Subseq(a[1..], b[1..]) {
        SubseqExtend(a[1..], b[1..], x);
      } else {
        SubseqExtend(a, b[1..], x);
      }
    }
  }

  lemma {:induction false} SubseqBoth<T>(a: seq<T>, b: seq<T>, x: T)
    requires Subseq(a, b)
    ensures Subseq(a + [x], b + [x])
    decreases |b|
  {
    if a == [] {
      SubseqSingle(b, x);
      assert a + [x] == [x];
    } else {
      assert (b + [x])[1..] == b[1..] + [x];
      assert (a + [x])[1..] == a[1..] + [x];
      if a[0] == b[0] && Subseq(a[1..], b[1..]) {
        SubseqBoth(a[1..], b[1..], x);
      } else {
        SubseqBoth(a, b[1..], x);
      }
    }
  }

  lemma {:induction false} SubseqSingle<T>(b: seq<T>, x: T)
    ensures Subseq([x], b + [x])
    decreases |b|
  {
    if b != [] {
      assert (b + [x])[1..] == b[1..] + [x];
      SubseqSingle(b[1..], x);
    }
  }

  /** What `scan_table` returns: the records at the listed offsets that read
      back, in listing order. */
  function ScanOf(offsets: seq<nat>, records: map<nat, Dict>): (r: seq<Dict>)
    ensures |r| <= |offsets|
    ensures forall d :: d in r <==> exists i :: 0 <= i < |offsets| && offsets[i] in records && records[offsets[i]] == d
  {
    if offsets == [] then []
    else
      var rest := ScanOf(offsets[1..], records);
      assert forall i :: 1 <= i < |offsets| ==> offsets[i] == offsets[1..][i - 1];
      if offsets[0] in records then [records[offsets[0]]] + rest else rest
  }

  class Store {
    /** `metadata[...][name]['offsets']`. */
    var offsets: seq<nat>
    /** The record `read_record` returns for each offset; a missing offset
        is a read that raises. */
    var records: map<nat, Dict>
    /** The offset the next appended record gets. */
    var next: nat
    /** The fields of this container with an index. */
    var indexed: set<Bytes>
    /** The ids passed to `delete_record`, in order. */
    var deleted: seq<Val>

    ghost predicate Valid()
      reads this
    {
      forall o :: o in records ==> o < next
    }

    constructor ()
      ensures Valid() && offsets == [] && records == map[] && next == 0 && indexed == {} && deleted == []
    {
      offsets := [];
      records := map[];
      next := 0;
      indexed := {};
      deleted := [];
    }

    function Scan(): (r: seq<Dict>)
      reads this
    {
      ScanOf(offsets, records)
    }

    /** `insert_record`: the record goes to a new offset, which is added to
        the container's list. */
    method InsertRecord(doc: Dict) returns (offset: nat)
      requires Valid()
      modifies this
      ensures Valid()
      ensures offset == old(next) && offset !in old(records) && next == old(next) + 1
      ensures records == old(records)[offset := doc] && offsets == old(offsets) + [offset]
      ensures indexed == old(indexed) && deleted == old(deleted)
    {
      offset := next;
      records := records[offset := doc];
      offsets := offsets + [offset];
      next := next + 1;
    }

    /** `update_record` as the callers rely on it: the new version goes to a
        new offset and the caller puts that offset in place of the old one. */
    method UpdateRecord(doc: Dict) returns (offset: nat)
      requires Valid()
      modifies this
      ensures Valid()
      ensures offset == old(next) && offset !in old(records) && next == old(next) + 1
      ensures records == old(records)[offset := doc]
      ensures offsets == old(offsets) && indexed == old(indexed) && deleted == old(deleted)
    {
      offset := next;
      records := records[offset := doc];
      next := next + 1;
    }

    /** `create_index`: a field already indexed stays as it is. */
    method CreateIndex(field: Bytes)
      modifies this
      ensures indexed == old(indexed) + {field}
      ensures offsets == old(offsets) && records == old(records) && next == old(next) && deleted == old(deleted)
    {
      indexed := indexed + {field};
    }

    /** The loop of `Table.delete` and `Collection.delete_many`: every
        listed record that matches is deleted by its id and counted; the
        rest, including those whose read, match or id lookup fails, stay
        listed in their order. */
    method DeleteWhere(query: Dict, idField: Bytes) returns (count: nat)
      requires Valid()
      modifies this
      ensures Valid()
      ensures offsets == Kept(old(offsets), old(records), query, idField)
      ensures deleted == old(deleted) + DoomedIds(old(offsets), old(records), query, idField)
      ensures count == |old(offsets)| - |offsets|
      ensures records == old(records) && next == old(next) && indexed == old(indexed)
    {
      var all := offsets;
      var kept: seq<nat> := [];
      count := 0;
      var i := 0;
      while i < |all|
        invariant i <= |all| && records == old(records) && next == old(next) && indexed == old(indexed)
        invariant kept == Kept(all[..i], records, query, idField)
        invariant deleted == old(deleted) + DoomedIds(all[..i], records, query, idField)
        invariant count == |DoomedIds(all[..i], records, query, idField)|
      {
        var o := all[i];
        assert all[..i + 1][..i] == all[..i] && all[..i + 1][i] == o;
        var m := if o in records then Matches(records[o], query) else Ok(false);
        if o in records && m == Ok(true) && Get(records[o], idField).Some? {
          deleted := deleted + [Get(records[o], idField).value];
          count := count + 1;
        } else {
          kept := kept + [o];
        }
        i := i + 1;
      }
      assert all[..i] == all;
      KeptMeaning(all, records, query, idField);
      offsets := kept;
    }
  }
}
