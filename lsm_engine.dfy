/** The LSM storage engine object: a MemTable in front of the SSTable list,
    kept newest first, the SSTable files of the database directory, and the
    per-container id lists that the table and collection layers count. */
module LsmEngine {
  import opened Bytes
  import opened Wrappers
  import opened Packing
  import opened Wal
  import opened MemTables
  import opened SSTables
  import opened LsmReads
  import opened Documents
  import Query

  const COLON: Byte := 58

  /** ".sst" */
  const SST_SUFFIX: Bytes := [46, 115, 115, 116]

  /** A record as the engine sees it: the values of its `id` and `_id`
      fields when present, and the whole record as msgpack packs it. */
  datatype Doc = Doc(id: Option<Val>, altId: Option<Val>, packed: Value)

  /** `rec_id`: `id` is preferred to `_id`. */
  function RecordId(doc: Doc): Option<Val> {
    if doc.id.Some? then doc.id else doc.altId
  }

  /** "None", "True" and "False". */
  const NONE_TEXT: Bytes := [78, 111, 110, 101]
  const TRUE_TEXT: Bytes := [84, 114, 117, 101]
  const FALSE_TEXT: Bytes := [70, 97, 108, 115, 101]

  /** `str(n)` for a natural number. */
  function Decimal(n: nat): Bytes {
    Digits(n, DecimalWidth(n))
  }

  /** `str(id)`, the text an f-string puts after the colon of the storage
      key. Strings inside a list or dict are quoted, not escaped. */
  function IdText(v: Val): Bytes
    decreases v, 1
  {
    match v
    case Null => NONE_TEXT
    case Bool(b) => if b then TRUE_TEXT else FALSE_TEXT
    case Int(i) => if i < 0 then [45] + Decimal(-i) else Decimal(i)
    case Str(s) => s
    case List(xs) => [91] + ReprItems(xs) + [93]
    case Obj(fs) => [123] + ReprFields(fs) + [125]
  }

  /** `repr(v)` as a list or dict shows its items: strings in quotes. */
  function Repr(v: Val): Bytes
    decreases v, 2
  {
    if v.Str? then [39] + v.s + [39] else IdText(v)
  }

  function ReprItems(xs: seq<Val>): Bytes
    decreases xs, 3
  {
    if xs == [] then []
    else Repr(xs[0]) + (if |xs| == 1 then [] else [44, 32] + ReprItems(xs[1..]))
  }

  function ReprFields(fs: seq<Field>): Bytes
    decreases fs, 3
  {
    if fs == [] then []
    else
      [39] + fs[0].name + [39, 58, 32] + Repr(fs[0].value)
      + (if |fs| == 1 then [] else [44, 32] + ReprFields(fs[1..]))
  }

  /** The storage key `f"{container}:{id}"`. */
  function StorageKey(container: Bytes, id: Bytes): (k: Bytes)
    ensures StartsWith(k, container + [COLON])
  {
    assert (container + [COLON] + id)[..|container| + 1] == container + [COLON];
    container + [COLON] + id
  }

  /** The position of the first `b` in `s`, or `|s|` when there is none. */
  function FirstIndex(s: Bytes, b: Byte): nat {
    if s == [] then 0 else if s[0] == b then 0 else 1 + FirstIndex(s[1..], b)
  }

  lemma {:induction false} FirstColon(c: Bytes, rest: Bytes)
    requires COLON !in c
    ensures FirstIndex(c + [COLON] + rest, COLON) == |c|
  {
    if c != [] {
      assert (c + [COLON] + rest)[1..] == c[1..] + [COLON] + rest;
      FirstColon(c[1..], rest);
    }
  }

  /** For container names without a colon, the scan prefix `container:`
      selects exactly that container's storage keys. */
  lemma {:induction false} ContainerOfKey(c: Bytes, other: Bytes, id: Bytes)
    requires COLON !in c && COLON !in other
    requires StartsWith(StorageKey(other, id), c + [COLON])
    ensures c == other
  {
    var k := StorageKey(other, id);
    assert k == k[..|c| + 1] + k[|c| + 1..];
    FirstColon(c, k[|c| + 1..]);
    FirstColon(other, id);
    assert c == k[..|c|];
    assert other == k[..|other|];
  }

  /** Without that condition the prefix is not enough: scanning container
      `c` also returns the records of a container named `c:d`. */
  lemma {:induction false} NestedContainerLeaks(c: Bytes, d: Bytes, id: Bytes, v: Value)
    ensures var k := StorageKey(c + [COLON] + d, id);
      && c + [COLON] + d != c
      && Scan(map[k := Some(v)], [], c + [COLON]) == Ok(map[k := v])
  {
    var k := StorageKey(c + [COLON] + d, id);
    assert |c + [COLON] + d| > |c|;
    assert k[..|c| + 1] == c + [COLON];
    assert StartsWith(k, c + [COLON]);
    var m := Overlay(map[], map[k := Some(v)], c + [COLON]);
    assert m.Keys == {k};
    assert m == map[k := v];
  }

  /** `x in s` on a Python list: some listed value compares equal to `x`. */
  predicate Listed(s: seq<Val>, x: Val) {
    exists i :: 0 <= i < |s| && Equal(s[i], x)
  }

  /** No id is listed twice: no listed value equals a later one. */
  predicate NoDup(s: seq<Val>) {
    forall i, j :: 0 <= i < j < |s| ==> !Equal(s[i], s[j])
  }

  /** The number of listed values equal to `x`. */
  function Count(s: seq<Val>, x: Val): nat {
    if s == [] then 0 else (if Equal(s[0], x) then 1 else 0) + Count(s[1..], x)
  }

  /** `if id not in offsets: offsets.append(id)`. */
  function Track(offsets: seq<Val>, id: Val): seq<Val> {
    if Listed(offsets, id) then offsets else offsets + [id]
  }

  /** The position `list.remove(x)` takes out: the first value equal to
      `x`, or `|s|` when there is none. */
  function FirstMatch(s: seq<Val>, x: Val): (i: nat)
    ensures i <= |s| && (i < |s| ==> Equal(s[i], x))
    ensures forall k :: 0 <= k < i ==> !Equal(s[k], x)
  {
    if s == [] || Equal(s[0], x) then 0
    else
      var i := 1 + FirstMatch(s[1..], x);
      assert forall k :: 1 <= k < i ==> s[k] == s[1..][k - 1];
      i
  }

  lemma {:induction false} FirstMatchListed(s: seq<Val>, x: Val)
    ensures Listed(s, x) <==> FirstMatch(s, x) < |s|
  {
    if Listed(s, x) {
      var k :| 0 <= k < |s| && Equal(s[k], x);
    }
  }

  /** `offsets.remove(id)`: the first value equal to the id goes, if there
      is one. */
  function RemoveFirst(s: seq<Val>, x: Val): seq<Val> {
    if s == [] then []
    else if Equal(s[0], x) then s[1..]
    else [s[0]] + RemoveFirst(s[1..], x)
  }

  /** `remove` cuts out exactly the first value equal to the id and keeps
      the others in their order. */
  lemma {:induction false} RemoveFirstOrder(s: seq<Val>, x: Val)
    requires Listed(s, x)
    ensures RemoveFirst(s, x) == s[..FirstMatch(s, x)] + s[FirstMatch(s, x) + 1..]
  {
    FirstMatchListed(s, x);
    RemoveAtMatch(s, x, FirstMatch(s, x));
  }

  lemma {:induction false} RemoveAtMatch(s: seq<Val>, x: Val, i: nat)
    requires i < |s| && Equal(s[i], x)
    requires forall k :: 0 <= k < i ==> !Equal(s[k], x)
    ensures RemoveFirst(s, x) == s[..i] + s[i + 1..]
  {
    if i == 0 {
      assert s[..0] + s[1..] == s[1..];
    } else {
      assert !Equal(s[0], x);
      var t := s[1..];
      forall k | 0 <= k < i - 1
        ensures !Equal(t[k], x)
      {
        assert t[k] == s[k + 1];
      }
      RemoveAtMatch(t, x, i - 1);
      assert RemoveFirst(s, x) == [s[0]] + RemoveFirst(t, x);
      assert t[..i - 1] + t[i..] == s[1..i] + s[i + 1..] by {
        assert t[..i - 1] == s[1..i] && t[i..] == s[i + 1..];
      }
      assert s[..i] == [s[0]] + s[1..i];
    }
  }

  /** `remove` takes away one listed value, the first equal to the id. */
  lemma {:induction false} RemoveFirstMultiset(s: seq<Val>, x: Val)
    requires Listed(s, x)
    ensures multiset(RemoveFirst(s, x)) == multiset(s) - multiset{s[FirstMatch(s, x)]}
  {
    var i := FirstMatch(s, x);
    FirstMatchListed(s, x);
    RemoveFirstOrder(s, x);
    CutMultiset(s, i);
  }

  lemma {:induction false} CutMultiset(s: seq<Val>, i: nat)
    requires i < |s|
    ensures multiset(s[..i] + s[i + 1..]) == multiset(s) - multiset{s[i]}
  {
    assert s == s[..i] + [s[i]] + s[i + 1..];
  }

  /** Removing an id that is not listed changes nothing. */
  lemma {:induction false} RemoveFirstAbsent(s: seq<Val>, x: Val)
    requires !Listed(s, x)
    ensures RemoveFirst(s, x) == s
  {
    if s != [] {
      assert !Equal(s[0], x);
      assert !Listed(s[1..], x) by {
        forall k | 0 <= k < |s| - 1
          ensures !Equal(s[1..][k], x)
        {
          assert s[1..][k] == s[k + 1];
        }
      }
      RemoveFirstAbsent(s[1..], x);
      assert [s[0]] + s[1..] == s;
    }
  }

  /** On a list without repeats, one scalar id is listed at most once. */
  lemma {:induction false} NoDupCount(s: seq<Val>, x: Val)
    requires NoDup(s) && Scalar(x)
    ensures Count(s, x) == if Listed(s, x) then 1 else 0
  {
    if s != [] {
      var t := s[1..];
      assert NoDup(t) by {
        forall i, j | 0 <= i < j < |t|
          ensures !Equal(t[i], t[j])
        {
          assert t[i] == s[i + 1] && t[j] == s[j + 1];
        }
      }
      NoDupCount(t, x);
      if Equal(s[0], x) {
        assert !Listed(t, x) by {
          if Listed(t, x) {
            var k :| 0 <= k < |t| && Equal(t[k], x);
            assert t[k] == s[k + 1];
            EqualScalar(s[0], x, t[k]);
          }
        }
      } else {
        assert Listed(s, x) <==> Listed(t, x) by {
          if Listed(s, x) {
            var k :| 0 <= k < |s| && Equal(s[k], x);
            assert t[k - 1] == s[k];
          }
          if Listed(t, x) {
            var k :| 0 <= k < |t| && Equal(t[k], x);
            assert t[k] == s[k + 1];
          }
        }
      }
    }
  }

  /** After `insert_record` the id is listed, a scalar id exactly once, no
      id is listed twice, and the list only ever gains the id at its end. */
  lemma {:induction false} TrackOnce(s: seq<Val>, id: Val)
    requires NoDup(s)
    ensures NoDup(Track(s, id)) && Listed(Track(s, id), id)
    ensures Scalar(id) ==> Count(Track(s, id), id) == 1
    ensures Track(s, id) == s || Track(s, id) == s + [id]
  {
    var t := Track(s, id);
    if !Listed(s, id) {
      EqualReflexive(id);
      assert t[|s|] == id;
      forall i, j | 0 <= i < j < |t|
        ensures !Equal(t[i], t[j])
      {
        assert t[i] == s[i];
        if j < |s| {
          assert t[j] == s[j];
        }
      }
    }
    if Scalar(id) {
      NoDupCount(t, id);
    }
  }

  /** After `delete_record` no id is listed twice, every value not equal to
      the id is still listed, and a scalar id is no longer listed. */
  lemma {:induction false} RemoveFirstNoDup(s: seq<Val>, x: Val)
    requires NoDup(s)
    ensures NoDup(RemoveFirst(s, x))
    ensures forall y :: !Equal(y, x) ==> (y in RemoveFirst(s, x) <==> y in s)
    ensures Scalar(x) ==> !Listed(RemoveFirst(s, x), x)
  {
    if !Listed(s, x) {
      RemoveFirstAbsent(s, x);
    } else {
      FirstMatchListed(s, x);
      var i := FirstMatch(s, x);
      var r := RemoveFirst(s, x);
      RemoveFirstOrder(s, x);
      assert |r| == |s| - 1;
      assert forall p :: 0 <= p < i ==> r[p] == s[p];
      assert forall p :: i <= p < |r| ==> r[p] == s[p + 1];
      forall p, q | 0 <= p < q < |r|
        ensures !Equal(r[p], r[q])
      {
        var a := if p < i then p else p + 1;
        var b := if q < i then q else q + 1;
        assert r[p] == s[a] && r[q] == s[b] && a < b;
      }
      forall y | !Equal(y, x)
        ensures y in r <==> y in s
      {
        if y in s {
          var j :| 0 <= j < |s| && s[j] == y;
          if j < i {
            assert r[j] == y;
          } else {
            assert j != i;
            assert r[j - 1] == y;
          }
        }
      }
      if Scalar(x) {
        forall p | i <= p < |r|
          ensures !Equal(r[p], x)
        {
          assert r[p] == s[p + 1];
          EqualScalar(s[i], x, s[p + 1]);
        }
      }
    }
  }

  lemma {:induction false} RemoveFirstLength(s: seq<Val>, x: Val)
    ensures |RemoveFirst(s, x)| <= |s|
  {
    if s != [] && !Equal(s[0], x) {
      RemoveFirstLength(s[1..], x);
    }
  }

  /** The id lists compare raw values with `==`, while storage keys use
      their text: `1` and `'1'` share the key `c:1` yet are listed twice,
      `1` and `True` have different keys yet are listed once, and deleting
      `'1'` leaves a listed `1` in place. */
  lemma {:induction false} IdsComparedByValue(c: Bytes)
    ensures StorageKey(c, IdText(Int(1))) == StorageKey(c, IdText(Str([49])))
    ensures Track(Track([], Int(1)), Str([49])) == [Int(1), Str([49])]
    ensures StorageKey(c, IdText(Int(1))) != StorageKey(c, IdText(Bool(true)))
    ensures Track(Track([], Int(1)), Bool(true)) == [Int(1)]
    ensures RemoveFirst([Int(1)], Str([49])) == [Int(1)]
  {
    assert DecimalWidth(1) == 1;
    assert Digits(1, 1) == Digits(0, 0) + [49];
    assert IdText(Int(1)) == [49];
    assert IdText(Bool(true)) == TRUE_TEXT;
    assert |StorageKey(c, [49])| != |StorageKey(c, TRUE_TEXT)|;
    var one: seq<Val> := [Int(1)];
    assert !Listed([], Int(1));
    assert Track([], Int(1)) == one;
    assert !Equal(Int(1), Str([49]));
    assert !Listed(one, Str([49])) by {
      forall k | 0 <= k < |one|
        ensures !Equal(one[k], Str([49]))
      {
        assert one[k] == Int(1);
      }
    }
    assert Equal(one[0], Bool(true));
    assert Listed(one, Bool(true));
    assert RemoveFirst(one, Str([49])) == [Int(1)] + RemoveFirst([], Str([49]));
  }

  /** `delete_many` (and `Table.delete`) over this engine, as written. The
      loop walks the container's list of ids, reads each record and, when it
      matches (`doomed`), calls `delete_record` with the record's own
      `document['_id']` (`record['id']` for a table), here `delId` of the
      listed id. `delete_record` takes the first id `==` that one out of the
      very list the loop is walking; Python's list iterator moves by
      position, so when the two ids agree the id that slides into the freed
      position is never looked at. The result is the list `delete_many`
      stores at the end (the ids its loop kept) and the ids it passed to
      `delete_record`, whose number it returns. */
  function SharedListDelete(live: seq<Val>, k: nat, doomed: Val -> bool, delId: Val -> Val,
                            kept: seq<Val>, deleted: seq<Val>): (r: (seq<Val>, seq<Val>))
    ensures kept <= r.0 && deleted <= r.1
    ensures |r.0| + |r.1| <= |kept| + |deleted| + if k < |live| then |live| - k else 0
    decreases if k < |live| then |live| - k else 0
  {
    if k >= |live| then (kept, deleted)
    else if doomed(live[k]) then
      RemoveFirstLength(live, delId(live[k]));
      SharedListDelete(RemoveFirst(live, delId(live[k])), k + 1, doomed, delId, kept, deleted + [delId(live[k])])
    else SharedListDelete(live, k + 1, doomed, delId, kept + [live[k]], deleted)
  }

  /** The as-written loop keeps only ids whose record it found not matching,
      and passes to `delete_record` only the ids of records it found
      matching. The tombstone lands on `container:str(delId(id))`, which is
      the matching record's key only when `delId` gives back the listed id. */
  lemma {:induction false} SharedListSound(live: seq<Val>, k: nat, doomed: Val -> bool, delId: Val -> Val,
                                           kept: seq<Val>, deleted: seq<Val>)
    requires forall x :: x in kept ==> !doomed(x)
    requires forall x :: x in deleted ==> exists y :: doomed(y) && x == delId(y)
    ensures forall x :: x in SharedListDelete(live, k, doomed, delId, kept, deleted).0 ==> !doomed(x)
    ensures forall x :: x in SharedListDelete(live, k, doomed, delId, kept, deleted).1 ==>
      exists y :: doomed(y) && x == delId(y)
    decreases if k < |live| then |live| - k else 0
  {
    if k < |live| {
      if doomed(live[k]) {
        RemoveFirstLength(live, delId(live[k]));
        SharedListSound(RemoveFirst(live, delId(live[k])), k + 1, doomed, delId, kept, deleted + [delId(live[k])]);
      } else {
        SharedListSound(live, k + 1, doomed, delId, kept + [live[k]], deleted);
      }
    }
  }

  /** Two matching records listed under the id they are deleted by, `a`
      before `b`: the loop deletes `a`, which leaves `[b]`, and then stands
      past its end. `delete_many` stores an empty list and reports one
      deletion, while `b` is still stored. */
  lemma {:induction false} SharedListSkips(a: Val, b: Val, doomed: Val -> bool, delId: Val -> Val)
    requires doomed(a) && doomed(b) && delId(a) == a
    ensures SharedListDelete([a, b], 0, doomed, delId, [], []) == ([], [a])
  {
    var live := [a, b];
    assert live[0] == a && live[1..] == [b];
    EqualReflexive(a);
    assert RemoveFirst(live, a) == [b];
    var none: seq<Val> := [];
    assert none + [a] == [a];
    assert SharedListDelete(live, 0, doomed, delId, none, none) == SharedListDelete([b], 1, doomed, delId, none, [a]);
  }

  /** Two matching documents listed under their `id`s 1 and 2, with `_id`s
      "a" and "b": neither `_id` is listed, so nothing leaves the list, both
      are looked at, the count is 2 and the stored list is empty; but the
      tombstones land on `c:a` and `c:b`, not on the records' keys `c:1` and
      `c:2`, which still read. */
  lemma {:induction false} SharedListOtherKey(c: Bytes, doomed: Val -> bool, delId: Val -> Val)
    requires doomed(Int(1)) && doomed(Int(2))
    requires delId(Int(1)) == Str([97]) && delId(Int(2)) == Str([98])
    ensures SharedListDelete([Int(1), Int(2)], 0, doomed, delId, [], []) == ([], [Str([97]), Str([98])])
    ensures StorageKey(c, IdText(Str([97]))) != StorageKey(c, IdText(Int(1)))
    ensures StorageKey(c, IdText(Str([98]))) != StorageKey(c, IdText(Int(2)))
  {
    var live: seq<Val> := [Int(1), Int(2)];
    var none: seq<Val> := [];
    assert SharedListDelete(live, 0, doomed, delId, none, none)
        == SharedListDelete(live, 1, doomed, delId, none, [Str([97])]) by {
      assert live[0] == Int(1);
      UnlistedOther(live, Str([97]));
      assert none + [Str([97])] == [Str([97])];
    }
    assert SharedListDelete(live, 1, doomed, delId, none, [Str([97])])
        == SharedListDelete(live, 2, doomed, delId, none, [Str([97]), Str([98])]) by {
      assert live[1] == Int(2);
      UnlistedOther(live, Str([98]));
      assert [Str([97])] + [Str([98])] == [Str([97]), Str([98])];
    }
    assert IdText(Int(1)) == [49] && IdText(Int(2)) == [50] by {
      assert DecimalWidth(1) == 1 && DecimalWidth(2) == 1;
      assert Digits(1, 1) == Digits(0, 0) + [49];
      assert Digits(2, 1) == Digits(0, 0) + [50];
    }
    assert StorageKey(c, [97])[|c| + 1] != StorageKey(c, [49])[|c| + 1];
    assert StorageKey(c, [98])[|c| + 1] != StorageKey(c, [50])[|c| + 1];
  }

  /** A string id is never `==` to a list of integer ids, so `remove`
      leaves such a list alone. */
  lemma {:induction false} UnlistedOther(live: seq<Val>, x: Val)
    requires x.Str? && forall k :: 0 <= k < |live| ==> live[k].Int?
    ensures RemoveFirst(live, x) == live
  {
    forall k | 0 <= k < |live|
      ensures !Equal(live[k], x)
    {
      assert live[k].Int?;
    }
    RemoveFirstAbsent(live, x);
  }

  /** The loop as `delete_one` guards it, walking a copy of the list:
      every id is looked at once, the matching ones are deleted and the
      others kept, both in listing order. */
  function SnapshotDelete(ids: seq<Val>, doomed: Val -> bool): (r: (seq<Val>, seq<Val>))
    ensures |r.0| + |r.1| == |ids|
    ensures forall x :: x in r.0 <==> x in ids && !doomed(x)
    ensures forall x :: x in r.1 <==> x in ids && doomed(x)
    ensures Query.Subseq(r.0, ids) && Query.Subseq(r.1, ids)
  {
    if ids == [] then ([], [])
    else
      var rest := SnapshotDelete(ids[1..], doomed);
      assert ids == [ids[0]] + ids[1..];
      if doomed(ids[0]) then
        assert ([ids[0]] + rest.1)[1..] == rest.1;
        (rest.0, [ids[0]] + rest.1)
      else
        assert ([ids[0]] + rest.0)[1..] == rest.0;
        ([ids[0]] + rest.0, rest.1)
  }

  function Pow10(n: nat): nat {
    if n == 0 then 1 else 10 * Pow10(n - 1)
  }

  /** The last `w` decimal digits of `n` in ASCII, most significant first. */
  function Digits(n: nat, w: nat): (r: Bytes)
    ensures |r| == w
  {
    if w == 0 then [] else Digits(n / 10, w - 1) + [48 + n % 10]
  }

  /** The number of digits of `str(n)`. */
  function DecimalWidth(n: nat): nat {
    if n < 10 then 1 else 1 + DecimalWidth(n / 10)
  }

  /** `f"{n:06d}.sst"`: at least six digits, zero-padded. */
  function TableName(n: nat): Bytes {
    Digits(n, if DecimalWidth(n) < 6 then 6 else DecimalWidth(n)) + SST_SUFFIX
  }

  lemma {:induction false} WidthBound(n: nat, k: nat)
    requires 1 <= k && n < Pow10(k)
    ensures DecimalWidth(n) <= k
  {
    if n >= 10 {
      WidthBound(n / 10, k - 1);
    }
  }

  /** Equal-width digit strings sort like the numbers they spell. */
  lemma {:induction false} DigitsOrder(i: nat, j: nat, w: nat)
    requires i < j < Pow10(w)
    ensures Less(Digits(i, w), Digits(j, w))
  {
    if i / 10 < j / 10 {
      DigitsOrder(i / 10, j / 10, w - 1);
      LessAppend(Digits(i / 10, w - 1), Digits(j / 10, w - 1), [48 + i % 10], [48 + j % 10]);
    } else {
      LessLastByte(Digits(i / 10, w - 1), 48 + i % 10, 48 + j % 10);
    }
  }

  /** Below a million, table names sort like the counts they were made from. */
  lemma {:induction false} TableNameOrder(i: nat, j: nat)
    requires i < j < 1000000
    ensures Less(TableName(i), TableName(j))
  {
    assert Pow10(6) == 1000000;
    WidthBound(i, 6);
    WidthBound(j, 6);
    DigitsOrder(i, j, 6);
    LessAppend(Digits(i, 6), Digits(j, 6), SST_SUFFIX, SST_SUFFIX);
  }

  /** From a million on they do not: `1000000.sst` sorts before `999999.sst`. */
  lemma {:induction false} TableNameOrderBreaks()
    ensures Less(TableName(1000000), TableName(999999))
  {
    assert DecimalWidth(1000000) == 7 && DecimalWidth(999999) == 6;
    assert TableName(1000000)[0] == 49 && TableName(999999)[0] == 57;
  }

  /** Strictly descending, as `sorted(..., reverse=True)` orders distinct names. */
  predicate Descending(s: seq<Bytes>) {
    forall i, j :: 0 <= i < j < |s| ==> Less(s[j], s[i])
  }

  /** What `glob("*.sst")` matches: names ending in `.sst` that do not
      start with a dot. */
  predicate IsTableFile(name: Bytes) {
    |name| >= 4 && name[|name| - 4..] == SST_SUFFIX && name[0] != 46
  }

  /** `sorted(names, reverse=True)`: each round takes the least remaining
      name and puts it in front. */
  method SortDescending(names: set<Bytes>) returns (r: seq<Bytes>)
    ensures Descending(r)
    ensures forall x :: x in r <==> x in names
  {
    var rest := names;
    r := [];
    while rest != {}
      invariant rest <= names && Descending(r)
      invariant forall x :: x in r <==> x in names && x !in rest
      invariant forall i, y :: 0 <= i < |r| && y in rest ==> Less(r[i], y)
      decreases |rest|
    {
      ghost var m := MinimumExists(rest);
      var k :| k in rest && forall y :: y in rest && y != k ==> Less(k, y);
      r := [k] + r;
      rest := rest - {k};
    }
  }

  lemma {:induction false} MaxFirst(s: seq<Bytes>, x: Bytes)
    requires Descending(s) && x in s
    ensures x == s[0] || Less(x, s[0])
  {
    var k :| 0 <= k < |s| && s[k] == x;
  }

  lemma {:induction false} DescendingTail(s: seq<Bytes>, x: Bytes)
    requires Descending(s) && s != []
    ensures Descending(s[1..])
    ensures x in s[1..] <==> x in s && x != s[0]
  {
    LessIrreflexive(s[0]);
    if x in s[1..] {
      var k :| 0 <= k < |s| - 1 && s[1..][k] == x;
      assert s[k + 1] == x;
    }
    if x in s && x != s[0] {
      var k :| 0 <= k < |s| && s[k] == x;
      assert s[1..][k - 1] == x;
    }
    forall i, j | 0 <= i < j < |s| - 1
      ensures Less(s[1..][j], s[1..][i])
    {
      assert s[1..][j] == s[j + 1] && s[1..][i] == s[i + 1];
    }
  }

  lemma {:induction false} NoMembersEmpty(b: seq<Bytes>)
    ensures (forall x :: x !in b) ==> b == []
  {
    if b != [] {
      assert b[0] in b;
    }
  }

  /** Two descending sequences of the same names are the same sequence. */
  lemma {:induction false} DescendingUnique(a: seq<Bytes>, b: seq<Bytes>)
    requires Descending(a) && Descending(b)
    requires forall x :: x in a <==> x in b
    ensures a == b
    decreases |a|
  {
    if a == [] {
      NoMembersEmpty(b);
    } else {
      assert a[0] in b;
      assert b[0] in a;
      MaxFirst(b, a[0]);
      MaxFirst(a, b[0]);
      LessAsymmetric(a[0], b[0]);
      forall x
        ensures x in a[1..] <==> x in b[1..]
      {
        DescendingTail(a, x);
        DescendingTail(b, x);
      }
      DescendingTail(a, a[0]);
      DescendingTail(b, b[0]);
      DescendingUnique(a[1..], b[1..]);
      assert a == [a[0]] + a[1..] && b == [b[0]] + b[1..];
    }
  }

  /** The names `n` flushes into an empty directory leave, newest first. */
  function NewestFirst(n: nat): (s: seq<Bytes>)
    ensures |s| == n && forall i :: 0 <= i < n ==> s[i] == TableName(n - 1 - i)
  {
    seq(n, i requires 0 <= i < n => TableName(n - 1 - i))
  }

  /** One more flush puts the next name in front. */
  lemma {:induction false} NewestFirstCons(n: nat)
    ensures NewestFirst(n + 1) == [TableName(n)] + NewestFirst(n)
  {
    var a, b := NewestFirst(n + 1), [TableName(n)] + NewestFirst(n);
    forall i | 0 <= i < n + 1
      ensures a[i] == b[i]
    {
      if i > 0 {
        assert b[i] == NewestFirst(n)[i - 1];
      }
    }
  }

  /** Reloading a directory whose tables all came from flushes gives back
      the newest-first order the flushes built, up to a million tables. */
  lemma {:induction false} ReloadOrder(names: seq<Bytes>, n: nat)
    requires n <= 1000000
    requires Descending(names)
    requires forall x :: x in names <==> exists i :: 0 <= i < n && x == TableName(i)
    ensures names == NewestFirst(n)
  {
    var s := NewestFirst(n);
    forall a, b | 0 <= a < b < n
      ensures Less(s[b], s[a])
    {
      TableNameOrder(n - 1 - b, n - 1 - a);
    }
    forall x
      ensures x in s <==> x in names
    {
      if x in names {
        var i :| 0 <= i < n && x == TableName(i);
        assert s[n - 1 - i] == x;
      }
      if x in s {
        var a :| 0 <= a < n && s[a] == x;
        assert x == TableName(n - 1 - a);
      }
    }
    DescendingUnique(names, s);
  }

  /** A directory holding only `000001.sst` loads one table, so the next
      flush is named `000001.sst` again and writes over the file the loaded
      table was read from. */
  lemma {:induction false} FlushNameReused(f: Bytes, names: seq<Bytes>)
    requires Descending(names)
    requires forall x :: x in names <==> x in map[TableName(1) := f] && IsTableFile(x)
    ensures names == [TableName(1)] && TableName(|names|) in names
  {
    var n := TableName(1);
    assert DecimalWidth(1) == 1;
    assert Digits(1, 6) == Digits(0, 5) + [49];
    assert Digits(0, 5)[0] == 48 by {
      assert Digits(0, 5) == Digits(0, 4) + [48];
      assert Digits(0, 4) == Digits(0, 3) + [48];
      assert Digits(0, 3) == Digits(0, 2) + [48];
      assert Digits(0, 2) == Digits(0, 1) + [48];
      assert Digits(0, 1) == Digits(0, 0) + [48];
    }
    assert n == Digits(1, 6) + SST_SUFFIX;
    assert n[|n| - 4..] == SST_SUFFIX;
    assert IsTableFile(n);
    DescendingUnique(names, [n]);
  }

  /** `_load_sstables`: the directory's table files, names in reverse sorted
      order, each loaded. */
  method LoadSSTables(files: map<Bytes, Bytes>) returns (names: seq<Bytes>, tables: seq<SSTable>)
    ensures Descending(names)
    ensures forall x :: x in names <==> x in files && IsTableFile(x)
    ensures |tables| == |names|
    ensures forall i :: 0 <= i < |names| ==> names[i] in files && tables[i].file == files[names[i]] && Loaded(tables[i])
  {
    var found := set x | x in files && IsTableFile(x);
    names := SortDescending(found);
    tables := [];
    for i := 0 to |names|
      invariant |tables| == i
      invariant forall k :: 0 <= k < i ==> names[k] in files && tables[k].file == files[names[k]] && Loaded(tables[k])
    {
      assert names[i] in found;
      var t := Load(files[names[i]]);
      tables := tables + [t];
    }
  }

  /** Two engine states answer every read and every scan alike. */
  ghost predicate SameReads(d: Data, ts: seq<SSTable>, d': Data, ts': seq<SSTable>) {
    && (forall k :: Newest(d, ts, k) == Newest(d', ts', k))
    && (forall k :: ReadAsWritten(d, ts, k) == ReadAsWritten(d', ts', k))
    && (forall p :: Scan(d, ts, p) == Scan(d', ts', p))
  }

  /** A flushed MemTable in front of the old tables answers like the
      MemTable did. */
  lemma {:induction false} FlushSameReads(data: Data, tables: seq<SSTable>, t: SSTable, items: seq<Entry>)
    requires Written(t, items) && Apply(map[], items) == data
    ensures SameReads(map[], [t] + tables, data, tables)
  {
    forall k
      ensures Newest(map[], [t] + tables, k) == Newest(data, tables, k)
      ensures ReadAsWritten(map[], [t] + tables, k) == ReadAsWritten(data, tables, k)
    {
      FlushPreservesReads(data, tables, t, items, k);
      FlushPreservesReadsAsWritten(data, tables, t, items, k);
    }
    forall p
      ensures Scan(map[], [t] + tables, p) == Scan(data, tables, p)
    {
      FlushPreservesScan(data, tables, t, items, p);
    }
  }

  /** The table-writing half of `_flush_memtable`: the MemTable's entries,
      sorted, become a new table, and the MemTable and its log are emptied. */
  method WriteMemTable(m: MemTable, ghost tables: seq<SSTable>) returns (t: SSTable, ghost flushed: seq<Entry>)
    requires m.Valid()
    modifies m, m.wal
    ensures m.Valid() && m.data == map[] && m.size == 0 && m.wal.file == []
    ensures Written(t, flushed) && Apply(map[], flushed) == old(m.data)
    ensures SameReads(map[], [t] + tables, old(m.data), tables)
  {
    var items := m.Flush();
    t := Write(items);
    FlushSameReads(old(m.data), tables, t, items);
    flushed := items;
  }

  /** The inner loop of `scan_table` over one table's index. */
  method ScanIndexInto(results: Results, t: SSTable, p: Bytes) returns (r: Result<Results, ReadError>)
    ensures r == OverlayIndex(results, t.file, t.index, p)
  {
    var acc := results;
    var j := 0;
    while j < |t.index|
      invariant 0 <= j <= |t.index|
      invariant OverlayIndex(results, t.file, t.index, p) == OverlayIndex(acc, t.file, t.index[j..], p)
    {
      var e := t.index[j];
      assert t.index[j..][1..] == t.index[j + 1..];
      if StartsWith(e.key, p) {
        var v := ReadAt(t.file, e.offset);
        if v.Err? {
          return Err(v.error);
        }
        acc := LsmReads.Put(acc, e.key, v.value);
      }
      j := j + 1;
    }
    return Ok(acc);
  }

  /** The outer loop of `scan_table` over the tables, oldest first. */
  method ScanAllTables(tables: seq<SSTable>, p: Bytes) returns (r: Result<Results, ReadError>)
    ensures r == ScanTables(tables, p)
  {
    var results: Results := map[];
    var i := |tables|;
    assert tables[i..] == [];
    while i > 0
      invariant 0 <= i <= |tables|
      invariant ScanTables(tables[i..], p) == Ok(results)
    {
      i := i - 1;
      assert tables[i..][1..] == tables[i + 1..];
      var o := ScanIndexInto(results, tables[i], p);
      if o.Err? {
        ScanTablesErr(tables, i, p);
        return o;
      }
      results := o.value;
    }
    assert tables[0..] == tables;
    return Ok(results);
  }

  /** The MemTable loop of `scan_table` has laid `done` over `results`,
      and `rest` is still to come. */
  ghost predicate MemScanInv(results: Results, data: Data, p: Bytes, done: Data, rest: Data, r: Results) {
    done.Keys !! rest.Keys && done + rest == data && r == Overlay(results, done, p)
  }

  lemma {:induction false} MemScanStart(results: Results, data: Data, p: Bytes)
    ensures MemScanInv(results, data, p, map[], data, results)
  {
    assert map[] + data == data;
    var o := Overlay(results, map[], p);
    assert forall k :: k in o <==> k in results;
  }

  lemma {:induction false} MemScanStep(results: Results, data: Data, p: Bytes, done: Data, rest: Data, r: Results, k: Bytes)
    requires MemScanInv(results, data, p, done, rest, r) && k in rest
    ensures MemScanInv(results, data, p, done[k := rest[k]], rest - {k}, Step(r, Entry(k, rest[k]), p))
    ensures |rest - {k}| < |rest|
  {
    MoveKey(done, rest, k);
    OverlayGrow(results, done, k, rest[k], p);
  }

  lemma {:induction false} MemScanDone(results: Results, data: Data, p: Bytes, done: Data, r: Results)
    requires MemScanInv(results, data, p, done, map[], r)
    ensures r == Overlay(results, data, p)
  {
    assert done + map[] == done;
  }

  /** The MemTable loop of `scan_table`, in whatever order the dictionary
      yields its keys. */
  method ScanMemTable(results: Results, data: Data, p: Bytes) returns (r: Results)
    ensures r == Overlay(results, data, p)
  {
    r := results;
    ghost var done: Data := map[];
    var rest := data;
    MemScanStart(results, data, p);
    while rest != map[]
      invariant MemScanInv(results, data, p, done, rest, r)
      decreases |rest|
    {
      assert rest.Keys != {};
      var k :| k in rest.Keys;
      var v := rest[k];
      MemScanStep(results, data, p, done, rest, r, k);
      if StartsWith(k, p) {
        r := LsmReads.Put(r, k, v);
      }
      done := done[k := v];
      rest := rest - {k};
    }
    MemScanDone(results, data, p, done, r);
  }

  /** `LSMStorageEngine`: the MemTable in front, the loaded SSTables newest
      first, the directory's files, and the id lists of the registered
      tables and collections. */
  class Engine {
    var memtable: MemTable
    var sstables: seq<SSTable>
    /** The file name each of `sstables` was loaded from or written to. */
    ghost var names: seq<Bytes>
    /** The `.sst` files of the database directory, by name. */
    var files: map<Bytes, Bytes>
    /** `metadata['tables'][c]['offsets']` for each registered table `c`. */
    var tables: map<Bytes, seq<Val>>
    /** `metadata['collections'][c]['offsets']` for each registered collection `c`. */
    var collections: map<Bytes, seq<Val>>

    /** The MemTable can be flushed, every table is loaded, and no id list
        has a repeat. */
    ghost predicate Valid()
      reads this, memtable
    {
      && memtable.Valid() && |names| == |sstables|
      && (forall t <- sstables :: Loaded(t))
      && (forall c <- tables :: NoDup(tables[c]))
      && (forall c <- collections :: NoDup(collections[c]))
    }

    /** `initialize`: a MemTable over the log file (not replayed), then the
        directory's tables, newest name first. */
    constructor (files: map<Bytes, Bytes>, walFile: Bytes, capacity: int)
      ensures Valid() && fresh(memtable) && fresh(memtable.wal)
      ensures memtable.data == map[] && memtable.size == 0 && memtable.capacity == capacity
      ensures memtable.wal.file == walFile
      ensures this.files == files && tables == map[] && collections == map[]
      ensures Descending(names) && forall x :: x in names <==> x in files && IsTableFile(x)
      ensures forall i :: 0 <= i < |names| ==> names[i] in files && sstables[i].file == files[names[i]]
    {
      memtable := new MemTable(walFile, capacity);
      var ns, ts := LoadSSTables(files);
      names := ns;
      sstables := ts;
      this.files := files;
      tables := map[];
      collections := map[];
    }

    /** `open`: a new MemTable over the same log, the tables reloaded, and
        the log replayed into the MemTable. */
    method Open() returns (err: Option<UnpackError>)
      requires Valid()
      modifies this
      ensures Valid() && fresh(memtable) && fresh(memtable.wal)
      ensures memtable.capacity == old(memtable.capacity) && memtable.size == 0
      ensures memtable.wal.file == old(memtable.wal.file)
      ensures err.None? ==> DecodeLog(memtable.wal.file).Ok? && memtable.data == Apply(map[], DecodeLog(memtable.wal.file).value)
      ensures err.Some? ==> DecodeLog(memtable.wal.file) == Err(err.value) && memtable.data == map[]
      ensures files == old(files) && tables == old(tables) && collections == old(collections)
      ensures Descending(names) && forall x :: x in names <==> x in files && IsTableFile(x)
      ensures forall i :: 0 <= i < |names| ==> names[i] in files && sstables[i].file == files[names[i]]
    {
      var m := new MemTable(memtable.wal.file, memtable.capacity);
      memtable := m;
      var ns, ts := LoadSSTables(files);
      names := ns;
      sstables := ts;
      err := m.Recover();
    }

    /** `_flush_memtable`: nothing happens while the MemTable has seen no
        put; otherwise its entries become a new table, written under the
        next zero-padded name and put in front of the list. Reads and scans
        answer as before. */
    method Flush() returns (ghost flushed: seq<Entry>)
      requires Valid()
      modifies this, memtable, memtable.wal
      ensures Valid() && memtable == old(memtable)
      ensures tables == old(tables) && collections == old(collections)
      ensures old(memtable.size) == 0 ==>
        && sstables == old(sstables) && names == old(names) && files == old(files)
        && memtable.data == old(memtable.data) && memtable.size == 0
        && memtable.wal.file == old(memtable.wal.file)
      ensures old(memtable.size) != 0 ==>
        && memtable.data == map[] && memtable.size == 0 && memtable.wal.file == []
        && |sstables| == |old(sstables)| + 1 && sstables[1..] == old(sstables)
        && names == [TableName(|old(sstables)|)] + old(names)
        && files == old(files)[TableName(|old(sstables)|) := sstables[0].file]
        && Written(sstables[0], flushed) && Apply(map[], flushed) == old(memtable.data)
      ensures SameReads(memtable.data, sstables, old(memtable.data), old(sstables))
    {
      if memtable.size == 0 {
        return [];
      }
      var name := TableName(|sstables|);
      var t;
      t, flushed := WriteMemTable(memtable, sstables);
      assert ([t] + sstables)[1..] == sstables;
      files := files[name := t.file];
      sstables := [t] + sstables;
      names := [name] + names;
    }

    /** The id-list bookkeeping of `insert_record`: the registered table, or
        else the registered collection, lists the id once. */
    method TrackId(container: Bytes, id: Val)
      requires Valid()
      modifies this
      ensures Valid()
      ensures memtable == old(memtable) && sstables == old(sstables) && names == old(names) && files == old(files)
      ensures tables == (if container in old(tables) then old(tables)[container := Track(old(tables)[container], id)] else old(tables))
      ensures collections == (if container !in old(tables) && container in old(collections)
                              then old(collections)[container := Track(old(collections)[container], id)] else old(collections))
    {
      if container in tables {
        TrackOnce(tables[container], id);
        if !Listed(tables[container], id) {
          tables := tables[container := tables[container] + [id]];
        }
      } else if container in collections {
        TrackOnce(collections[container], id);
        if !Listed(collections[container], id) {
          collections := collections[container := collections[container] + [id]];
        }
      }
    }

    /** The id-list bookkeeping of `delete_record`: the registered table, or
        else the registered collection, no longer lists the id. */
    method UntrackId(container: Bytes, id: Val)
      requires Valid()
      modifies this
      ensures Valid()
      ensures memtable == old(memtable) && sstables == old(sstables) && names == old(names) && files == old(files)
      ensures tables == (if container in old(tables) then old(tables)[container := RemoveFirst(old(tables)[container], id)] else old(tables))
      ensures collections == (if container !in old(tables) && container in old(collections)
                              then old(collections)[container := RemoveFirst(old(collections)[container], id)] else old(collections))
    {
      if container in tables {
        RemoveFirstNoDup(tables[container], id);
        if Listed(tables[container], id) {
          tables := tables[container := RemoveFirst(tables[container], id)];
        } else {
          RemoveFirstAbsent(tables[container], id);
        }
      } else if container in collections {
        RemoveFirstNoDup(collections[container], id);
        if Listed(collections[container], id) {
          collections := collections[container := RemoveFirst(collections[container], id)];
        } else {
          RemoveFirstAbsent(collections[container], id);
        }
      }
    }

    /** `insert_record`: a record without `id` or `_id` is refused; otherwise
        it is put under `container:id`, its id is listed once, and a full
        MemTable is flushed. Every later read and scan sees the record. */
    method Insert(container: Bytes, doc: Doc) returns (r: Result<Val, EngineError>)
      requires Valid()
      requires RecordId(doc).Some? ==> Encodable(Entry(StorageKey(container, IdText(RecordId(doc).value)), Some(doc.packed)))
      modifies this, memtable, memtable.wal
      ensures Valid() && memtable == old(memtable)
      ensures RecordId(doc).None? ==> r == Err(MissingId) && unchanged(this, memtable, memtable.wal)
      ensures RecordId(doc).Some? ==> r == Ok(RecordId(doc).value)
      ensures RecordId(doc).Some? ==>
        var id := RecordId(doc).value;
        var d := old(memtable.data)[StorageKey(container, IdText(id)) := Some(doc.packed)];
        && SameReads(memtable.data, sstables, d, old(sstables))
        && tables == (if container in old(tables) then old(tables)[container := Track(old(tables)[container], id)] else old(tables))
        && collections == (if container !in old(tables) && container in old(collections)
                           then old(collections)[container := Track(old(collections)[container], id)] else old(collections))
        && (|d| < memtable.capacity ==> memtable.data == d && sstables == old(sstables) && files == old(files))
        && (|d| >= memtable.capacity ==> memtable.data == map[] && |sstables| == |old(sstables)| + 1)
    {
      var rid := RecordId(doc);
      if rid.None? {
        return Err(MissingId);
      }
      var id := rid.value;
      memtable.Put(StorageKey(container, IdText(id)), Some(doc.packed));
      TrackId(container, id);
      if memtable.IsFull() {
        ghost var _ := Flush();
      }
      return Ok(id);
    }

    /** `delete_record`: a tombstone is put under `container:id`, the id is
        no longer listed, and a full MemTable is flushed. Every later read
        reports the record deleted and no scan returns it. */
    method Delete(container: Bytes, id: Val)
      requires Valid()
      requires FitsU32(|StorageKey(container, IdText(id))|)
      modifies this, memtable, memtable.wal
      ensures Valid() && memtable == old(memtable)
      ensures var d := old(memtable.data)[StorageKey(container, IdText(id)) := None];
        && SameReads(memtable.data, sstables, d, old(sstables))
        && tables == (if container in old(tables) then old(tables)[container := RemoveFirst(old(tables)[container], id)] else old(tables))
        && collections == (if container !in old(tables) && container in old(collections)
                           then old(collections)[container := RemoveFirst(old(collections)[container], id)] else old(collections))
        && (|d| < memtable.capacity ==> memtable.data == d && sstables == old(sstables) && files == old(files))
        && (|d| >= memtable.capacity ==> memtable.data == map[] && |sstables| == |old(sstables)| + 1)
    {
      memtable.Delete(StorageKey(container, IdText(id)));
      UntrackId(container, id);
      if memtable.IsFull() {
        ghost var _ := Flush();
      }
    }

    /** `read_record` as written: the MemTable's `get` and each table's
        `get` answer `None` both for an absent key and for a tombstone, so
        a deleted record is looked up again in older tables. */
    method ReadRecordAsWritten(container: Bytes, id: Val) returns (r: Result<Value, EngineError>)
      ensures r == ReadAsWritten(memtable.data, sstables, StorageKey(container, IdText(id)))
    {
      var key := StorageKey(container, IdText(id));
      var v := memtable.Get(key);
      if v.Some? {
        return Ok(v.value);
      }
      var i := 0;
      while i < |sstables|
        invariant 0 <= i <= |sstables|
        invariant FirstGet(sstables, key) == FirstGet(sstables[i..], key)
      {
        assert sstables[i..][1..] == sstables[i + 1..];
        var g := SSTables.Get(sstables[i], key);
        if g.Err? {
          return Err(Corrupt(g.error));
        }
        if g.value.Some? {
          return Ok(g.value.value);
        }
        i := i + 1;
      }
      return Err(NotFound);
    }

    /** `read_record` with tombstones honoured: the newest layer holding the
        key decides, and a tombstone there reports the record deleted. */
    method ReadRecord(container: Bytes, id: Val) returns (r: Result<Value, EngineError>)
      ensures r == Newest(memtable.data, sstables, StorageKey(container, IdText(id)))
    {
      var key := StorageKey(container, IdText(id));
      if key in memtable.data {
        var v := memtable.data[key];
        return if v.Some? then Ok(v.value) else Err(Deleted);
      }
      var i := 0;
      while i < |sstables|
        invariant 0 <= i <= |sstables|
        invariant NewestTables(sstables, key) == NewestTables(sstables[i..], key)
      {
        assert sstables[i..][1..] == sstables[i + 1..];
        var h := Probe(sstables[i], key);
        if h.Err? {
          return Err(Corrupt(h.error));
        }
        if h.value.Found? {
          return if h.value.value.Some? then Ok(h.value.value.value) else Err(Deleted);
        }
        i := i + 1;
      }
      return Err(NotFound);
    }

    /** `scan_table`: the tables from oldest to newest, then the MemTable,
        each prefixed entry overwriting or (for a tombstone) removing what
        came before; keys are the storage keys `container:id`. */
    method ScanTable(container: Bytes) returns (r: Result<Results, ReadError>)
      ensures r == Scan(memtable.data, sstables, container + [COLON])
    {
      var p := container + [COLON];
      var o := ScanAllTables(sstables, p);
      if o.Err? {
        return Err(o.error);
      }
      var m := ScanMemTable(o.value, memtable.data, p);
      return Ok(m);
    }
  }
}
