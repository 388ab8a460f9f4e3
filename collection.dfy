/** A schema-less document collection: inserts that add an `_id`, update
    operators, deletes, counts and a small aggregation pipeline. */
module Collections {
  import opened Bytes
  import opened Wrappers
  import opened Documents
  import opened Query
  import opened Containers

  const ID_FIELD: Bytes := [95, 105, 100]
  const SET: Bytes := [36, 115, 101, 116]
  const UNSET: Bytes := [36, 117, 110, 115, 101, 116]
  const INC: Bytes := [36, 105, 110, 99]
  const MATCH: Bytes := [36, 109, 97, 116, 99, 104]
  const PROJECT: Bytes := [36, 112, 114, 111, 106, 101, 99, 116]
  const LIMIT: Bytes := [36, 108, 105, 109, 105, 116]
  const SORT: Bytes := [36, 115, 111, 114, 116]

  /** Any exception Python raises on the way (`TypeError`, `AttributeError`, ...). */
  datatype Failure = Failure

  /** Python `+`: numbers add (a bool counts as 0 or 1), strings and lists
      concatenate, anything else raises. */
  function Add(a: Val, b: Val): (r: Result<Val, Failure>)
    ensures Numeric(a) && Numeric(b) ==> r == Ok(Int(Num(a) + Num(b)))
    ensures r.Ok? ==> (Numeric(a) && Numeric(b)) || (a.Str? && b.Str?) || (a.List? && b.List?)
  {
    if Numeric(a) && Numeric(b) then Ok(Int(Num(a) + Num(b)))
    else if a.Str? && b.Str? then Ok(Str(a.s + b.s))
    else if a.List? && b.List? then Ok(List(a.items + b.items))
    else Err(Failure)
  }

  /** The keys `for field in fields` produces for `$unset`: a dict's keys,
      a list's string items (other hashable items name no key of a
      document), or a string's characters taken byte by byte. */
  function UnsetKeys(fields: Val): Result<seq<Bytes>, Failure> {
    match fields
    case Obj(fs) => Ok(Names(fs))
    case List(items) => ListKeys(items)
    case Str(s) => Ok(Chars(s))
    case _ => Err(Failure)
  }

  function ListKeys(items: seq<Val>): Result<seq<Bytes>, Failure> {
    if items == [] then Ok([])
    else if items[0].List? || items[0].Obj? then Err(Failure)
    else
      match ListKeys(items[1..])
      case Err(e) => Err(e)
      case Ok(rest) => Ok(if items[0].Str? then [items[0].s] + rest else rest)
  }

  /** `for field in s` over a string operand, taken byte by byte: Python
      visits code points, which differ from bytes for non-ASCII text. */
  function Chars(s: Bytes): seq<Bytes> {
    if s == [] then [] else [[s[0]]] + Chars(s[1..])
  }

  /** `document.pop(field, None)` for each key: exactly the listed keys go. */
  function UnsetAll(doc: Dict, keys: seq<Bytes>): (r: Dict)
    ensures forall n :: Get(r, n) == if n in keys then None else Get(doc, n)
    decreases keys
  {
    if keys == [] then doc
    else
      var r := UnsetAll(Remove(doc, keys[0]), keys[1..]);
      assert forall n :: n in keys <==> n == keys[0] || n in keys[1..];
      r
  }

  /** `document.get(field, 0)`. */
  function GetOrZero(doc: Dict, n: Bytes): Val {
    match Get(doc, n)
    case None => Int(0)
    case Some(v) => v
  }

  /** The `$inc` loop: each listed field becomes its old value (0 when
      missing) plus the increment. */
  function IncAll(doc: Dict, fs: seq<Field>): Result<Dict, Failure>
    decreases fs
  {
    if fs == [] then Ok(doc)
    else
      match Add(GetOrZero(doc, fs[0].name), fs[0].value)
      case Err(e) => Err(e)
      case Ok(v) => IncAll(Put(doc, fs[0].name, v), fs[1..])
  }

  /** `$inc` leaves every field it does not list alone. */
  lemma {:induction false} IncUntouched(doc: Dict, fs: seq<Field>, n: Bytes)
    requires !HasKey(fs, n) && IncAll(doc, fs).Ok?
    ensures Get(IncAll(doc, fs).value, n) == Get(doc, n)
    decreases fs
  {
    if fs != [] {
      var v := Add(GetOrZero(doc, fs[0].name), fs[0].value).value;
      assert !HasKey(fs[1..], n) by {
        forall j | 0 <= j < |fs[1..]| ensures fs[1..][j].name != n {
          assert fs[1..][j] == fs[j + 1];
        }
      }
      IncUntouched(Put(doc, fs[0].name, v), fs[1..], n);
    }
  }

  /** With each field listed once, `$inc` sets every listed field to its old
      value, 0 when missing, plus the increment. */
  lemma {:induction false} IncSets(doc: Dict, fs: seq<Field>, i: nat)
    requires UniqueNames(fs) && i < |fs| && IncAll(doc, fs).Ok?
    ensures Add(GetOrZero(doc, fs[i].name), fs[i].value).Ok?
    ensures Get(IncAll(doc, fs).value, fs[i].name) == Some(Add(GetOrZero(doc, fs[i].name), fs[i].value).value)
    decreases fs
  {
    var v := Add(GetOrZero(doc, fs[0].name), fs[0].value).value;
    var d := Put(doc, fs[0].name, v);
    UniqueTail(fs);
    if i == 0 {
      IncUntouched(d, fs[1..], fs[0].name);
    } else {
      assert fs[1..][i - 1] == fs[i] && fs[i].name != fs[0].name;
      assert GetOrZero(d, fs[i].name) == GetOrZero(doc, fs[i].name);
      IncSets(d, fs[1..], i - 1);
    }
  }

  /** One item of the iterable `dict.update` is given: a pair made of a
      two-item list, a two-character string or a two-key dict, whose first
      part is the key. */
  function SetPair(item: Val): Result<Field, Failure> {
    match item
    case List(xs) => if |xs| == 2 && xs[0].Str? then Ok(Field(xs[0].s, xs[1])) else Err(Failure)
    case Str(s) => if |s| == 2 then Ok(Field([s[0]], Str([s[1]]))) else Err(Failure)
    case Obj(fs) => if |fs| == 2 then Ok(Field(fs[0].name, Str(fs[1].name))) else Err(Failure)
    case _ => Err(Failure)
  }

  function SetPairs(items: seq<Val>): Result<Dict, Failure>
    decreases items
  {
    if items == [] then Ok([])
    else
      match SetPair(items[0])
      case Err(e) => Err(e)
      case Ok(f) =>
        match SetPairs(items[1..])
        case Err(e) => Err(e)
        case Ok(rest) => Ok([f] + rest)
  }

  /** The fields `document.update(fields)` puts, in order: a dict's fields,
      or the pairs of a list. An empty string is an empty iterable; the
      characters of any other string are not pairs, and other values are
      not iterable. */
  function SetFields(fields: Val): Result<Dict, Failure> {
    match fields
    case Obj(fs) => Ok(fs)
    case List(items) => SetPairs(items)
    case Str(s) => if s == [] then Ok([]) else Err(Failure)
    case _ => Err(Failure)
  }

  /** A list of `[key, value]` pairs. */
  function AsPairs(fs: seq<Field>): (r: seq<Val>)
    ensures |r| == |fs|
  {
    if fs == [] then [] else [List([Str(fs[0].name), fs[0].value])] + AsPairs(fs[1..])
  }

  lemma {:induction false} PairsOfFields(fs: seq<Field>)
    ensures SetPairs(AsPairs(fs)) == Ok(fs)
  {
    if fs != [] {
      var ps := AsPairs(fs);
      assert ps == [List([Str(fs[0].name), fs[0].value])] + AsPairs(fs[1..]);
      assert SetPair(ps[0]) == Ok(fs[0]);
      assert ps[1..] == AsPairs(fs[1..]);
      PairsOfFields(fs[1..]);
      assert [fs[0]] + fs[1..] == fs;
    }
  }

  /** `$set` with a list of `[key, value]` pairs does what `$set` with the
      dict of those fields does; an empty string or list changes nothing,
      and a non-empty string or a number fails. */
  lemma {:induction false} SetOperands(doc: Dict, fs: seq<Field>, whole: Dict, s: Bytes, i: int)
    ensures Step(doc, Field(SET, List(AsPairs(fs))), whole) == Step(doc, Field(SET, Obj(fs)), whole)
    ensures Step(doc, Field(SET, Str([])), whole) == Ok((doc, false))
    ensures Step(doc, Field(SET, List([])), whole) == Ok((doc, false))
    ensures s != [] ==> Step(doc, Field(SET, Str(s)), whole).Err?
    ensures Step(doc, Field(SET, Int(i)), whole).Err?
  {
    PairsOfFields(fs);
  }

  /** One entry of the update; the flag says that the loop stops there. */
  function Step(doc: Dict, entry: Field, whole: Dict): Result<(Dict, bool), Failure> {
    if entry.name == SET then
      match SetFields(entry.value)
      case Err(e) => Err(e)
      case Ok(fs) => Ok((Merge(doc, fs), false))
    else if entry.name == UNSET then
      match UnsetKeys(entry.value)
      case Err(e) => Err(e)
      case Ok(keys) => Ok((UnsetAll(doc, keys), false))
    else if entry.name == INC then
      if !entry.value.Obj? then Err(Failure)
      else
        match IncAll(doc, entry.value.fields)
        case Err(e) => Err(e)
        case Ok(d) => Ok((d, false))
    else Ok((Merge(doc, whole), true))
  }

  /** The update entries from some point on. */
  function ApplyFrom(doc: Dict, entries: seq<Field>, whole: Dict): Result<Dict, Failure>
    decreases entries
  {
    if entries == [] then Ok(doc)
    else
      match Step(doc, entries[0], whole)
      case Err(e) => Err(e)
      case Ok((d, stop)) => if stop then Ok(d) else ApplyFrom(d, entries[1..], whole)
  }

  /** `_apply_update` on a document. */
  function Updated(doc: Dict, update: Dict): Result<Dict, Failure> {
    ApplyFrom(doc, update, update)
  }

  /** The entries before the first key that is not `$set`, `$unset` or
      `$inc` are applied in order; that key merges the whole update into the
      document, and no entry after it is looked at. */
  lemma {:induction false} StopsAtPlainKey(doc: Dict, entries: seq<Field>, whole: Dict, k: nat)
    requires k < |entries| && entries[k].name !in {SET, UNSET, INC}
    requires forall j :: 0 <= j < k ==> entries[j].name in {SET, UNSET, INC}
    ensures ApplyFrom(doc, entries, whole) ==
      match ApplyFrom(doc, entries[..k], whole)
      case Err(e) => Err(e)
      case Ok(d) => Ok(Merge(d, whole))
    decreases k
  {
    if k > 0 {
      assert entries[..k][0] == entries[0] && entries[..k][1..] == entries[1..][..k - 1];
      var s := Step(doc, entries[0], whole);
      if s.Ok? {
        assert !s.value.1;
        assert entries[1..][k - 1] == entries[k];
        StopsAtPlainKey(s.value.0, entries[1..], whole, k - 1);
      }
    }
  }

  /** `_apply_update`: a `for` loop over the update's entries that changes the
      document as it goes and breaks after a direct update. */
  method ApplyUpdate(doc: Dict, update: Dict) returns (r: Result<Dict, Failure>)
    ensures r == Updated(doc, update)
  {
    var d := doc;
    var i := 0;
    while i < |update|
      invariant i <= |update|
      invariant ApplyFrom(d, update[i..], update) == Updated(doc, update)
    {
      assert update[i..][1..] == update[i + 1..];
      var s := Step(d, update[i], update);
      if s.Err? {
        return Err(s.error);
      }
      d := s.value.0;
      if s.value.1 {
        return Ok(d);
      }
      i := i + 1;
    }
    return Ok(d);
  }

  /** `document` with an `_id` added when it has none. */
  function WithId(doc: Dict, uuid: Bytes): Dict {
    if HasKey(doc, ID_FIELD) then doc else Put(doc, ID_FIELD, Str(uuid))
  }

  /** The document keeps its own `_id`; one without gets `uuid` and nothing
      else changes. */
  lemma {:induction false} WithIdMeaning(doc: Dict, uuid: Bytes)
    ensures HasKey(WithId(doc, uuid), ID_FIELD)
    ensures HasKey(doc, ID_FIELD) ==> WithId(doc, uuid) == doc
    ensures !HasKey(doc, ID_FIELD) ==>
      Get(WithId(doc, uuid), ID_FIELD) == Some(Str(uuid)) &&
      forall n :: n != ID_FIELD ==> Get(WithId(doc, uuid), n) == Get(doc, n)
  {
  }

  /** A document the loop of `update_one` can update: it reads back,
      matches, the update applies, and the result still has an `_id`. */
  predicate Updatable(records: map<nat, Dict>, query: Dict, update: Dict, o: nat) {
    && o in records
    && Matches(records[o], query) == Ok(true)
    && Updated(records[o], update).Ok?
    && HasKey(Updated(records[o], update).value, ID_FIELD)
  }

  /** The list of offsets after `update_one` rewrites entry `i`, as the file
      engine makes it: its `update_record` appends the new offset to the
      very list `update_one` is rewriting. */
  function ListingAfterUpdateAsWritten(offsets: seq<nat>, i: nat, newOffset: nat): seq<nat>
    requires i < |offsets|
  {
    (offsets + [newOffset])[i := newOffset]
  }

  /** The updated document is then listed twice and the count grows by one. */
  lemma {:induction false} UpdateListsTwice(offsets: seq<nat>, i: nat, newOffset: nat)
    requires i < |offsets|
    ensures var l := ListingAfterUpdateAsWritten(offsets, i, newOffset);
      |l| == |offsets| + 1 && l[i] == newOffset && l[|offsets|] == newOffset
  {
  }

  // Aggregation

  /** The keys `{k: doc.get(k) for k in projection}` iterates: a dict's
      keys, a list of strings, or a string's characters byte by byte. A
      list item that is a list or a dict is unhashable and raises; one that
      is a number, a bool or `None` would be a non-string key, which these
      documents cannot hold, so it fails here too. */
  function ProjectKeys(projection: Val): Result<seq<Bytes>, Failure> {
    match projection
    case Obj(fs) => Ok(Names(fs))
    case List(items) =>
      if forall i :: 0 <= i < |items| ==> items[i].Str? then Ok(StrItems(items)) else Err(Failure)
    case Str(s) => Ok(Chars(s))
    case _ => Err(Failure)
  }

  function StrItems(items: seq<Val>): (r: seq<Bytes>)
    requires forall i :: 0 <= i < |items| ==> items[i].Str?
  {
    if items == [] then [] else [items[0].s] + StrItems(items[1..])
  }

  function GetOrNull(doc: Dict, k: Bytes): Val {
    match Get(doc, k)
    case None => Null
    case Some(v) => v
  }

  /** `$project` on one document: exactly the listed keys, `None` where the
      document lacks one. */
  function Project(doc: Dict, keys: seq<Bytes>): (r: Dict)
    ensures forall k :: Get(r, k) == if k in keys then Some(GetOrNull(doc, k)) else None
  {
    if keys == [] then []
    else
      var n := |keys| - 1;
      var r := Put(Project(doc, keys[..n]), keys[n], GetOrNull(doc, keys[n]));
      assert forall k :: Get(r, k) == if k in keys then Some(GetOrNull(doc, k)) else None by {
        forall k
          ensures Get(r, k) == if k in keys then Some(GetOrNull(doc, k)) else None
        {
          assert k in keys <==> k in keys[..n] || k == keys[n];
        }
      }
      r
  }

  function ProjectAll(docs: seq<Dict>, keys: seq<Bytes>): (r: seq<Dict>)
    ensures |r| == |docs| && forall i :: 0 <= i < |docs| ==> r[i] == Project(docs[i], keys)
  {
    if docs == [] then [] else [Project(docs[0], keys)] + ProjectAll(docs[1..], keys)
  }

  /** `results[:n]` with Python's slice rules: a negative bound counts from
      the end. */
  function Prefix(docs: seq<Dict>, n: int): (r: seq<Dict>)
    ensures |r| <= |docs| && r == docs[..|r|]
    ensures n >= 0 ==> |r| == if n < |docs| then n else |docs|
    ensures n < 0 ==> |r| == if |docs| + n > 0 then |docs| + n else 0
  {
    if n >= 0 then (if n < |docs| then docs[..n] else docs)
    else if |docs| + n > 0 then docs[..|docs| + n] else []
  }

  /** `$limit`: an integer or bool bound, or `None` for no bound. */
  function Limit(docs: seq<Dict>, bound: Val): Result<seq<Dict>, Failure> {
    if Numeric(bound) then Ok(Prefix(docs, Num(bound)))
    else if bound.Null? then Ok(docs)
    else Err(Failure)
  }

  /** The sort key: `x.get(sort_key, '')`. */
  function SortKey(doc: Dict, key: Bytes): Val {
    match Get(doc, key)
    case None => Str([])
    case Some(v) => v
  }

  /** The place where `x` goes in a sorted list: after every element it does
      not come before, so equal keys keep their order. */
  function InsertSorted(x: Dict, s: seq<Dict>, key: Bytes, reverse: bool): (r: Result<seq<Dict>, Failure>)
    ensures r.Ok? ==> |r.value| == |s| + 1 && (r.value[0] == x || (s != [] && r.value[0] == s[0]))
    ensures r.Ok? ==> multiset(r.value) == multiset(s) + multiset{x}
  {
    if s == [] then Ok([x])
    else
      match Cmp(SortKey(x, key), SortKey(s[0], key))
      case Err(_) => Err(Failure)
      case Ok(c) =>
        if (reverse && c > 0) || (!reverse && c < 0) then Ok([x] + s)
        else
          match InsertSorted(x, s[1..], key, reverse)
          case Err(e) => Err(e)
          case Ok(rest) =>
            assert s == [s[0]] + s[1..];
            Ok([s[0]] + rest)
  }

  /** `sorted(results, key=..., reverse=...)`, as a stable insertion sort;
      a comparison Python cannot make fails the stage. */
  function SortBy(docs: seq<Dict>, key: Bytes, reverse: bool): (r: Result<seq<Dict>, Failure>)
    ensures r.Ok? ==> multiset(r.value) == multiset(docs)
  {
    if docs == [] then Ok([])
    else
      var n := |docs| - 1;
      assert docs == docs[..n] + [docs[n]];
      match SortBy(docs[..n], key, reverse)
      case Err(e) => Err(e)
      case Ok(s) => InsertSorted(docs[n], s, key, reverse)
  }

  /** All sort keys are numbers, or all are strings: any two compare. */
  predicate Comparable(docs: seq<Dict>, key: Bytes, numeric: bool) {
    forall d :: d in docs ==> if numeric then Numeric(SortKey(d, key)) else SortKey(d, key).Str?
  }

  /** `a` may come right before `b`: ascending, or descending for `reverse`. */
  predicate InOrder(a: Dict, b: Dict, key: Bytes, reverse: bool) {
    var c := Cmp(SortKey(a, key), SortKey(b, key));
    c.Ok? && (if reverse then c.value >= 0 else c.value <= 0)
  }

  /** Neighbours are in order. */
  predicate Ordered(s: seq<Dict>, key: Bytes, reverse: bool) {
    forall i :: 0 <= i < |s| - 1 ==> InOrder(s[i], s[i + 1], key, reverse)
  }

  lemma {:induction false} OrderedCons(a: Dict, s: seq<Dict>, key: Bytes, reverse: bool)
    requires Ordered(s, key, reverse) && (s != [] ==> InOrder(a, s[0], key, reverse))
    ensures Ordered([a] + s, key, reverse)
  {
    var r := [a] + s;
    forall i | 0 <= i < |r| - 1
      ensures InOrder(r[i], r[i + 1], key, reverse)
    {
      if i > 0 {
        assert r[i] == s[i - 1] && r[i + 1] == s[i];
      }
    }
  }

  lemma {:induction false} InsertOrdered(x: Dict, s: seq<Dict>, key: Bytes, reverse: bool, numeric: bool)
    requires Comparable(s, key, numeric) && Comparable([x], key, numeric) && Ordered(s, key, reverse)
    ensures InsertSorted(x, s, key, reverse).Ok?
    ensures Ordered(InsertSorted(x, s, key, reverse).value, key, reverse)
  {
    if s != [] {
      var kx, k0 := SortKey(x, key), SortKey(s[0], key);
      assert x in [x] && s[0] in s;
      CmpScalar(kx, k0);
      var c := Cmp(kx, k0).value;
      if (reverse && c > 0) || (!reverse && c < 0) {
        OrderedCons(x, s, key, reverse);
      } else {
        assert Comparable(s[1..], key, numeric) by {
          forall d | d in s[1..] ensures d in s {
          }
        }
        assert Ordered(s[1..], key, reverse) by {
          forall i | 0 <= i < |s[1..]| - 1
            ensures InOrder(s[1..][i], s[1..][i + 1], key, reverse)
          {
            assert s[1..][i] == s[i + 1] && s[1..][i + 1] == s[i + 2];
          }
        }
        InsertOrdered(x, s[1..], key, reverse, numeric);
        var rest := InsertSorted(x, s[1..], key, reverse).value;
        assert InOrder(s[0], rest[0], key, reverse) by {
          if rest[0] == x {
            assert InOrder(s[0], x, key, reverse);
          } else {
            assert rest[0] == s[1];
          }
        }
        OrderedCons(s[0], rest, key, reverse);
      }
    }
  }

  /** With comparable keys the sort succeeds, and its result is ordered and
      a permutation of the input. */
  lemma {:induction false} SortOrdered(docs: seq<Dict>, key: Bytes, reverse: bool, numeric: bool)
    requires Comparable(docs, key, numeric)
    ensures SortBy(docs, key, reverse).Ok?
    ensures Ordered(SortBy(docs, key, reverse).value, key, reverse)
    ensures multiset(SortBy(docs, key, reverse).value) == multiset(docs)
  {
    if docs != [] {
      var n := |docs| - 1;
      assert Comparable(docs[..n], key, numeric) by {
        forall d | d in docs[..n] ensures d in docs {
        }
      }
      SortOrdered(docs[..n], key, reverse, numeric);
      var s := SortBy(docs[..n], key, reverse).value;
      assert forall d :: d in s ==> d in docs[..n] by {
        forall d | d in s ensures d in docs[..n] {
          assert d in multiset(s);
        }
      }
      InsertOrdered(docs[n], s, key, reverse, numeric);
    }
  }

  /** `$sort`: the first key of the spec, descending exactly when its value
      equals -1. */
  function SortStage(docs: seq<Dict>, spec: Val): Result<seq<Dict>, Failure> {
    if !spec.Obj? || spec.fields == [] then Err(Failure)
    else SortBy(docs, spec.fields[0].name, Equal(spec.fields[0].value, Int(-1)))
  }

  /** `$match`: the documents the query matches; the query is only looked at
      when there is a document to match. */
  function MatchStage(docs: seq<Dict>, q: Val): (r: Result<seq<Dict>, Failure>)
    ensures r.Ok? ==> Subseq(r.value, docs) && forall d :: d in r.value ==> q.Obj? && Matches(d, q.fields) == Ok(true)
    ensures r.Ok? ==> forall d :: d in docs && q.Obj? && Matches(d, q.fields) == Ok(true) ==> d in r.value
    ensures r.Ok? && q.Obj? ==> forall d :: multiset(r.value)[d] == if Matches(d, q.fields) == Ok(true) then multiset(docs)[d] else 0
    ensures r.Err? <==> docs != [] && (!q.Obj? || exists i :: 0 <= i < |docs| && Matches(docs[i], q.fields).Err?)
  {
    if docs == [] then Ok([])
    else if !q.Obj? then Err(Failure)
    else
      match Filter(docs, q.fields)
      case Err(_) => Err(Failure)
      case Ok(kept) => Ok(kept)
  }

  function ProjectStage(docs: seq<Dict>, projection: Val): Result<seq<Dict>, Failure> {
    if docs == [] then Ok([])
    else
      match ProjectKeys(projection)
      case Err(e) => Err(e)
      case Ok(keys) => Ok(ProjectAll(docs, keys))
  }

  /** One stage: the first of `$match`, `$project`, `$limit`, `$sort` that it
      names; a stage naming none of them changes nothing. */
  function Stage(docs: seq<Dict>, stage: Dict): (r: Result<seq<Dict>, Failure>)
    ensures HasKey(stage, MATCH) && r.Ok? ==> forall d :: d in r.value <==>
      d in docs && Get(stage, MATCH).value.Obj? && Matches(d, Get(stage, MATCH).value.fields) == Ok(true)
    ensures !HasKey(stage, MATCH) && HasKey(stage, PROJECT) && r.Ok? ==> |r.value| == |docs|
    ensures !HasKey(stage, MATCH) && !HasKey(stage, PROJECT) && HasKey(stage, LIMIT) && r.Ok? ==>
      r.value <= docs
    ensures !HasKey(stage, MATCH) && !HasKey(stage, PROJECT) && !HasKey(stage, LIMIT) && HasKey(stage, SORT) && r.Ok? ==>
      multiset(r.value) == multiset(docs)
    ensures !HasKey(stage, MATCH) && !HasKey(stage, PROJECT) && !HasKey(stage, LIMIT) && !HasKey(stage, SORT) ==>
      r == Ok(docs)
  {
    if HasKey(stage, MATCH) then MatchStage(docs, Get(stage, MATCH).value)
    else if HasKey(stage, PROJECT) then ProjectStage(docs, Get(stage, PROJECT).value)
    else if HasKey(stage, LIMIT) then Limit(docs, Get(stage, LIMIT).value)
    else if HasKey(stage, SORT) then SortStage(docs, Get(stage, SORT).value)
    else Ok(docs)
  }

  /** `aggregate` on the documents a full scan returns. */
  function Pipeline(docs: seq<Dict>, stages: seq<Dict>): Result<seq<Dict>, Failure>
    decreases stages
  {
    if stages == [] then Ok(docs)
    else
      match Stage(docs, stages[0])
      case Err(e) => Err(e)
      case Ok(next) => Pipeline(next, stages[1..])
  }

  lemma {:induction false} SubseqLength<T>(a: seq<T>, b: seq<T>)
    requires Subseq(a, b)
    ensures |a| <= |b|
    decreases |b|
  {
    if a != [] {
      if a[0] == b[0] && Subseq(a[1..], b[1..]) {
        SubseqLength(a[1..], b[1..]);
      } else {
        SubseqLength(a, b[1..]);
      }
    }
  }

  /** No stage adds documents: `$match` and `$limit` keep some of them,
      `$project` and `$sort` keep their number. */
  lemma {:induction false} StageBound(docs: seq<Dict>, stage: Dict)
    ensures Stage(docs, stage).Ok? ==> |Stage(docs, stage).value| <= |docs|
  {
    var r := Stage(docs, stage);
    if r.Ok? {
      if HasKey(stage, MATCH) {
        SubseqLength(r.value, docs);
      } else if !HasKey(stage, PROJECT) && !HasKey(stage, LIMIT) && HasKey(stage, SORT) {
        assert |multiset(r.value)| == |multiset(docs)|;
      }
    }
  }

  /** A pipeline never yields more documents than it starts from. */
  lemma {:induction false} PipelineBound(docs: seq<Dict>, stages: seq<Dict>)
    ensures Pipeline(docs, stages).Ok? ==> |Pipeline(docs, stages).value| <= |docs|
    decreases stages
  {
    if stages != [] {
      StageBound(docs, stages[0]);
      if Stage(docs, stages[0]).Ok? {
        PipelineBound(Stage(docs, stages[0]).value, stages[1..]);
      }
    }
  }

  /** The `n` offsets appended from `start` on. */
  function Fresh(start: nat, n: nat): seq<nat> {
    if n == 0 then [] else Fresh(start, n - 1) + [start + n - 1]
  }

  lemma {:induction false} FreshStep(listed: seq<nat>, start: nat, n: nat)
    ensures listed + Fresh(start, n + 1) == (listed + Fresh(start, n)) + [start + n]
  {
    assert Fresh(start, n + 1) == Fresh(start, n) + [start + n];
  }

  /** They are the `n` offsets counted up from `start`. */
  lemma {:induction false} FreshMeaning(start: nat, n: nat)
    ensures |Fresh(start, n)| == n && forall i :: 0 <= i < n ==> Fresh(start, n)[i] == start + i
  {
    if n > 0 {
      FreshMeaning(start, n - 1);
    }
  }

  /** The documents as `insert_many` stores them, each with its `_id`. */
  function Stamped(docs: seq<Dict>, uuids: seq<Bytes>): (r: seq<Dict>)
    requires |docs| == |uuids|
    ensures |r| == |docs|
  {
    if docs == [] then [] else [WithId(docs[0], uuids[0])] + Stamped(docs[1..], uuids[1..])
  }

  /** Document `i` is stored with `uuids[i]` as its `_id` when it has none. */
  lemma {:induction false} StampedAt(docs: seq<Dict>, uuids: seq<Bytes>, i: nat)
    requires |docs| == |uuids| && i < |docs|
    ensures Stamped(docs, uuids)[i] == WithId(docs[i], uuids[i])
  {
    if i > 0 {
      StampedAt(docs[1..], uuids[1..], i - 1);
    }
  }

  /** The id `insert_one` returns is the document's own `_id`, or the fresh
      one when it has none. */
  lemma {:induction false} IdOfStamped(doc: Dict, uuid: Bytes)
    ensures IdOf(WithId(doc, uuid), ID_FIELD) == if HasKey(doc, ID_FIELD) then Get(doc, ID_FIELD).value else Str(uuid)
  {
  }

  /** The ids of the first `n` stored documents. */
  function Ids(stored: seq<Dict>, n: nat): (r: seq<Val>)
    requires n <= |stored|
    ensures |r| == n
  {
    if n == 0 then [] else Ids(stored, n - 1) + [IdOf(stored[n - 1], ID_FIELD)]
  }

  lemma {:induction false} IdsStep(stored: seq<Dict>, i: nat, before: seq<Val>, doc: Dict, id: Val)
    requires i < |stored| && before == Ids(stored, i) && stored[i] == doc && id == IdOf(doc, ID_FIELD)
    ensures before + [id] == Ids(stored, i + 1)
  {
  }

  lemma {:induction false} IdsAt(stored: seq<Dict>, n: nat, i: nat)
    requires n <= |stored| && i < n
    ensures Ids(stored, n)[i] == IdOf(stored[i], ID_FIELD)
  {
    if i < n - 1 {
      IdsAt(stored, n - 1, i);
    }
  }

  /** The records after the first `n` of `vals` are stored one after
      another from offset `start` on. */
  function StoredAll<V>(records: map<nat, V>, start: nat, vals: seq<V>, n: nat): map<nat, V>
    requires n <= |vals|
  {
    if n == 0 then records
    else StoredAll(records, start, vals, n - 1)[start + n - 1 := vals[n - 1]]
  }

  lemma {:induction false} StoredStep<V>(records: map<nat, V>, start: nat, vals: seq<V>, i: nat, before: map<nat, V>, v: V, after: map<nat, V>)
    requires i < |vals| && before == StoredAll(records, start, vals, i)
    requires vals[i] == v && after == before[start + i := v]
    ensures after == StoredAll(records, start, vals, i + 1)
  {
  }

  /** Each stored value reads back at its own offset. */
  lemma {:induction false} StoredAt<V>(records: map<nat, V>, start: nat, vals: seq<V>, n: nat, i: nat)
    requires n <= |vals| && i < n
    ensures start + i in StoredAll(records, start, vals, n)
    ensures StoredAll(records, start, vals, n)[start + i] == vals[i]
  {
    if i < n - 1 {
      StoredAt(records, start, vals, n - 1, i);
    }
  }

  /** Every record below `start` is kept as it was. */
  lemma {:induction false} StoredBelow<V>(records: map<nat, V>, start: nat, vals: seq<V>, n: nat, o: nat)
    requires n <= |vals| && o < start
    ensures o in StoredAll(records, start, vals, n) <==> o in records
    ensures o in records ==> StoredAll(records, start, vals, n)[o] == records[o]
  {
    if n > 0 {
      StoredBelow(records, start, vals, n - 1, o);
    }
  }

  /** The record read `execute` uses: the record at the offset, if any. */
  function ReadIn(records: map<nat, Dict>): (Bytes, nat) -> Option<Dict> {
    (c: Bytes, o: nat) => if o in records then Some(records[o]) else None
  }

  class Collection {
    const name: Bytes
    const store: Store

    /** A new collection makes sure `_id` is indexed. */
    constructor (name: Bytes, store: Store)
      modifies store
      ensures this.name == name && this.store == store
      ensures store.indexed == old(store.indexed) + {ID_FIELD}
      ensures store.offsets == old(store.offsets) && store.records == old(store.records)
      ensures store.next == old(store.next) && store.deleted == old(store.deleted)
    {
      this.name := name;
      this.store := store;
      new;
      store.CreateIndex(ID_FIELD);
    }

    /** `insert_one`: stores the document, with `uuid` as its `_id` when it
        has none, and returns the `_id`. */
    method InsertOne(doc: Dict, uuid: Bytes) returns (id: Val)
      requires store.Valid()
      modifies store
      ensures store.Valid()
      ensures id == IdOf(WithId(doc, uuid), ID_FIELD)
      ensures store.offsets == old(store.offsets) + [old(store.next)] && store.next == old(store.next) + 1
      ensures store.records == old(store.records)[old(store.next) := WithId(doc, uuid)]
      ensures store.indexed == old(store.indexed) && store.deleted == old(store.deleted)
    {
      var stored := WithId(doc, uuid);
      var _ := store.InsertRecord(stored);
      id := IdOf(stored, ID_FIELD);
    }

    /** `insert_many`: one `insert_one` per document, in order; `uuids`
        supplies the fresh id each document would get. */
    method InsertMany(docs: seq<Dict>, uuids: seq<Bytes>) returns (ids: seq<Val>)
      requires store.Valid() && |uuids| == |docs|
      modifies store
      ensures store.Valid()
      ensures ids == Ids(Stamped(docs, uuids), |docs|)
      ensures store.next == old(store.next) + |docs|
      ensures store.offsets == old(store.offsets) + Fresh(old(store.next), |docs|)
      ensures store.records == StoredAll(old(store.records), old(store.next), Stamped(docs, uuids), |docs|)
      ensures store.indexed == old(store.indexed) && store.deleted == old(store.deleted)
    {
      ghost var stamped := Stamped(docs, uuids);
      ghost var start, listed, records := store.next, store.offsets, store.records;
      ids := [];
      var i := 0;
      while i < |docs|
        invariant i <= |docs| && store.Valid()
        invariant ids == Ids(stamped, i)
        invariant store.next == start + i
        invariant store.offsets == listed + Fresh(start, i)
        invariant store.records == StoredAll(records, start, stamped, i)
        invariant store.indexed == old(store.indexed) && store.deleted == old(store.deleted)
      {
        ghost var before := store.records;
        StampedAt(docs, uuids, i);
        var id := InsertOne(docs[i], uuids[i]);
        StoredStep(records, start, stamped, i, before, WithId(docs[i], uuids[i]), store.records);
        FreshStep(listed, start, i);
        IdsStep(stamped, i, ids, WithId(docs[i], uuids[i]), id);
        ids := ids + [id];
        i := i + 1;
      }
    }

    /** `update_one`: the first listed document that can be updated is
        stored anew and its entry in the list points to the new version. */
    method UpdateOne(query: Dict, update: Dict) returns (updated: bool)
      requires store.Valid()
      modifies store
      ensures store.Valid()
      ensures updated <==> exists i :: 0 <= i < |old(store.offsets)| && Updatable(old(store.records), query, update, old(store.offsets)[i])
      ensures updated ==> exists i ::
        && 0 <= i < |old(store.offsets)|
        && Updatable(old(store.records), query, update, old(store.offsets)[i])
        && (forall j :: 0 <= j < i ==> !Updatable(old(store.records), query, update, old(store.offsets)[j]))
        && store.offsets == old(store.offsets)[i := old(store.next)]
        && store.records == old(store.records)[old(store.next) := Updated(old(store.records)[old(store.offsets)[i]], update).value]
      ensures !updated ==> store.offsets == old(store.offsets) && store.records == old(store.records)
      ensures store.indexed == old(store.indexed) && store.deleted == old(store.deleted)
    {
      var offsets := store.offsets;
      var records := store.records;
      var i := 0;
      while i < |offsets|
        invariant i <= |offsets| && store.offsets == offsets && store.records == records && store.Valid()
        invariant store.indexed == old(store.indexed) && store.deleted == old(store.deleted) && store.next == old(store.next)
        invariant forall j :: 0 <= j < i ==> !Updatable(records, query, update, offsets[j])
      {
        var o := offsets[i];
        if o in records && Matches(records[o], query) == Ok(true) {
          var r := ApplyUpdate(records[o], update);
          if r.Ok? && Get(r.value, ID_FIELD).Some? {
            assert Updatable(records, query, update, offsets[i]);
            var newOffset := store.UpdateRecord(r.value);
            store.offsets := store.offsets[i := newOffset];
            assert store.offsets == offsets[i := old(store.next)];
            assert store.records == records[old(store.next) := Updated(records[offsets[i]], update).value];
            return true;
          }
        }
        i := i + 1;
      }
      return false;
    }

    /** `delete_many`: see `Store.DeleteWhere`, by `_id`. */
    method DeleteMany(query: Dict) returns (count: nat)
      requires store.Valid()
      modifies store
      ensures store.Valid()
      ensures store.offsets == Kept(old(store.offsets), old(store.records), query, ID_FIELD)
      ensures store.deleted == old(store.deleted) + DoomedIds(old(store.offsets), old(store.records), query, ID_FIELD)
      ensures count == |old(store.offsets)| - |store.offsets|
      ensures store.records == old(store.records) && store.indexed == old(store.indexed)
    {
      count := store.DeleteWhere(query, ID_FIELD);
    }

    /** `find`: a full scan without a query, otherwise `execute` with the
        collection's indexes; `search` is the index lookup. */
    function Find(query: Option<Dict>, search: (Bytes, Bytes, Val) -> Result<Option<nat>, TypeError>): (r: Result<seq<Dict>, TypeError>)
      reads this, store
      ensures query.None? ==> r == Ok(store.Scan())
      ensures query.Some? && r.Ok? ==> forall d :: d in r.value ==> Matches(d, query.value) == Ok(true)
      ensures query.Some? ==>
        var c := Candidates(name, query.value, map[name := store.indexed], search, ReadIn(store.records), store.Scan());
        && (c.Err? ==> r.Err?)
        && (r.Ok? ==> forall d :: d in c.value && Matches(d, query.value) == Ok(true) ==> d in r.value)
        && (r.Ok? ==> forall d :: multiset(r.value)[d] == if Matches(d, query.value) == Ok(true) then multiset(c.value)[d] else 0)
    {
      match query
      case None => Ok(store.Scan())
      case Some(q) =>
        Execute(name, q, map[name := store.indexed], search, ReadIn(store.records), store.Scan())
    }

    /** `count_documents`: the length of the list without a query, the
        number found with one. */
    function CountDocuments(query: Option<Dict>, search: (Bytes, Bytes, Val) -> Result<Option<nat>, TypeError>): (r: Result<nat, TypeError>)
      reads this, store
      ensures query.None? ==> r == Ok(|store.offsets|) && |store.Scan()| <= r.value
      ensures query.Some? ==> (r.Ok? <==> Find(query, search).Ok?)
      ensures query.Some? && r.Ok? ==> r.value == |Find(query, search).value|
    {
      match query
      case None => Ok(|store.offsets|)
      case Some(_) =>
        match Find(query, search)
        case Err(e) => Err(e)
        case Ok(found) => Ok(|found|)
    }

    /** `aggregate`: the pipeline on a full scan. */
    function Aggregate(stages: seq<Dict>): (r: Result<seq<Dict>, Failure>)
      reads this, store
      ensures r.Ok? ==> |r.value| <= |store.offsets|
    {
      PipelineBound(store.Scan(), stages);
      Pipeline(store.Scan(), stages)
    }
  }
}
