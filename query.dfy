/** The query processor: the document predicate (equality, and the
    comparison operators `$gt`, `$lt`, `$gte`, `$lte`, `$ne`) and query
    execution, which picks an index for an exact match or scans the
    container, then keeps the candidates that satisfy the predicate. */
module Query {
  import opened Bytes
  import opened Wrappers
  import opened Documents

  const GT: Bytes := [36, 103, 116]
  const LT: Bytes := [36, 108, 116]
  const GTE: Bytes := [36, 103, 116, 101]
  const LTE: Bytes := [36, 108, 116, 101]
  const NE: Bytes := [36, 110, 101]

  /** `key.startswith('$')`. */
  predicate IsOperatorKey(name: Bytes) {
    |name| > 0 && name[0] == 36
  }

  /** One comparison `doc_val <op> op_val`; an operator other than the five
      holds. */
  function OpHolds(docVal: Val, op: Bytes, operand: Val): Result<bool, TypeError> {
    if op == NE then Ok(!Equal(docVal, operand))
    else if op == GT || op == LT || op == GTE || op == LTE then
      match Cmp(docVal, operand)
      case Err(e) => Err(e)
      case Ok(c) =>
        Ok(if op == GT then c > 0 else if op == LT then c < 0 else if op == GTE then c >= 0 else c <= 0)
    else Ok(true)
  }

  /** The operators of a dict query value, in order, stopping at the first
      that fails. */
  function OpsHold(docVal: Val, ops: seq<Field>): Result<bool, TypeError> {
    if ops == [] then Ok(true)
    else
      match OpHolds(docVal, ops[0].name, ops[0].value)
      case Err(e) => Err(e)
      case Ok(b) => if !b then Ok(false) else OpsHold(docVal, ops[1..])
  }

  lemma {:induction false} OpsHoldIff(docVal: Val, ops: seq<Field>)
    ensures OpsHold(docVal, ops) == Ok(true) <==>
      forall i :: 0 <= i < |ops| ==> OpHolds(docVal, ops[i].name, ops[i].value) == Ok(true)
  {
    if ops != [] {
      OpsHoldIff(docVal, ops[1..]);
      assert forall i :: 1 <= i < |ops| ==> ops[i] == ops[1..][i - 1];
    }
  }

  /** What one query entry demands of the document's value: a dict lists
      comparisons that must all hold, anything else must be equal. */
  function Condition(docVal: Val, qv: Val): (r: Result<bool, TypeError>)
    ensures !qv.Obj? ==> r == Ok(Equal(docVal, qv))
    ensures qv.Obj? ==> (r == Ok(true) <==>
      forall i :: 0 <= i < |qv.fields| ==> OpHolds(docVal, qv.fields[i].name, qv.fields[i].value) == Ok(true))
  {
    if qv.Obj? then
      OpsHoldIff(docVal, qv.fields);
      OpsHold(docVal, qv.fields)
    else Ok(Equal(docVal, qv))
  }

  /** A query entry the document satisfies: it has the field and the
      condition holds. */
  predicate Satisfies(doc: Dict, f: Field) {
    Get(doc, f.name).Some? && Condition(Get(doc, f.name).value, f.value) == Ok(true)
  }

  /** `_matches_query`: the entries in order, `$` keys skipped, false at the
      first field the document lacks or whose condition fails. */
  function Matches(doc: Dict, query: Dict): (r: Result<bool, TypeError>)
    ensures r == Ok(true) ==> forall i :: 0 <= i < |query| && !IsOperatorKey(query[i].name) ==> HasKey(doc, query[i].name)
    ensures r.Err? ==>
      exists i :: 0 <= i < |query| && !IsOperatorKey(query[i].name) && HasKey(doc, query[i].name) &&
        Condition(Get(doc, query[i].name).value, query[i].value).Err?
  {
    if query == [] then Ok(true)
    else if IsOperatorKey(query[0].name) then Matches(doc, query[1..])
    else
      match Get(doc, query[0].name)
      case None => Ok(false)
      case Some(docVal) =>
        match Condition(docVal, query[0].value)
        case Err(e) => Err(e)
        case Ok(b) => if !b then Ok(false) else Matches(doc, query[1..])
  }

  /** A document matches exactly when it satisfies every entry whose key
      does not start with `$`; so the empty query matches everything, and a
      document lacking a queried field does not match. */
  lemma {:induction false} MatchesIff(doc: Dict, query: Dict)
    ensures Matches(doc, query) == Ok(true) <==>
      forall i :: 0 <= i < |query| && !IsOperatorKey(query[i].name) ==> Satisfies(doc, query[i])
  {
    if query != [] {
      MatchesIff(doc, query[1..]);
      assert forall i :: 1 <= i < |query| ==> query[i] == query[1..][i - 1];
    }
  }

  /** The query without its `$` entries. */
  function Plain(query: Dict): (r: Dict)
    ensures forall f :: f in r <==> f in query && !IsOperatorKey(f.name)
  {
    if query == [] then []
    else if IsOperatorKey(query[0].name) then Plain(query[1..])
    else [query[0]] + Plain(query[1..])
  }

  /** Entries whose key starts with `$` make no difference to a match. */
  lemma {:induction false} OperatorKeysIgnored(doc: Dict, query: Dict)
    ensures Matches(doc, query) == Matches(doc, Plain(query))
  {
    if query != [] {
      OperatorKeysIgnored(doc, query[1..]);
      if !IsOperatorKey(query[0].name) {
        assert Plain(query)[1..] == Plain(query[1..]);
      }
    }
  }

  /** A document is found by the query made of its own plain fields. */
  lemma {:induction false} SelfMatch(doc: Dict)
    requires UniqueNames(doc)
    requires forall i :: 0 <= i < |doc| ==> !doc[i].value.Obj? && !IsOperatorKey(doc[i].name)
    ensures Matches(doc, doc) == Ok(true)
  {
    forall i | 0 <= i < |doc|
      ensures Satisfies(doc, doc[i])
    {
      GetAt(doc, i);
      EqualReflexive(doc[i].value);
    }
    MatchesIff(doc, doc);
  }

  /** `a` is `b` with some elements left out, the rest in order. */
  predicate Subseq<T(==)>(a: seq<T>, b: seq<T>) {
    if a == [] then true
    else if b == [] then false
    else (a[0] == b[0] && Subseq(a[1..], b[1..])) || Subseq(a, b[1..])
  }

  /** The filtering loop of `execute`: the documents that match, in order;
      a comparison that fails on any document fails the whole query. */
  function Filter(docs: seq<Dict>, query: Dict): (r: Result<seq<Dict>, TypeError>)
    ensures r.Err? <==> exists i :: 0 <= i < |docs| && Matches(docs[i], query).Err?
    ensures r.Ok? ==> Subseq(r.value, docs)
    ensures r.Ok? ==> forall d :: d in r.value <==> d in docs && Matches(d, query) == Ok(true)
    ensures r.Ok? ==> forall d :: multiset(r.value)[d] == if Matches(d, query) == Ok(true) then multiset(docs)[d] else 0
  {
    if docs == [] then Ok([])
    else
      var rest := Filter(docs[1..], query);
      assert forall i :: 1 <= i < |docs| ==> docs[i] == docs[1..][i - 1];
      assert docs == [docs[0]] + docs[1..];
      assert multiset(docs) == multiset{docs[0]} + multiset(docs[1..]);
      match Matches(docs[0], query)
      case Err(e) => Err(e)
      case Ok(b) =>
        match rest
        case Err(e) => Err(e)
        case Ok(kept) =>
          if b then
            var r := [docs[0]] + kept;
            assert r[1..] == kept && r[0] == docs[0];
            assert multiset(r) == multiset{docs[0]} + multiset(kept);
            Ok(r)
          else
            SubseqDrop(kept, docs);
            Ok(kept)
  }

  lemma {:induction false} SubseqDrop<T>(a: seq<T>, b: seq<T>)
    requires b != [] && Subseq(a, b[1..])
    ensures Subseq(a, b)
  {
  }

  /** The first query key, in query order, that has an index on the
      container and does not start with `$`. */
  function IndexField(query: Dict, indexed: set<Bytes>): (r: Option<Bytes>)
    ensures r.Some? ==> r.value in indexed && !IsOperatorKey(r.value) && HasKey(query, r.value)
    ensures r.None? ==> forall i :: 0 <= i < |query| && query[i].name in indexed ==> IsOperatorKey(query[i].name)
    ensures r.Some? ==>
      exists i :: 0 <= i < |query| && query[i].name == r.value &&
        forall j :: 0 <= j < i ==> query[j].name !in indexed || IsOperatorKey(query[j].name)
  {
    if query == [] then None
    else if query[0].name in indexed && !IsOperatorKey(query[0].name) then Some(query[0].name)
    else
      var r := IndexField(query[1..], indexed);
      assert forall i :: 1 <= i < |query| ==> query[i] == query[1..][i - 1];
      r
  }

  /** The documents `execute` filters: the single document an index finds
      for an exact match on the chosen field, or a full scan when no field
      qualifies, when its name is empty (a false value in Python) or when its
      query value is a dict. The index lookup and the record read are the
      storage engine's; a read that fails yields nothing, a lookup that
      fails fails the query. */
  function Candidates(
    container: Bytes, query: Dict, indexes: map<Bytes, set<Bytes>>,
    search: (Bytes, Bytes, Val) -> Result<Option<nat>, TypeError>,
    read: (Bytes, nat) -> Option<Dict>, scan: seq<Dict>): (r: Result<seq<Dict>, TypeError>)
    ensures var f := IndexField(query, if container in indexes then indexes[container] else {});
      (f.None? || f.value == [] || Get(query, f.value).value.Obj?) ==> r == Ok(scan)
    ensures var f := IndexField(query, if container in indexes then indexes[container] else {});
      !(f.None? || f.value == [] || Get(query, f.value).value.Obj?) ==>
        var found := search(container, f.value, Get(query, f.value).value);
        && (r.Err? <==> found.Err?)
        && (found == Ok(None) ==> r == Ok([]))
        && (found.Ok? && found.value.Some? ==>
              r == Ok(if read(container, found.value.value).Some? then [read(container, found.value.value).value] else []))
        && (r.Ok? ==> |r.value| <= 1)
  {
    var indexed := if container in indexes then indexes[container] else {};
    match IndexField(query, indexed)
    case None => Ok(scan)
    case Some(f) =>
      if f == [] then Ok(scan)
      else
        var v := Get(query, f).value;
        if v.Obj? then Ok(scan)
        else
          match search(container, f, v)
          case Err(e) => Err(e)
          case Ok(None) => Ok([])
          case Ok(Some(offset)) =>
            match read(container, offset)
            case None => Ok([])
            case Some(doc) => Ok([doc])
  }

  /** `execute`: the candidates that satisfy the query, in candidate order. */
  function Execute(
    container: Bytes, query: Dict, indexes: map<Bytes, set<Bytes>>,
    search: (Bytes, Bytes, Val) -> Result<Option<nat>, TypeError>,
    read: (Bytes, nat) -> Option<Dict>, scan: seq<Dict>): (r: Result<seq<Dict>, TypeError>)
    ensures var c := Candidates(container, query, indexes, search, read, scan);
      && (c.Err? ==> r.Err?)
      && (c.Ok? ==> (r.Err? <==> exists i :: 0 <= i < |c.value| && Matches(c.value[i], query).Err?))
      && (r.Ok? ==> c.Ok? && Subseq(r.value, c.value))
      && (r.Ok? ==> forall d :: d in r.value <==> d in c.value && Matches(d, query) == Ok(true))
      && (r.Ok? ==> forall d :: multiset(r.value)[d] == if Matches(d, query) == Ok(true) then multiset(c.value)[d] else 0)
  {
    match Candidates(container, query, indexes, search, read, scan)
    case Err(e) => Err(e)
    case Ok(c) => Filter(c, query)
  }
}
