/** Documents as the query, collection and table layers see them: JSON
    values with Python's equality and ordering, and dictionaries as
    sequences of fields in insertion order. Floating-point numbers are not
    part of this model. */
module Documents {
  import opened Bytes
  import opened Wrappers

  datatype Val =
    | Null
    | Bool(b: bool)
    | Int(i: int)
    | Str(s: Bytes)
    | List(items: seq<Val>)
    | Obj(fields: seq<Field>)

  datatype Field = Field(name: Bytes, value: Val)

  /** A Python dict: its fields in insertion order, each name once. */
  type Dict = seq<Field>

  /** Python raises `TypeError` when `<` or `>` is applied to values that
      have no order between them. */
  datatype TypeError = TypeError

  predicate UniqueNames(d: Dict) {
    forall i, j :: 0 <= i < j < |d| ==> d[i].name != d[j].name
  }

  predicate HasKey(d: Dict, k: Bytes) {
    exists i :: 0 <= i < |d| && d[i].name == k
  }

  /** `d.get(k)`. */
  function Get(d: Dict, k: Bytes): (r: Option<Val>)
    ensures r.Some? <==> HasKey(d, k)
    ensures r.Some? ==> Field(k, r.value) in d
  {
    if d == [] then None
    else if d[0].name == k then Some(d[0].value)
    else
      var r := Get(d[1..], k);
      assert forall i :: 1 <= i < |d| ==> d[i] == d[1..][i - 1];
      r
  }

  /** The value `d.get(k)` finds is the one at the place that holds `k`. */
  lemma {:induction false} GetAt(d: Dict, i: nat)
    requires UniqueNames(d) && i < |d|
    ensures Get(d, d[i].name) == Some(d[i].value)
  {
    if i > 0 {
      assert d[0].name != d[i].name;
      assert d[1..][i - 1] == d[i];
      GetAt(d[1..], i - 1);
    }
  }

  /** `d[k] = v`: an existing key keeps its place, a new one goes last. */
  function Put(d: Dict, k: Bytes, v: Val): (r: Dict)
    ensures Get(r, k) == Some(v)
    ensures forall n :: n != k ==> Get(r, n) == Get(d, n)
    ensures |r| == if HasKey(d, k) then |d| else |d| + 1
  {
    if d == [] then [Field(k, v)]
    else if d[0].name == k then [Field(k, v)] + d[1..]
    else
      var r := [d[0]] + Put(d[1..], k, v);
      assert forall i :: 1 <= i < |d| ==> d[i] == d[1..][i - 1];
      assert forall i :: 1 <= i < |r| ==> r[i] == r[1..][i - 1];
      r
  }

  lemma {:induction false} UniqueCons(f: Field, rest: Dict)
    requires UniqueNames(rest) && Get(rest, f.name) == None
    ensures UniqueNames([f] + rest)
  {
    var d := [f] + rest;
    forall i, j | 0 <= i < j < |d|
      ensures d[i].name != d[j].name
    {
      assert d[j] == rest[j - 1];
      if i > 0 {
        assert d[i] == rest[i - 1];
      }
    }
  }

  lemma {:induction false} UniqueTail(d: Dict)
    requires UniqueNames(d) && d != []
    ensures UniqueNames(d[1..]) && Get(d[1..], d[0].name) == None
  {
    forall j | 0 <= j < |d| - 1
      ensures d[1..][j].name != d[0].name
    {
      assert d[1..][j] == d[j + 1];
    }
  }

  lemma {:induction false} PutUnique(d: Dict, k: Bytes, v: Val)
    requires UniqueNames(d)
    ensures UniqueNames(Put(d, k, v))
  {
    if d != [] {
      UniqueTail(d);
      if d[0].name == k {
        UniqueCons(Field(k, v), d[1..]);
      } else {
        PutUnique(d[1..], k, v);
        UniqueCons(d[0], Put(d[1..], k, v));
      }
    }
  }

  /** `d.pop(k, None)`: the key goes, the others stay in order. */
  function Remove(d: Dict, k: Bytes): (r: Dict)
    ensures Get(r, k) == None
    ensures forall n :: n != k ==> Get(r, n) == Get(d, n)
    ensures |r| <= |d|
  {
    if d == [] then []
    else if d[0].name == k then Remove(d[1..], k)
    else
      var r := [d[0]] + Remove(d[1..], k);
      assert forall i :: 1 <= i < |d| ==> d[i] == d[1..][i - 1];
      assert forall i :: 1 <= i < |r| ==> r[i] == r[1..][i - 1];
      r
  }

  lemma {:induction false} RemoveUnique(d: Dict, k: Bytes)
    requires UniqueNames(d)
    ensures UniqueNames(Remove(d, k))
  {
    if d != [] {
      UniqueTail(d);
      RemoveUnique(d[1..], k);
      if d[0].name != k {
        UniqueCons(d[0], Remove(d[1..], k));
      }
    }
  }

  /** `d.update(u)`: the fields of `u` are put in order, so the last field
      of `u` with a given name wins. */
  function Merge(d: Dict, u: Dict): (r: Dict)
    ensures forall n :: Get(r, n) == if HasKey(u, n) then LastValue(u, n) else Get(d, n)
    decreases |u|
  {
    if u == [] then d
    else
      var n := |u| - 1;
      var r := Put(Merge(d, u[..n]), u[n].name, u[n].value);
      HasKeyPrefix(u);
      r
  }

  lemma {:induction false} HasKeyPrefix(u: Dict)
    requires u != []
    ensures forall m :: HasKey(u, m) <==> HasKey(u[..|u| - 1], m) || m == u[|u| - 1].name
  {
    var n := |u| - 1;
    forall m | HasKey(u, m) && m != u[n].name
      ensures HasKey(u[..n], m)
    {
      var i :| 0 <= i < |u| && u[i].name == m;
      assert u[..n][i] == u[i];
    }
    forall m | HasKey(u[..n], m)
      ensures HasKey(u, m)
    {
      var i :| 0 <= i < n && u[..n][i].name == m;
      assert u[i] == u[..n][i];
    }
  }

  lemma {:induction false} MergeUnique(d: Dict, u: Dict)
    requires UniqueNames(d)
    ensures UniqueNames(Merge(d, u))
    decreases |u|
  {
    if u != [] {
      var n := |u| - 1;
      MergeUnique(d, u[..n]);
      PutUnique(Merge(d, u[..n]), u[n].name, u[n].value);
    }
  }

  /** The value of the last field of `u` named `n`: the one `dict(u)` keeps. */
  function LastValue(u: Dict, n: Bytes): Option<Val>
    decreases |u|
  {
    if u == [] then None
    else if u[|u| - 1].name == n then Some(u[|u| - 1].value)
    else LastValue(u[..|u| - 1], n)
  }

  /** In a dict, the last field of a name is the only one. */
  lemma {:induction false} LastValueUnique(u: Dict, n: Bytes)
    requires UniqueNames(u)
    ensures LastValue(u, n) == Get(u, n)
    decreases |u|
  {
    if u != [] {
      var m := |u| - 1;
      if u[m].name == n {
        GetAt(u, m);
      } else {
        assert UniqueNames(u[..m]);
        LastValueUnique(u[..m], n);
        GetPrefix(u, n);
      }
    }
  }

  lemma {:induction false} GetPrefix(u: Dict, n: Bytes)
    requires u != [] && u[|u| - 1].name != n
    ensures Get(u, n) == Get(u[..|u| - 1], n)
  {
    if |u| > 1 && u[0].name != n {
      assert u[1..][..|u| - 2] == u[..|u| - 1][1..];
      GetPrefix(u[1..], n);
    }
  }

  function Names(d: Dict): seq<Bytes> {
    if d == [] then [] else [d[0].name] + Names(d[1..])
  }

  predicate Numeric(v: Val) {
    v.Bool? || v.Int?
  }

  /** `bool` is a subclass of `int` in Python: `True == 1`. */
  function Num(v: Val): int
    requires Numeric(v)
  {
    if v.Bool? then (if v.b then 1 else 0) else v.i
  }

  /** Python `==` on these values: numbers by value, lists element by
      element, dicts by key regardless of order, and nothing else across
      kinds. */
  predicate Equal(a: Val, b: Val)
    decreases a
  {
    match a
    case Null => b.Null?
    case Bool(_) => Numeric(b) && Num(a) == Num(b)
    case Int(_) => Numeric(b) && Num(a) == Num(b)
    case Str(s) => b.Str? && b.s == s
    case List(xs) =>
      b.List? && |xs| == |b.items| && forall i :: 0 <= i < |xs| ==> Equal(xs[i], b.items[i])
    case Obj(fs) =>
      && b.Obj? && |fs| == |b.fields|
      && forall i :: 0 <= i < |fs| ==> FieldIn(fs[i], b.fields)
  }

  /** A field of one dict is matched by an equal value under the same name
      in the other. */
  predicate FieldIn(f: Field, gs: seq<Field>)
    decreases f, 0
  {
    exists j :: 0 <= j < |gs| && gs[j].name == f.name && Equal(f.value, gs[j].value)
  }

  /** The value of the id field `name` of a stored record, `None` when the
      record has none. */
  function IdOf(d: Dict, name: Bytes): Val {
    match Get(d, name)
    case None => Null
    case Some(v) => v
  }

  /** The values Python compares by kind and content alone. */
  predicate Scalar(v: Val) {
    v.Null? || v.Bool? || v.Int? || v.Str?
  }

  /** Only a scalar equals a scalar, and among scalars `==` is symmetric and
      transitive. */
  lemma {:induction false} EqualScalar(a: Val, b: Val, c: Val)
    requires Scalar(b)
    ensures Equal(a, b) ==> Scalar(a) && Equal(b, a)
    ensures Equal(a, b) && Equal(c, b) ==> Equal(a, c)
  {
  }

  lemma {:induction false} EqualReflexive(a: Val)
    ensures Equal(a, a)
    decreases a
  {
    match a
    case List(xs) =>
      forall i | 0 <= i < |xs|
        ensures Equal(xs[i], xs[i])
      {
        EqualReflexive(xs[i]);
      }
    case Obj(fs) =>
      forall i | 0 <= i < |fs|
        ensures FieldIn(fs[i], fs)
      {
        EqualReflexive(fs[i].value);
      }
    case _ =>
  }

  function Sign(n: int): int {
    if n < 0 then -1 else if n > 0 then 1 else 0
  }

  /** The first place where two lists differ under `==`, or the shorter length. */
  function FirstDiff(xs: seq<Val>, ys: seq<Val>): (i: nat)
    ensures i <= |xs| && i <= |ys|
    ensures forall j :: 0 <= j < i ==> Equal(xs[j], ys[j])
    ensures i < |xs| && i < |ys| ==> !Equal(xs[i], ys[i])
  {
    if xs == [] || ys == [] || !Equal(xs[0], ys[0]) then 0
    else
      var i := 1 + FirstDiff(xs[1..], ys[1..]);
      assert forall j :: 1 <= j < i ==> xs[j] == xs[1..][j - 1] && ys[j] == ys[1..][j - 1];
      i
  }

  /** Python's ordering as a three-way comparison: numbers by value,
      strings by code point (the order of their UTF-8 bytes), lists at their
      first difference and then by length; `None`, dicts and values of
      different kinds have no order. */
  function Cmp(a: Val, b: Val): (r: Result<int, TypeError>)
    ensures r.Ok? ==> -1 <= r.value <= 1
    decreases a
  {
    if Numeric(a) && Numeric(b) then Ok(Sign(Num(a) - Num(b)))
    else if a.Str? && b.Str? then
      Ok(if a.s == b.s then 0 else if Less(a.s, b.s) then -1 else 1)
    else if a.List? && b.List? then
      var i := FirstDiff(a.items, b.items);
      if i < |a.items| && i < |b.items| then Cmp(a.items[i], b.items[i])
      else Ok(Sign(|a.items| - |b.items|))
    else Err(TypeError)
  }

  /** Numbers and strings are totally ordered: comparing two numbers or two
      strings never fails, and is zero exactly when they are equal. */
  lemma {:induction false} CmpScalar(a: Val, b: Val)
    requires (Numeric(a) && Numeric(b)) || (a.Str? && b.Str?)
    ensures Cmp(a, b).Ok?
    ensures Cmp(a, b).value == 0 <==> Equal(a, b)
    ensures Cmp(b, a).value == -Cmp(a, b).value
  {
    if a.Str? && a.s != b.s {
      LessTotal(a.s, b.s);
      LessAsymmetric(a.s, b.s);
    }
  }
}
