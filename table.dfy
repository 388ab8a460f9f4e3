/** A table: records checked against a column schema, with an
    auto-incrementing integer `id`. */
module Tables {
  import opened Bytes
  import opened Wrappers
  import opened Documents
  import opened Query
  import opened Containers

  const ID: Bytes := [105, 100]

  datatype TableError =
    | UnknownColumn(column: Bytes)
    | WrongType(column: Bytes)

  /** `str.lower()` on ASCII letters. */
  function AsciiLower(s: Bytes): (r: Bytes)
    ensures |r| == |s|
  {
    if s == [] then []
    else
      [if 65 <= s[0] <= 90 then s[0] + 32 else s[0]] + AsciiLower(s[1..])
  }

  /** Lowering twice is lowering once. */
  lemma {:induction false} AsciiLowerIdempotent(s: Bytes)
    ensures AsciiLower(AsciiLower(s)) == AsciiLower(s)
  {
    if s != [] {
      AsciiLowerIdempotent(s[1..]);
      assert AsciiLower(s)[1..] == AsciiLower(s[1..]);
    }
  }

  const INT: Bytes := [105, 110, 116]
  const INTEGER: Bytes := [105, 110, 116, 101, 103, 101, 114]
  const STR: Bytes := [115, 116, 114]
  const STRING: Bytes := [115, 116, 114, 105, 110, 103]
  const FLOAT: Bytes := [102, 108, 111, 97, 116]
  const BOOL: Bytes := [98, 111, 111, 108]
  const BOOLEAN: Bytes := [98, 111, 111, 108, 101, 97, 110]

  /** `_check_type`: the known type names, in any letter case; `int`
      accepts a bool as Python's `isinstance` does, `float` accepts none of
      the values modelled here, and an unknown name accepts everything. */
  function CheckType(v: Val, expected: Bytes): (r: bool)
    ensures AsciiLower(expected) in {INT, INTEGER} ==> (r <==> v.Int? || v.Bool?)
    ensures AsciiLower(expected) in {STR, STRING} ==> (r <==> v.Str?)
    ensures AsciiLower(expected) == FLOAT ==> !r
    ensures AsciiLower(expected) in {BOOL, BOOLEAN} ==> (r <==> v.Bool?)
    ensures AsciiLower(expected) !in {INT, INTEGER, STR, STRING, FLOAT, BOOL, BOOLEAN} ==> r
  {
    var t := AsciiLower(expected);
    if t == INT || t == INTEGER then Numeric(v)
    else if t == STR || t == STRING then v.Str?
    else if t == FLOAT then false
    else if t == BOOL || t == BOOLEAN then v.Bool?
    else true
  }

  /** The type check ignores letter case. */
  lemma {:induction false} CheckTypeCaseless(v: Val, expected: Bytes)
    ensures CheckType(v, expected) == CheckType(v, AsciiLower(expected))
  {
    AsciiLowerIdempotent(expected);
  }

  /** A column the schema allows with a value of its type; a column whose
      type is empty is not checked. */
  predicate Conforms(schema: map<Bytes, Bytes>, f: Field) {
    && (f.name in schema || f.name == ID)
    && (f.name in schema && schema[f.name] != [] ==> CheckType(f.value, schema[f.name]))
  }

  /** What `_validate_record` raises: at the first column, in record order,
      that is outside the schema (other than `id`) or has the wrong type. */
  function Validate(schema: map<Bytes, Bytes>, record: Dict): Result<(), TableError> {
    if record == [] then Ok(())
    else
      var f := record[0];
      if f.name !in schema && f.name != ID then Err(UnknownColumn(f.name))
      else if f.name in schema && schema[f.name] != [] && !CheckType(f.value, schema[f.name]) then Err(WrongType(f.name))
      else Validate(schema, record[1..])
  }

  /** A record passes exactly when every column conforms; otherwise the
      error names the first column that does not. */
  lemma {:induction false} ValidateIff(schema: map<Bytes, Bytes>, record: Dict)
    ensures Validate(schema, record).Ok? <==> forall i :: 0 <= i < |record| ==> Conforms(schema, record[i])
    ensures Validate(schema, record).Err? ==> exists i ::
      && 0 <= i < |record| && !Conforms(schema, record[i])
      && Validate(schema, record).error.column == record[i].name
      && (Validate(schema, record).error.UnknownColumn? <==> record[i].name !in schema && record[i].name != ID)
      && forall j :: 0 <= j < i ==> Conforms(schema, record[j])
  {
    if record != [] {
      ValidateIff(schema, record[1..]);
      assert forall i :: 1 <= i < |record| ==> record[i] == record[1..][i - 1];
      if Conforms(schema, record[0]) && Validate(schema, record).Err? {
        var k :| 0 <= k < |record[1..]| && !Conforms(schema, record[1..][k])
          && Validate(schema, record[1..]).error.column == record[1..][k].name
          && (Validate(schema, record[1..]).error.UnknownColumn? <==> record[1..][k].name !in schema && record[1..][k].name != ID)
          && forall j :: 0 <= j < k ==> Conforms(schema, record[1..][j]);
        assert record[k + 1] == record[1..][k];
        assert forall j :: 0 <= j < k + 1 ==> Conforms(schema, record[j]) by {
          forall j | 0 <= j < k + 1 ensures Conforms(schema, record[j]) {
            if j > 0 {
              assert record[j] == record[1..][j - 1];
            }
          }
        }
      }
    }
  }

  /** The id the insert stores and returns: the record's own, or the next
      counter value. */
  function WithAutoId(record: Dict, autoId: int): Dict {
    if HasKey(record, ID) then record else Put(record, ID, Int(autoId + 1))
  }

  /** The counter after an insert: one up for an auto id, raised to a
      larger user-given integer id, unchanged otherwise. */
  function NextAutoId(record: Dict, autoId: int): (r: int)
    ensures r >= autoId
  {
    match Get(record, ID)
    case None => autoId + 1
    case Some(v) => if Numeric(v) && Num(v) > autoId then Num(v) else autoId
  }

  /** Every stored integer id is at most the counter. */
  ghost predicate IdsBelow(records: map<nat, Dict>, autoId: int) {
    forall o :: o in records && Numeric(IdOf(records[o], ID)) ==> Num(IdOf(records[o], ID)) <= autoId
  }

  /** A record stored by an insert has an id no larger than the new counter. */
  lemma {:induction false} InsertedIdBelow(record: Dict, autoId: int)
    ensures Numeric(IdOf(WithAutoId(record, autoId), ID)) ==>
      Num(IdOf(WithAutoId(record, autoId), ID)) <= NextAutoId(record, autoId)
    ensures !HasKey(record, ID) ==> IdOf(WithAutoId(record, autoId), ID) == Int(autoId + 1)
  {
  }

  /** A table object created over records that already carry id 1 starts
      its counter at 0, so the next record without an id is given 1 again. */
  lemma {:induction false} ReopenedRepeatsId(stored: Dict, record: Dict)
    requires Get(stored, ID) == Some(Int(1)) && !HasKey(record, ID)
    ensures !IdsBelow(map[0 := stored], 0)
    ensures IdOf(WithAutoId(record, 0), ID) == IdOf(stored, ID)
  {
    assert Numeric(IdOf(map[0 := stored][0], ID));
  }

  class Table {
    const name: Bytes
    const schema: map<Bytes, Bytes>
    const store: Store
    var autoId: int

    /** The stored ids never exceed the counter, so an auto id is new. */
    ghost predicate Valid()
      reads this, store
    {
      store.Valid() && IdsBelow(store.records, autoId)
    }

    /** A new table starts its counter at 0 and indexes `id`; over a store
        that holds no positive integer id, its auto ids are then new. */
    constructor (name: Bytes, schema: map<Bytes, Bytes>, store: Store)
      modifies store
      ensures this.name == name && this.schema == schema && this.store == store && autoId == 0
      ensures store.Valid() && IdsBelow(store.records, 0) ==> Valid()
      ensures store.indexed == old(store.indexed) + {ID}
      ensures store.offsets == old(store.offsets) && store.records == old(store.records)
      ensures store.next == old(store.next) && store.deleted == old(store.deleted)
    {
      this.name := name;
      this.schema := schema;
      this.store := store;
      autoId := 0;
      new;
      store.CreateIndex(ID);
    }

    /** The loop of `_validate_record`. */
    method ValidateRecord(record: Dict) returns (r: Result<(), TableError>)
      ensures r == Validate(schema, record)
    {
      var i := 0;
      while i < |record|
        invariant i <= |record|
        invariant Validate(schema, record[i..]) == Validate(schema, record)
      {
        assert record[i..][1..] == record[i + 1..];
        var f := record[i];
        if f.name !in schema && f.name != ID {
          return Err(UnknownColumn(f.name));
        }
        if f.name in schema && schema[f.name] != [] && !CheckType(f.value, schema[f.name]) {
          return Err(WrongType(f.name));
        }
        i := i + 1;
      }
      return Ok(());
    }

    /** `insert`: a record that fails validation changes nothing; otherwise
        it is stored with its id, and a record without one gets the next
        counter value. That value is larger than every stored integer id
        only when the counter was already at least each of them: a table
        created over existing records starts again from 0. */
    method Insert(record: Dict) returns (r: Result<Val, TableError>)
      requires store.Valid()
      modifies this, store
      ensures store.Valid()
      ensures old(Valid()) ==> Valid()
      ensures Validate(schema, record).Err? ==>
        && r == Err(Validate(schema, record).error)
        && autoId == old(autoId) && store.offsets == old(store.offsets) && store.records == old(store.records)
      ensures Validate(schema, record).Ok? ==>
        && r == Ok(IdOf(WithAutoId(record, old(autoId)), ID))
        && autoId == NextAutoId(record, old(autoId))
        && store.offsets == old(store.offsets) + [old(store.next)]
        && store.records == old(store.records)[old(store.next) := WithAutoId(record, old(autoId))]
      ensures r.Ok? && !HasKey(record, ID) ==> r.value == Int(old(autoId) + 1)
      ensures r.Ok? && !HasKey(record, ID) && old(Valid()) ==>
        forall o :: o in old(store.records) && Numeric(IdOf(old(store.records)[o], ID)) ==>
             Num(IdOf(old(store.records)[o], ID)) < r.value.i
      ensures store.indexed == old(store.indexed) && store.deleted == old(store.deleted)
    {
      var v := ValidateRecord(record);
      if v.Err? {
        return Err(v.error);
      }
      var stored := WithAutoId(record, autoId);
      InsertedIdBelow(record, autoId);
      autoId := NextAutoId(record, autoId);
      var _ := store.InsertRecord(stored);
      r := Ok(IdOf(stored, ID));
    }

    /** `delete`: see `Store.DeleteWhere`, by `id`. */
    method Delete(where: Dict) returns (count: nat)
      requires store.Valid()
      modifies store
      ensures store.Valid() && (old(Valid()) ==> Valid())
      ensures store.offsets == Kept(old(store.offsets), old(store.records), where, ID)
      ensures store.deleted == old(store.deleted) + DoomedIds(old(store.offsets), old(store.records), where, ID)
      ensures count == |old(store.offsets)| - |store.offsets|
      ensures store.records == old(store.records) && store.indexed == old(store.indexed)
    {
      count := store.DeleteWhere(where, ID);
    }

    /** `count`: the length of the table's list of offsets. */
    function Count(): (n: nat)
      reads this, store
      ensures n == |store.offsets| && |store.Scan()| <= n
    {
      |store.offsets|
    }

    /** `create_index`: only a schema column or `id`. */
    method CreateIndex(column: Bytes) returns (r: Result<(), TableError>)
      modifies store
      ensures (column in schema || column == ID) <==> r.Ok?
      ensures r.Ok? ==> store.indexed == old(store.indexed) + {column}
      ensures r.Err? ==> r.error == UnknownColumn(column) && store.indexed == old(store.indexed)
      ensures store.offsets == old(store.offsets) && store.records == old(store.records)
      ensures store.next == old(store.next) && store.deleted == old(store.deleted)
    {
      if column in schema || column == ID {
        store.CreateIndex(column);
        return Ok(());
      }
      return Err(UnknownColumn(column));
    }
  }
}
