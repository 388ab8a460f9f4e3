/** The file storage engine: records are appended to the database file as
    blocks with a 16-byte header (type, data length, additive checksum,
    reserved), the container metadata keeps each record's offset, and
    inserts are logged until the transaction is committed or rolled back. */
module FileEngine {
  import opened Bytes
  import opened Wrappers
  import opened Lru

  const BLOCK_HEADER_SIZE: nat := 16

  /** The block types, as their ASCII bytes. */
  const META: Bytes := [77, 69, 84, 65]
  const DATA: Bytes := [68, 65, 84, 65]
  const TLOG: Bytes := [84, 76, 79, 71]

  /** The JSON text of the empty record `{}`: the one record that reads as
      false, so a cached copy of it is not returned. */
  const EMPTY_RECORD: Bytes := [123, 125]

  datatype BlockError = InvalidBlockSize | TypeNotUtf8 | ChecksumMismatch

  datatype ReadError = ShortHeader | BadBlock(err: BlockError) | NotData(blockType: Bytes)

  function Zeros(n: nat): (z: Bytes)
    ensures |z| == n && forall i :: 0 <= i < n ==> z[i] == 0
  {
    if n == 0 then [] else [0] + Zeros(n - 1)
  }

  /** The type field: the type's bytes cut or NUL-padded to four. */
  function TypeField(t: Bytes): (f: Bytes)
    ensures |f| == 4
  {
    if |t| >= 4 then t[..4] else t + Zeros(4 - |t|)
  }

  /** `strip('\x00')`: leading and trailing NUL bytes removed. A NUL byte
      never occurs inside a multi-byte UTF-8 sequence, so stripping the
      bytes is stripping the decoded text. */
  function StripNul(s: Bytes): (r: Bytes)
    ensures |r| <= |s|
  {
    StripTrailing(StripLeading(s))
  }

  function StripLeading(s: Bytes): (r: Bytes)
    ensures |r| <= |s|
    ensures r != [] ==> r[0] != 0
    ensures forall i :: 0 <= i < |r| ==> r[i] == s[|s| - |r| + i]
  {
    if s != [] && s[0] == 0 then StripLeading(s[1..]) else s
  }

  function StripTrailing(s: Bytes): (r: Bytes)
    ensures |r| <= |s|
    ensures r == s[..|r|]
  {
    if s != [] && s[|s| - 1] == 0 then StripTrailing(s[..|s| - 1]) else s
  }

  function Sum(data: Bytes): nat {
    if data == [] then 0 else Sum(data[..|data| - 1]) + data[|data| - 1]
  }

  /** `sum(data) % 2**32`. */
  function Checksum(data: Bytes): (c: nat)
    ensures c < U32_LIMIT
  {
    Sum(data) % U32_LIMIT
  }

  /** `_create_block`: the header, then the data. */
  function CreateBlock(t: Bytes, data: Bytes): (b: Bytes)
    requires |data| < U32_LIMIT
    ensures |b| == BLOCK_HEADER_SIZE + |data|
    ensures b[..4] == TypeField(t) && b[16..] == data
    ensures ReadU32(b[4..8]) == |data| && ReadU32(b[8..12]) == Checksum(data)
    ensures b[12..16] == [0, 0, 0, 0]
  {
    var header := TypeField(t) + U32(|data|) + U32(Checksum(data)) + Zeros(4);
    assert |header| == 16;
    assert header[4..8] == U32(|data|) && header[8..12] == U32(Checksum(data)) && header[12..16] == Zeros(4);
    var b := header + data;
    assert b[..16] == header && b[16..] == data;
    assert b[4..8] == header[4..8] && b[8..12] == header[8..12];
    b
  }

  /** `_parse_block`: the type (NULs stripped) and the data the length field
      covers, cut short where the block ends; rejected when shorter than a
      header, when the type field does not decode as UTF-8, or when the data
      does not add up to the stored checksum, in that order. */
  function ParseBlock(block: Bytes): (r: Result<(Bytes, Bytes), BlockError>)
    ensures |block| < BLOCK_HEADER_SIZE ==> r == Err(InvalidBlockSize)
    ensures |block| >= BLOCK_HEADER_SIZE && !WellFormedUtf8(block[0..4]) ==> r == Err(TypeNotUtf8)
    ensures r.Ok? ==> WellFormedUtf8(block[0..4]) && r.value.0 == StripNul(block[0..4])
    ensures r.Ok? ==> Checksum(r.value.1) == ReadU32(block[8..12])
    ensures r.Ok? ==> r.value.1 == block[16..Min(|block|, 16 + ReadU32(block[4..8]))]
  {
    if |block| < BLOCK_HEADER_SIZE then Err(InvalidBlockSize)
    else if !WellFormedUtf8(block[0..4]) then Err(TypeNotUtf8)
    else
      var blockType := StripNul(block[0..4]);
      var size := ReadU32(block[4..8]);
      var checksum := ReadU32(block[8..12]);
      var data := block[16..Min(|block|, 16 + size)];
      if Checksum(data) != checksum then Err(ChecksumMismatch)
      else Ok((blockType, data))
  }

  function Min(a: nat, b: nat): nat {
    if a < b then a else b
  }

  lemma {:induction false} StripPadded(t: Bytes, n: nat)
    requires 0 !in t
    ensures StripNul(t + Zeros(n)) == t
  {
    if t == [] {
      assert t + Zeros(n) == Zeros(n);
      StripLeadingZeros(n);
    } else {
      assert t[0] in t && t[|t| - 1] in t;
      assert (t + Zeros(n))[0] == t[0];
      StripZeros(t, n);
    }
  }

  lemma {:induction false} StripLeadingZeros(n: nat)
    ensures StripLeading(Zeros(n)) == []
  {
    if n > 0 {
      assert Zeros(n)[1..] == Zeros(n - 1);
      StripLeadingZeros(n - 1);
    }
  }

  lemma {:induction false} StripZeros(t: Bytes, n: nat)
    requires t != [] && t[|t| - 1] != 0
    ensures StripTrailing(t + Zeros(n)) == t
  {
    var s := t + Zeros(n);
    if n > 0 {
      assert s[|s| - 1] == 0;
      assert s[..|s| - 1] == t + Zeros(n - 1);
      StripZeros(t, n - 1);
    } else {
      assert s == t;
    }
  }

  /** Round trip: parsing a created block gives back the type and the data,
      whatever follows the block (the metadata is read with a fixed-size
      read that runs past its block). The type is the UTF-8 encoding of a
      text of at most four bytes without NUL. */
  lemma {:induction false} ParseCreated(t: Bytes, data: Bytes, rest: Bytes)
    requires |t| <= 4 && 0 !in t && WellFormedUtf8(t) && |data| < U32_LIMIT
    ensures ParseBlock(CreateBlock(t, data) + rest) == Ok((t, data))
  {
    var block := CreateBlock(t, data) + rest;
    CreatedFields(t, data, rest);
    PaddedWellFormed(t);
    StripPadded(t, 4 - |t|);
  }

  /** NUL padding keeps a well-formed type well-formed. */
  lemma {:induction false} PaddedWellFormed(t: Bytes)
    requires |t| <= 4 && WellFormedUtf8(t)
    ensures WellFormedUtf8(t + Zeros(4 - |t|))
  {
    AsciiWellFormed(Zeros(4 - |t|));
    WellFormedConcat(t, Zeros(4 - |t|));
  }

  /** The block types this engine writes are ASCII, so they decode. */
  lemma {:induction false} TypesWellFormed()
    ensures WellFormedUtf8(DATA) && WellFormedUtf8(TLOG) && WellFormedUtf8(META)
  {
    AsciiWellFormed(DATA);
    AsciiWellFormed(TLOG);
    AsciiWellFormed(META);
  }

  /** The header fields of a created block, with anything after it. */
  lemma {:induction false} CreatedFields(t: Bytes, data: Bytes, rest: Bytes)
    requires |t| <= 4 && |data| < U32_LIMIT
    ensures var block := CreateBlock(t, data) + rest;
      && |block| >= BLOCK_HEADER_SIZE
      && block[0..4] == t + Zeros(4 - |t|)
      && ReadU32(block[4..8]) == |data| && ReadU32(block[8..12]) == Checksum(data)
      && block[16..16 + |data|] == data
  {
    var b := CreateBlock(t, data);
    var block := b + rest;
    assert block[0..4] == b[..4];
    assert block[4..8] == b[4..8] && block[8..12] == b[8..12];
    assert block[16..16 + |data|] == b[16..];
  }

  lemma {:induction false} SumUpdate(data: Bytes, i: nat, v: Byte)
    requires i < |data|
    ensures Sum(data[i := v]) == Sum(data) - data[i] + v
  {
    var n := |data| - 1;
    if i < n {
      assert data[i := v][..n] == data[..n][i := v];
      SumUpdate(data[..n], i, v);
    } else {
      assert data[i := v][..n] == data[..n];
    }
  }

  lemma {:induction false} ModDiffers(x: nat, y: nat, m: nat)
    requires m > 0 && x != y && x - y < m && y - x < m
    ensures x % m != y % m
  {
    var k := x / m - y / m;
    assert x - y == k * m + (x % m - y % m);
    if k >= 1 {
      MulAtLeast(k, m);
    } else if k <= -1 {
      MulAtLeast(-k, m);
    }
  }

  lemma {:induction false} MulAtLeast(k: int, m: int)
    requires k >= 1 && m > 0
    ensures k * m >= m && -k * m <= -m
  {
  }

  /** The checksum catches any change to a single data byte: the block no
      longer parses (its type field, when cut inside a character, already
      fails to decode). */
  lemma {:induction false} CorruptionDetected(t: Bytes, data: Bytes, i: nat, v: Byte)
    requires |data| < U32_LIMIT && i < |data| && v != data[i]
    ensures var b := CreateBlock(t, data);
      ParseBlock(b[16 + i := v]) == Err(if WellFormedUtf8(TypeField(t)) then ChecksumMismatch else TypeNotUtf8)
  {
    var b := CreateBlock(t, data);
    var c := b[16 + i := v];
    assert c[0..4] == b[..4];
    assert c[4..8] == b[4..8] && c[8..12] == b[8..12];
    assert c[16..16 + |data|] == data[i := v];
    SumUpdate(data, i, v);
    ModDiffers(Sum(data[i := v]), Sum(data), U32_LIMIT);
  }

  /** `read_block(offset, size)`: the bytes there, cut short at the end of the file. */
  function ReadBlock(file: Bytes, offset: nat, size: nat): (r: Bytes)
    ensures |r| <= size
  {
    if offset >= |file| then [] else file[offset..Min(|file|, offset + size)]
  }

  /** The two reads of `read_record`: the header for the length, then the
      whole block; `None` when the header is too short to hold a length. */
  function SizedBlock(file: Bytes, offset: nat): Option<Bytes> {
    var header := ReadBlock(file, offset, BLOCK_HEADER_SIZE);
    if |header| < 8 then None
    else Some(ReadBlock(file, offset, BLOCK_HEADER_SIZE + ReadU32(header[4..8])))
  }

  /** The part of `read_record` that goes to the file: read the block, parse
      it and insist on a data block. */
  function ReadAt(file: Bytes, offset: nat): Result<Bytes, ReadError> {
    match SizedBlock(file, offset)
    case None => Err(ShortHeader)
    case Some(block) => DataOf(block)
  }

  /** The record in a block that parses as a data block. */
  function DataOf(block: Bytes): Result<Bytes, ReadError> {
    match ParseBlock(block)
    case Err(e) => Err(BadBlock(e))
    case Ok((blockType, data)) =>
      if blockType != DATA then Err(NotData(blockType)) else Ok(data)
  }

  /** Reading at the offset of an appended block reads exactly that block. */
  lemma {:induction false} ReadCreated(prefix: Bytes, t: Bytes, data: Bytes, suffix: Bytes)
    requires |data| < U32_LIMIT
    ensures ReadAt(prefix + CreateBlock(t, data) + suffix, |prefix|) == DataOf(CreateBlock(t, data) + [])
  {
    var b := CreateBlock(t, data);
    var file := prefix + b + suffix;
    var o := |prefix|;
    assert file[o..o + |b|] == b;
    var header := ReadBlock(file, o, BLOCK_HEADER_SIZE);
    assert header == b[..16];
    assert header[4..8] == b[4..8];
    assert ReadBlock(file, o, BLOCK_HEADER_SIZE + |data|) == b + [];
    assert SizedBlock(file, o) == Some(b + []);
  }

  /** A record appended to the file reads back from its offset, however
      many blocks are appended after it. */
  lemma {:induction false} ReadWritten(prefix: Bytes, record: Bytes, suffix: Bytes)
    requires |record| < U32_LIMIT
    ensures ReadAt(prefix + CreateBlock(DATA, record) + suffix, |prefix|) == Ok(record)
  {
    ReadCreated(prefix, DATA, record, suffix);
    TypesWellFormed();
    ParseCreated(DATA, record, []);
  }

  /** A block of any other type at the offset, a transaction log say, is
      refused rather than returned as a record. */
  lemma {:induction false} ReadOtherType(prefix: Bytes, t: Bytes, data: Bytes, suffix: Bytes)
    requires |t| <= 4 && 0 !in t && WellFormedUtf8(t) && t != DATA && |data| < U32_LIMIT
    ensures ReadAt(prefix + CreateBlock(t, data) + suffix, |prefix|) == Err(NotData(t))
  {
    ReadCreated(prefix, t, data, suffix);
    ParseCreated(t, data, []);
  }

  /** A read that ends inside the file returns the same bytes however the
      file grows afterwards. */
  lemma {:induction false} ReadBlockExtend(file: Bytes, more: Bytes, offset: nat, size: nat)
    requires offset + size <= |file|
    ensures ReadBlock(file + more, offset, size) == ReadBlock(file, offset, size) == file[offset..offset + size]
  {
    assert (file + more)[offset..offset + size] == file[offset..offset + size];
  }

  /** A data block that fits in the file parses as the same record however
      the file grows afterwards. */
  lemma {:induction false} ReadAtExtend(file: Bytes, more: Bytes, offset: nat)
    requires |file| >= offset + BLOCK_HEADER_SIZE
    requires offset + BLOCK_HEADER_SIZE + ReadU32(file[offset + 4..offset + 8]) <= |file|
    ensures ReadAt(file + more, offset) == ReadAt(file, offset)
  {
    SizedBlockExtend(file, more, offset);
  }

  lemma {:induction false} SizedBlockExtend(file: Bytes, more: Bytes, offset: nat)
    requires |file| >= offset + BLOCK_HEADER_SIZE
    requires offset + BLOCK_HEADER_SIZE + ReadU32(file[offset + 4..offset + 8]) <= |file|
    ensures SizedBlock(file + more, offset) == SizedBlock(file, offset)
  {
    ReadBlockExtend(file, more, offset, BLOCK_HEADER_SIZE);
    var h := file[offset..offset + BLOCK_HEADER_SIZE];
    assert h[4..8] == file[offset + 4..offset + 8];
    ReadBlockExtend(file, more, offset, BLOCK_HEADER_SIZE + ReadU32(h[4..8]));
  }

  datatype Operation = INSERT | UPDATE | DELETE

  /** One `_transaction_log` entry; the record is kept as its JSON text. */
  datatype LogEntry = LogEntry(operation: Operation, target: Bytes, data: Bytes)

  class Engine {
    /** The database file from the first block on. */
    var file: Bytes
    /** `metadata['tables'][name]['offsets']`; a table without offsets has `[]`. */
    var tables: map<Bytes, seq<nat>>
    /** `metadata['collections'][name]['offsets']`. */
    var collections: map<Bytes, seq<nat>>
    /** `metadata['indexes'][container][field]['order']`. */
    var indexMeta: map<Bytes, map<Bytes, int>>
    /** The fields of each container that have a B-tree in `self.indexes`. */
    var indexes: map<Bytes, set<Bytes>>
    var log: seq<LogEntry>
    const cache: Cache<nat, Bytes>
    /** `json.dumps` of the transaction log. */
    const logJson: seq<LogEntry> -> Bytes

    ghost predicate Valid()
      reads this, cache
    {
      cache.Valid()
    }

    constructor (cacheSize: int, logJson: seq<LogEntry> -> Bytes)
      ensures Valid() && fresh(cache) && cache.capacity == cacheSize
      ensures file == [] && tables == map[] && collections == map[] && log == []
      ensures indexMeta == map[] && indexes == map[]
    {
      file := [];
      tables := map[];
      collections := map[];
      indexMeta := map[];
      indexes := map[];
      log := [];
      cache := new Cache(cacheSize);
      this.logJson := logJson;
    }

    /** `append_block`: the block goes at the end of the file and its offset
        is the file's length before. */
    method AppendBlock(block: Bytes) returns (offset: nat)
      modifies this
      ensures offset == |old(file)| && file == old(file) + block
      ensures tables == old(tables) && collections == old(collections) && log == old(log)
      ensures indexMeta == old(indexMeta) && indexes == old(indexes)
    {
      offset := |file|;
      file := file + block;
    }

    /** `insert_record`: appends a data block, caches the record under its
        offset, adds the offset to the table of that name or else to the
        collection of that name, and logs the insert. */
    method InsertRecord(container: Bytes, record: Bytes) returns (offset: nat)
      requires Valid() && |record| < U32_LIMIT
      modifies this, cache
      ensures Valid()
      ensures offset == |old(file)| && file == old(file) + CreateBlock(DATA, record)
      ensures ReadAt(file, offset) == Ok(record)
      ensures cache.capacity > 0 ==> offset in cache.entries && cache.entries[offset] == record
      ensures container in old(tables) ==>
        tables == old(tables)[container := old(tables)[container] + [offset]] && collections == old(collections)
      ensures container !in old(tables) && container in old(collections) ==>
        collections == old(collections)[container := old(collections)[container] + [offset]] && tables == old(tables)
      ensures container !in old(tables) && container !in old(collections) ==>
        tables == old(tables) && collections == old(collections)
      ensures log == old(log) + [LogEntry(INSERT, container, record)]
      ensures indexMeta == old(indexMeta) && indexes == old(indexes)
    {
      var block := CreateBlock(DATA, record);
      offset := AppendBlock(block);
      ReadWritten(old(file), record, []);
      assert file == old(file) + block + [];
      Remember(offset, record);
      AddOffset(container, offset);
      LogTransaction(INSERT, container, record);
    }

    /** The new offset goes to the table of that name, or else to the
        collection of that name. */
    method AddOffset(container: Bytes, offset: nat)
      modifies this
      ensures container in old(tables) ==>
        tables == old(tables)[container := old(tables)[container] + [offset]] && collections == old(collections)
      ensures container !in old(tables) && container in old(collections) ==>
        collections == old(collections)[container := old(collections)[container] + [offset]] && tables == old(tables)
      ensures container !in old(tables) && container !in old(collections) ==>
        tables == old(tables) && collections == old(collections)
      ensures file == old(file) && log == old(log) && indexMeta == old(indexMeta) && indexes == old(indexes)
    {
      if container in tables {
        tables := tables[container := tables[container] + [offset]];
      } else if container in collections {
        collections := collections[container := collections[container] + [offset]];
      }
    }

    /** `read_record`: a cached record that is not empty is returned as it
        is; otherwise the block at the offset is read, checked and cached. */
    method ReadRecord(offset: nat) returns (r: Result<Bytes, ReadError>)
      requires Valid()
      modifies cache
      ensures Valid() && cache.entries.Keys <= old(cache.entries).Keys + {offset}
      ensures offset in old(cache.entries) && old(cache.entries)[offset] != EMPTY_RECORD ==>
        r == Ok(old(cache.entries)[offset])
      ensures !(offset in old(cache.entries) && old(cache.entries)[offset] != EMPTY_RECORD) ==>
        r == ReadAt(file, offset)
      ensures r.Ok? && cache.capacity > 0 ==> offset in cache.entries && cache.entries[offset] == r.value
    {
      var cached := cache.Get(offset);
      if cached.Some? && cached.value != EMPTY_RECORD {
        return Ok(cached.value);
      }
      r := ReadAt(file, offset);
      if r.Ok? {
        Remember(offset, r.value);
      }
    }

    /** `self.cache.put(offset, record)`, with only what the engine needs
        of the cache's contract. */
    method Remember(offset: nat, record: Bytes)
      requires Valid()
      modifies cache
      ensures Valid() && cache.entries.Keys <= old(cache.entries).Keys + {offset}
      ensures cache.capacity > 0 ==> offset in cache.entries && cache.entries[offset] == record
    {
      cache.Put(offset, record);
    }

    /** `create_index`: a field already indexed is left as it is; otherwise
        it gets a B-tree and its order is recorded in the metadata. */
    method CreateIndex(container: Bytes, field: Bytes, order: int)
      modifies this
      ensures file == old(file) && tables == old(tables) && collections == old(collections) && log == old(log)
      ensures container in indexes && field in indexes[container]
      ensures container in old(indexes) && field in old(indexes)[container] ==>
        indexes == old(indexes) && indexMeta == old(indexMeta)
      ensures !(container in old(indexes) && field in old(indexes)[container]) ==>
        && indexes == old(indexes)[container := (if container in old(indexes) then old(indexes)[container] else {}) + {field}]
        && container in indexMeta && indexMeta[container] == Fields(old(indexMeta), container)[field := order]
        && forall c :: c in indexMeta && c != container ==> c in old(indexMeta) && indexMeta[c] == old(indexMeta)[c]
    {
      if container !in indexes {
        indexes := indexes[container := {}];
      }
      if field !in indexes[container] {
        indexes := indexes[container := indexes[container] + {field}];
        var fields := if container in indexMeta then indexMeta[container] else map[];
        indexMeta := indexMeta[container := fields[field := order]];
      }
    }

    static function Fields(meta: map<Bytes, map<Bytes, int>>, container: Bytes): map<Bytes, int> {
      if container in meta then meta[container] else map[]
    }

    method LogTransaction(operation: Operation, target: Bytes, data: Bytes)
      modifies this
      ensures log == old(log) + [LogEntry(operation, target, data)]
      ensures file == old(file) && tables == old(tables) && collections == old(collections)
      ensures indexMeta == old(indexMeta) && indexes == old(indexes)
    {
      log := log + [LogEntry(operation, target, data)];
    }

    /** `commit`: a non-empty log is written as one TLOG block and emptied;
        an empty one writes nothing. */
    method Commit()
      requires |logJson(log)| < U32_LIMIT
      modifies this
      ensures log == []
      ensures old(log) != [] ==> file == old(file) + CreateBlock(TLOG, logJson(old(log)))
      ensures old(log) == [] ==> file == old(file)
      ensures tables == old(tables) && collections == old(collections)
      ensures indexMeta == old(indexMeta) && indexes == old(indexes)
    {
      if log != [] {
        var block := CreateBlock(TLOG, logJson(log));
        var _ := AppendBlock(block);
        log := [];
      }
    }

    /** `rollback`: the log is dropped and nothing is written. */
    method Rollback()
      modifies this
      ensures log == [] && file == old(file)
      ensures tables == old(tables) && collections == old(collections)
      ensures indexMeta == old(indexMeta) && indexes == old(indexes)
    {
      log := [];
    }
  }
}
