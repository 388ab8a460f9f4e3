/** The write-ahead log of the LSM engine: every mutation is appended to the
    log file as a frame `KeyLen(u32) ValLen(u32) Key Value` before the
    MemTable applies it, and `Recover` parses the frames back in order. */
module Wal {
  import opened Bytes
  import opened Wrappers
  import opened Packing

  /** One logged mutation; `value == None` is a tombstone. */
  datatype Entry = Entry(key: Bytes, value: Option<Value>)

  const HEADER_SIZE: nat := 8

  /** Both lengths fit the u32 header fields (`struct.pack('II', ...)`
      raises otherwise). */
  predicate Encodable(e: Entry) {
    FitsU32(|e.key|) && FitsU32(|Pack(e.value)|)
  }

  predicate AllEncodable(es: seq<Entry>) {
    forall e <- es :: Encodable(e)
  }

  /** The bytes `append` writes for one entry. */
  function Frame(e: Entry): (r: Bytes)
    requires Encodable(e)
    ensures |r| == HEADER_SIZE + |e.key| + |Pack(e.value)|
  {
    U32(|e.key|) + U32(|Pack(e.value)|) + e.key + Pack(e.value)
  }

  /** The log produced by appending `es` in order to an empty file. */
  function Log(es: seq<Entry>): Bytes
    requires AllEncodable(es)
  {
    if es == [] then [] else Frame(es[0]) + Log(es[1..])
  }

  function Min(a: int, b: int): int {
    if a <= b then a else b
  }

  function Prepend(es: seq<Entry>, r: Result<seq<Entry>, UnpackError>): Result<seq<Entry>, UnpackError> {
    match r
    case Ok(rest) => Ok(es + rest)
    case Err(e) => Err(e)
  }

  /** What `recover` returns for a log file holding `s`: frames are parsed
      while at least a whole header remains; a frame whose body is shorter
      than its header announces makes msgpack raise. */
  function DecodeLog(s: Bytes): Result<seq<Entry>, UnpackError>
    decreases |s|
  {
    if |s| < HEADER_SIZE then Ok([])
    else
      var kLen := ReadU32(s[..4]);
      var vLen := ReadU32(s[4..8]);
      if |s| - HEADER_SIZE < kLen + vLen then Err(Incomplete)
      else
        var end := HEADER_SIZE + kLen + vLen;
        match Unpack(s[HEADER_SIZE + kLen..end])
        case Err(e) => Err(e)
        case Ok(v) => Prepend([Entry(s[HEADER_SIZE..HEADER_SIZE + kLen], v)], DecodeLog(s[end..]))
  }

  /** Appending one frame to a log appends one entry to what is recovered. */
  lemma {:induction false} LogSnoc(es: seq<Entry>, e: Entry)
    requires AllEncodable(es) && Encodable(e)
    ensures AllEncodable(es + [e])
    ensures Log(es + [e]) == Log(es) + Frame(e)
  {
    if es != [] {
      assert (es + [e])[1..] == es[1..] + [e];
      LogSnoc(es[1..], e);
    }
  }

  /** The four fields of a frame. */
  lemma {:induction false} FrameParts(e: Entry)
    requires Encodable(e)
    ensures var f, k := Frame(e), |e.key|;
      && f[0..4] == U32(k) && f[4..8] == U32(|Pack(e.value)|)
      && f[8..8 + k] == e.key && f[8 + k..|f|] == Pack(e.value)
  {
  }

  /** One step of decoding, when the whole frame is present. */
  lemma {:induction false} DecodeStep(s: Bytes, kLen: nat, vLen: nat)
    requires HEADER_SIZE + kLen + vLen <= |s|
    requires ReadU32(s[..4]) == kLen && ReadU32(s[4..8]) == vLen
    requires Unpack(s[HEADER_SIZE + kLen..HEADER_SIZE + kLen + vLen]).Ok?
    ensures DecodeLog(s) == Prepend(
      [Entry(s[HEADER_SIZE..HEADER_SIZE + kLen], Unpack(s[HEADER_SIZE + kLen..HEADER_SIZE + kLen + vLen]).value)],
      DecodeLog(s[HEADER_SIZE + kLen + vLen..]))
  {
  }

  /** A whole frame at the front decodes to its entry. */
  lemma {:induction false} DecodeFrame(e: Entry, tail: Bytes)
    requires Encodable(e)
    ensures DecodeLog(Frame(e) + tail) == Prepend([e], DecodeLog(tail))
  {
    var f := Frame(e);
    var s := f + tail;
    var k, n := |e.key|, |f|;
    FrameParts(e);
    PrefixSlice(f, tail, 0, 4);
    assert s[..4] == s[0..4];
    PrefixSlice(f, tail, 4, 8);
    PrefixSlice(f, tail, 8, 8 + k);
    PrefixSlice(f, tail, 8 + k, n);
    assert s[n..] == tail;
    DecodeStep(s, k, |Pack(e.value)|);
  }

  /** Decoding a log that starts with whole frames yields their entries
      first, then whatever the rest decodes to. */
  lemma {:induction false} DecodeLogAppend(es: seq<Entry>, rest: Bytes)
    requires AllEncodable(es)
    ensures DecodeLog(Log(es) + rest) == Prepend(es, DecodeLog(rest))
  {
    if es == [] {
      assert Log(es) + rest == rest;
      match DecodeLog(rest)
      case Ok(t) => assert es + t == t;
      case Err(_) =>
    } else {
      var tail := Log(es[1..]) + rest;
      assert Log(es) + rest == Frame(es[0]) + tail;
      DecodeFrame(es[0], tail);
      DecodeLogAppend(es[1..], rest);
      PrependPrepend([es[0]], es[1..], DecodeLog(rest));
      assert [es[0]] + es[1..] == es;
    }
  }

  lemma {:induction false} PrependPrepend(a: seq<Entry>, b: seq<Entry>, r: Result<seq<Entry>, UnpackError>)
    ensures Prepend(a, Prepend(b, r)) == Prepend(a + b, r)
  {
    match r {
      case Ok(t) => assert a + (b + t) == a + b + t;
      case Err(_) =>
    }
  }

  /** Round trip: `recover` on a log written by `append`s returns the same
      entries in append order, and a torn header at the end (fewer than
      eight bytes) is dropped without error. */
  lemma {:induction false} RecoverLog(es: seq<Entry>, tail: Bytes)
    requires AllEncodable(es)
    requires |tail| < HEADER_SIZE
    ensures DecodeLog(Log(es) + tail) == Ok(es)
  {
    DecodeLogAppend(es, tail);
    assert es + [] == es;
  }

  /** `WAL.recover(path)`: the file may not exist. The loop consumes one
      frame per iteration. */
  method Recover(file: Option<Bytes>) returns (r: Result<seq<Entry>, UnpackError>)
    ensures file.None? ==> r == Ok([])
    ensures file.Some? ==> r == DecodeLog(file.value)
  {
    if file.None? {
      return Ok([]);
    }
    var s := file.value;
    var entries: seq<Entry> := [];
    var pos := 0;
    assert s[pos..] == s;
    match DecodeLog(s) {
      case Ok(t) => assert entries + t == t;
      case Err(_) =>
    }
    while true
      invariant 0 <= pos <= |s|
      invariant DecodeLog(s) == Prepend(entries, DecodeLog(s[pos..]))
      decreases |s| - pos
    {
      var t := s[pos..];
      if |t| < HEADER_SIZE {
        break;
      }
      var kLen := ReadU32(t[..4]);
      var vLen := ReadU32(t[4..8]);
      if |t| - HEADER_SIZE < kLen + vLen {
        return Err(Incomplete);
      }
      var end := HEADER_SIZE + kLen + vLen;
      var v := Unpack(t[HEADER_SIZE + kLen..end]);
      if v.Err? {
        return Err(v.error);
      }
      var e := Entry(t[HEADER_SIZE..HEADER_SIZE + kLen], v.value);
      assert DecodeLog(t) == Prepend([e], DecodeLog(t[end..]));
      PrependPrepend(entries, [e], DecodeLog(t[end..]));
      assert t[end..] == s[pos + end..];
      entries := entries + [e];
      pos := pos + end;
    }
    assert DecodeLog(s[pos..]) == Ok([]);
    assert entries + [] == entries;
    return Ok(entries);
  }

  /** The log file of one engine. The file is opened for appending, so
      `offset` counts the bytes appended by this object, not the file's
      length. */
  class WAL {
    var file: Bytes
    var offset: nat

    /** Opening an existing log (or a new, empty one). */
    constructor (existing: Bytes)
      ensures file == existing && offset == 0
    {
      file := existing;
      offset := 0;
    }

    /** `append`: writes one frame and returns the offset before the write. */
    method Append(key: Bytes, value: Option<Value>) returns (at: nat)
      requires Encodable(Entry(key, value))
      modifies this
      ensures at == old(offset)
      ensures offset == old(offset) + HEADER_SIZE + |key| + |Pack(value)|
      ensures file == old(file) + Frame(Entry(key, value))
    {
      var entry := Frame(Entry(key, value));
      file := file + entry;
      at := offset;
      offset := offset + |entry|;
    }

    /** `clear`: truncates the file after a flush. */
    method Clear()
      modifies this
      ensures file == [] && offset == 0
    {
      file := [];
      offset := 0;
    }
  }
}
