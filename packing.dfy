/** The value serialiser, kept abstract. A stored value is the byte string
    that msgpack produces for it; the model never looks inside it, except for
    the one-byte encoding of nil (Python `None`), which the storage layers use
    as the deletion marker (tombstone). */
module Packing {
  import opened Bytes
  import opened Wrappers

  /** msgpack's encoding of nil. */
  const NIL: Byte := 0xC0

  /** The packed form of a value other than `None`: opaque, non-empty, and
      different from the encoding of nil. */
  type Value = v: Bytes | |v| > 0 && v != [NIL] witness [0]

  /** Why `msgpack.unpackb` refused its input: the bytes end before a whole
      object does. */
  datatype UnpackError = Incomplete

  /** `msgpack.packb`: `None` becomes nil, anything else its packed bytes. */
  function Pack(v: Option<Value>): (p: Bytes)
    ensures |p| > 0
    ensures Unpack(p) == Ok(v)
  {
    match v
    case None => [NIL]
    case Some(x) => x
  }

  /** `msgpack.unpackb` as the model abstracts it: nil gives `None`, the
      empty string is an incomplete object, and every other byte string is
      taken to be the packed value itself. msgpack's other failures on
      malformed bytes are not modelled. */
  function Unpack(p: Bytes): (r: Result<Option<Value>, UnpackError>)
    ensures r.Ok? <==> |p| > 0
    ensures r == Ok(None) <==> p == [NIL]
  {
    if p == [] then Err(Incomplete)
    else if p == [NIL] then Ok(None)
    else Ok(Some(p))
  }
}
