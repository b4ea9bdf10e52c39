/** The object kinds, the dispatch from a type tag to a kind, and the blob class.

    `object_read` dispatches over four tags (commit, tree, tag, blob) and builds an
    instance of the chosen class from the payload. Only `GitBlob` is defined in the
    repository; the other three kinds are kept here with their payload as opaque bytes. */
module Objects {
  import opened Bytes
  import opened Outcomes

  datatype Kind = Commit | Tree | Tag | Blob

  /** The type tag written in front of an object of each kind. */
  function TagName(k: Kind): (fmt: seq<byte>)
    ensures 0 < |fmt| && SP !in fmt && NUL !in fmt
  {
    match k
    case Commit => [99, 111, 109, 109, 105, 116]  // "commit"
    case Tree => [116, 114, 101, 101]             // "tree"
    case Tag => [116, 97, 103]                    // "tag"
    case Blob => [98, 108, 111, 98]               // "blob"
  }

  /** The if/elif chain of `object_read`: exactly the four tag names select a kind,
      and every other tag selects none. */
  function KindOf(fmt: seq<byte>): (r: Option<Kind>)
    ensures r.Some? ==> TagName(r.value) == fmt
    ensures r.None? ==> forall k: Kind :: TagName(k) != fmt
  {
    if fmt == TagName(Commit) then Some(Commit)
    else if fmt == TagName(Tree) then Some(Tree)
    else if fmt == TagName(Tag) then Some(Tag)
    else if fmt == TagName(Blob) then Some(Blob)
    else None
  }

  /** What `object_read` produces: the class it chose and the payload it hands to that
      class's constructor, `c(repo, raw[y+1:])`. */
  datatype Parsed = Parsed(kind: Kind, payload: seq<byte>)

  /** The ways reading an object fails. Python raises an exception in each case. */
  datatype Error =
    | ObjectNotFound            // no file at the object's path
    | CorruptObject             // zlib.decompress rejects the file contents
    | MissingDelimiter          // no space, or no NUL after the first space
    | SizeNotAscii              // decode("ascii") of the size field fails
    | SizeNotInteger            // int() of the size field fails
    | BadLength                 // the declared size is not the payload length
    | UnknownType(fmt: seq<byte>)  // the type tag is none of the four

  /** A blob: its payload is kept as it is, with no structure. */
  class GitBlob {
    const fmt: seq<byte> := TagName(Blob)
    var blobdata: seq<byte>

    /** `GitBlob(repo, data)`: the base constructor hands `data` to `deserialize`. */
    constructor (data: seq<byte>)
      ensures blobdata == data
      ensures fmt == TagName(Blob)
    {
      blobdata := data;
    }

    method Serialize() returns (data: seq<byte>)
      ensures data == blobdata
    {
      data := blobdata;
    }

    method Deserialize(data: seq<byte>)
      modifies this
      ensures blobdata == data
    {
      blobdata := data;
    }
  }

  /** Serialising a blob that was deserialised from `data` gives back `data`. */
  method BlobRoundTrip(blob: GitBlob, data: seq<byte>) returns (out: seq<byte>)
    modifies blob
    ensures out == data
  {
    blob.Deserialize(data);
    out := blob.Serialize();
  }
}
