/** The loose-object store: where an object lives, and `object_write`, `object_read` and
    `object_find` over it.

    The objects directory is modelled as a map from (bucket directory, file name) to the
    compressed file contents. SHA-1 and zlib are not modelled: they are passed in as
    functions, `sha1` giving the hex digest of a buffer and `decompress` giving None
    where zlib would raise. */
module Store {
  import opened Bytes
  import opened Outcomes
  import opened Objects
  import opened Framing

  type Digest = string
  type ObjectPath = (string, string)
  type ObjectFiles = map<ObjectPath, seq<byte>>

  /** `sha[0:2]`: the bucket directory. */
  function Bucket(sha: Digest): (bucket: string) { PySlice(sha, 0, 2) }

  /** `sha[2:]`: the file name inside the bucket. */
  function Name(sha: Digest): (name: string) { PySlice(sha, 2, |sha|) }

  /** The path `object_read` opens and `object_write` creates. */
  function PathOf(sha: Digest): (path: ObjectPath) { (Bucket(sha), Name(sha)) }

  /** The bucket and the name put back together are the digest, and a 40-character
      hex digest splits into 2 characters and 38. */
  lemma BucketName(sha: Digest)
    ensures Bucket(sha) + Name(sha) == sha
    ensures |sha| >= 2 ==> |Bucket(sha)| == 2 && |Name(sha)| == |sha| - 2
    ensures |sha| == 40 ==> |Bucket(sha)| == 2 && |Name(sha)| == 38
  {
    if |sha| < 2 {
      assert Bucket(sha) == sha;
      assert Name(sha) == [];
    } else {
      assert sha[..2] + sha[2..] == sha;
    }
  }

  /** Two digests never share a path, so writing one object cannot overwrite another. */
  lemma PathOfInjective(a: Digest, b: Digest)
    requires PathOf(a) == PathOf(b)
    ensures a == b
  {
    BucketName(a);
    BucketName(b);
  }

  /** The objects directory after `object_write(obj, actually_write)` of an object
      with type tag `fmt` and serialised payload `data`. */
  function Written(objects: ObjectFiles, fmt: seq<byte>, data: seq<byte>, actuallyWrite: bool,
                   sha1: seq<byte> -> Digest, compress: seq<byte> -> seq<byte>): (after: ObjectFiles)
  {
    var framed := Frame(fmt, data);
    if actuallyWrite then objects[PathOf(sha1(framed)) := compress(framed)] else objects
  }

  /** What `object_read(repo, sha)` returns for a given objects directory. */
  function ReadFrom(objects: ObjectFiles, sha: Digest,
                    decompress: seq<byte> -> Option<seq<byte>>): (r: Result<Parsed, Error>)
  {
    var path := PathOf(sha);
    if path !in objects then Err(ObjectNotFound)
    else match decompress(objects[path])
      case None => Err(CorruptObject)
      case Some(raw) => Unframe(raw)
  }

  /** Reading back a written object gives its kind and its payload, provided zlib's
      decompression undoes its compression on the framed buffer. */
  lemma ReadAfterWrite(objects: ObjectFiles, k: Kind, data: seq<byte>,
                       sha1: seq<byte> -> Digest, compress: seq<byte> -> seq<byte>,
                       decompress: seq<byte> -> Option<seq<byte>>)
    requires decompress(compress(Frame(TagName(k), data))) == Some(Frame(TagName(k), data))
    ensures ReadFrom(Written(objects, TagName(k), data, true, sha1, compress),
                     sha1(Frame(TagName(k), data)), decompress) == Ok(Parsed(k, data))
  {
    UnframeFrame(k, data);
  }

  /** Writing leaves every other digest reading as before. */
  lemma WriteKeepsOthers(objects: ObjectFiles, fmt: seq<byte>, data: seq<byte>, actuallyWrite: bool,
                         sha1: seq<byte> -> Digest, compress: seq<byte> -> seq<byte>,
                         decompress: seq<byte> -> Option<seq<byte>>, other: Digest)
    requires other != sha1(Frame(fmt, data))
    ensures ReadFrom(Written(objects, fmt, data, actuallyWrite, sha1, compress), other, decompress)
         == ReadFrom(objects, other, decompress)
  {
    if PathOf(other) == PathOf(sha1(Frame(fmt, data))) {
      PathOfInjective(other, sha1(Frame(fmt, data)));
    }
  }

  /** Writing the same object twice leaves the directory as writing it once. */
  lemma WriteIdempotent(objects: ObjectFiles, fmt: seq<byte>, data: seq<byte>, actuallyWrite: bool,
                        sha1: seq<byte> -> Digest, compress: seq<byte> -> seq<byte>)
    ensures var once := Written(objects, fmt, data, actuallyWrite, sha1, compress);
      Written(once, fmt, data, actuallyWrite, sha1, compress) == once
  {
  }

  /** `object_find(repo, name, fmt, follow)`: the name is taken as the digest itself. */
  function ObjectFind(name: string, fmt: Option<seq<byte>>, follow: bool): (sha: Digest)
    ensures sha == name
  {
    name
  }

  /** The objects directory of a repository. */
  class Repository {
    var objects: ObjectFiles

    constructor (objects: ObjectFiles)
      ensures this.objects == objects
    {
      this.objects := objects;
    }

    /** `object_write(obj, actually_write)` for an object whose `fmt` is `fmt` and
        whose `serialize()` returns `data`. The digest is that of the whole frame, and
        it is the same whether or not the file is written. */
    method ObjectWrite(fmt: seq<byte>, data: seq<byte>, actuallyWrite: bool,
                       sha1: seq<byte> -> Digest, compress: seq<byte> -> seq<byte>)
      returns (sha: Digest)
      modifies this
      ensures sha == sha1(Frame(fmt, data))
      ensures objects == Written(old(objects), fmt, data, actuallyWrite, sha1, compress)
      ensures !actuallyWrite ==> objects == old(objects)
      ensures actuallyWrite ==> PathOf(sha) in objects && objects[PathOf(sha)] == compress(Frame(fmt, data))
    {
      var result := Frame(fmt, data);
      sha := sha1(result);
      if actuallyWrite {
        objects := objects[(Bucket(sha), Name(sha)) := compress(result)];
      }
    }

    /** `object_read(repo, sha)`. */
    method ObjectRead(sha: Digest, decompress: seq<byte> -> Option<seq<byte>>)
      returns (r: Result<Parsed, Error>)
      ensures r == ReadFrom(objects, sha, decompress)
      ensures r.Ok? ==> PathOf(sha) in objects
    {
      var path := (Bucket(sha), Name(sha));
      if path !in objects {
        return Err(ObjectNotFound);
      }
      var raw := decompress(objects[path]);
      if raw.None? {
        return Err(CorruptObject);
      }
      r := Unframe(raw.value);
    }
  }
}
