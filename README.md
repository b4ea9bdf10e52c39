# wyag loose-object framing, in Dafny

This project models the object layer of `wyag`, a small Git written in Python.
It covers how a loose object's decompressed bytes are built and taken apart, and how
the store picks the object kind from the type tag:

- `object_write` frames an object as `fmt SP decimal(len(data)) NUL data`. It hashes
  that whole buffer with SHA-1. When `actually_write` is set, it stores the
  compressed buffer at `objects/<sha[0:2]>/<sha[2:]>`.
- `object_read` opens the same path and decompresses the file. The bytes before the
  first space are the type tag. The bytes from that space up to the first NUL after it
  are the size field, parsed with `int()`. It rejects a size that is not the number of
  bytes after the NUL. It dispatches over the tags `commit`, `tree`, `tag` and `blob`,
  and hands the payload after the NUL to the chosen class.
- `GitBlob` keeps its payload unchanged. `object_find` returns the name it is given.

Files:

- `outcomes.dfy`: `Option` and `Result`.
- `bytes.dfy`: the byte type and the Python primitives the code relies on. These
  are slicing with Python's index rules (`PySlice`), `bytes.find` (`PyFind`),
  `str(n).encode()` (`Decimal`), and `int()` on ASCII text (`ParseInt`), as CPython 3.6
  and later do it for base 10. `int()` skips surrounding space, tab, newline, vertical tab,
  form feed and carriage return. It accepts one optional sign, and single underscores
  between digits.
- `objects.dfy`: the four kinds, their tag names, the tag dispatch `KindOf`, the
  result `Parsed(kind, payload)` of a read, the error kinds, and the `GitBlob` class.
- `framing.dfy`: `Frame`, and the header split `SplitHeader`/`Join`. `Unframe` is the
  parse the store uses. `UnframeAsWritten` follows the slices and checks of the Python
  code, including what happens when `find` returns -1. It differs from the Python code
  in three places, listed under "Left out": the undefined classes, a non-ASCII unknown
  tag, and the `int()` digit limit.
- `store.dfy`: the bucket/name split of a digest, and the objects directory as a map
  from (bucket, name) to file contents. `Written` and `ReadFrom` are its write and
  read functions. `Repository` is a class whose `ObjectWrite` and `ObjectRead`
  methods are proved against them. `ObjectFind` is also here.

SHA-1, zlib compression and zlib decompression are parameters of the store
operations (`sha1`, `compress`, `decompress`); the model says nothing about them
beyond what a lemma explicitly requires. Decompression returns `None` where zlib
raises. The store operations work on the decompressed bytes through `Unframe`.

`object_read` names the classes `GitCommit`, `GitTree` and `GitTag`, but
`libwyag.py` does not define them. The model keeps the three kinds and carries their
payload as opaque bytes in `Parsed`. In the Python code as it stands, selecting one
of them would raise a `NameError`. `c(repo, raw[y+1:])` is modelled as the value
`Parsed(kind, payload)`. For a blob, `GitBlob`'s constructor from that payload then
sets `blobdata` to it.

The code does not check that either `find` succeeded. `Unframe` rejects a buffer
without a space, or without a NUL after its first space, as malformed.
`UnframeAsWritten` follows the code. The two agree whenever there is a space and a NUL
after the first space. Note that a NUL only before the first space does not count:
for such a buffer `Unframe` reports a missing delimiter while the code goes on with
`y = -1`. See "Findings".

## Model

| member | source | states |
|---|---|---|
| Bytes.PyFind | libwyag.py:208-211 | `find` returns the lowest index at or after the normalised start that holds the byte, or -1 exactly when no such index exists |
| Bytes.FindFrom | libwyag.py:208-211 | the scan behind `find`: the first matching index from `i`, or -1 when none of the rest matches |
| Bytes.PySlice | libwyag.py:209-212 | a Python slice never fails; with in-range bounds it is the ordinary subsequence |
| Bytes.FindIsFirst | libwyag.py:208-211 | a position holding the byte, with none before it from the start, is what `find` returns |
| Bytes.FindAbsent | libwyag.py:208-211 | `find` returns -1 when no position from the start holds the byte |
| Bytes.Decimal | libwyag.py:233 | `str(n).encode()` is a non-empty run of ASCII digits whose first digit is '0' only for n = 0 |
| Bytes.DecimalValue | libwyag.py:233 | the digits `str(n)` writes read back as n |
| Bytes.ParseInt | libwyag.py:212 | `int()` of the size text; its contract is `Bytes.ParseIntSound`, `Bytes.ParseIntComplete` and `Bytes.ParseIntRefuses`: it returns v exactly when the text is white space, one optional sign, a digit run spelling v with that sign, and white space |
| Bytes.ParseTrimmed | libwyag.py:212 | `int()` once the surrounding white space is gone; its contract is `Bytes.SignedRunIff` |
| Bytes.SignedRunIff | libwyag.py:212 | without surrounding white space, `int()` returns v exactly for an optional sign followed by a digit run whose value, with that sign, is v |
| Bytes.ParseIntSound | libwyag.py:212 | whatever `int()` accepts is white space, an optional sign and a digit run spelling the returned value, then white space |
| Bytes.ParseIntComplete | libwyag.py:212 | every such spelling is accepted by `int()` with its value, with a `-` sign giving the negated value |
| Bytes.ParseIntRefuses | libwyag.py:212 | `int()` raises on every text that is no such spelling |
| Bytes.ParseIntNegative | libwyag.py:212 | a leading `-` gives a negative value: `int(' -5')` is -5 |
| Bytes.TrimLeftStrips | libwyag.py:212 | the white space `int()` skips in front: what is left is a suffix of the text, every byte dropped is white space, and what is left does not start with white space |
| Bytes.TrimRightStrips | libwyag.py:212 | the white space `int()` skips behind: what is left is a prefix of the text, every byte dropped is white space, and what is left does not end with white space |
| Bytes.ParseIntOfSignedRun | libwyag.py:212 | `int()` reads a `+` sign followed by a digit run, with white space around it, as the value of the run's digits with the underscores dropped |
| Bytes.ParseIntOfDecimal | libwyag.py:212 | `int()` reads the decimal spelling of n as n, whatever white space surrounds it, so the size field's leading space does no harm |
| Objects.TagName | libwyag.py:216-223 | each of the four tag names is non-empty and contains no space and no NUL |
| Objects.KindOf | libwyag.py:216-226 | the dispatch selects a kind exactly for the four tag names, and that kind's tag is the text, while every other tag selects none |
| Objects.GitBlob.constructor | libwyag.py:178-181 | constructing a blob from data stores that data, and the blob's `fmt` is `blob` |
| Objects.GitBlob.Serialize | libwyag.py:249-250 | serialising returns the stored `blobdata` unchanged |
| Objects.GitBlob.Deserialize | libwyag.py:252-253 | deserialising stores the given bytes as `blobdata` |
| Objects.BlobRoundTrip | libwyag.py:249-253 | serialise after deserialise returns exactly the bytes deserialised |
| Framing.Frame | libwyag.py:233 | the buffer `object_write` builds; its contract is stated by `Framing.FrameLayout` (its layout) and `Framing.UnframeFrame` (it reads back) |
| Framing.ParseSize | libwyag.py:212 | `int(raw[x:y].decode("ascii"))`; its contract is stated by `Framing.SizeTextOfDecimal`, `Framing.UnframeBadSize` and `Framing.LenientSizeText` |
| Framing.Check | libwyag.py:212-226 | the size, length and tag checks; its contract is stated by `Framing.CheckAccepts` and `Framing.CheckOk` |
| Framing.Unframe | libwyag.py:205-228 | the corrected read; its contract is stated by `Framing.UnframeFrame`, `Framing.UnframeComplete`, `Framing.UnframeSound`, `Framing.UnframeNeedsDelimiters`, `Framing.UnframeBadLength`, `Framing.UnframeBadSize` and `Framing.UnframeUnknownType` |
| Framing.UnframeAsWritten | libwyag.py:208-228 | the read as the code computes it; its contract is stated by `Framing.AsWrittenAgrees`, `Framing.AsWrittenNoSpace`, `Framing.AsWrittenNoNulAfterSpace` and `Framing.AsWrittenWithoutNul` |
| Framing.SplitHeader | libwyag.py:208-211 | when there is a space and a NUL after the first space, the three parts are a tag without a space, a size field that starts with the space and holds no NUL, and the payload, and joined they give back the buffer |
| Framing.JoinSplit | libwyag.py:208-211 | splitting a joined well-formed header gives back the same tag, size field and payload, so the split and the join are inverse |
| Framing.FrameLayout | libwyag.py:233 | the framed buffer is the tag, one space, the canonical decimal spelling of the payload length, one NUL and the payload |
| Framing.SizeTextOfDecimal | libwyag.py:212 | the size field that framing writes, with its leading space, parses as the payload length |
| Framing.UnframeFrame | libwyag.py:205-228 | round trip: unframing the frame of any payload under any of the four tags yields that kind and exactly that payload, even when the payload holds spaces or NULs |
| Framing.UnframeComplete | libwyag.py:208-228 | every buffer made of a known tag, a NUL-free size field starting with a space that `int()` reads as the payload length, a NUL and the payload is accepted as that kind and payload |
| Framing.UnframeSound | libwyag.py:208-228 | every accepted buffer is its kind's tag, a well-formed size field that reads as the payload length, one NUL and the payload, which is the whole rest of the buffer |
| Framing.SplitFindsDelimiters | libwyag.py:208-211 | a header is found only in a buffer that holds both a space and a NUL |
| Framing.UnframeNeedsDelimiters | libwyag.py:208-211 | a buffer without a space or without a NUL byte is rejected as malformed |
| Framing.UnframeBadLength | libwyag.py:212-214 | when the declared size differs from the number of bytes after the NUL, the read fails with "bad length", whatever the tag |
| Framing.UnframeBadSize | libwyag.py:212 | a size field that is not ASCII, or that `int()` refuses, fails with that error before the length or the tag is examined |
| Framing.UnframeUnknownType | libwyag.py:216-226 | a correct length behind a tag outside the four fails with "unknown type" naming the tag, and no object is built |
| Framing.UnframeLenientSize | libwyag.py:212-213 | because `int()` accepts a sign, underscores and trailing white space, a size field such as `+0_3` followed by a tab is accepted, so the frame is not the only accepted spelling of an object |
| Framing.LenientSizeText | libwyag.py:212 | `int()` reads the size field ` +0_3` followed by a tab as 3 |
| Framing.CheckAccepts | libwyag.py:212-228 | a size field that reads as the number of remaining bytes, behind a known tag, yields that kind with the payload handed on |
| Framing.CheckOk | libwyag.py:212-228 | a successful check means the size field parsed to the number of remaining bytes, the tag is that kind's name, and the payload is the one handed on |
| Framing.AsWrittenAgrees | libwyag.py:208-228 | where there is a space and a NUL after the first space, the code as written and `Unframe` give the same result |
| Framing.AsWrittenNoSpace | libwyag.py:208-212 | as written, a buffer with no space always fails, because the size slice is empty and `int('')` raises |
| Framing.AsWrittenNoNulAfterSpace | libwyag.py:208-228 | as written, a buffer whose first space has no NUL at or after it is checked with `y = -1`: tag `raw[:x]`, size field `raw[x:-1]`, count `len(raw)` and the whole buffer as payload, whatever the outcome; this includes a buffer whose only NUL precedes the first space |
| Framing.AsWrittenWithoutNul | libwyag.py:210-228 | as written, a NUL-free buffer with a known tag before its first space, whose bytes from that space up to the last byte read as the buffer's length, is accepted as that kind with the whole buffer as its data, while `Unframe` rejects it as missing a delimiter |
| Framing.TenSizeText | libwyag.py:212 | `int()` reads ` 10` followed by two spaces as 10 |
| Framing.AsWrittenAcceptsMissingNul | libwyag.py:211-228 | as written, the NUL-free ten bytes `blob 10  Z` pass every check and are read as a blob whose data is the whole buffer, which `Unframe` rejects |
| Store.Bucket | libwyag.py:194 | `sha[0:2]`; its contract is stated by `Store.BucketName` and `Store.PathOfInjective` |
| Store.Name | libwyag.py:194 | `sha[2:]`; its contract is stated by `Store.BucketName` and `Store.PathOfInjective` |
| Store.PathOf | libwyag.py:237-238 | the path read and write use; its contract is stated by `Store.PathOfInjective` |
| Store.Written | libwyag.py:236-241 | the objects directory after a write; its contract is stated by `Store.ReadAfterWrite`, `Store.WriteKeepsOthers`, `Store.WriteIdempotent` and `Store.Repository.ObjectWrite` |
| Store.ReadFrom | libwyag.py:192-228 | the result of a read; its contract is stated by `Store.ReadAfterWrite`, `Store.WriteKeepsOthers` and `Store.Repository.ObjectRead` |
| Store.BucketName | libwyag.py:194 | the bucket `sha[0:2]` and the name `sha[2:]` concatenate to the digest, and a 40-character digest splits into 2 and 38 characters |
| Store.PathOfInjective | libwyag.py:237-238 | two digest strings with the same bucket and name are equal, so in the (bucket, name) map distinct digests never share an entry |
| Store.ReadAfterWrite | libwyag.py:231-243 | reading the digest `object_write` returns yields the written kind and payload, given that decompression undoes compression on the framed buffer |
| Store.WriteKeepsOthers | libwyag.py:236-241 | in the (bucket, name) map, writing an object leaves the result of reading every other digest string unchanged |
| Store.WriteIdempotent | libwyag.py:236-241 | writing the same object a second time leaves the objects directory as the first write left it |
| Store.ObjectFind | libwyag.py:256-257 | `object_find` returns its name argument unchanged |
| Store.Repository.ObjectWrite | libwyag.py:231-243 | the returned digest is SHA-1 of the whole frame, whatever the flag is; with the flag set the compressed frame is stored at the digest's path, and without it nothing changes |
| Store.Repository.ObjectRead | libwyag.py:192-228 | the result is "not found" without a file at the digest's path, "corrupt" when decompression fails, and otherwise the unframing of the decompressed bytes |

## Findings

| source | as written | input that shows it | evidently intended | confidence | as-written member | corrected member |
|---|---|---|---|---|---|---|
| libwyag.py:211-214 | `y = raw.find(b'\x00', x)` is used without checking for -1. With no NUL, the size is parsed from `raw[x:-1]` and compared with `len(raw) - (-1) - 1 = len(raw)`, and the payload handed on is `raw[0:]`, the whole buffer | the ten bytes `blob 10  Z` (no NUL) are read as a blob whose data is those ten bytes | an object whose header has no NUL terminator is malformed and is rejected | high; not executed | Framing.AsWrittenAcceptsMissingNul | Framing.UnframeNeedsDelimiters |

The store (`Store.ReadFrom`, `Store.Repository.ObjectRead`) uses the corrected `Unframe`.

## Left out

- The command line (`argparse`, `main`, `cmd_init`) is plumbing around the core.
- `GitRepository` construction, configuration loading and `repo_default_config` use the `configparser` library and file I/O.
- `repo_path`, `repo_dir`, `repo_file`, `repo_create` and `repo_find` depend on the operating system's file-system state. Dafny models the objects directory as a map keyed by (bucket, name). Creating the bucket directory is the same map update.
- SHA-1 and zlib are foreign code, so they are function parameters. `Store.ReadAfterWrite` assumes only that decompression undoes compression on the one buffer it writes.
- `GitCommit`, `GitTree` and `GitTag` are not defined in `libwyag.py`, so their payload codecs are not modelled, and neither is any history walk. Their payload is opaque in `Parsed`.
- The `repo` argument and the `GitObject.repo` field are not modelled. The store is the `Repository` object the methods are called on.
- A `GitBlob` constructed without data, whose `blobdata` is then unset, is not modelled. `object_read` always supplies the data.
- Error messages are not modelled, only which error is raised. The message `Unknown type` decodes the tag as ASCII, so a non-ASCII tag raises `UnicodeDecodeError` instead. The model reports `UnknownType` for it.
- Bytes.ParseInt: does not model the 4300-digit limit that CPython places on `int()` of a string since 3.11, 3.10.7, 3.9.14, 3.8.14 and 3.7.14. Under that limit, a size field of more than 4300 digits, such as many leading zeros, raises `ValueError` where the model reads its value.
- Bytes.ParseInt: covers ASCII text only. Non-ASCII bytes have already made `decode("ascii")` fail (`SizeNotAscii`).
- Framing.UnframeAsWritten: returns `Ok(Parsed(k, payload))` for the commit, tree and tag kinds, where the Python code raises `NameError` because `GitCommit`, `GitTree` and `GitTag` are not defined; it returns `UnknownType` for a non-ASCII unknown tag, where `fmt.decode("ascii")` raises `UnicodeDecodeError`; and it inherits `Bytes.ParseInt`'s lack of the digit limit.
- Store.Repository.ObjectRead: reads through the corrected `Unframe`, so it rejects a decompressed buffer without a NUL after its first space, such as `blob 10  Z`, which `object_read` as written accepts; the same holds for `Store.ReadFrom`.
- Store.WriteKeepsOthers: holds of the map keyed by the raw (bucket, name) strings. The file system joins them with `os.path.join`, and that path normalisation is not modelled. Neither is a case-insensitive file system. So for a name that is not a 40-character lowercase hex digest, such as `ab./cd...` against `abcd...`, two distinct names can open the same file. `Store.PathOfInjective` is about the map in the same way.
- Store.ReadFrom: reports `ObjectNotFound` for every missing object. The Python code raises one of two errors. When the bucket directory `objects/<sha[0:2]>` is absent, `repo_file` returns None and `open(None, "rb")` raises `TypeError`. When only the file is absent, it raises `FileNotFoundError`. `Store.Repository.ObjectRead` is the same.
