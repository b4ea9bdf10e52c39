/** The loose-object frame: `fmt SP decimal(len(data)) NUL data`.

    `Frame` is what `object_write` builds and hashes. `Unframe` is the parse `object_read`
    performs on the decompressed bytes. `UnframeAsWritten` follows the Python code's
    slices and checks step by step, including what `find` returning -1 does to the slices
    that follow; `Unframe` rejects a buffer without a space, or without a NUL after its
    first space, and is the one the store uses. */
module Framing {
  import opened Bytes
  import opened Outcomes
  import opened Objects

  /** The buffer `object_write` hashes and compresses: type tag, one space, the payload
      length in decimal, one NUL byte, the payload. */
  function Frame(fmt: seq<byte>, data: seq<byte>): (r: seq<byte>)
  {
    fmt + [SP] + Decimal(|data|) + [NUL] + data
  }

  /** The three parts `object_read` cuts a buffer into. `sizeText` is `raw[x:y]`, so
      it starts with the space that ends the type tag. */
  datatype Header = Header(fmt: seq<byte>, sizeText: seq<byte>, payload: seq<byte>)

  /** The parts of a buffer whose first space ends the tag and whose first NUL after
      that space ends the size field. */
  predicate WellFormed(h: Header) {
    && SP !in h.fmt
    && |h.sizeText| > 0 && h.sizeText[0] == SP
    && NUL !in h.sizeText
  }

  function Join(h: Header): (raw: seq<byte>) {
    h.fmt + h.sizeText + [NUL] + h.payload
  }

  /** `x = raw.find(b' ')`, `y = raw.find(b'\x00', x)`, and the three slices between
      them; None when there is no space, or no NUL at or after the first space. */
  function SplitHeader(raw: seq<byte>): (r: Option<Header>)
    ensures r.Some? ==> WellFormed(r.value) && Join(r.value) == raw
  {
    var x := PyFind(raw, SP, 0);
    if x < 0 then None
    else
      var y := PyFind(raw, NUL, x);
      if y < 0 then None
      else
        assert raw == raw[..x] + raw[x..y] + [NUL] + raw[y + 1..];
        Some(Header(raw[..x], raw[x..y], raw[y + 1..]))
  }

  /** `int(raw[x:y].decode("ascii"))`. */
  function ParseSize(sizeText: seq<byte>): (r: Result<int, Error>)
  {
    if !IsAscii(sizeText) then Err(SizeNotAscii)
    else match ParseInt(sizeText)
      case None => Err(SizeNotInteger)
      case Some(n) => Ok(n)
  }

  /** The checks `object_read` makes once it has cut the buffer: the size field must
      parse, it must equal `remaining` (`len(raw) - y - 1`), and the tag must be one of
      the four. Only then is `payload` handed on. */
  function Check(fmt: seq<byte>, sizeText: seq<byte>, remaining: int, payload: seq<byte>)
    : (r: Result<Parsed, Error>)
  {
    match ParseSize(sizeText)
    case Err(e) => Err(e)
    case Ok(size) =>
      if size != remaining then Err(BadLength)
      else match KindOf(fmt)
        case None => Err(UnknownType(fmt))
        case Some(k) => Ok(Parsed(k, payload))
  }

  /** `object_read` on the decompressed bytes, with missing delimiters rejected. */
  function Unframe(raw: seq<byte>): (r: Result<Parsed, Error>)
  {
    match SplitHeader(raw)
    case None => Err(MissingDelimiter)
    case Some(h) => Check(h.fmt, h.sizeText, |h.payload|, h.payload)
  }

  /** `object_read` on the decompressed bytes, with the slices and checks the Python code
      computes: when `find` returns -1, the slices and the length check go on with -1.
      It differs from the Python code where the latter raises for other reasons: a
      selected `GitCommit`, `GitTree` or `GitTag` is undefined (NameError) but is
      `Ok` here, and an unknown non-ASCII tag raises UnicodeDecodeError but is
      `UnknownType` here. */
  function UnframeAsWritten(raw: seq<byte>): (r: Result<Parsed, Error>)
  {
    var x := PyFind(raw, SP, 0);
    var y := PyFind(raw, NUL, x);
    Check(PySlice(raw, 0, x), PySlice(raw, x, y), |raw| - y - 1, PySlice(raw, y + 1, |raw|))
  }

  /** An object that passes all three checks is accepted with the payload handed on. */
  lemma CheckAccepts(fmt: seq<byte>, sizeText: seq<byte>, remaining: int, payload: seq<byte>, k: Kind)
    requires ParseSize(sizeText) == Ok(remaining) && fmt == TagName(k)
    ensures Check(fmt, sizeText, remaining, payload) == Ok(Parsed(k, payload))
  {
  }

  /** An accepted object passed all three checks. */
  lemma CheckOk(fmt: seq<byte>, sizeText: seq<byte>, remaining: int, payload: seq<byte>, k: Kind, p: seq<byte>)
    requires Check(fmt, sizeText, remaining, payload) == Ok(Parsed(k, p))
    ensures ParseSize(sizeText) == Ok(remaining)
    ensures TagName(k) == fmt && p == payload
  {
  }

  // ---------------------------------------------------------------------------
  // The frame

  /** The framed buffer is the tag, one space, the canonical decimal spelling of the
      payload length, one NUL byte and the payload, in that order. */
  lemma FrameLayout(fmt: seq<byte>, data: seq<byte>)
    ensures var f := Frame(fmt, data);
      && |f| > |fmt| + 1 + |data|
      && f[..|fmt|] == fmt
      && f[|fmt|] == SP
      && f[|f| - |data| - 1] == NUL
      && f[|f| - |data|..] == data
      && var digits := f[|fmt| + 1..|f| - |data| - 1];
        && |digits| > 0 && AllDigits(digits)
        && DigitsValue(digits) == |data|
        && (digits[0] == 48 ==> digits == [48])
  {
    var f := Frame(fmt, data);
    var d := Decimal(|data|);
    assert f[|fmt| + 1..|f| - |data| - 1] == d;
    DecimalValue(|data|);
    if d[0] == 48 {
      assert |data| == 0;
    }
  }

  // ---------------------------------------------------------------------------
  // Splitting the header

  /** Cutting a joined header apart gives back the same three parts, so `SplitHeader`
      and `Join` are inverse on well-formed headers. */
  lemma JoinSplit(h: Header)
    requires WellFormed(h)
    ensures SplitHeader(Join(h)) == Some(h)
  {
    var raw := Join(h);
    var x, y := |h.fmt|, |h.fmt| + |h.sizeText|;
    assert raw[x] == SP;
    forall k | 0 <= k < x ensures raw[k] != SP {
      assert raw[k] == h.fmt[k];
    }
    FindIsFirst(raw, SP, 0, x);
    assert raw[y] == NUL;
    forall k | x <= k < y ensures raw[k] != NUL {
      assert raw[k] == h.sizeText[k - x];
    }
    FindIsFirst(raw, NUL, x, y);
    assert raw[..x] == h.fmt;
    assert raw[x..y] == h.sizeText;
    assert raw[y + 1..] == h.payload;
  }

  // ---------------------------------------------------------------------------
  // Unframing

  /** Every header `object_read` accepts: any size field that `int()` reads as the
      payload length, behind one of the four tags. */
  lemma UnframeComplete(k: Kind, sizeText: seq<byte>, payload: seq<byte>)
    requires |sizeText| > 0 && sizeText[0] == SP && NUL !in sizeText
    requires ParseSize(sizeText) == Ok(|payload|)
    ensures Unframe(TagName(k) + sizeText + [NUL] + payload) == Ok(Parsed(k, payload))
  {
    JoinSplit(Header(TagName(k), sizeText, payload));
    CheckAccepts(TagName(k), sizeText, |payload|, payload, k);
  }

  /** Round trip: unframing the frame of a payload under any of the four tags gives
      back that kind and exactly that payload, whatever bytes (spaces, NULs) it holds. */
  lemma UnframeFrame(k: Kind, data: seq<byte>)
    ensures Unframe(Frame(TagName(k), data)) == Ok(Parsed(k, data))
  {
    var h := Header(TagName(k), [SP] + Decimal(|data|), data);
    assert Frame(TagName(k), data) == Join(h);
    assert WellFormed(h);
    JoinSplit(h);
    SizeTextOfDecimal(|data|);
    CheckAccepts(h.fmt, h.sizeText, |data|, data, k);
  }

  /** The size field `object_write` writes is read back as the length it spells. */
  lemma SizeTextOfDecimal(n: nat)
    ensures ParseSize([SP] + Decimal(n)) == Ok(n)
  {
    var sizeText := [SP] + Decimal(n);
    ParseIntOfDecimal([SP], n, []);
    assert sizeText + [] == sizeText;
    assert IsAscii(sizeText);
  }

  /** What an accepted buffer looks like: the kind's tag, a size field that starts
      with a space, holds no NUL and reads as the payload length, one NUL, and the
      payload, which is the whole rest of the buffer. */
  lemma UnframeSound(raw: seq<byte>, k: Kind, payload: seq<byte>)
    requires Unframe(raw) == Ok(Parsed(k, payload))
    ensures |TagName(k)| + |payload| < |raw|
    ensures var sizeText := raw[|TagName(k)|..|raw| - |payload| - 1];
      && raw == TagName(k) + sizeText + [NUL] + payload
      && WellFormed(Header(TagName(k), sizeText, payload))
      && ParseSize(sizeText) == Ok(|payload|)
  {
    var h := SplitHeader(raw).value;
    CheckOk(h.fmt, h.sizeText, |h.payload|, h.payload, k, payload);
    assert raw == h.fmt + h.sizeText + [NUL] + h.payload;
    assert raw[|h.fmt|..|raw| - |h.payload| - 1] == h.sizeText;
  }

  /** A buffer without a space, or without a NUL byte, is never accepted. */
  lemma UnframeNeedsDelimiters(raw: seq<byte>)
    requires SP !in raw || NUL !in raw
    ensures Unframe(raw) == Err(MissingDelimiter)
  {
    SplitFindsDelimiters(raw);
  }

  lemma SplitFindsDelimiters(raw: seq<byte>)
    ensures SplitHeader(raw).Some? ==> SP in raw && NUL in raw
  {
    if SplitHeader(raw).Some? {
      var h := SplitHeader(raw).value;
      assert raw[|h.fmt|] == SP;
      assert raw[|h.fmt| + |h.sizeText|] == NUL;
    }
  }

  /** The length check comes before the dispatch: a size field that disagrees with
      the payload length is "bad length" whatever the tag is. */
  lemma UnframeBadLength(h: Header, n: int)
    requires WellFormed(h)
    requires ParseSize(h.sizeText) == Ok(n) && n != |h.payload|
    ensures Unframe(Join(h)) == Err(BadLength)
  {
    JoinSplit(h);
  }

  /** A size field that is not ASCII, or that `int()` refuses, is rejected with that
      error before the length or the tag is looked at. */
  lemma UnframeBadSize(h: Header)
    requires WellFormed(h)
    requires ParseSize(h.sizeText).Err?
    ensures Unframe(Join(h)) == Err(ParseSize(h.sizeText).error)
    ensures Unframe(Join(h)) == Err(SizeNotAscii) <==> !IsAscii(h.sizeText)
  {
    JoinSplit(h);
  }

  /** A correct length behind a tag outside the four is "unknown type", and no object
      is built. */
  lemma UnframeUnknownType(h: Header)
    requires WellFormed(h)
    requires ParseSize(h.sizeText) == Ok(|h.payload|)
    requires forall k: Kind :: TagName(k) != h.fmt
    ensures Unframe(Join(h)) == Err(UnknownType(h.fmt))
  {
    JoinSplit(h);
  }

  /** `int()` is lenient, so the frame is not the only accepted spelling of an object:
      `blob +0_3<TAB><NUL>abc` is read as the blob `abc`, whose frame is `blob 3<NUL>abc`. */
  lemma UnframeLenientSize()
    ensures var payload: seq<byte> := [97, 98, 99];
      var raw := TagName(Blob) + [SP, PLUS, 48, UNDERSCORE, 51, 9] + [NUL] + payload;
      && Unframe(raw) == Ok(Parsed(Blob, payload))
      && raw != Frame(TagName(Blob), payload)
  {
    var payload: seq<byte> := [97, 98, 99];
    var h := Header(TagName(Blob), [SP, PLUS, 48, UNDERSCORE, 51, 9], payload);
    assert WellFormed(h);
    JoinSplit(h);
    LenientSizeText();
    CheckAccepts(h.fmt, h.sizeText, 3, payload, Blob);
    assert |Join(h)| == 14 && |Frame(TagName(Blob), payload)| == 10;
  }

  /** `int(' +0_3\t')` is 3. */
  lemma LenientSizeText()
    ensures ParseSize([SP, PLUS, 48, UNDERSCORE, 51, 9]) == Ok(3)
  {
    var body: seq<byte> := [48, UNDERSCORE, 51];
    assert body[1..] == [UNDERSCORE, 51] && body[1..][1..] == [51];
    assert DropUnderscores(body) == [48, 51] by {
      assert DropUnderscores([51]) == [51];
      assert DropUnderscores([UNDERSCORE, 51]) == [51];
    }
    assert DigitsValue([48, 51]) == 3 by {
      assert [48, 51][..1] == [48 as byte];
      assert [48 as byte][..0] == [];
    }
    ParseIntOfSignedRun([SP], body, [9]);
    assert [SP] + [PLUS] + body + [9] == [SP, PLUS, 48, UNDERSCORE, 51, 9];
  }

  // ---------------------------------------------------------------------------
  // The code as written

  /** Where there is a space and a NUL after the first space, the code as written and
      `Unframe` agree. */
  lemma AsWrittenAgrees(raw: seq<byte>)
    requires SplitHeader(raw).Some?
    ensures UnframeAsWritten(raw) == Unframe(raw)
  {
    var x := PyFind(raw, SP, 0);
    var y := PyFind(raw, NUL, x);
    assert PySlice(raw, 0, x) == raw[..x];
    assert PySlice(raw, x, y) == raw[x..y];
    assert PySlice(raw, y + 1, |raw|) == raw[y + 1..];
  }

  /** Without a space the code as written always fails: the size slice `raw[-1:y]` is
      empty, and `int('')` raises. */
  lemma AsWrittenNoSpace(raw: seq<byte>)
    requires SP !in raw
    ensures UnframeAsWritten(raw) == Err(SizeNotInteger)
  {
    FindAbsent(raw, SP, 0);
    var y := PyFind(raw, NUL, -1);
    assert PySlice(raw, -1, y) == [];
  }

  /** As written, a buffer with a space but no NUL at or after its first space goes
      through the checks with `y = -1`: the tag `raw[:x]`, the size field `raw[x:-1]`,
      `len(raw)` as the count to match and the whole buffer as the payload. */
  lemma AsWrittenNoNulAfterSpace(raw: seq<byte>, x: nat)
    requires x < |raw| && raw[x] == SP
    requires forall i :: 0 <= i < x ==> raw[i] != SP
    requires forall i :: x <= i < |raw| ==> raw[i] != NUL
    ensures UnframeAsWritten(raw) == Check(raw[..x], raw[x..|raw| - 1], |raw|, raw)
  {
    FindIsFirst(raw, SP, 0, x);
    FindAbsent(raw, NUL, x);
    assert PySlice(raw, x, -1) == raw[x..|raw| - 1];
    assert PySlice(raw, 0, |raw|) == raw;
  }

  /** With a space but no NUL after it, `y` is -1: the size field is read from
      `raw[x:-1]`, the length check compares it with `len(raw)`, and the "payload"
      `raw[0:]` is the whole buffer. A known tag and a size field that happens to spell
      the buffer's own length are then accepted, header and all. */
  lemma AsWrittenWithoutNul(raw: seq<byte>, x: nat, k: Kind)
    requires x < |raw| && raw[x] == SP
    requires forall i :: 0 <= i < x ==> raw[i] != SP
    requires forall i :: x <= i < |raw| ==> raw[i] != NUL
    requires raw[..x] == TagName(k)
    requires ParseSize(raw[x..|raw| - 1]) == Ok(|raw|)
    ensures UnframeAsWritten(raw) == Ok(Parsed(k, raw))
    ensures Unframe(raw) == Err(MissingDelimiter)
  {
    FindIsFirst(raw, SP, 0, x);
    FindAbsent(raw, NUL, x);
    assert PySlice(raw, x, -1) == raw[x..|raw| - 1];
    assert PySlice(raw, 0, x) == raw[..x];
    assert PySlice(raw, 0, |raw|) == raw;
    assert UnframeAsWritten(raw) == Check(raw[..x], raw[x..|raw| - 1], |raw|, raw);
    CheckAccepts(raw[..x], raw[x..|raw| - 1], |raw|, raw, k);
    assert NUL !in raw by {
      forall i | 0 <= i < x ensures raw[i] != NUL {
        assert raw[i] == TagName(k)[i];
      }
    }
    UnframeNeedsDelimiters(raw);
  }

  /** The ten bytes `blob 10  Z` hold no NUL, yet the code as written reads them as a
      blob whose data is the ten bytes themselves. */
  lemma AsWrittenAcceptsMissingNul()
    ensures var raw: seq<byte> := TagName(Blob) + [SP, 49, 48, SP, SP, 90];
      && NUL !in raw
      && UnframeAsWritten(raw) == Ok(Parsed(Blob, raw))
      && Unframe(raw) == Err(MissingDelimiter)
  {
    var raw: seq<byte> := TagName(Blob) + [SP, 49, 48, SP, SP, 90];
    assert raw[4..9] == [SP, 49, 48, SP, SP];
    TenSizeText();
    AsWrittenWithoutNul(raw, 4, Blob);
  }

  /** `int(' 10  ')` is 10. */
  lemma TenSizeText()
    ensures ParseSize([SP, 49, 48, SP, SP]) == Ok(10)
  {
    assert Decimal(10) == [49, 48];
    assert [SP, 49, 48, SP, SP] == [SP] + Decimal(10) + [SP, SP];
    ParseIntOfDecimal([SP], 10, [SP, SP]);
  }
}
