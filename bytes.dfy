/** Byte strings and the handful of Python primitives the object layer is built from:
    slicing with Python's index rules, `bytes.find`, `str(n).encode()` and `int()` on ASCII text. */
module Bytes {
  import opened Outcomes

  newtype byte = b: int | 0 <= b < 256

  const SP: byte := 32
  const NUL: byte := 0
  const PLUS: byte := 43
  const MINUS: byte := 45
  const UNDERSCORE: byte := 95

  // ---------------------------------------------------------------------------
  // Python index arithmetic

  /** How Python normalises a slice bound or a `find` start against a length `n`:
      a negative index counts from the end, and the result is clamped into 0..n. */
  function PyIndex(i: int, n: nat): (r: nat)
    ensures r <= n
    ensures 0 <= i <= n ==> r == i
    ensures -(n as int) <= i < 0 ==> r == n + i
  {
    if i < 0 then (if i + n < 0 then 0 else i + n) else if i > n then n else i
  }

  /** `s[i:j]` in Python: never fails, an empty result when the bounds cross. */
  function PySlice<T>(s: seq<T>, i: int, j: int): (r: seq<T>)
    ensures |r| <= |s|
    ensures 0 <= i <= j <= |s| ==> r == s[i..j]
  {
    var lo, hi := PyIndex(i, |s|), PyIndex(j, |s|);
    if hi <= lo then [] else s[lo..hi]
  }

  /** The first index `k >= i` with `s[k] == x`, or -1. */
  function FindFrom<T(==)>(s: seq<T>, x: T, i: nat): (r: int)
    requires i <= |s|
    ensures -1 <= r < |s|
    ensures 0 <= r ==> i <= r && s[r] == x
    ensures 0 <= r ==> forall k :: i <= k < r ==> s[k] != x
    ensures r == -1 ==> forall k :: i <= k < |s| ==> s[k] != x
    decreases |s| - i
  {
    if i == |s| then -1 else if s[i] == x then i else FindFrom(s, x, i + 1)
  }

  /** `s.find(x, start)` for a one-byte needle: the lowest index at or after the
      normalised start that holds `x`, or -1 when there is none. */
  function PyFind<T(==)>(s: seq<T>, x: T, start: int): (r: int)
    ensures -1 <= r < |s|
    ensures 0 <= r ==> PyIndex(start, |s|) <= r && s[r] == x
    ensures 0 <= r ==> forall k :: PyIndex(start, |s|) <= k < r ==> s[k] != x
    ensures r == -1 ==> forall k :: PyIndex(start, |s|) <= k < |s| ==> s[k] != x
  {
    FindFrom(s, x, PyIndex(start, |s|))
  }

  /** `find` returns the first occurrence: a position holding `x` with no `x` before it
      (from `start`) is the answer. */
  lemma FindIsFirst<T>(s: seq<T>, x: T, start: nat, p: nat)
    requires start <= p < |s| && s[p] == x
    requires forall k :: start <= k < p ==> s[k] != x
    ensures PyFind(s, x, start) == p
  {
  }

  /** `find` reports -1 exactly when no position at or after `start` holds `x`. */
  lemma FindAbsent<T>(s: seq<T>, x: T, start: nat)
    requires forall k :: start <= k < |s| ==> s[k] != x
    ensures PyFind(s, x, start) == -1
  {
  }

  // ---------------------------------------------------------------------------
  // Decimal digits: str(n).encode()

  predicate IsDigit(b: byte) { 48 <= b <= 57 }

  predicate AllDigits(s: seq<byte>) { forall i :: 0 <= i < |s| ==> IsDigit(s[i]) }

  function DigitByte(d: nat): (b: byte)
    requires d < 10
    ensures IsDigit(b) && b as int - 48 == d
  {
    (48 + d) as byte
  }

  /** `str(n).encode()` for a non-negative `n`: the shortest decimal spelling. */
  function Decimal(n: nat): (r: seq<byte>)
    ensures |r| > 0 && AllDigits(r)
    ensures r[0] == 48 <==> n == 0
    decreases n
  {
    if n < 10 then [DigitByte(n)] else Decimal(n / 10) + [DigitByte(n % 10)]
  }

  /** The number a string of ASCII digits spells in base ten. */
  function DigitsValue(s: seq<byte>): (r: nat)
    requires AllDigits(s)
  {
    if s == [] then 0 else DigitsValue(s[..|s| - 1]) * 10 + (s[|s| - 1] as int - 48)
  }

  /** Reading back what `Decimal` wrote gives the number again. */
  lemma {:induction false} DecimalValue(n: nat)
    ensures DigitsValue(Decimal(n)) == n
    decreases n
  {
    if n >= 10 {
      var d := Decimal(n / 10);
      DecimalValue(n / 10);
      assert (d + [DigitByte(n % 10)])[..|d|] == d;
    }
  }

  // ---------------------------------------------------------------------------
  // int(text) on ASCII text, as CPython 3 does it for base 10

  /** The characters CPython's integer parser skips around the digits. */
  predicate IsSpace(b: byte) { b == 32 || 9 <= b <= 13 }

  predicate IsAscii(s: seq<byte>) { forall i :: 0 <= i < |s| ==> s[i] < 128 }

  /** The text without its leading white space; `TrimLeftStrips` states what it drops. */
  function TrimLeft(s: seq<byte>): (r: seq<byte>)
  {
    if |s| > 0 && IsSpace(s[0]) then TrimLeft(s[1..]) else s
  }

  /** The text without its trailing white space; `TrimRightStrips` states what it drops. */
  function TrimRight(s: seq<byte>): (r: seq<byte>)
  {
    if |s| > 0 && IsSpace(s[|s| - 1]) then TrimRight(s[..|s| - 1]) else s
  }

  /** `TrimLeft` drops exactly the leading white space: what is left is a suffix of
      `s`, every byte dropped is white space, and what is left does not start with any. */
  lemma {:induction false} TrimLeftStrips(s: seq<byte>)
    ensures var r := TrimLeft(s);
      && |r| <= |s|
      && r == s[|s| - |r|..]
      && (forall i :: 0 <= i < |s| - |r| ==> IsSpace(s[i]))
      && (|r| > 0 ==> !IsSpace(r[0]))
  {
    if |s| > 0 && IsSpace(s[0]) {
      TrimLeftStrips(s[1..]);
      var r := TrimLeft(s[1..]);
      assert s[1..][|s| - 1 - |r|..] == s[|s| - |r|..];
      forall i | 1 <= i < |s| - |r| ensures IsSpace(s[i]) {
        assert s[i] == s[1..][i - 1];
      }
    }
  }

  /** `TrimRight` drops exactly the trailing white space: what is left is a prefix of
      `s`, every byte dropped is white space, and what is left does not end with any. */
  lemma {:induction false} TrimRightStrips(s: seq<byte>)
    ensures var r := TrimRight(s);
      && |r| <= |s|
      && r == s[..|r|]
      && (forall i :: |r| <= i < |s| ==> IsSpace(s[i]))
      && (|r| > 0 ==> !IsSpace(r[|r| - 1]))
  {
    if |s| > 0 && IsSpace(s[|s| - 1]) {
      var t := s[..|s| - 1];
      TrimRightStrips(t);
      var r := TrimRight(t);
      assert t[..|r|] == s[..|r|];
      forall i | |r| <= i < |s| - 1 ensures IsSpace(s[i]) {
        assert s[i] == t[i];
      }
    }
  }

  /** A run of digits in which single underscores may separate digits:
      no leading, trailing or doubled underscore. */
  predicate IsDigitRun(s: seq<byte>) {
    && |s| > 0
    && IsDigit(s[0])
    && IsDigit(s[|s| - 1])
    && (forall i :: 0 <= i < |s| ==> IsDigit(s[i]) || s[i] == UNDERSCORE)
    && (forall i :: 0 <= i < |s| - 1 ==> s[i] == UNDERSCORE ==> IsDigit(s[i + 1]))
  }

  /** The digits of a digit run, underscores dropped. */
  function DropUnderscores(s: seq<byte>): (r: seq<byte>)
    requires forall i :: 0 <= i < |s| ==> IsDigit(s[i]) || s[i] == UNDERSCORE
    ensures AllDigits(r) && |r| <= |s|
  {
    if s == [] then []
    else (if s[0] == UNDERSCORE then [] else [s[0]]) + DropUnderscores(s[1..])
  }

  /** What follows the optional sign. */
  function Unsigned(t: seq<byte>): (body: seq<byte>)
    requires |t| > 0
    ensures |body| <= |t|
  {
    if t[0] == PLUS || t[0] == MINUS then t[1..] else t
  }

  /** `int(text)`: surrounding white space is skipped, one optional sign is read,
      and the rest must be a digit run; anything else is a ValueError (None). */
  function ParseInt(text: seq<byte>): (r: Option<int>)
  {
    ParseTrimmed(TrimRight(TrimLeft(text)))
  }

  /** `int()` once the white space is gone: one optional sign, then a digit run. */
  function ParseTrimmed(t: seq<byte>): (r: Option<int>)
  {
    if |t| == 0 then None
    else
      var body := Unsigned(t);
      if !IsDigitRun(body) then None
      else
        var v: int := DigitsValue(DropUnderscores(body));
        Some(if t[0] == MINUS then -v else v)
  }

  lemma {:induction false} DropNoUnderscores(s: seq<byte>)
    requires AllDigits(s)
    ensures DropUnderscores(s) == s
  {
    if s != [] {
      DropNoUnderscores(s[1..]);
    }
  }

  lemma {:induction false} TrimLeftSpaces(lead: seq<byte>, s: seq<byte>)
    requires forall i :: 0 <= i < |lead| ==> IsSpace(lead[i])
    requires |s| > 0 && !IsSpace(s[0])
    ensures TrimLeft(lead + s) == s
  {
    if lead != [] {
      assert (lead + s)[1..] == lead[1..] + s;
      TrimLeftSpaces(lead[1..], s);
    } else {
      assert lead + s == s;
    }
  }

  lemma {:induction false} TrimRightSpaces(s: seq<byte>, trail: seq<byte>)
    requires forall i :: 0 <= i < |trail| ==> IsSpace(trail[i])
    requires |s| > 0 && !IsSpace(s[|s| - 1])
    ensures TrimRight(s + trail) == s
  {
    if trail != [] {
      var t := trail[..|trail| - 1];
      assert (s + trail)[..|s + trail| - 1] == s + t;
      TrimRightSpaces(s, t);
    } else {
      assert s + trail == s;
    }
  }

  /** `int()` reads the decimal spelling of `n` back as `n`, whatever white space
      surrounds it; in particular the leading space the object header leaves in the
      size field does no harm. */
  lemma ParseIntOfDecimal(lead: seq<byte>, n: nat, trail: seq<byte>)
    requires forall i :: 0 <= i < |lead| ==> IsSpace(lead[i])
    requires forall i :: 0 <= i < |trail| ==> IsSpace(trail[i])
    ensures ParseInt(lead + Decimal(n) + trail) == Some(n)
  {
    var d := Decimal(n);
    assert lead + d + trail == lead + (d + trail);
    TrimLeftSpaces(lead, d + trail);
    TrimRightSpaces(d, trail);
    var t := TrimRight(TrimLeft(lead + d + trail));
    assert t == d;
    assert t[0] != PLUS && t[0] != MINUS;
    assert IsDigitRun(d);
    DropNoUnderscores(d);
    DecimalValue(n);
  }

  /** `int()` of a `+` sign and a digit run, between white space, is the run's value. */
  lemma ParseIntOfSignedRun(lead: seq<byte>, body: seq<byte>, trail: seq<byte>)
    requires forall i :: 0 <= i < |lead| ==> IsSpace(lead[i])
    requires forall i :: 0 <= i < |trail| ==> IsSpace(trail[i])
    requires IsDigitRun(body)
    ensures ParseInt(lead + [PLUS] + body + trail) == Some(DigitsValue(DropUnderscores(body)) as int)
  {
    var t := [PLUS] + body;
    assert lead + [PLUS] + body + trail == lead + (t + trail);
    TrimLeftSpaces(lead, t + trail);
    TrimRightSpaces(t, trail);
    assert t[1..] == body;
  }

  /** `text[i..j]` spells `v` the way `int()` accepts: white space before `i` and from
      `j` on, and between them one optional sign followed by a digit run. */
  ghost predicate IntSpelling(text: seq<byte>, i: int, j: int, v: int) {
    && 0 <= i < j <= |text|
    && (forall k :: 0 <= k < i ==> IsSpace(text[k]))
    && (forall k :: j <= k < |text| ==> IsSpace(text[k]))
    && SignedRun(text[i..j], v)
  }

  /** `t` is an optional sign followed by a digit run whose value, with that sign, is `v`. */
  ghost predicate SignedRun(t: seq<byte>, v: int) {
    exists sign: seq<byte>, body: seq<byte> :: SignedRunAs(t, v, sign, body)
  }

  /** `t` is `sign + body`, where `sign` is empty, `+` or `-` and `body` is a digit run
      whose digits, with that sign, have the value `v`. */
  predicate SignedRunAs(t: seq<byte>, v: int, sign: seq<byte>, body: seq<byte>) {
    && (sign == [] || sign == [PLUS] || sign == [MINUS])
    && t == sign + body
    && IsDigitRun(body)
    && var n: int := DigitsValue(DropUnderscores(body));
       v == (if sign == [MINUS] then -n else n)
  }

  /** Whatever `int()` accepts is such a spelling of the value it returns. */
  lemma ParseIntSound(text: seq<byte>, v: int)
    requires ParseInt(text) == Some(v)
    ensures exists i, j :: IntSpelling(text, i, j, v)
  {
    var i, j := TrimBounds(text);
    SignedRunIff(text[i..j], v);
    assert IntSpelling(text, i, j, v);
  }

  /** The trimmed text is a slice `text[i..j]` with white space before `i` and from `j` on. */
  lemma TrimBounds(text: seq<byte>) returns (i: nat, j: nat)
    ensures i <= j <= |text| && TrimRight(TrimLeft(text)) == text[i..j]
    ensures forall k :: 0 <= k < i ==> IsSpace(text[k])
    ensures forall k :: j <= k < |text| ==> IsSpace(text[k])
  {
    var l := TrimLeft(text);
    TrimLeftStrips(text);
    var t := TrimRight(l);
    TrimRightStrips(l);
    i := |text| - |l|;
    j := i + |t|;
    assert text[i..j] == t;
    forall k | j <= k < |text| ensures IsSpace(text[k]) {
      assert text[k] == l[k - i];
    }
  }

  /** Every such spelling is accepted, with its value; so `int()` raises (None) on
      exactly the texts that have no spelling. */
  lemma ParseIntComplete(text: seq<byte>, i: int, j: int, v: int)
    requires IntSpelling(text, i, j, v)
    ensures ParseInt(text) == Some(v)
  {
    var t := text[i..j];
    SignedRunEnds(t, v);
    assert t[0] == text[i] && t[|t| - 1] == text[j - 1];
    TrimAround(text, i, j);
    SignedRunIff(t, v);
  }

  /** A signed digit run neither starts nor ends with white space. */
  lemma SignedRunEnds(t: seq<byte>, v: int)
    requires SignedRun(t, v)
    ensures |t| > 0 && !IsSpace(t[0]) && !IsSpace(t[|t| - 1])
  {
    var sign, body :| SignedRunAs(t, v, sign, body);
    assert t[|t| - 1] == body[|body| - 1];
    assert t[0] == if sign == [] then body[0] else sign[0];
  }

  /** Without white space around it, `int()` reads exactly the signed digit runs, each
      as its value. */
  lemma SignedRunIff(t: seq<byte>, v: int)
    ensures ParseTrimmed(t) == Some(v) <==> SignedRun(t, v)
  {
    if ParseTrimmed(t) == Some(v) {
      TrimmedIsSignedRun(t, v);
    }
    if SignedRun(t, v) {
      var sign, body :| SignedRunAs(t, v, sign, body);
      SignedRunIsTrimmed(t, v, sign, body);
    }
  }

  lemma TrimmedIsSignedRun(t: seq<byte>, v: int)
    requires ParseTrimmed(t) == Some(v)
    ensures SignedRunAs(t, v, if t[0] == PLUS || t[0] == MINUS then [t[0]] else [], Unsigned(t))
  {
    var sign: seq<byte> := if t[0] == PLUS || t[0] == MINUS then [t[0]] else [];
    assert t == sign + Unsigned(t);
  }

  lemma SignedRunIsTrimmed(t: seq<byte>, v: int, sign: seq<byte>, body: seq<byte>)
    requires SignedRunAs(t, v, sign, body)
    ensures ParseTrimmed(t) == Some(v)
  {
    if sign == [] {
      assert t[0] == body[0];
      assert Unsigned(t) == body;
    } else {
      assert t[0] == sign[0];
      assert Unsigned(t) == t[1..] == body;
    }
  }

  /** Trimming a text whose white space surrounds `text[i..j]`, which neither starts
      nor ends with white space, leaves `text[i..j]`. */
  lemma TrimAround(text: seq<byte>, i: int, j: int)
    requires 0 <= i < j <= |text|
    requires forall k :: 0 <= k < i ==> IsSpace(text[k])
    requires forall k :: j <= k < |text| ==> IsSpace(text[k])
    requires !IsSpace(text[i]) && !IsSpace(text[j - 1])
    ensures TrimRight(TrimLeft(text)) == text[i..j]
  {
    var u := text[i..];
    TrimLeftFrom(text, i);
    assert TrimLeft(text) == u;
    assert u[j - i - 1] == text[j - 1];
    forall k | j - i <= k < |u| ensures IsSpace(u[k]) {
      assert u[k] == text[i + k];
    }
    TrimRightTo(u, j - i);
    assert TrimRight(u) == u[..j - i];
    assert u[..j - i] == text[i..j];
  }

  lemma {:induction false} TrimLeftFrom(s: seq<byte>, i: nat)
    requires i < |s| && !IsSpace(s[i])
    requires forall k :: 0 <= k < i ==> IsSpace(s[k])
    ensures TrimLeft(s) == s[i..]
  {
    if i > 0 {
      var t := s[1..];
      forall k | 0 <= k < i - 1 ensures IsSpace(t[k]) {
        assert t[k] == s[k + 1];
      }
      TrimLeftFrom(t, i - 1);
      assert t[i - 1..] == s[i..];
    }
  }

  lemma {:induction false} TrimRightTo(s: seq<byte>, j: nat)
    requires 0 < j <= |s| && !IsSpace(s[j - 1])
    requires forall k :: j <= k < |s| ==> IsSpace(s[k])
    ensures TrimRight(s) == s[..j]
    decreases |s|
  {
    if j < |s| {
      var t := s[..|s| - 1];
      forall k | j <= k < |t| ensures IsSpace(t[k]) {
        assert t[k] == s[k];
      }
      TrimRightTo(t, j);
      assert t[..j] == s[..j];
    }
  }

  /** `int()` raises (None) on a text that spells no integer. */
  lemma ParseIntRefuses(text: seq<byte>)
    requires forall i, j, v :: !IntSpelling(text, i, j, v)
    ensures ParseInt(text).None?
  {
    if ParseInt(text).Some? {
      ParseIntSound(text, ParseInt(text).value);
    }
  }

  /** `int()` reads a leading `-` as a negative value: `int(' -5')` is -5. */
  lemma ParseIntNegative()
    ensures ParseInt([SP, MINUS, 53]) == Some(-5)
  {
    var text: seq<byte> := [SP, MINUS, 53];
    assert text[1..3][1..] == [53];
    assert DropUnderscores([53]) == [53];
    assert DigitsValue([53]) == 5;
    assert SignedRunAs(text[1..3], -5, [MINUS], [53]);
    assert IntSpelling(text, 1, 3, -5);
    ParseIntComplete(text, 1, 3, -5);
  }
}
