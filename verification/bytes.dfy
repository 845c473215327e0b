/** Byte-level text primitives the description codec is built from: line splitting,
    Unicode whitespace trimming on UTF-8 encoded bytes, UTF-8 well-formedness,
    and the byte-wise lexicographic order Rust uses for strings. */
module Bytes {
  import opened Wrappers

  newtype byte = b: int | 0 <= b < 0x100

  const LF: byte := 0x0A
  const SPACE: byte := 0x20
  const HASH: byte := 0x23
  const COLON: byte := 0x3A

  /** Index of the first occurrence of `b` in `s`. */
  function IndexOf(s: seq<byte>, b: byte): (r: Option<nat>)
    ensures r.Some? ==> r.value < |s| && s[r.value] == b && b !in s[..r.value]
    ensures r.None? ==> b !in s
  {
    if s == [] then None
    else if s[0] == b then Some(0)
    else
      match IndexOf(s[1..], b)
      case None => None
      case Some(i) =>
        assert s[..i + 1] == [s[0]] + s[1..][..i];
        Some(i + 1)
  }

  /** The first occurrence of `b` in `l + [b] + rest` is right after `l` when `l` has none. */
  lemma IndexOfAfter(l: seq<byte>, b: byte, rest: seq<byte>)
    requires b !in l
    ensures IndexOf(l + [b] + rest, b) == Some(|l|)
  {
    var s := l + [b] + rest;
    assert s[|l|] == b;
  }

  /** Length of the first line of `s`, terminating LF included: the first item of
      Rust's `split_inclusive(|&b| b == b'\n')`. */
  function LineLen(s: seq<byte>): (n: nat)
    requires s != []
    ensures 0 < n <= |s|
    ensures LF !in s[..n - 1]
    ensures s[n - 1] == LF || n == |s|
  {
    match IndexOf(s, LF)
    case Some(i) => i + 1
    case None => |s|
  }

  lemma LineLenOfLine(l: seq<byte>, rest: seq<byte>)
    requires LF !in l
    ensures LineLen(l + [LF] + rest) == |l| + 1
  {
    IndexOfAfter(l, LF, rest);
  }

  lemma LineLenOfLast(s: seq<byte>)
    requires s != [] && LF !in s
    ensures LineLen(s) == |s|
  {
  }

  /** `u8::is_ascii_whitespace`: space, tab, LF, form feed and CR; not vertical tab. */
  predicate IsAsciiWhitespace(b: byte) {
    b == 0x20 || b == 0x09 || b == 0x0A || b == 0x0C || b == 0x0D
  }

  predicate AllAsciiWhitespace(s: seq<byte>) {
    forall i :: 0 <= i < |s| ==> IsAsciiWhitespace(s[i])
  }

  /* The characters with the Unicode White_Space property (Rust's `char::is_whitespace`),
     by the length of their UTF-8 encoding. */

  predicate IsWhitespace1(a: byte) {
    (0x09 <= a <= 0x0D) || a == 0x20
  }

  /** U+0085, U+00A0 */
  predicate IsWhitespace2(a: byte, b: byte) {
    a == 0xC2 && (b == 0x85 || b == 0xA0)
  }

  /** U+1680, U+2000..U+200A, U+2028, U+2029, U+202F, U+205F, U+3000 */
  predicate IsWhitespace3(a: byte, b: byte, c: byte) {
    || (a == 0xE1 && b == 0x9A && c == 0x80)
    || (a == 0xE2 && b == 0x80 && (0x80 <= c <= 0x8A || c == 0xA8 || c == 0xA9 || c == 0xAF))
    || (a == 0xE2 && b == 0x81 && c == 0x9F)
    || (a == 0xE3 && b == 0x80 && c == 0x80)
  }

  /** Length of the encoding of a whitespace character that ends `s`, or 0. */
  function WhitespaceSuffix(s: seq<byte>): (k: nat)
    ensures k <= |s| && k <= 3
    ensures k == 0 || |s| > 0
  {
    var n := |s|;
    if n >= 1 && IsWhitespace1(s[n - 1]) then 1
    else if n >= 2 && IsWhitespace2(s[n - 2], s[n - 1]) then 2
    else if n >= 3 && IsWhitespace3(s[n - 3], s[n - 2], s[n - 1]) then 3
    else 0
  }

  /** Length of the encoding of a whitespace character that starts `s`, or 0. */
  function WhitespacePrefix(s: seq<byte>): (k: nat)
    ensures k <= |s| && k <= 3
  {
    if |s| >= 1 && IsWhitespace1(s[0]) then 1
    else if |s| >= 2 && IsWhitespace2(s[0], s[1]) then 2
    else if |s| >= 3 && IsWhitespace3(s[0], s[1], s[2]) then 3
    else 0
  }

  /** `t` is a sequence of whitespace characters, read from its start. */
  predicate WhitespaceRun(t: seq<byte>)
    decreases |t|
  {
    t == [] || (WhitespacePrefix(t) > 0 && WhitespaceRun(t[WhitespacePrefix(t)..]))
  }

  /** `t` is a sequence of whitespace characters, read from its end. */
  predicate WhitespaceTail(t: seq<byte>)
    decreases |t|
  {
    t == [] || (WhitespaceSuffix(t) > 0 && WhitespaceTail(t[..|t| - WhitespaceSuffix(t)]))
  }

  /** `str::trim_end`: drops whitespace characters from the end. */
  function TrimEnd(s: seq<byte>): (r: seq<byte>)
    ensures |r| <= |s| && r == s[..|r|]
    ensures WhitespaceSuffix(r) == 0
    ensures WhitespaceTail(s[|r|..])
    ensures WhitespaceSuffix(s) == 0 ==> r == s
    decreases |s|
  {
    var k := WhitespaceSuffix(s);
    if k == 0 then
      assert s[|s|..] == [];
      s
    else
      var r := TrimEnd(s[..|s| - k]);
      WhitespaceTailGrows(s, k, |r|);
      r
  }

  /** A final one-byte whitespace character does not survive `TrimEnd`. */
  lemma TrimEndSkipsLast(s: seq<byte>)
    requires s != [] && IsWhitespace1(s[|s| - 1])
    ensures TrimEnd(s) == TrimEnd(s[..|s| - 1])
  {
    assert WhitespaceSuffix(s) == 1;
  }

  /** Dropping one more whitespace character from the end keeps the dropped part whitespace. */
  lemma WhitespaceTailGrows(s: seq<byte>, k: nat, n: nat)
    requires 0 < k == WhitespaceSuffix(s) && n <= |s| - k
    requires WhitespaceTail(s[..|s| - k][n..])
    ensures WhitespaceTail(s[n..])
  {
    var t := s[n..];
    assert |t| >= k;
    assert t[|t| - k..] == s[|s| - k..];
    assert WhitespaceSuffix(t) == k;
    assert t[..|t| - k] == s[..|s| - k][n..];
  }

  /** `str::trim_start`: drops whitespace characters from the start. */
  function TrimStart(s: seq<byte>): (r: seq<byte>)
    ensures |r| <= |s| && r == s[|s| - |r|..]
    ensures WhitespacePrefix(r) == 0
    ensures WhitespacePrefix(s) == 0 ==> r == s
    decreases |s|
  {
    var k := WhitespacePrefix(s);
    if k == 0 then s else TrimStart(s[k..])
  }

  /** What `TrimStart` drops is a run of whitespace characters. */
  lemma {:induction false} TrimStartDropsWhitespace(s: seq<byte>)
    ensures WhitespaceRun(s[..|s| - |TrimStart(s)|])
    decreases |s|
  {
    var k := WhitespacePrefix(s);
    if k == 0 {
      assert s[..|s| - |TrimStart(s)|] == [];
    } else {
      var u := s[k..];
      TrimStartDropsWhitespace(u);
      WhitespaceRunGrows(s, k, |TrimStart(u)|);
    }
  }

  /** Dropping one more whitespace character from the start keeps the dropped part whitespace. */
  lemma WhitespaceRunGrows(s: seq<byte>, k: nat, n: nat)
    requires 0 < k == WhitespacePrefix(s) && n <= |s| - k
    requires WhitespaceRun(s[k..][..|s[k..]| - n])
    ensures WhitespaceRun(s[..|s| - n])
  {
    var t := s[..|s| - n];
    assert |t| >= k;
    assert t[..k] == s[..k];
    assert WhitespacePrefix(t) == k;
    assert t[k..] == s[k..][..|s[k..]| - n];
  }

  /** `str::trim`. */
  function Trim(s: seq<byte>): seq<byte> {
    TrimEnd(TrimStart(s))
  }

  /** `s.trim().is_empty()`: every character of `s` is whitespace. */
  predicate IsBlank(s: seq<byte>) {
    TrimEnd(s) == []
  }

  /** `str::split_once`: the parts before and after the first `sep`. */
  function SplitOnce(s: seq<byte>, sep: byte): (r: Option<(seq<byte>, seq<byte>)>)
    ensures r.None? <==> sep !in s
    ensures r.Some? ==> s == r.value.0 + [sep] + r.value.1 && sep !in r.value.0
  {
    match IndexOf(s, sep)
    case None => None
    case Some(i) =>
      assert s == s[..i] + [sep] + s[i + 1..];
      Some((s[..i], s[i + 1..]))
  }

  /** A trailing whitespace character of `p + n` lies inside `n` when `p` ends in ASCII:
      every byte of a multi-byte encoding is at least 0x80. */
  lemma WhitespaceSuffixAfterAscii(p: seq<byte>, n: seq<byte>)
    requires n != []
    requires p != [] ==> p[|p| - 1] < 0x80
    ensures WhitespaceSuffix(p + n) == WhitespaceSuffix(n)
  {
    var s := p + n;
    assert s[|s| - 1] == n[|n| - 1];
    if |n| >= 2 {
      assert s[|s| - 2] == n[|n| - 2];
    }
    if |n| >= 3 {
      assert s[|s| - 3] == n[|n| - 3];
    }
  }

  lemma TrimEndLF(s: seq<byte>)
    ensures TrimEnd(s + [LF]) == TrimEnd(s)
  {
    assert (s + [LF])[..|s|] == s;
  }

  lemma TrimStartSpace(s: seq<byte>)
    ensures TrimStart([SPACE] + s) == TrimStart(s)
  {
    assert ([SPACE] + s)[1..] == s;
  }

  /* UTF-8 well-formedness, after Table 3-7 of the Unicode Standard. */

  predicate IsCont(b: byte) {
    0x80 <= b <= 0xBF
  }

  /** Length of the well-formed UTF-8 sequence that starts `s`, or 0 when there is none. */
  function Utf8CharLen(s: seq<byte>): (k: nat)
    ensures k <= |s| && k <= 4
  {
    if |s| == 0 then 0
    else if s[0] <= 0x7F then 1
    else if 0xC2 <= s[0] <= 0xDF then
      if |s| >= 2 && IsCont(s[1]) then 2 else 0
    else if 0xE0 <= s[0] <= 0xEF then
      var second :=
        if s[0] == 0xE0 then 0xA0 <= s[1 % |s|] <= 0xBF
        else if s[0] == 0xED then 0x80 <= s[1 % |s|] <= 0x9F
        else IsCont(s[1 % |s|]);
      if |s| >= 3 && second && IsCont(s[2]) then 3 else 0
    else if 0xF0 <= s[0] <= 0xF4 then
      var second :=
        if s[0] == 0xF0 then 0x90 <= s[1 % |s|] <= 0xBF
        else if s[0] == 0xF4 then 0x80 <= s[1 % |s|] <= 0x8F
        else IsCont(s[1 % |s|]);
      if |s| >= 4 && second && IsCont(s[2]) && IsCont(s[3]) then 4 else 0
    else 0
  }

  /** `std::str::from_utf8` succeeds. */
  predicate ValidUtf8(s: seq<byte>)
    decreases |s|
  {
    s == [] || (Utf8CharLen(s) > 0 && ValidUtf8(s[Utf8CharLen(s)..]))
  }

  lemma Utf8CharLenPrefix(a: seq<byte>, b: seq<byte>)
    requires Utf8CharLen(a) > 0
    ensures Utf8CharLen(a + b) == Utf8CharLen(a)
  {
    var s := a + b;
    assert s[0] == a[0];
    if |a| >= 2 {
      assert s[1] == a[1];
      assert s[1 % |s|] == a[1 % |a|];
    }
    if |a| >= 3 {
      assert s[2] == a[2];
    }
    if |a| >= 4 {
      assert s[3] == a[3];
    }
  }

  lemma {:induction false} Utf8Concat(a: seq<byte>, b: seq<byte>)
    requires ValidUtf8(a) && ValidUtf8(b)
    ensures ValidUtf8(a + b)
    decreases |a|
  {
    if a == [] {
      assert a + b == b;
    } else {
      var k := Utf8CharLen(a);
      Utf8CharLenPrefix(a, b);
      assert (a + b)[k..] == a[k..] + b;
      Utf8Concat(a[k..], b);
    }
  }

  lemma {:induction false} AsciiIsUtf8(s: seq<byte>)
    requires forall i :: 0 <= i < |s| ==> s[i] < 0x80
    ensures ValidUtf8(s)
    decreases |s|
  {
    if s != [] {
      AsciiIsUtf8(s[1..]);
    }
  }

  /** Every byte of an encoded character after its first is a continuation byte. */
  lemma Utf8Continuations(s: seq<byte>)
    ensures forall i :: 1 <= i < Utf8CharLen(s) ==> IsCont(s[i])
  {
  }

  lemma Utf8CharLenTake(s: seq<byte>, j: nat)
    requires 0 < Utf8CharLen(s) <= j <= |s|
    ensures Utf8CharLen(s[..j]) == Utf8CharLen(s)
  {
    var t := s[..j];
    assert t[0] == s[0];
    if j >= 2 {
      assert t[1] == s[1];
      assert t[1 % |t|] == s[1 % |s|];
    }
    if j >= 3 {
      assert t[2] == s[2];
    }
    if j >= 4 {
      assert t[3] == s[3];
    }
  }

  /** Cutting well-formed UTF-8 just before a byte that is not a continuation byte
      leaves well-formed UTF-8: no character straddles the cut. */
  lemma {:induction false} Utf8PrefixAtBoundary(s: seq<byte>, j: nat)
    requires ValidUtf8(s) && j <= |s| && (j < |s| ==> !IsCont(s[j]))
    ensures ValidUtf8(s[..j])
    decreases |s|
  {
    if j == 0 {
      assert s[..j] == [];
    } else {
      var n := Utf8CharLen(s);
      Utf8Continuations(s);
      assert n <= j;
      Utf8PrefixAtBoundary(s[n..], j - n);
      Utf8CharLenTake(s, j);
      assert s[..j][n..] == s[n..][..j - n];
    }
  }

  /** `str::trim_end` of a `str` is a `str`: the trimmed characters are whole. */
  lemma {:induction false} TrimEndUtf8(s: seq<byte>)
    requires ValidUtf8(s)
    ensures ValidUtf8(TrimEnd(s))
    decreases |s|
  {
    var k := WhitespaceSuffix(s);
    if k > 0 {
      Utf8PrefixAtBoundary(s, |s| - k);
      TrimEndUtf8(s[..|s| - k]);
    }
  }

  /** Byte-wise lexicographic order (Rust's `Ord` for `str` and `[u8]`): a proper prefix comes first. */
  predicate LexLess(a: seq<byte>, b: seq<byte>)
    decreases |a|
  {
    |b| > 0 && (|a| == 0 || a[0] < b[0] || (a[0] == b[0] && LexLess(a[1..], b[1..])))
  }

  lemma {:induction false} LexLessIrreflexive(a: seq<byte>)
    ensures !LexLess(a, a)
    decreases |a|
  {
    if |a| > 0 {
      LexLessIrreflexive(a[1..]);
    }
  }

  lemma {:induction false} LexLessTransitive(a: seq<byte>, b: seq<byte>, c: seq<byte>)
    requires LexLess(a, b) && LexLess(b, c)
    ensures LexLess(a, c)
    decreases |a|
  {
    if |a| > 0 && a[0] == b[0] && b[0] == c[0] {
      LexLessTransitive(a[1..], b[1..], c[1..]);
    }
  }

  lemma {:induction false} LexLessTotal(a: seq<byte>, b: seq<byte>)
    requires a != b
    ensures LexLess(a, b) || LexLess(b, a)
    decreases |a|
  {
    if |a| > 0 && |b| > 0 && a[0] == b[0] {
      assert a == [a[0]] + a[1..] && b == [b[0]] + b[1..];
      LexLessTotal(a[1..], b[1..]);
    }
  }

  lemma LexLessAsymmetric(a: seq<byte>, b: seq<byte>)
    requires LexLess(a, b)
    ensures !LexLess(b, a)
  {
    if LexLess(b, a) {
      LexLessTransitive(a, b, a);
      LexLessIrreflexive(a);
    }
  }

  /** `str::trim_end_matches('\n')`: `m` without its run of trailing LFs. */
  function StripTrailingNewlines(m: seq<byte>): (r: seq<byte>)
    ensures |r| <= |m| && r == m[..|r|]
    ensures r == [] || r[|r| - 1] != LF
    ensures forall i :: |r| <= i < |m| ==> m[i] == LF
    decreases |m|
  {
    if m != [] && m[|m| - 1] == LF then StripTrailingNewlines(m[..|m| - 1]) else m
  }
}
