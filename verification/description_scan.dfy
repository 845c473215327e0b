/** How the scan of `TryFrom<&[u8]>` treats each kind of line: comment, header,
    message, blank and sentinel lines. */
module DescriptionScan {
  import opened Wrappers
  import opened Bytes
  import opened Names
  import opened Description

  /* ------------------------------------------------------------ message lines */

  /** A message as lines, each followed by one LF. */
  function JoinLines(ls: seq<seq<byte>>): seq<byte>
  {
    if ls == [] then [] else ls[0] + [LF] + JoinLines(ls[1..])
  }

  lemma {:induction false} JoinLinesSnoc(ls: seq<seq<byte>>, l: seq<byte>)
    ensures JoinLines(ls + [l]) == JoinLines(ls) + l + [LF]
    decreases |ls|
  {
    if ls == [] {
      assert ls + [l] == [l];
    } else {
      assert (ls + [l])[1..] == ls[1..] + [l];
      JoinLinesSnoc(ls[1..], l);
    }
  }

  /** A line the parser keeps as message text: no LF, no leading `#`, no trailing
      whitespace, and not the sentinel. */
  predicate MessageLine(l: seq<byte>) {
    && LF !in l
    && (l != [] ==> l[0] != HASH)
    && WhitespaceSuffix(l) == 0
    && l != SENTINEL
  }

  /** Blank lines are never adjacent. */
  predicate NoBlankRun(ls: seq<seq<byte>>) {
    forall j :: 0 < j < |ls| && ls[j] == [] ==> ls[j - 1] != []
  }

  /** The shape of every message the parser produces: message lines, no blank run,
      no blank first or last line. */
  predicate ParsedLines(ls: seq<seq<byte>>) {
    && (forall j :: 0 <= j < |ls| ==> MessageLine(ls[j]))
    && NoBlankRun(ls)
    && (ls != [] ==> ls[0] != [] && ls[|ls| - 1] != [])
  }

  /** A message that survives a write-then-parse unchanged: parsed shape, valid UTF-8. */
  predicate NormalLines(ls: seq<seq<byte>>) {
    ParsedLines(ls) && forall j :: 0 <= j < |ls| ==> ValidUtf8(ls[j])
  }

  /* ------------------------------------------------------------ single lines */

  lemma Utf8Line(l: seq<byte>)
    requires ValidUtf8(l)
    ensures ValidUtf8(l + [LF])
  {
    AsciiIsUtf8([LF]);
    Utf8Concat(l, [LF]);
  }

  lemma SplitLine(l: seq<byte>, rest: seq<byte>)
    requires LF !in l
    ensures var s := l + [LF] + rest;
      LineLen(s) == |l| + 1 && s[..|l| + 1] == l + [LF] && s[|l| + 1..] == rest
  {
    LineLenOfLine(l, rest);
    var s := l + [LF] + rest;
    assert s[..|l| + 1] == l + [LF];
    assert s[|l| + 1..] == rest;
  }

  /** A line that is neither a comment nor the sentinel is one `Step` at its absolute index. */
  lemma ScanLine(l: seq<byte>, rest: seq<byte>, k: nat, st: ScanState)
    requires LF !in l && (l != [] ==> l[0] != HASH)
    requires ValidUtf8(l) && TrimEnd(l) != SENTINEL
    ensures Scan(l + [LF] + rest, k, st) == Scan(rest, k + 1, Step(st, k, TrimEnd(l)))
  {
    SplitLine(l, rest);
    Utf8Line(l);
    TrimEndLF(l);
  }

  /** `ScanLine` with the new state named. */
  lemma ScanLineTo(l: seq<byte>, rest: seq<byte>, k: nat, k': nat, st: ScanState, st': ScanState)
    requires LF !in l && (l != [] ==> l[0] != HASH)
    requires ValidUtf8(l) && TrimEnd(l) != SENTINEL
    requires Step(st, k, TrimEnd(l)) == st' && k' == k + 1
    ensures Scan(l + [LF] + rest, k, st) == Scan(rest, k', st')
  {
    ScanLine(l, rest, k, st);
  }

  /** A comment line is skipped before the sentinel, but still counts toward the line index.
      It is skipped before the UTF-8 check, so its bytes may be anything. */
  lemma ScanSkipsComment(c: seq<byte>, rest: seq<byte>, k: nat, st: ScanState)
    requires c != [] && c[0] == HASH && LF !in c
    ensures Scan(c + [LF] + rest, k, st) == Scan(rest, k + 1, st)
  {
    SplitLine(c, rest);
  }

  /** The first line whose right-trimmed form is `---` stops the scan; everything after it
      is the diff region, whatever it holds. */
  lemma ScanStopsAtSentinel(l: seq<byte>, rest: seq<byte>, k: nat, st: ScanState)
    requires LF !in l && (l != [] ==> l[0] != HASH)
    requires ValidUtf8(l) && TrimEnd(l) == SENTINEL
    ensures Scan(l + [LF] + rest, k, st) == Success(Scanned(st, Some(rest)))
  {
    SplitLine(l, rest);
    Utf8Line(l);
    TrimEndLF(l);
  }

  /* ------------------------------------------------------------ blocks of lines */

  /** Lines that each begin with `#` and end with LF. */
  predicate CommentBlock(t: seq<byte>)
    decreases |t|
  {
    t == [] || (t[0] == HASH && t[LineLen(t) - 1] == LF && CommentBlock(t[LineLen(t)..]))
  }

  function LineCount(t: seq<byte>): nat
    decreases |t|
  {
    if t == [] then 0 else 1 + LineCount(t[LineLen(t)..])
  }

  lemma ScanEmptyPrefix(rest: seq<byte>, k: nat, st: ScanState)
    ensures Scan([] + rest, k, st) == Scan(rest, k, st)
  {
    assert [] + rest == rest;
  }

  /** The first line of a nonempty comment block, without its LF, and the block after it. */
  lemma CommentBlockHead(t: seq<byte>, rest: seq<byte>) returns (c: seq<byte>, u: seq<byte>)
    requires t != [] && CommentBlock(t)
    ensures c != [] && c[0] == HASH && LF !in c
    ensures CommentBlock(u) && |u| < |t| && LineCount(t) == 1 + LineCount(u)
    ensures t + rest == c + [LF] + (u + rest)
  {
    var n := LineLen(t);
    c, u := t[..n - 1], t[n..];
    assert t == c + [LF] + u;
  }

  lemma {:induction false} ScanSkipsCommentBlock(t: seq<byte>, rest: seq<byte>, k: nat, k': nat, st: ScanState)
    requires CommentBlock(t) && k' == k + LineCount(t)
    ensures Scan(t + rest, k, st) == Scan(rest, k', st)
    decreases |t|
  {
    if t == [] {
      ScanEmptyPrefix(rest, k, st);
    } else {
      var c, u := CommentBlockHead(t, rest);
      var k1 := k + 1;
      ScanSkipsComment(c, u + rest, k, st);
      ScanSkipsCommentBlock(u, rest, k1, k', st);
    }
  }

  /** The message state after one message line in message mode. */
  function AfterLine(st: ScanState, l: seq<byte>): ScanState {
    st.(message := st.message + l + [LF], consecutiveEmpty := if l == [] then 1 else 0)
  }

  /** The message state after `ls` has been appended in message mode. */
  function AfterLines(st: ScanState, ls: seq<seq<byte>>): ScanState
  {
    st.(message := st.message + JoinLines(ls),
        consecutiveEmpty := if ls == [] then st.consecutiveEmpty else if ls[|ls| - 1] == [] then 1 else 0)
  }

  lemma AfterLinesCons(st: ScanState, ls: seq<seq<byte>>)
    requires ls != []
    ensures AfterLines(AfterLine(st, ls[0]), ls[1..]) == AfterLines(st, ls)
  {
    assert st.message + ls[0] + [LF] + JoinLines(ls[1..]) == st.message + JoinLines(ls);
  }

  lemma JoinLinesAppend(ls: seq<seq<byte>>, rest: seq<byte>)
    requires ls != []
    ensures JoinLines(ls) + rest == ls[0] + [LF] + (JoinLines(ls[1..]) + rest)
  {
  }

  lemma NoBlankRunTail(ls: seq<seq<byte>>)
    requires ls != [] && NoBlankRun(ls)
    ensures NoBlankRun(ls[1..])
  {
    var tail := ls[1..];
    forall j | 0 < j < |tail| && tail[j] == [] ensures tail[j - 1] != [] {
      assert ls[j + 1] == [];
    }
  }

  /** One message line in message mode: appended with its LF. */
  lemma ScanMessageLine(l: seq<byte>, rest: seq<byte>, k: nat, st: ScanState)
    requires st.consumingMessage && MessageLine(l) && ValidUtf8(l)
    requires l == [] ==> st.consecutiveEmpty == 0
    ensures Scan(l + [LF] + rest, k, st) == Scan(rest, k + 1, AfterLine(st, l))
  {
    assert TrimEnd(l) == l;
    ScanLine(l, rest, k, st);
    if l == [] {
      assert st.message + l + [LF] == st.message + [LF];
    }
  }

  /** In message mode, message lines are copied through with their LF, provided no
      blank line follows another blank one (or a pending blank run). */
  lemma {:induction false} ScanMessageLines(ls: seq<seq<byte>>, rest: seq<byte>, k: nat, k': nat, st: ScanState)
    requires st.consumingMessage && k' == k + |ls|
    requires forall j :: 0 <= j < |ls| ==> MessageLine(ls[j]) && ValidUtf8(ls[j])
    requires NoBlankRun(ls)
    requires ls != [] && ls[0] == [] ==> st.consecutiveEmpty == 0
    ensures Scan(JoinLines(ls) + rest, k, st) == Scan(rest, k', AfterLines(st, ls))
    decreases |ls|
  {
    if ls == [] {
      assert JoinLines(ls) == [] && AfterLines(st, ls) == st && k' == k;
      ScanEmptyPrefix(rest, k, st);
    } else {
      var l, tail := ls[0], ls[1..];
      JoinLinesAppend(ls, rest);
      ScanMessageLine(l, JoinLines(tail) + rest, k, st);
      NoBlankRunTail(ls);
      assert tail != [] && tail[0] == [] ==> l != [];
      ScanMessageLines(tail, rest, k + 1, k', AfterLine(st, l));
      AfterLinesCons(st, ls);
    }
  }

  /* ------------------------------------------------------------ header lines */

  predicate IsAscii(s: seq<byte>) {
    forall i :: 0 <= i < |s| ==> s[i] < 0x80
  }

  /** A value `write` can put after a header key and read back unchanged. */
  predicate HeaderValue(v: seq<byte>) {
    LF !in v && ValidUtf8(v) && WhitespacePrefix(v) == 0 && WhitespaceSuffix(v) == 0
  }

  predicate AllSpaces(pad: seq<byte>) {
    forall i :: 0 <= i < |pad| ==> pad[i] == SPACE
  }

  lemma {:induction false} TrimStartSpaces(pad: seq<byte>, v: seq<byte>)
    requires AllSpaces(pad)
    ensures TrimStart(pad + v) == TrimStart(v)
    decreases |pad|
  {
    if pad == [] {
      assert pad + v == v;
    } else {
      assert pad + v == [SPACE] + (pad[1..] + v);
      TrimStartSpace(pad[1..] + v);
      TrimStartSpaces(pad[1..], v);
    }
  }

  lemma SplitOnceAt(a: seq<byte>, sep: byte, b: seq<byte>)
    requires sep !in a
    ensures SplitOnce(a + [sep] + b, sep) == Some((a, b))
  {
    IndexOfAfter(a, sep, b);
    var s := a + [sep] + b;
    assert s[..|a|] == a && s[|a| + 1..] == b;
  }

  /** A line ending in an ASCII byte that is not whitespace has no trailing whitespace:
      the last byte of every multi-byte whitespace encoding is at least 0x80. */
  lemma NoWhitespaceSuffix(s: seq<byte>)
    requires s != [] && s[|s| - 1] < 0x80 && !IsWhitespace1(s[|s| - 1])
    ensures WhitespaceSuffix(s) == 0
  {
  }

  lemma AsciiConcat(a: seq<byte>, b: seq<byte>)
    requires IsAscii(a) && IsAscii(b)
    ensures IsAscii(a + b)
  {
    forall i | 0 <= i < |a + b| ensures (a + b)[i] < 0x80 {
      if i >= |a| { assert (a + b)[i] == b[i - |a|]; }
    }
  }

  lemma SpacesShape(pad: seq<byte>)
    requires AllSpaces(pad)
    ensures IsAscii(pad) && LF !in pad
  {
    forall i | 0 <= i < |pad| ensures pad[i] < 0x80 && pad[i] != LF {
      assert pad[i] == SPACE;
    }
  }

  /** A `key: value` line splits at the colon after the key. */
  lemma HeaderLineSplit(key: seq<byte>, pad: seq<byte>, v: seq<byte>)
    requires COLON !in key && AllSpaces(pad)
    ensures SplitOnce(key + [COLON] + pad + v, COLON) == Some((key, pad + v))
    ensures Trim(pad + v) == TrimEnd(TrimStart(v))
  {
    assert key + [COLON] + pad + v == key + [COLON] + (pad + v);
    SplitOnceAt(key, COLON, pad + v);
    TrimStartSpaces(pad, v);
  }

  lemma HeaderLineBytes(key: seq<byte>, pad: seq<byte>, v: seq<byte>)
    requires LF !in key && IsAscii(key) && AllSpaces(pad)
    requires LF !in v && ValidUtf8(v)
    ensures LF !in key + [COLON] + pad + v && ValidUtf8(key + [COLON] + pad + v)
  {
    SpacesShape(pad);
    AsciiConcat(key, [COLON]);
    AsciiConcat(key + [COLON], pad);
    AsciiIsUtf8(key + [COLON] + pad);
    Utf8Concat(key + [COLON] + pad, v);
  }

  lemma HeaderLineTrimmed(key: seq<byte>, pad: seq<byte>, v: seq<byte>)
    requires pad != [] && AllSpaces(pad)
    requires v != [] && WhitespaceSuffix(v) == 0
    ensures TrimEnd(key + [COLON] + pad + v) == key + [COLON] + pad + v
  {
    var head := key + [COLON] + pad;
    assert head[|head| - 1] == SPACE;
    WhitespaceSuffixAfterAscii(head, v);
  }

  /** The keys `write` emits. */
  predicate HeaderKey(key: seq<byte>) {
    key != [] && key[0] != HASH && COLON !in key && LF !in key && IsAscii(key)
  }

  lemma HeaderKeys()
    ensures HeaderKey(PATCH_KEY) && HeaderKey(AUTHOR_KEY) && HeaderKey(DATE_KEY)
  {
  }

  /** A `key: value` line is read as one line, not a comment and not the sentinel,
      which `Step` splits at the colon after the key. */
  lemma HeaderLineShape(key: seq<byte>, pad: seq<byte>, v: seq<byte>)
    requires HeaderKey(key) && pad != [] && AllSpaces(pad)
    requires v != [] && LF !in v && ValidUtf8(v) && WhitespaceSuffix(v) == 0
    ensures var line := key + [COLON] + pad + v;
      && LF !in line && line[0] != HASH && ValidUtf8(line)
      && TrimEnd(line) == line && line != SENTINEL
      && SplitOnce(line, COLON) == Some((key, pad + v))
      && Trim(pad + v) == TrimEnd(TrimStart(v))
  {
    HeaderLineSplit(key, pad, v);
    HeaderLineBytes(key, pad, v);
    HeaderLineTrimmed(key, pad, v);
    var line := key + [COLON] + pad + v;
    assert line[0] == key[0] && |line| > 3;
  }
}
