/** The behaviours the codec's own tests pin down, stated for all inputs of each
    shape: comment lines still count as lines, an unexpected line ends the headers,
    blank runs collapse, a last line may lack its LF, text before the sentinel must
    be UTF-8 unless it is a comment, and a document that is only a sentinel line aborts the edit. */
module DescriptionCases {
  import opened Wrappers
  import opened Bytes
  import opened Names
  import opened Description
  import opened DescriptionScan
  import opened DescriptionRoundTrip

  /** Commenting out the `Patch:` line leaves no name, yet the `Author:` line, now the
      second line, is still read as the author header. */
  lemma CommentedPatchLine(c: seq<byte>, a: Signature, rest: seq<byte>)
    requires c != [] && c[0] == HASH && LF !in c
    requires LF !in a.name && ValidUtf8(a.name) && LF !in a.email && ValidUtf8(a.email)
    ensures Scan(c + [LF] + (AUTHOR_PREFIX + AuthorValue(a) + [LF] + rest), 0, INITIAL)
         == Scan(rest, 2, INITIAL.(rawAuthor := Some(Trim(AuthorValue(a)))))
  {
    var r := AUTHOR_PREFIX + AuthorValue(a) + [LF] + rest;
    var k: nat := 0;
    ScanSkipsComment(c, r, k, INITIAL);
    assert k + 1 == 1;
    ScanAuthorLine(a, rest, INITIAL);
  }

  /** A line after `Patch:` that is not the `Author:` header starts the message; from
      then on every line, header-shaped or not, is message text. */
  lemma UnexpectedLineStartsMessage(x: seq<byte>, rest: seq<byte>, st: ScanState)
    requires !st.consumingMessage && st.message == []
    requires x != [] && MessageLine(x) && ValidUtf8(x)
    requires SplitOnce(x, COLON).None? || SplitOnce(x, COLON).value.0 != AUTHOR_KEY
    ensures Scan(x + [LF] + rest, 1, st)
         == Scan(rest, 2, st.(message := x + [LF], consumingMessage := true))
  {
    assert TrimEnd(x) == x;
    ScanLineTo(x, rest, 1, 2, st, st.(message := x + [LF], consumingMessage := true));
  }

  /** A line of whitespace only. */
  predicate BlankLine(b: seq<byte>) {
    LF !in b && ValidUtf8(b) && TrimEnd(b) == [] && (b != [] ==> b[0] != HASH)
  }

  predicate BlankLines(bs: seq<seq<byte>>) {
    forall j :: 0 <= j < |bs| ==> BlankLine(bs[j])
  }

  /** The state after `n` blank lines in message mode: one LF for the whole run,
      and none when a run is already pending. */
  function AfterBlanks(st: ScanState, n: nat): ScanState {
    if n == 0 then st
    else st.(message := if st.consecutiveEmpty == 0 then st.message + [LF] else st.message,
             consecutiveEmpty := st.consecutiveEmpty + n)
  }

  /** One whitespace-only line in message mode. */
  lemma ScanWhitespaceLine(b: seq<byte>, rest: seq<byte>, k: nat, k': nat, st: ScanState)
    requires st.consumingMessage && BlankLine(b) && k' == k + 1
    ensures Scan(b + [LF] + rest, k, st) == Scan(rest, k', Blank(st))
  {
    ScanLineTo(b, rest, k, k', st, Blank(st));
  }

  lemma BlankLinesTail(bs: seq<seq<byte>>)
    requires bs != [] && BlankLines(bs)
    ensures BlankLine(bs[0]) && BlankLines(bs[1..])
  {
    forall j | 0 <= j < |bs[1..]| ensures BlankLine(bs[1..][j]) {
      assert bs[1..][j] == bs[j + 1];
    }
  }

  lemma AfterBlanksCons(st: ScanState, n: nat)
    requires n > 0
    ensures AfterBlanks(Blank(st), n - 1) == AfterBlanks(st, n)
  {
  }

  /** However long a run of whitespace-only lines in the message, it leaves a single
      LF, and it never adds one when a run is already pending. */
  lemma {:induction false} ScanBlankRun(bs: seq<seq<byte>>, rest: seq<byte>, k: nat, k': nat, st: ScanState)
    requires st.consumingMessage && BlankLines(bs) && k' == k + |bs|
    ensures Scan(JoinLines(bs) + rest, k, st) == Scan(rest, k', AfterBlanks(st, |bs|))
    decreases |bs|
  {
    if bs == [] {
      assert JoinLines(bs) == [] && k' == k;
      ScanEmptyPrefix(rest, k, st);
    } else {
      var b, tail := bs[0], bs[1..];
      BlankLinesTail(bs);
      JoinLinesAppend(bs, rest);
      ScanWhitespaceLine(b, JoinLines(tail) + rest, k, k + 1, st);
      ScanBlankRun(tail, rest, k + 1, k', Blank(st));
      AfterBlanksCons(st, |bs|);
    }
  }

  /** A last line without its LF is read like one with it. */
  lemma ScanLastLine(l: seq<byte>, k: nat, st: ScanState)
    requires l != [] && LF !in l && l[0] != HASH
    requires ValidUtf8(l) && TrimEnd(l) != SENTINEL
    ensures Scan(l, k, st) == Success(Scanned(Step(st, k, TrimEnd(l)), None))
  {
    LineLenOfLast(l);
    assert l[..|l|] == l && l[|l|..] == [];
  }

  /** Text before the sentinel that is not a comment must be UTF-8. */
  lemma ScanRejectsNonUtf8(l: seq<byte>, rest: seq<byte>, k: nat, st: ScanState)
    requires LF !in l && (l != [] ==> l[0] != HASH) && !ValidUtf8(l)
    ensures Scan(l + [LF] + rest, k, st) == Failure(NonUtf8PatchDescription)
  {
    SplitLine(l, rest);
    LineOfValidIsValid(l);
  }

  lemma LineOfValidIsValid(l: seq<byte>)
    ensures ValidUtf8(l + [LF]) ==> ValidUtf8(l)
  {
    if ValidUtf8(l + [LF]) {
      Utf8PrefixAtBoundary(l + [LF], |l|);
      assert (l + [LF])[..|l|] == l;
    }
  }

  /** A document whose first line that is not a comment is not UTF-8 fails to parse
      with the non-UTF-8 error, whether that line ends in LF and more follows or is the last. */
  lemma ParseRejectsNonUtf8(comments: seq<byte>, l: seq<byte>, rest: Option<seq<byte>>, env: Collaborators, now: Time)
    requires CommentBlock(comments)
    requires LF !in l && (l != [] ==> l[0] != HASH) && !ValidUtf8(l)
    ensures Parse(comments + (if rest.Some? then l + [LF] + rest.value else l), env, now)
         == Failure(NonUtf8PatchDescription)
  {
    var doc := if rest.Some? then l + [LF] + rest.value else l;
    var k' := LineCount(comments);
    ScanSkipsCommentBlock(comments, doc, 0, k', INITIAL);
    if rest.Some? {
      ScanRejectsNonUtf8(l, rest.value, k', INITIAL);
    } else {
      LastLineRejected(l, k');
    }
  }

  /** A last line without LF that is not UTF-8 fails the scan. */
  lemma LastLineRejected(l: seq<byte>, k: nat)
    requires LF !in l && (l != [] ==> l[0] != HASH) && !ValidUtf8(l)
    ensures Scan(l, k, INITIAL) == Failure(NonUtf8PatchDescription)
  {
    assert l != [];
    LineLenOfLast(l);
    assert l[..|l|] == l;
  }

  /** Trimming ignores the last of a run of trailing spaces. */
  lemma TrailingSpace(v: seq<byte>, pad: seq<byte>)
    requires pad != [] && AllSpaces(pad)
    ensures AllSpaces(pad[..|pad| - 1])
    ensures TrimEnd(v + pad) == TrimEnd(v + pad[..|pad| - 1])
  {
    var s := v + pad;
    assert s[|s| - 1] == pad[|pad| - 1];
    assert s[..|s| - 1] == v + pad[..|pad| - 1];
    TrimEndSkipsLast(s);
  }

  lemma {:induction false} TrimEndSpaces(v: seq<byte>, pad: seq<byte>)
    requires WhitespaceSuffix(v) == 0 && AllSpaces(pad)
    ensures TrimEnd(v + pad) == v
    decreases |pad|
  {
    if pad == [] {
      assert v + pad == v;
    } else {
      TrailingSpace(v, pad);
      TrimEndSpaces(v, pad[..|pad| - 1]);
    }
  }

  /** A document whose first line right-trims to `---` aborts the edit, whatever follows. */
  lemma SentinelFirstAborts(buf: seq<byte>, env: Collaborators, now: Time)
    requires buf != [] && buf[0] != HASH
    requires ValidUtf8(buf[..LineLen(buf)]) && TrimEnd(buf[..LineLen(buf)]) == SENTINEL
    ensures Parse(buf, env, now) == Failure(EmptyDescription)
  {
  }

  /** A sentinel padded with spaces, alone or followed by anything, aborts the edit. */
  lemma PaddedSentinelAborts(pad: seq<byte>, rest: Option<seq<byte>>, env: Collaborators, now: Time)
    requires AllSpaces(pad)
    ensures var l := SENTINEL + pad;
      Parse(if rest.Some? then l + [LF] + rest.value else l, env, now) == Failure(EmptyDescription)
  {
    var l := PaddedSentinelLine(pad);
    if rest.Some? {
      ScanStopsAtSentinel(l, rest.value, 0, INITIAL);
    } else {
      LineLenOfLast(l);
      assert l[..|l|] == l;
      SentinelFirstAborts(l, env, now);
    }
    assert Abandoned(INITIAL);
  }

  /** A sentinel padded with spaces is one UTF-8 line that right-trims to the sentinel. */
  lemma PaddedSentinelLine(pad: seq<byte>) returns (l: seq<byte>)
    requires AllSpaces(pad)
    ensures l == SENTINEL + pad
    ensures l != [] && l[0] != HASH && LF !in l && ValidUtf8(l) && TrimEnd(l) == SENTINEL
  {
    l := SENTINEL + pad;
    AsciiConcat(SENTINEL, pad);
    AsciiIsUtf8(l);
    TrimEndSpaces(SENTINEL, pad);
    assert l[0] == 0x2D;
  }

  /** The documents of the codec's empty-diff test: each is a sentinel with at most
      trailing blanks, and each aborts the edit. */
  lemma EmptyDiffDocumentsAbort(doc: seq<byte>, env: Collaborators, now: Time)
    requires || doc == [0x2D, 0x2D, 0x2D]
             || doc == [0x2D, 0x2D, 0x2D, LF]
             || doc == [0x2D, 0x2D, 0x2D, SPACE, SPACE, SPACE, SPACE]
             || doc == [0x2D, 0x2D, 0x2D, SPACE, SPACE, LF]
             || doc == [0x2D, 0x2D, 0x2D, LF, SPACE, SPACE, LF]
    ensures Parse(doc, env, now) == Failure(EmptyDescription)
  {
    var pad: seq<byte>, rest: Option<seq<byte>>;
    if doc == [0x2D, 0x2D, 0x2D] {
      pad, rest := [], None;
    } else if doc == [0x2D, 0x2D, 0x2D, LF] {
      pad, rest := [], Some([]);
    } else if doc == [0x2D, 0x2D, 0x2D, SPACE, SPACE, SPACE, SPACE] {
      pad, rest := [SPACE, SPACE, SPACE, SPACE], None;
    } else if doc == [0x2D, 0x2D, 0x2D, SPACE, SPACE, LF] {
      pad, rest := [SPACE, SPACE], Some([]);
    } else {
      pad, rest := [], Some([SPACE, SPACE, LF]);
    }
    assert doc == if rest.Some? then SENTINEL + pad + [LF] + rest.value else SENTINEL + pad;
    PaddedSentinelAborts(pad, rest, env, now);
  }

  /* ------------------------------------------------ a description with no author */

  /** A header line with an empty value, `Author: ` or `Date:   `, is still a header:
      it right-trims to `key:` and its value is empty. */
  lemma EmptyHeaderLineShape(key: seq<byte>, pad: seq<byte>)
    requires HeaderKey(key) && AllSpaces(pad)
    ensures var line := key + [COLON] + pad;
      && LF !in line && line[0] != HASH && ValidUtf8(line)
      && TrimEnd(line) == key + [COLON] && TrimEnd(line) != SENTINEL
      && SplitOnce(TrimEnd(line), COLON) == Some((key, []))
  {
    var head := key + [COLON];
    SpacesShape(pad);
    AsciiConcat(key, [COLON]);
    AsciiConcat(head, pad);
    AsciiIsUtf8(head + pad);
    NoWhitespaceSuffix(head);
    TrimEndSpaces(head, pad);
    assert head[|head| - 1] == COLON;
    SplitOnceAt(key, COLON, []);
    assert head + [] == head;
    assert (head + pad)[0] == key[0];
  }

  /** A header line with an empty value is scanned as one step on `key:`. */
  lemma ScanEmptyHeaderLine(key: seq<byte>, pad: seq<byte>, rest: seq<byte>, k: nat, k': nat,
                            st: ScanState, st': ScanState)
    requires HeaderKey(key) && AllSpaces(pad) && k' == k + 1
    requires Step(st, k, key + [COLON]) == st'
    ensures Scan(key + [COLON] + pad + [LF] + rest, k, st) == Scan(rest, k', st')
  {
    EmptyHeaderLineShape(key, pad);
    ScanLineTo(key + [COLON] + pad, rest, k, k', st, st');
  }

  /** `Step` on `key:` records an empty value. */
  lemma EmptyHeaderStep(key: seq<byte>)
    requires HeaderKey(key)
    ensures SplitOnce(key + [COLON], COLON) == Some((key, [])) && Trim([]) == []
  {
    SplitOnceAt(key, COLON, []);
    assert key + [COLON] + [] == key + [COLON];
  }

  lemma ScanEmptyAuthorLine(rest: seq<byte>, st: ScanState)
    requires !st.consumingMessage
    ensures Scan(AUTHOR_PREFIX + [LF] + rest, 1, st) == Scan(rest, 2, st.(rawAuthor := Some([])))
  {
    HeaderKeys();
    EmptyHeaderStep(AUTHOR_KEY);
    assert AUTHOR_KEY + [COLON] + [SPACE] == AUTHOR_PREFIX;
    ScanEmptyHeaderLine(AUTHOR_KEY, [SPACE], rest, 1, 2, st, st.(rawAuthor := Some([])));
  }

  lemma ScanEmptyDateLine(rest: seq<byte>, st: ScanState)
    requires !st.consumingMessage
    ensures Scan(DATE_PREFIX + [LF] + rest, 2, st) == Scan(rest, 3, st.(rawAuthdate := Some([])))
  {
    HeaderKeys();
    EmptyHeaderStep(DATE_KEY);
    assert DATE_KEY + [COLON] + [SPACE, SPACE, SPACE] == DATE_PREFIX;
    ScanEmptyHeaderLine(DATE_KEY, [SPACE, SPACE, SPACE], rest, 2, 3, st, st.(rawAuthdate := Some([])));
  }

  /** The scan state after the headers of a description with no author: both the
      author and the date were seen, with empty values. */
  function AuthorlessState(pd: PatchDescription): ScanState {
    INITIAL.(rawPatchname := Some(PatchnameText(pd.patchname)), rawAuthor := Some([]), rawAuthdate := Some([]))
  }

  lemma ScanAuthorlessHeaders(pd: PatchDescription, env: Collaborators, rest: seq<byte>)
    requires pd.author.None? && ReadableName(pd.patchname, env)
    ensures Scan(HeaderLines(pd, env) + rest, 0, INITIAL) == Scan(rest, 3, AuthorlessState(pd))
  {
    var p := PatchnameText(pd.patchname);
    var r2 := DATE_PREFIX + [LF] + rest;
    var r1 := AUTHOR_PREFIX + [LF] + r2;
    assert HeaderLines(pd, env) + rest == PATCH_PREFIX + p + [LF] + r1;
    var s1 := INITIAL.(rawPatchname := Some(p));
    ScanPatchLine(p, r1, INITIAL);
    ScanEmptyAuthorLine(r2, s1);
    ScanEmptyDateLine(rest, s1.(rawAuthor := Some([])));
  }

  /** `write` renders a missing author as an empty `Author:` header, and `try_from`
      hands that empty value to `parse_name_email`: a description with no author does
      not read back as one with no author. Where the empty value is not a name and
      email, the document fails to parse. */
  lemma AuthorlessWriteIsRejected(pd: PatchDescription, ls: seq<seq<byte>>, env: Collaborators, now: Time)
    requires pd.author.None? && ReadableName(pd.patchname, env)
    requires pd.instruction.None? || CommentBlock(pd.instruction.value)
    requires pd.diffInstruction.None? || CommentBlock(pd.diffInstruction.value)
    requires pd.message == JoinLines(ls) && NormalLines(ls)
    requires env.parseNameEmail([]).None?
    ensures Parse(Write(pd, env), env, now) == Failure(InvalidNameEmail([]))
  {
    var st := ScanAuthorlessWrite(pd, ls, env);
    ReadNameBack(pd.patchname, env);
  }

  /** The scan of an author-less document ends with a name and an empty raw author. */
  lemma ScanAuthorlessWrite(pd: PatchDescription, ls: seq<seq<byte>>, env: Collaborators) returns (st: ScanState)
    requires pd.author.None? && ReadableName(pd.patchname, env)
    requires pd.instruction.None? || CommentBlock(pd.instruction.value)
    requires pd.diffInstruction.None? || CommentBlock(pd.diffInstruction.value)
    requires pd.message == JoinLines(ls) && NormalLines(ls)
    ensures Scan(Write(pd, env), 0, INITIAL) == Success(Scanned(st, Region(pd)))
    ensures st.rawPatchname == Some(PatchnameText(pd.patchname)) && st.rawAuthor == Some([])
  {
    var tail := InstrPart(pd) + DiffSection(pd);
    var body := StripTrailingNewlines(pd.message) + [LF] + tail;
    WriteLayout(pd, env);
    var hs := AuthorlessState(pd);
    ScanAuthorlessHeaders(pd, env, [LF] + body);
    ScanOpeningBlank(body, hs);
    var k := 4 + (if ls == [] then 1 else |ls|);
    ScanMessageBody(ls, tail, 4, k, Opened(hs));
    ScanTail(pd, k, BodyState(Opened(hs), ls));
    st := Blank(BodyState(Opened(hs), ls));
  }

  /** Whatever the collaborators, a written description with no author never parses
      as one with no author: either the parse fails or it finds an author. */
  lemma AuthorlessWriteGainsAuthor(pd: PatchDescription, ls: seq<seq<byte>>, env: Collaborators, now: Time)
    requires pd.author.None? && ReadableName(pd.patchname, env)
    requires pd.instruction.None? || CommentBlock(pd.instruction.value)
    requires pd.diffInstruction.None? || CommentBlock(pd.diffInstruction.value)
    requires pd.message == JoinLines(ls) && NormalLines(ls)
    ensures Parse(Write(pd, env), env, now).Success? ==> Parse(Write(pd, env), env, now).value.author.Some?
  {
    var st := ScanAuthorlessWrite(pd, ls, env);
    assert !Abandoned(st);
  }
}
