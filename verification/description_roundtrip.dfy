/** Writing a description and parsing the document back yields the description
    again, less its instruction texts, when the collaborators agree with each
    other and the message is in the normal form the parser produces. */
module DescriptionRoundTrip {
  import opened Wrappers
  import opened Bytes
  import opened Names
  import opened Description
  import opened DescriptionScan

  /* ------------------------------------------------------------ headers */

  /** The `Patch:` line: an empty name leaves `Patch:` after trimming. */
  lemma PatchLineShape(p: seq<byte>, st: ScanState)
    requires !st.consumingMessage && HeaderValue(p)
    ensures var line := PATCH_PREFIX + p;
      && LF !in line && line[0] != HASH && ValidUtf8(line) && TrimEnd(line) != SENTINEL
      && Step(st, 0, TrimEnd(line)) == st.(rawPatchname := Some(p))
  {
    if p == [] {
      assert PATCH_PREFIX + p == PATCH_PREFIX;
      EmptyPatchLineShape(st);
    } else {
      HeaderKeys();
      assert PATCH_PREFIX + p == PATCH_KEY + [COLON] + [SPACE, SPACE] + p;
      HeaderLineShape(PATCH_KEY, [SPACE, SPACE], p);
    }
  }

  /** The `Patch:` line of a description without a name. */
  lemma EmptyPatchLineShape(st: ScanState)
    requires !st.consumingMessage
    ensures && LF !in PATCH_PREFIX && PATCH_PREFIX[0] != HASH && ValidUtf8(PATCH_PREFIX)
            && TrimEnd(PATCH_PREFIX) == PATCH_KEY + [COLON]
            && Step(st, 0, PATCH_KEY + [COLON]) == st.(rawPatchname := Some([]))
  {
    HeaderKeys();
    assert IsAscii(PATCH_PREFIX) && LF !in PATCH_PREFIX;
    AsciiIsUtf8(PATCH_PREFIX);
    assert TrimEnd(PATCH_PREFIX) == PATCH_KEY + [COLON] + [];
    SplitOnceAt(PATCH_KEY, COLON, []);
    assert Trim([]) == [];
  }

  lemma ScanPatchLine(p: seq<byte>, rest: seq<byte>, st: ScanState)
    requires !st.consumingMessage && HeaderValue(p)
    ensures Scan(PATCH_PREFIX + p + [LF] + rest, 0, st) == Scan(rest, 1, st.(rawPatchname := Some(p)))
  {
    PatchLineShape(p, st);
    ScanLineTo(PATCH_PREFIX + p, rest, 0, 1, st, st.(rawPatchname := Some(p)));
  }

  /** The `Author:` value is one line of UTF-8 ending in `>`. */
  lemma AuthorValueShape(a: Signature)
    requires LF !in a.name && ValidUtf8(a.name) && LF !in a.email && ValidUtf8(a.email)
    ensures var v := AuthorValue(a);
      v != [] && LF !in v && ValidUtf8(v) && WhitespaceSuffix(v) == 0
  {
    AuthorValueUtf8(a);
    var v := AuthorValue(a);
    assert v[|v| - 1] == 0x3E;
    NoWhitespaceSuffix(v);
  }

  lemma AuthorValueUtf8(a: Signature)
    requires LF !in a.name && ValidUtf8(a.name) && LF !in a.email && ValidUtf8(a.email)
    ensures LF !in AuthorValue(a) && ValidUtf8(AuthorValue(a))
  {
    AsciiIsUtf8(EMAIL_OPEN);
    AsciiIsUtf8(EMAIL_CLOSE);
    Utf8Concat(a.name, EMAIL_OPEN);
    Utf8Concat(a.name + EMAIL_OPEN, a.email);
    Utf8Concat(a.name + EMAIL_OPEN + a.email, EMAIL_CLOSE);
  }

  lemma AuthorLineShape(a: Signature, st: ScanState)
    requires !st.consumingMessage
    requires LF !in a.name && ValidUtf8(a.name) && LF !in a.email && ValidUtf8(a.email)
    ensures var line := AUTHOR_PREFIX + AuthorValue(a);
      && LF !in line && line[0] != HASH && ValidUtf8(line) && TrimEnd(line) != SENTINEL
      && Step(st, 1, TrimEnd(line)) == st.(rawAuthor := Some(Trim(AuthorValue(a))))
  {
    var v := AuthorValue(a);
    AuthorValueShape(a);
    HeaderKeys();
    assert AUTHOR_PREFIX + v == AUTHOR_KEY + [COLON] + [SPACE] + v;
    HeaderLineShape(AUTHOR_KEY, [SPACE], v);
  }

  lemma ScanAuthorLine(a: Signature, rest: seq<byte>, st: ScanState)
    requires !st.consumingMessage
    requires LF !in a.name && ValidUtf8(a.name) && LF !in a.email && ValidUtf8(a.email)
    ensures Scan(AUTHOR_PREFIX + AuthorValue(a) + [LF] + rest, 1, st)
         == Scan(rest, 2, st.(rawAuthor := Some(Trim(AuthorValue(a)))))
  {
    AuthorLineShape(a, st);
    ScanLineTo(AUTHOR_PREFIX + AuthorValue(a), rest, 1, 2, st, st.(rawAuthor := Some(Trim(AuthorValue(a)))));
  }

  lemma DateLineShape(ds: seq<byte>, st: ScanState)
    requires !st.consumingMessage && ds != [] && HeaderValue(ds)
    ensures var line := DATE_PREFIX + ds;
      && LF !in line && line[0] != HASH && ValidUtf8(line) && TrimEnd(line) != SENTINEL
      && Step(st, 2, TrimEnd(line)) == st.(rawAuthdate := Some(ds))
  {
    HeaderKeys();
    assert DATE_PREFIX + ds == DATE_KEY + [COLON] + [SPACE, SPACE, SPACE] + ds;
    HeaderLineShape(DATE_KEY, [SPACE, SPACE, SPACE], ds);
  }

  lemma ScanDateLine(ds: seq<byte>, rest: seq<byte>, st: ScanState)
    requires !st.consumingMessage && ds != [] && HeaderValue(ds)
    ensures Scan(DATE_PREFIX + ds + [LF] + rest, 2, st) == Scan(rest, 3, st.(rawAuthdate := Some(ds)))
  {
    DateLineShape(ds, st);
    ScanLineTo(DATE_PREFIX + ds, rest, 2, 3, st, st.(rawAuthdate := Some(ds)));
  }

  /** A name `write` can render and `PatchName::from_str` reads back. */
  predicate ReadableName(p: Option<PatchName>, env: Collaborators) {
    match p
    case None => true
    case Some(name) =>
      name.text != [] && HeaderValue(name.text) && env.parsePatchName(name.text) == Some(name)
  }

  /** An author whose `Author:` and `Date:` values read back as the same signature. */
  predicate ReadableAuthor(a: Signature, env: Collaborators) {
    && LF !in a.name && ValidUtf8(a.name) && LF !in a.email && ValidUtf8(a.email)
    && env.formatDate(a.when) != [] && HeaderValue(env.formatDate(a.when))
    && env.parseDate(env.formatDate(a.when)) == Some(a.when)
    && env.parseNameEmail(Trim(AuthorValue(a))).Some?
    && (var (name, email) := env.parseNameEmail(Trim(AuthorValue(a))).value;
        env.newSignature(name, email, a.when) == Some(a))
  }

  /** What the round trip needs of a description and of the collaborators: header
      values that survive trimming, an author (without one `write` leaves `Author:`
      empty, which `parse_name_email` is then asked to read), and instruction texts
      made only of comment lines. */
  predicate Readable(pd: PatchDescription, env: Collaborators) {
    && ReadableName(pd.patchname, env)
    && pd.author.Some? && ReadableAuthor(pd.author.value, env)
    && (pd.instruction.None? || CommentBlock(pd.instruction.value))
    && (pd.diffInstruction.None? || CommentBlock(pd.diffInstruction.value))
    && (pd.diff.None? || !AllAsciiWhitespace(pd.diff.value.bytes))
  }

  /** The scan state after the three header lines of a description with an author. */
  function HeaderState(pd: PatchDescription, env: Collaborators): ScanState
    requires pd.author.Some?
  {
    INITIAL.(rawPatchname := Some(PatchnameText(pd.patchname)),
             rawAuthor := Some(Trim(AuthorValue(pd.author.value))),
             rawAuthdate := Some(env.formatDate(pd.author.value.when)))
  }

  /** What scanning the three header lines needs: values `write` renders as one line each. */
  predicate HeaderSafe(pd: PatchDescription, env: Collaborators) {
    && HeaderValue(PatchnameText(pd.patchname))
    && pd.author.Some?
    && (var a := pd.author.value;
        LF !in a.name && ValidUtf8(a.name) && LF !in a.email && ValidUtf8(a.email)
        && env.formatDate(a.when) != [] && HeaderValue(env.formatDate(a.when)))
  }

  lemma ScanHeaders(pd: PatchDescription, env: Collaborators, rest: seq<byte>)
    requires HeaderSafe(pd, env)
    ensures Scan(HeaderLines(pd, env) + rest, 0, INITIAL) == Scan(rest, 3, HeaderState(pd, env))
  {
    var a := pd.author.value;
    var p := PatchnameText(pd.patchname);
    var ds := env.formatDate(a.when);
    var r1 := AuthoredHeaderLayout(pd, env, rest);
    var s1 := INITIAL.(rawPatchname := Some(p));
    ScanPatchLine(p, r1, INITIAL);
    ScanAuthorAndDate(a, ds, rest, s1);
  }

  /** The header lines of a description with an author, split after the `Patch:` line. */
  lemma AuthoredHeaderLayout(pd: PatchDescription, env: Collaborators, rest: seq<byte>) returns (r1: seq<byte>)
    requires pd.author.Some?
    ensures r1 == AUTHOR_PREFIX + AuthorValue(pd.author.value) + [LF]
                  + (DATE_PREFIX + env.formatDate(pd.author.value.when) + [LF] + rest)
    ensures HeaderLines(pd, env) + rest == PATCH_PREFIX + PatchnameText(pd.patchname) + [LF] + r1
  {
    var a := pd.author.value;
    var r2 := DATE_PREFIX + env.formatDate(a.when) + [LF] + rest;
    r1 := AUTHOR_PREFIX + AuthorValue(a) + [LF] + r2;
    assert HeaderLines(pd, env) + rest == PATCH_PREFIX + PatchnameText(pd.patchname) + [LF] + r1;
  }

  /** The `Author:` and `Date:` lines at indices 1 and 2 record both raw values. */
  lemma ScanAuthorAndDate(a: Signature, ds: seq<byte>, rest: seq<byte>, st: ScanState)
    requires !st.consumingMessage
    requires LF !in a.name && ValidUtf8(a.name) && LF !in a.email && ValidUtf8(a.email)
    requires ds != [] && HeaderValue(ds)
    ensures Scan(AUTHOR_PREFIX + AuthorValue(a) + [LF] + (DATE_PREFIX + ds + [LF] + rest), 1, st)
         == Scan(rest, 3, st.(rawAuthor := Some(Trim(AuthorValue(a))), rawAuthdate := Some(ds)))
  {
    var r2 := DATE_PREFIX + ds + [LF] + rest;
    ScanAuthorLine(a, r2, st);
    ScanDateLine(ds, rest, st.(rawAuthor := Some(Trim(AuthorValue(a)))));
  }

  /* ------------------------------------------------------------ message and tail */

  /** A blank line in message mode: a first blank adds an LF, later ones are dropped. */
  function Blank(st: ScanState): ScanState {
    st.(message := if st.consecutiveEmpty == 0 then st.message + [LF] else st.message,
        consecutiveEmpty := st.consecutiveEmpty + 1)
  }

  /** Message mode begins at the blank line after the headers, which is swallowed. */
  function Opened(st: ScanState): ScanState {
    st.(consecutiveEmpty := st.consecutiveEmpty + 1, consumingMessage := true)
  }

  lemma ScanBlankLine(rest: seq<byte>, k: nat, k': nat, st: ScanState)
    requires st.consumingMessage && k' == k + 1
    ensures Scan([LF] + rest, k, st) == Scan(rest, k', Blank(st))
  {
    assert [] + [LF] + rest == [LF] + rest;
    ScanLineTo([], rest, k, k', st, Blank(st));
  }

  lemma ScanOpeningBlank(rest: seq<byte>, st: ScanState)
    requires !st.consumingMessage
    ensures Scan([LF] + rest, 3, st) == Scan(rest, 4, Opened(st))
  {
    assert [] + [LF] + rest == [LF] + rest;
    ScanLineTo([], rest, 3, 4, st, Opened(st));
  }

  /** `write` strips the message's trailing LFs and adds one back: a message in
      normal form comes out as it went in, an empty one as a blank line. */
  lemma StripOneNewline(m: seq<byte>)
    requires |m| >= 2 && m[|m| - 1] == LF && m[|m| - 2] != LF
    ensures StripTrailingNewlines(m) + [LF] == m
  {
    var r := StripTrailingNewlines(m);
    assert |r| == |m| - 1;
  }

  /** A joined message ends with its last line and an LF. */
  lemma JoinLinesEnd(ls: seq<seq<byte>>)
    requires ls != [] && ls[|ls| - 1] != []
    ensures var m, last := JoinLines(ls), ls[|ls| - 1];
      |m| >= 2 && m[|m| - 1] == LF && m[|m| - 2] == last[|last| - 1]
  {
    var last := ls[|ls| - 1];
    assert ls == ls[..|ls| - 1] + [last];
    JoinLinesSnoc(ls[..|ls| - 1], last);
  }

  lemma StripJoinLines(ls: seq<seq<byte>>)
    requires ls != [] ==> LF !in ls[|ls| - 1] && ls[|ls| - 1] != []
    ensures StripTrailingNewlines(JoinLines(ls)) + [LF] == if ls == [] then [LF] else JoinLines(ls)
  {
    if ls != [] {
      JoinLinesEnd(ls);
      StripOneNewline(JoinLines(ls));
    }
  }

  function BodyState(st: ScanState, ls: seq<seq<byte>>): ScanState {
    if ls == [] then Blank(st) else AfterLines(st, ls)
  }

  lemma ScanMessageBody(ls: seq<seq<byte>>, rest: seq<byte>, k: nat, k': nat, st: ScanState)
    requires st.consumingMessage && st.consecutiveEmpty == 1 && NormalLines(ls)
    requires k' == k + (if ls == [] then 1 else |ls|)
    ensures Scan(StripTrailingNewlines(JoinLines(ls)) + [LF] + rest, k, st) == Scan(rest, k', BodyState(st, ls))
  {
    StripJoinLines(ls);
    if ls == [] {
      ScanBlankLine(rest, k, k', st);
    } else {
      ScanMessageLines(ls, rest, k, k', st);
    }
  }

  /** The instruction part of `MessageSection`: a blank line, then the instruction. */
  function InstrPart(pd: PatchDescription): seq<byte> {
    match pd.instruction
    case Some(i) => [LF] + i
    case None => [LF]
  }

  /** The diff region the scan stops with. */
  function Region(pd: PatchDescription): Option<seq<byte>> {
    if pd.diff.Some? then Some(pd.diff.value.bytes) else None
  }

  lemma SentinelShape()
    ensures LF !in SENTINEL && SENTINEL[0] != HASH && ValidUtf8(SENTINEL) && TrimEnd(SENTINEL) == SENTINEL
  {
    AsciiIsUtf8(SENTINEL);
    assert WhitespaceSuffix(SENTINEL) == 0;
  }

  lemma ScanDiffSection(pd: PatchDescription, k: nat, st: ScanState)
    requires pd.diffInstruction.None? || CommentBlock(pd.diffInstruction.value)
    ensures Scan(DiffSection(pd), k, st) == Success(Scanned(st, Region(pd)))
  {
    if pd.diff.Some? {
      var d := pd.diff.value.bytes;
      var di := if pd.diffInstruction.Some? then pd.diffInstruction.value else [];
      var after := SENTINEL + [LF] + d;
      assert DiffSection(pd) == di + after;
      var k' := k + LineCount(di);
      ScanSkipsCommentBlock(di, after, k, k', st);
      SentinelShape();
      ScanStopsAtSentinel(SENTINEL, d, k', st);
    }
  }

  lemma ScanTail(pd: PatchDescription, k: nat, st: ScanState)
    requires st.consumingMessage
    requires pd.instruction.None? || CommentBlock(pd.instruction.value)
    requires pd.diffInstruction.None? || CommentBlock(pd.diffInstruction.value)
    ensures Scan(InstrPart(pd) + DiffSection(pd), k, st) == Success(Scanned(Blank(st), Region(pd)))
  {
    var i := if pd.instruction.Some? then pd.instruction.value else [];
    var ds := DiffSection(pd);
    assert InstrPart(pd) + ds == [LF] + (i + ds);
    var k1, k2 := k + 1, k + 1 + LineCount(i);
    ScanBlankLine(i + ds, k, k1, st);
    ScanSkipsCommentBlock(i, ds, k1, k2, Blank(st));
    ScanDiffSection(pd, k2, Blank(st));
  }

  /* ------------------------------------------------------------ the whole document */

  /** The state the scan of a written description ends in. */
  function FinalState(pd: PatchDescription, env: Collaborators, ls: seq<seq<byte>>): ScanState
    requires pd.author.Some?
  {
    Blank(BodyState(Opened(HeaderState(pd, env)), ls))
  }

  lemma WriteLayout(pd: PatchDescription, env: Collaborators)
    ensures Write(pd, env)
         == HeaderLines(pd, env) + ([LF] + (StripTrailingNewlines(pd.message) + [LF] + (InstrPart(pd) + DiffSection(pd))))
  {
  }

  lemma ScanWrite(pd: PatchDescription, ls: seq<seq<byte>>, env: Collaborators)
    requires Readable(pd, env) && pd.message == JoinLines(ls) && NormalLines(ls)
    ensures Scan(Write(pd, env), 0, INITIAL) == Success(Scanned(FinalState(pd, env, ls), Region(pd)))
  {
    var tail := InstrPart(pd) + DiffSection(pd);
    var body := StripTrailingNewlines(pd.message) + [LF] + tail;
    WriteLayout(pd, env);
    var hs := HeaderState(pd, env);
    ReadableIsHeaderSafe(pd, env);
    ScanHeaders(pd, env, [LF] + body);
    ScanOpeningBlank(body, hs);
    var k := 4 + (if ls == [] then 1 else |ls|);
    ScanMessageBody(ls, tail, 4, k, Opened(hs));
    ScanTail(pd, k, BodyState(Opened(hs), ls));
  }

  lemma ReadableIsHeaderSafe(pd: PatchDescription, env: Collaborators)
    requires Readable(pd, env)
    ensures HeaderSafe(pd, env)
  {
    if pd.patchname.None? {
      assert PatchnameText(pd.patchname) == [];
    }
  }

  lemma FinalMessage(pd: PatchDescription, env: Collaborators, ls: seq<seq<byte>>)
    requires pd.author.Some? && (ls != [] ==> ls[|ls| - 1] != [])
    ensures FinalState(pd, env, ls).message == if ls == [] then [] else JoinLines(ls) + [LF]
  {
    assert [] + JoinLines(ls) == JoinLines(ls);
  }

  lemma JoinLinesEndsInLF(ls: seq<seq<byte>>)
    requires ls != []
    ensures JoinLines(ls) != [] && JoinLines(ls)[|JoinLines(ls)| - 1] == LF
  {
    var last := ls[|ls| - 1];
    assert ls == ls[..|ls| - 1] + [last];
    JoinLinesSnoc(ls[..|ls| - 1], last);
  }

  /** A message in normal form is not blank: its last line has a non-whitespace end. */
  lemma NormalNotBlank(ls: seq<seq<byte>>)
    requires ParsedLines(ls) && ls != []
    ensures !IsBlank(JoinLines(ls))
  {
    var init, last := ls[..|ls| - 1], ls[|ls| - 1];
    assert ls == init + [last];
    JoinLinesSnoc(init, last);
    var j := JoinLines(init);
    if init != [] {
      JoinLinesEndsInLF(init);
    }
    WhitespaceSuffixAfterAscii(j, last);
    assert MessageLine(last);
    TrimEndLF(j + last);
    assert TrimEnd(j + last) == j + last;
  }

  /** The parser's final step undoes the extra LF `write` leaves after the message. */
  lemma FinishWritten(ls: seq<seq<byte>>)
    requires ParsedLines(ls)
    ensures FinishMessage(if ls == [] then [] else JoinLines(ls) + [LF]) == JoinLines(ls)
  {
    if ls != [] {
      var m := JoinLines(ls) + [LF];
      JoinLinesEndsInLF(ls);
      assert m[|m| - 2..] == [LF, LF];
      assert m[..|m| - 1] == JoinLines(ls);
      NormalNotBlank(ls);
      BlankIgnoresFinalLF(m);
    }
  }

  lemma ReadNameBack(p: Option<PatchName>, env: Collaborators)
    requires ReadableName(p, env)
    ensures ParsePatchname(env, Some(PatchnameText(p))) == Success(p)
  {
  }

  lemma ReadAuthorBack(a: Signature, env: Collaborators, now: Time)
    requires ReadableAuthor(a, env)
    ensures ParseAuthor(env, now, Some(Trim(AuthorValue(a))), Some(env.formatDate(a.when))) == Success(Some(a))
  {
  }

  /** `try_from` after a scan that ends in `st` with `region`. */
  lemma ParseScanned(buf: seq<byte>, env: Collaborators, now: Time, st: ScanState, region: Option<seq<byte>>,
                     name: Option<PatchName>, author: Option<Signature>)
    requires Scan(buf, 0, INITIAL) == Success(Scanned(st, region)) && !Abandoned(st)
    requires ParsePatchname(env, st.rawPatchname) == Success(name)
    requires ParseAuthor(env, now, st.rawAuthor, st.rawAuthdate) == Success(author)
    ensures Parse(buf, env, now) == Success(PatchDescription(name, author, FinishMessage(st.message), None, None, DiffOf(region)))
  {
  }

  /** Writing a description and parsing the document back gives the description
      again, without its instruction texts, which are comments to the parser. */
  lemma WriteThenParse(pd: PatchDescription, ls: seq<seq<byte>>, env: Collaborators, now: Time)
    requires Readable(pd, env) && pd.message == JoinLines(ls) && NormalLines(ls)
    ensures Parse(Write(pd, env), env, now) == Success(pd.(instruction := None, diffInstruction := None))
  {
    ScanWrite(pd, ls, env);
    var st := FinalState(pd, env, ls);
    FinalMessage(pd, env, ls);
    FinishWritten(ls);
    ReadNameBack(pd.patchname, env);
    ReadAuthorBack(pd.author.value, env, now);
    ParseScanned(Write(pd, env), env, now, st, Region(pd), pd.patchname, pd.author);
  }
}
