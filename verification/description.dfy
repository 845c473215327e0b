/** The editable patch-description document: `PatchDescription::write` renders a
    patch's name, author, message, instruction text and diff; `TryFrom<&[u8]>`
    parses an edited document back with a single left-to-right scan over its lines. */
module Description {
  import opened Wrappers
  import opened Bytes
  import opened Names

  datatype DiffBuffer = DiffBuffer(bytes: seq<byte>)

  /** A git time: seconds since the epoch and the zone offset in minutes. */
  datatype Time = Time(seconds: int, offsetMinutes: int)

  datatype Signature = Signature(name: seq<byte>, email: seq<byte>, when: Time)

  datatype PatchDescription = PatchDescription(
    patchname: Option<PatchName>,
    author: Option<Signature>,
    message: seq<byte>,
    instruction: Option<seq<byte>>,
    diffInstruction: Option<seq<byte>>,
    diff: Option<DiffBuffer>)

  /** Code the codec calls but does not define: `PatchName::from_str`,
      `signature::parse_name_email`, chrono's parse and format with
      "%Y-%m-%d %H:%M:%S %z", and `git2::Signature::new`. */
  datatype Collaborators = Collaborators(
    parsePatchName: seq<byte> -> Option<PatchName>,
    parseNameEmail: seq<byte> -> Option<(seq<byte>, seq<byte>)>,
    parseDate: seq<byte> -> Option<Time>,
    formatDate: Time -> seq<byte>,
    newSignature: (seq<byte>, seq<byte>, Time) -> Option<Signature>)

  datatype DescriptionError =
    | NonUtf8PatchDescription
    | EmptyDescription
    | InvalidPatchName(text: seq<byte>)
    | InvalidNameEmail(text: seq<byte>)
    | InvalidDate(text: seq<byte>, context: string)
    | InvalidSignature

  const PATCH_KEY: seq<byte> := [0x50, 0x61, 0x74, 0x63, 0x68]          // "Patch"
  const AUTHOR_KEY: seq<byte> := [0x41, 0x75, 0x74, 0x68, 0x6F, 0x72]   // "Author"
  const DATE_KEY: seq<byte> := [0x44, 0x61, 0x74, 0x65]                 // "Date"
  const PATCH_PREFIX: seq<byte> := PATCH_KEY + [COLON, SPACE, SPACE]    // "Patch:  "
  const AUTHOR_PREFIX: seq<byte> := AUTHOR_KEY + [COLON, SPACE]         // "Author: "
  const DATE_PREFIX: seq<byte> := DATE_KEY + [COLON, SPACE, SPACE, SPACE] // "Date:   "
  const EMAIL_OPEN: seq<byte> := [SPACE, 0x3C]                           // " <"
  const EMAIL_CLOSE: seq<byte> := [0x3E]                                // ">"
  /** The line that separates the message from the diff. */
  const SENTINEL: seq<byte> := [0x2D, 0x2D, 0x2D]                       // "---"

  /* ---------------------------------------------------------------- write */

  function PatchnameText(p: Option<PatchName>): seq<byte> {
    match p
    case Some(name) => name.text
    case None => []
  }

  /** The `Author:` value: `Name <email>`. */
  function AuthorValue(a: Signature): seq<byte> {
    a.name + EMAIL_OPEN + a.email + EMAIL_CLOSE
  }

  /** The three header lines; with no author the Author and Date values are empty. */
  function HeaderLines(pd: PatchDescription, env: Collaborators): seq<byte> {
    PATCH_PREFIX + PatchnameText(pd.patchname) + [LF]
    + match pd.author
      case Some(a) => AUTHOR_PREFIX + AuthorValue(a) + [LF] + DATE_PREFIX + env.formatDate(a.when) + [LF]
      case None => AUTHOR_PREFIX + [LF] + DATE_PREFIX + [LF]
  }

  /** The blank line, the message with exactly one LF, and the instruction or a blank line. */
  function MessageSection(pd: PatchDescription): seq<byte> {
    [LF] + StripTrailingNewlines(pd.message) + [LF]
    + match pd.instruction
      case Some(i) => [LF] + i
      case None => [LF]
  }

  /** The diff instruction, the sentinel line and the diff, present only with a diff. */
  function DiffSection(pd: PatchDescription): seq<byte> {
    match pd.diff
    case None => []
    case Some(d) =>
      (match pd.diffInstruction case Some(i) => i case None => [])
      + SENTINEL + [LF] + d.bytes
  }

  /** `PatchDescription::write`, with the sink's I/O left out. */
  function Write(pd: PatchDescription, env: Collaborators): (doc: seq<byte>)
    ensures |doc| > |PATCH_PREFIX| && doc[..|PATCH_PREFIX|] == PATCH_PREFIX
    ensures pd.diff.Some? ==>
      |doc| >= |pd.diff.value.bytes| + 4
      && doc[|doc| - |pd.diff.value.bytes| - 4..] == SENTINEL + [LF] + pd.diff.value.bytes
  {
    HeaderLines(pd, env) + MessageSection(pd) + DiffSection(pd)
  }

  /* ---------------------------------------------------------------- parse */

  /** The variables of the scanning loop in `try_from`. */
  datatype ScanState = ScanState(
    rawPatchname: Option<seq<byte>>,
    rawAuthor: Option<seq<byte>>,
    rawAuthdate: Option<seq<byte>>,
    consumingMessage: bool,
    consecutiveEmpty: nat,
    message: seq<byte>)

  const INITIAL: ScanState := ScanState(None, None, None, false, 0, [])

  /** Where the scan stopped: the state, and the bytes after the sentinel line if one was met. */
  datatype Scanned = Scanned(state: ScanState, diffRegion: Option<seq<byte>>)

  /** One non-comment line before the sentinel, right-trimmed, at absolute index `lineNum`.
      The contract states only what any line may do: headers are recorded at lines 0-2
      and never once the message has begun, and the message only grows. That each
      written header is recorded is `ScanPatchLine`, `ScanAuthorLine` and `ScanDateLine`;
      how blank lines collapse is `ScanBlankRun`. */
  function Step(st: ScanState, lineNum: nat, trimmed: seq<byte>): (r: ScanState)
    ensures r.rawPatchname != st.rawPatchname ==> lineNum == 0 && !st.consumingMessage
    ensures r.rawAuthor != st.rawAuthor ==> lineNum == 1 && !st.consumingMessage
    ensures r.rawAuthdate != st.rawAuthdate ==> lineNum == 2 && !st.consumingMessage
    ensures st.consumingMessage ==> r.consumingMessage
    ensures st.message <= r.message
    ensures trimmed != [] && (st.consumingMessage || lineNum > 2) ==> r.message == st.message + trimmed + [LF]
  {
    if st.consumingMessage then
      if trimmed == [] then
        st.(message := if st.consecutiveEmpty == 0 then st.message + [LF] else st.message,
            consecutiveEmpty := st.consecutiveEmpty + 1)
      else
        st.(message := st.message + trimmed + [LF], consecutiveEmpty := 0)
    else
      var header := SplitOnce(trimmed, COLON);
      if header.Some? && lineNum == 0 && header.value.0 == PATCH_KEY then
        st.(rawPatchname := Some(Trim(header.value.1)))
      else if header.Some? && lineNum == 1 && header.value.0 == AUTHOR_KEY then
        st.(rawAuthor := Some(Trim(header.value.1)))
      else if header.Some? && lineNum == 2 && header.value.0 == DATE_KEY then
        st.(rawAuthdate := Some(Trim(header.value.1)))
      else if trimmed != [] then
        st.(message := st.message + trimmed + [LF], consumingMessage := true)
      else
        // the first blank line after the headers is swallowed
        st.(consecutiveEmpty := st.consecutiveEmpty + 1, consumingMessage := true)
  }

  /** The loop of `try_from` over the lines of `rest`, the unscanned suffix of the buffer. */
  function Scan(rest: seq<byte>, lineNum: nat, st: ScanState): (r: Result<Scanned, DescriptionError>)
    ensures r.Success? && r.value.diffRegion.Some? ==>
      |r.value.diffRegion.value| < |rest|
      && r.value.diffRegion.value == rest[|rest| - |r.value.diffRegion.value|..]
    ensures r.Failure? ==> r.error == NonUtf8PatchDescription
    decreases |rest|
  {
    if rest == [] then Success(Scanned(st, None))
    else
      var n := LineLen(rest);
      var line := rest[..n];
      if line[0] == HASH then Scan(rest[n..], lineNum + 1, st)
      else if !ValidUtf8(line) then Failure(NonUtf8PatchDescription)
      else
        var trimmed := TrimEnd(line);
        if trimmed == SENTINEL then Success(Scanned(st, Some(rest[n..])))
        else Scan(rest[n..], lineNum + 1, Step(st, lineNum, trimmed))
  }

  /** The trailing `\n\n` becomes `\n`; an all-blank message becomes empty. */
  function FinishMessage(m: seq<byte>): (r: seq<byte>)
    ensures IsBlank(m) ==> r == []
    ensures r == [] || r == m || r == m[..|m| - 1]
    ensures !IsBlank(m) ==> r != [] && (r == m[..|m| - 1] <==> |m| >= 2 && m[|m| - 2..] == [LF, LF])
  {
    if |m| >= 2 && m[|m| - 2..] == [LF, LF] then
      var m' := m[..|m| - 1];
      BlankIgnoresFinalLF(m);
      if IsBlank(m') then [] else m'
    else
      if IsBlank(m) then [] else m
  }

  /** A final newline does not change whether a message is blank. */
  lemma BlankIgnoresFinalLF(m: seq<byte>)
    requires |m| > 0 && m[|m| - 1] == LF
    ensures IsBlank(m) <==> IsBlank(m[..|m| - 1])
  {
    TrimEndSkipsLast(m);
  }

  /** The diff: the bytes after the sentinel line unless they are all ASCII whitespace. */
  function DiffOf(region: Option<seq<byte>>): (d: Option<DiffBuffer>)
    ensures d.Some? <==> region.Some? && !AllAsciiWhitespace(region.value)
    ensures d.Some? ==> d.value.bytes == region.value
  {
    match region
    case Some(bytes) => if AllAsciiWhitespace(bytes) then None else Some(DiffBuffer(bytes))
    case None => None
  }

  /** An empty `Patch:` value means no name; any other must be a valid patch name. */
  function ParsePatchname(env: Collaborators, raw: Option<seq<byte>>): (r: Result<Option<PatchName>, DescriptionError>)
    ensures raw.None? || raw == Some([]) ==> r == Success(None)
    ensures raw.Some? && raw.value != [] ==>
      (r.Success? <==> env.parsePatchName(raw.value).Some?)
      && (r.Success? ==> r.value == env.parsePatchName(raw.value))
      && (r.Failure? ==> r.error == InvalidPatchName(raw.value))
    ensures r.Failure? ==> r.error.InvalidPatchName?
  {
    match raw
    case None => Success(None)
    case Some(text) =>
      if text == [] then Success(None)
      else
        match env.parsePatchName(text)
        case None => Failure(InvalidPatchName(text))
        case Some(name) => Success(Some(name))
  }

  /** The author: name and email from the `Author:` value, time from `Date:` or the clock. */
  function ParseAuthor(env: Collaborators, now: Time, rawAuthor: Option<seq<byte>>, rawAuthdate: Option<seq<byte>>)
    : (r: Result<Option<Signature>, DescriptionError>)
    ensures rawAuthor.None? ==> r == Success(None)
    ensures rawAuthor.Some? && env.parseNameEmail(rawAuthor.value).None? ==>
      r == Failure(InvalidNameEmail(rawAuthor.value))
    ensures (rawAuthor.Some? && env.parseNameEmail(rawAuthor.value).Some? && rawAuthdate.Some?
             && env.parseDate(rawAuthdate.value).None?) ==>
      r == Failure(InvalidDate(rawAuthdate.value, "patch description"))
    ensures (rawAuthor.Some? && env.parseNameEmail(rawAuthor.value).Some?
             && (rawAuthdate.None? || env.parseDate(rawAuthdate.value).Some?)) ==>
      var (name, email) := env.parseNameEmail(rawAuthor.value).value;
      var when := if rawAuthdate.Some? then env.parseDate(rawAuthdate.value).value else now;
      && (env.newSignature(name, email, when).None? ==> r == Failure(InvalidSignature))
      && (env.newSignature(name, email, when).Some? ==> r == Success(env.newSignature(name, email, when)))
    ensures rawAuthor.Some? && r.Success? ==> r.value.Some?
    ensures r.Failure? ==> r.error != EmptyDescription
    ensures r.Success? && r.value.Some? ==>
      rawAuthor.Some? && env.parseNameEmail(rawAuthor.value).Some?
      && var (name, email) := env.parseNameEmail(rawAuthor.value).value;
         var when := if rawAuthdate.Some? then env.parseDate(rawAuthdate.value).value else now;
         env.newSignature(name, email, when) == r.value
  {
    match rawAuthor
    case None => Success(None)
    case Some(author) =>
      match env.parseNameEmail(author)
      case None => Failure(InvalidNameEmail(author))
      case Some((name, email)) =>
        var when :- match rawAuthdate
          case Some(dateStr) =>
            (match env.parseDate(dateStr)
             case None => Failure(InvalidDate(dateStr, "patch description"))
             case Some(t) => Success(t))
          case None => Success(now);
        match env.newSignature(name, email, when)
        case None => Failure(InvalidSignature)
        case Some(sig) => Success(Some(sig))
  }

  /** Nothing recognised and nothing written: the edit was abandoned. */
  predicate Abandoned(st: ScanState) {
    st.rawPatchname.None? && st.rawAuthor.None? && st.rawAuthdate.None? && IsBlank(st.message)
  }

  /** `TryFrom<&[u8]> for PatchDescription`; `now` is the clock reading `Signature::now` would take. */
  function Parse(buf: seq<byte>, env: Collaborators, now: Time): (r: Result<PatchDescription, DescriptionError>)
    ensures r.Success? ==> r.value.instruction.None? && r.value.diffInstruction.None?
    ensures r.Success? && r.value.diff.Some? ==>
      var d := r.value.diff.value.bytes;
      |d| < |buf| && d == buf[|buf| - |d|..] && !AllAsciiWhitespace(d)
    ensures r == Failure(EmptyDescription) <==> Scan(buf, 0, INITIAL).Success? && Abandoned(Scan(buf, 0, INITIAL).value.state)
    ensures Scan(buf, 0, INITIAL).Failure? ==> r == Failure(NonUtf8PatchDescription)
    ensures Scan(buf, 0, INITIAL).Success? && !Abandoned(Scan(buf, 0, INITIAL).value.state) ==>
      var st := Scan(buf, 0, INITIAL).value.state;
      var name := ParsePatchname(env, st.rawPatchname);
      var author := ParseAuthor(env, now, st.rawAuthor, st.rawAuthdate);
      && (name.Failure? ==> r == Failure(name.error))
      && (name.Success? && author.Failure? ==> r == Failure(author.error))
      && (r.Success? <==> name.Success? && author.Success?)
      && (r.Success? ==>
            r.value == PatchDescription(name.value, author.value, FinishMessage(st.message), None, None,
                                        DiffOf(Scan(buf, 0, INITIAL).value.diffRegion)))
  {
    var scanned :- Scan(buf, 0, INITIAL);
    var st := scanned.state;
    if Abandoned(st) then Failure(EmptyDescription)
    else
      var patchname :- ParsePatchname(env, st.rawPatchname);
      var author :- ParseAuthor(env, now, st.rawAuthor, st.rawAuthdate);
      Success(PatchDescription(patchname, author, FinishMessage(st.message), None, None, DiffOf(scanned.diffRegion)))
  }

  /* ---------------------------------------------------------------- _find */

  /** `needle` occurs in `haystack` at position `i`. */
  predicate OccursAt(haystack: seq<byte>, needle: seq<byte>, i: nat) {
    i + |needle| <= |haystack| && haystack[i..i + |needle|] == needle
  }

  /** `_find`: the first position at which `needle` occurs in `haystack`. */
  method Find(haystack: seq<byte>, needle: seq<byte>) returns (r: Option<nat>)
    ensures r.Some? ==> OccursAt(haystack, needle, r.value)
    ensures r.Some? ==> forall j :: 0 <= j < r.value ==> !OccursAt(haystack, needle, j)
    ensures r.None? ==> forall j :: 0 <= j ==> !OccursAt(haystack, needle, j)
    ensures |needle| > |haystack| ==> r.None?
  {
    if |haystack| >= |needle| {
      var i := 0;
      while i < |haystack| - |needle| + 1
        invariant 0 <= i <= |haystack| - |needle| + 1
        invariant forall j :: 0 <= j < i ==> !OccursAt(haystack, needle, j)
      {
        if haystack[i..i + |needle|] == needle {
          return Some(i);
        }
        i := i + 1;
      }
    }
    return None;
  }
}
