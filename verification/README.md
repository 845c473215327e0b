# stgit patch descriptions and stack-state schema, in Dafny

This project models two codecs of stgit, the Git patch-stack manager, and proves
what they promise.

* **The patch-description document** (`src/patchedit/description.rs`). When a patch is
  edited, `PatchDescription::write` renders the patch's name, author, message,
  optional instruction comments and optional diff as a text document:

  - three header lines `Patch:`, `Author:` and `Date:`;
  - a blank line, then the message;
  - the instruction comments, then a `---` sentinel line and the diff.

  `TryFrom<&[u8]>` reads the edited document back. It makes one left-to-right scan
  over the lines:

  - comment lines (`#…`) are skipped but still counted;
  - headers are recognised only at absolute line indices 0, 1 and 2;
  - blank runs in the message collapse to one blank line;
  - everything after the sentinel is the diff, kept verbatim.

  `_find` is the naive first-occurrence search in that file.
* **The stack-state schema** (`src/stack/serde.rs`). When a stack is loaded, the decoded
  JSON document is validated into a `RawStackState`:

  - the version must be 5;
  - the `prev`, `head` and per-patch oid strings must parse.

  When a stack is saved, a `StackState` is written back as such a document, with
  its patch table in patch-name order.

Modules, one per concern:

| file | module | contents |
|---|---|---|
| `wrappers.dfy` | `Wrappers` | `Option`, `Result` |
| `bytes.dfy` | `Bytes` | bytes, line splitting, Rust's `trim_end`/`trim_start` on UTF-8 (White_Space code points), UTF-8 well-formedness (Unicode Table 3-7), byte-wise order |
| `names.dfy` | `Names` | `PatchName` and the order in which a `BTreeMap` keyed by it is visited |
| `description.dfy` | `Description` | `Write`, the scan (`Step`, `Scan`), `Parse`, `Find` |
| `description_scan.dfy` | `DescriptionScan` | how the scan treats each kind of line |
| `description_roundtrip.dfy` | `DescriptionRoundTrip` | write-then-parse |
| `description_normal.dfy` | `DescriptionNormal` | every parsed message is in normal form; parse-write-parse is stable |
| `description_cases.dfy` | `DescriptionCases` | the behaviours the codec's unit tests pin down, for all inputs of each shape |
| `stack_serde.dfy` | `StackSerde` | `Decode`, `Encode` |
| `stack_serde_proofs.dfy` | `StackSerdeProofs` | load-after-save, save-after-load, error reporting order |

Code the codecs call but do not define is passed in as function-valued fields:

- the `Collaborators` of the description parser: `PatchName::from_str`, `parse_name_email`, chrono's date parse and format, and `git2::Signature::new`;
- the `OidCodec` of the schema: `Oid::from_str` and `Oid::to_string`.

The clock reading that `Signature::now` would take is the parameter `now`.

The code reports the untouched-document abort as a generic error with the text "Aborting edit due to empty patch description". The model gives that error its own constructor, `EmptyDescription`.

## Model

| member | source | states |
|---|---|---|
| Description.Write | src/patchedit/description.rs:29-62 | The document starts with the `Patch:  ` header. With a diff, it ends in the `---` line followed by the diff bytes verbatim. |
| Description.Step | src/patchedit/description.rs:93-126 | Only line 0, 1 or 2 before message mode can set the raw name, author or date, respectively. Message mode is never left. The message only grows. A non-blank line in message mode or past index 2 is appended with one LF. |
| Description.Scan | src/patchedit/description.rs:78-127 | The only failure of the loop is non-UTF-8 text. The diff region is a proper suffix of the input, namely the bytes after the sentinel line. |
| Description.FinishMessage | src/patchedit/description.rs:163-169 | A blank message becomes empty. A message that is not blank stays non-empty. It loses its last byte exactly when it ends in two newlines; otherwise it is kept as it is. |
| Description.DiffOf | src/patchedit/description.rs:171-180 | There is a diff exactly when a sentinel was met and the bytes after it are not all ASCII whitespace. The diff is those bytes unchanged. |
| Description.ParsePatchname | src/patchedit/description.rs:139-147 | No `Patch:` header, or an empty value, gives no name. Any other value is a name iff `PatchName::from_str` accepts it, and is otherwise an invalid-name error carrying the text. |
| Description.ParseAuthor | src/patchedit/description.rs:149-161 | No `Author:` header gives no author. An unsplittable value is an invalid-name-email error. A `Date:` that does not parse is an invalid-date error with context "patch description". A signature that cannot be built from the name, email and time is an invalid-signature error. The signature's time is the parsed date, or `now` when there is no `Date:`. An `Author:` header never yields "no author". |
| Description.Parse | src/patchedit/description.rs:65-193 | A parse never returns instruction texts. A diff is a non-whitespace proper suffix of the input. The untouched-document error occurs iff the scan succeeded with no header seen and a blank message. A failed scan is the non-UTF-8 error. Otherwise a patch-name error is reported first, then an author, date or signature error. The parse succeeds iff both the name and the author parse, and then gives that name and author, the finished message and the diff of the region after the sentinel. |
| Description.Find | src/patchedit/description.rs:196-205 | The result is the first index at which the needle occurs, or none when it occurs nowhere (always none when the needle is longer than the haystack). |
| Bytes.TrimEnd | src/patchedit/description.rs:86 | The trimmed line is a prefix of the line with no trailing whitespace character. The bytes dropped are a run of whole whitespace characters. It is the line itself when that has none. |
| Bytes.TrimStartDropsWhitespace | src/patchedit/description.rs:107-113 | The bytes that trimming drops from the start of a header value are a run of whole whitespace characters. |
| Bytes.TrimEndUtf8 | src/patchedit/description.rs:85-86 | Right-trimming UTF-8 text leaves UTF-8 text. |
| Bytes.SplitOnce | src/patchedit/description.rs:105 | The result is none iff there is no colon. Otherwise it is the parts before and after the first colon, which rejoin to the line. |
| Bytes.StripTrailingNewlines | src/patchedit/description.rs:47 | The result is the longest prefix not ending in LF. Every byte dropped is an LF. |
| DescriptionScan.ScanSkipsComment | src/patchedit/description.rs:78-82 | A `#` line is skipped without any UTF-8 check, but still advances the line index. |
| DescriptionScan.ScanSkipsCommentBlock | src/patchedit/description.rs:78-82 | A block of comment lines leaves the scan state unchanged and advances the index by its line count. |
| DescriptionScan.ScanStopsAtSentinel | src/patchedit/description.rs:84-91 | The first line that right-trims to `---` ends the scan. Whatever follows, UTF-8 or not, is the diff region. |
| DescriptionScan.ScanMessageLines | src/patchedit/description.rs:93-103 | In message mode, lines with no blank-after-blank are appended each with one LF, in order. |
| DescriptionScan.HeaderLineShape | src/patchedit/description.rs:105-115 | A `key: value` line as `write` emits it is one UTF-8 line, neither a comment nor the sentinel. It splits at the colon after the key. Its trimmed value is the value with both ends trimmed. |
| DescriptionRoundTrip.ScanPatchLine | src/patchedit/description.rs:106-108 | The `Patch:` line at index 0 records its value as the raw name. |
| DescriptionRoundTrip.ScanAuthorLine | src/patchedit/description.rs:109-111 | The `Author:` line at index 1 records the trimmed `Name <email>` as the raw author. |
| DescriptionRoundTrip.ScanDateLine | src/patchedit/description.rs:112-114 | The `Date:` line at index 2 records the formatted date as the raw date. |
| DescriptionRoundTrip.ScanHeaders | src/patchedit/description.rs:35-42 | The three header lines `write` emits for a patch with an author are read back as the raw name, author and date, when each value renders as one header line. |
| DescriptionRoundTrip.ScanMessageBody | src/patchedit/description.rs:47-48 | The message written with exactly one trailing LF is read back line by line, and an empty message as one blank line. |
| DescriptionRoundTrip.ScanTail | src/patchedit/description.rs:49-61 | The instruction, the diff instruction and the sentinel add nothing to the message. The diff comes back as the diff region. |
| DescriptionRoundTrip.WriteThenParse | src/patchedit/description.rs:240-362 | Parsing a written description whose message is in normal form gives the same name, author, message and diff. Only the instruction texts are dropped. |
| DescriptionNormal.ScanAccumulates | src/patchedit/description.rs:78-127 | Over any input, the message built by the loop is a join of trimmed, non-comment, non-sentinel UTF-8 lines with no two blank lines in a row and no leading blank line. |
| DescriptionNormal.FinishAccumulated | src/patchedit/description.rs:163-169 | After the final clean-up, the message is in the normal form that `write` preserves. |
| DescriptionNormal.ParsedMessageNormal | src/patchedit/description.rs:65-193 | Every message a parse returns is in normal form. |
| DescriptionNormal.ParseWriteParse | src/patchedit/description.rs:29-193 | Writing what was parsed and parsing again gives the same description, whenever the parsed name and author can be rendered and read back. |
| DescriptionCases.CommentedPatchLine | src/patchedit/description.rs:488-518 | With the `Patch:` line commented out, no name is recorded. The `Author:` line, still at index 1, is read as the author. |
| DescriptionCases.UnexpectedLineStartsMessage | src/patchedit/description.rs:558-587 | A line at index 1 that is not an `Author:` header starts the message. |
| DescriptionCases.ScanBlankRun | src/patchedit/description.rs:664-694 | A run of whitespace-only lines in the message adds a single LF, and none when a blank run is already pending. |
| DescriptionCases.ScanLastLine | src/patchedit/description.rs:650-662 | A last line without its LF is read as if it had one. |
| DescriptionCases.ScanRejectsNonUtf8 | src/patchedit/description.rs:84-85 | A non-comment line before the sentinel that is not UTF-8 fails the scan with the non-UTF-8 error. |
| DescriptionCases.ParseRejectsNonUtf8 | src/patchedit/description.rs:78-85 | A document whose first line after any comments is not UTF-8 fails to parse with the non-UTF-8 error, whether that line ends in LF with anything after it or is the last line without LF. |
| DescriptionCases.SentinelFirstAborts | src/patchedit/description.rs:129-137 | A document whose first line right-trims to `---` is the untouched-document error, whatever follows. |
| DescriptionCases.PaddedSentinelAborts | src/patchedit/description.rs:86-91 | `---` followed by spaces, with or without an LF and any tail, aborts the edit. |
| DescriptionCases.EmptyDiffDocumentsAbort | src/patchedit/description.rs:696-709 | Each of the five test documents (`---`, `---\n`, `---    `, `---  \n`, `---\n  \n`) aborts the edit. |
| DescriptionCases.ScanAuthorlessHeaders | src/patchedit/description.rs:43-46 | The empty `Author:` and `Date:` lines written for a patch with no author are still headers, with empty values. |
| DescriptionCases.AuthorlessWriteIsRejected | src/patchedit/description.rs:149-150 | The empty author value of an author-less write goes to `parse_name_email`; when that rejects it, the parse fails with the invalid-name-email error for the empty value. |
| DescriptionCases.AuthorlessWriteGainsAuthor | src/patchedit/description.rs:149-161 | Whatever the collaborators, a written description with no author never parses back as author-less: the parse fails or finds an author. |
| StackSerde.DecodePrev | src/stack/serde.rs:63-70 | A missing `prev` decodes to none. A present one decodes to its parsed oid, or is an invalid-`prev` error carrying the text. |
| StackSerde.DecodeHead | src/stack/serde.rs:72-73 | `head` decodes to its parsed oid, or else is an invalid-`head` error carrying the text. |
| StackSerde.DecodePatches | src/stack/serde.rs:75-84 | The table succeeds iff every listed oid parses, and then has exactly the listed names with their parsed oids. A failure names the first entry, in list order, whose oid does not parse. |
| StackSerde.Decode | src/stack/serde.rs:54-94 | A version other than 5 is rejected with found and expected values. The errors are checked in the order version, `prev`, `head`, patches. Success holds iff all four checks pass. When only the patch table fails, the error names a patch of the table and carries its oid text, which does not parse. The status sequences are kept as they are. |
| StackSerde.Encode | src/stack/serde.rs:118-138 | The document has version 5 and the formatted `prev` and `head` ids. It keeps the three status sequences, and its patch table has the state's names, each with its commit id formatted. |
| StackSerde.PatchEntries | src/stack/serde.rs:110-128 | The patch table is serialised as exactly its entries, each once, in strictly ascending name order. |
| Names.SortedNames | src/stack/serde.rs:17 | The names of a set, each once, in strictly ascending byte-wise order. |
| StackSerdeProofs.DecodeReportsFirstBadPatch | src/stack/serde.rs:75-84 | A rejected patch oid is the first bad one in name order: every patch whose name sorts before it has an oid that parses. |
| StackSerdeProofs.EncodedPatchOrder | src/stack/serde.rs:120-128 | The saved patch table lists every patch once, in name order, with its commit id. It does not depend on the applied, unapplied and hidden sequences. |
| StackSerdeProofs.EncodeThenDecode | src/stack/serde.rs:54-141 | Loading a saved state gives back its ids, status sequences and patch table, given that parsing a formatted oid gives the oid. |
| StackSerdeProofs.DecodeThenEncode | src/stack/serde.rs:54-93 | Saving a loaded state writes the same document, when its oid strings are in canonical form. |

## Left out

- JSON tokenising (`from_stack_json`, `serde_json::from_slice`) and the structural decode into `DeserState`: the model starts from the decoded record `StateDoc` and ends at the record that is serialised.
- `Oid::from_str` and `Oid::to_string` are a caller-supplied `OidCodec`. The one property assumed of them is that parsing a formatted oid gives the oid back (`Coherent`). git2's acceptance of short or upper-case hex is not modelled.
- The patch-name grammar: `src/patchname.rs` is not part of this model. Parsing a name is the collaborator `parsePatchName`, and names are ordered byte-wise.
- `signature::parse_name_email`, chrono's `%Y-%m-%d %H:%M:%S %z` parsing and formatting, `git2::Time::new` and `git2::Signature::new` are collaborators, because their code is outside these files. `Signature::now` reads the clock, so the time is the parameter `now`.
- The output sink of `write` and its I/O errors: `Write` returns the document's bytes.
- `StackState`'s commits contribute only their ids. Looking commits up in the repository is not modelled.
- Machine integer widths: `line_num`, `consecutive_empty` and `pos` are `usize` counters bounded by the buffer length, and `version` is compared as an integer. Nothing in these files can overflow them.
- Rust's `trim_end`, `trim` and `trim_start` work on characters. The model works on bytes, trimming the UTF-8 encodings of the Unicode White_Space characters, which is the same thing on UTF-8 text.
- DescriptionRoundTrip.WriteThenParse: it holds only for a message already in the normal form `try_from` produces (`JoinLines` of `NormalLines`; see `ParsedMessageNormal`): LF-terminated UTF-8 lines with no trailing whitespace, no line starting with `#` or reading `---`, and no leading, trailing or repeated blank line. Other messages are written as they are but read back normalised; for instance `a\n\n\nb\n` comes back as `a\n\nb\n` (src/patchedit/description.rs:118-125). It also holds only for a description with an author whose name, email and date render and read back through the collaborators (`Readable`). For a description with no author, the write does not read back; `AuthorlessWriteIsRejected` states what happens instead. `Readable` also excludes a diff made only of ASCII whitespace: `write` emits it, but it reads back as no diff (src/patchedit/description.rs:171-180). The instruction texts must be comment blocks.
- DescriptionNormal.ParseWriteParse: it holds when the parsed author is present and readable, as above. A parsed description without an author writes out an empty `Author:` header.
- StackSerdeProofs.DecodeThenEncode: it holds only when every oid string in the document is canonical, that is, equal to the formatting of its own parse.
