/** Properties of the stack-state schema relating decoding and encoding. */
module StackSerdeProofs {
  import opened Wrappers
  import opened Bytes
  import opened Names
  import opened StackSerde

  /** A rejected patch oid is the first bad one in patch-name order: every patch whose
      name sorts before the reported one has an oid that parses. */
  lemma DecodeReportsFirstBadPatch(codec: OidCodec, doc: StateDoc)
    requires Decode(codec, doc).Failure? && Decode(codec, doc).error.InvalidPatchOid?
    ensures var e := Decode(codec, doc).error;
      && e.patch in doc.patches
      && e.text == doc.patches[e.patch].oid
      && codec.parse(e.text).None?
      && forall n :: n in doc.patches && NameLess(n, e.patch) ==> codec.parse(doc.patches[n].oid).Some?
  {
    var e := Decode(codec, doc).error;
    assert doc.version == STACK_STATE_VERSION;
    assert DecodePrev(codec, doc.prev).Success?;
    assert DecodeHead(codec, doc.head).Success?;
    var names := SortedNames(doc.patches.Keys);
    var r := DecodePatches(codec, doc.patches, names);
    assert r.Failure? && r.error == e;
    var i :| 0 <= i < |names|
      && r.error == InvalidPatchOid(names[i], doc.patches[names[i]].oid)
      && codec.parse(doc.patches[names[i]].oid).None?
      && forall j :: 0 <= j < i ==> codec.parse(doc.patches[names[j]].oid).Some?;
    forall n | n in doc.patches && NameLess(n, e.patch)
      ensures codec.parse(doc.patches[n].oid).Some?
    {
      EarlierNameIsChecked(codec, doc.patches, names, i, n);
    }
  }

  /** In an ascending list of names, a name that sorts before `names[i]` sits before index `i`. */
  lemma EarlierNameIsChecked(codec: OidCodec, patches: map<PatchName, PatchDoc>, names: seq<PatchName>,
                             i: nat, n: PatchName)
    requires StrictlyAscending(names)
    requires i < |names| && n in names && NameLess(n, names[i])
    requires forall j :: 0 <= j < |names| ==> names[j] in patches
    requires forall j :: 0 <= j < i ==> codec.parse(patches[names[j]].oid).Some?
    ensures codec.parse(patches[n].oid).Some?
  {
    var k :| 0 <= k < |names| && names[k] == n;
    if k == i {
      LexLessIrreflexive(n.text);
    } else if k > i {
      LexLessAsymmetric(names[i].text, names[k].text);
    }
  }

  /** The patch table is written in patch-name order, names exactly the state's patches,
      and does not depend on the three status sequences. */
  lemma EncodedPatchOrder(codec: OidCodec, state: StackState, applied: seq<PatchName>,
                          unapplied: seq<PatchName>, hidden: seq<PatchName>)
    ensures var entries := PatchEntries(Encode(codec, state).patches);
      && SortedByName(entries)
      && (forall i :: 0 <= i < |entries| ==>
            entries[i].0 in state.patches
            && entries[i].1 == PatchDoc(codec.format(state.patches[entries[i].0].commit.id)))
      && (forall n :: n in state.patches ==> exists i :: 0 <= i < |entries| && entries[i].0 == n)
    ensures var other := state.(applied := applied, unapplied := unapplied, hidden := hidden);
      PatchEntries(Encode(codec, other).patches) == PatchEntries(Encode(codec, state).patches)
  {
  }

  /** The validated state a saved snapshot is expected to load back as. */
  function Snapshot(state: StackState): (raw: RawStackState)
  {
    RawStackState(
      match state.prev case Some(c) => Some(c.id) case None => None,
      state.head.id,
      state.applied, state.unapplied, state.hidden,
      map n | n in state.patches :: RawPatchDescriptor(state.patches[n].commit.id))
  }

  /** Saving then loading a snapshot reproduces its ids, status sequences and patch table. */
  lemma EncodeThenDecode(codec: OidCodec, state: StackState)
    requires Coherent(codec)
    ensures Decode(codec, Encode(codec, state)) == Success(Snapshot(state))
  {
    var doc := Encode(codec, state);
    var want := Snapshot(state);
    PrevHeadRoundTrip(codec, state);
    PatchTableRoundTrip(codec, state);
    DecodeOfValidParts(codec, doc, want.prev, want.head, want.patches);
  }

  lemma PrevHeadRoundTrip(codec: OidCodec, state: StackState)
    requires Coherent(codec)
    ensures DecodePrev(codec, Encode(codec, state).prev) == Success(Snapshot(state).prev)
    ensures DecodeHead(codec, Encode(codec, state).head) == Success(Snapshot(state).head)
  {
  }

  lemma PatchTableRoundTrip(codec: OidCodec, state: StackState)
    requires Coherent(codec)
    ensures var doc := Encode(codec, state);
      DecodePatches(codec, doc.patches, SortedNames(doc.patches.Keys)) == Success(Snapshot(state).patches)
  {
    var doc := Encode(codec, state);
    var names := SortedNames(doc.patches.Keys);
    FormattedTableParses(codec, state.patches, doc.patches);
    var table := DecodePatches(codec, doc.patches, names);
    TableRoundTrip(codec, state.patches, doc.patches, table.value);
  }

  /** Decoding a version-5 document whose three validation stages succeed assembles their results. */
  lemma DecodeOfValidParts(codec: OidCodec, doc: StateDoc, prev: Option<Oid>, head: Oid,
                           table: map<PatchName, RawPatchDescriptor>)
    requires doc.version == STACK_STATE_VERSION
    requires DecodePrev(codec, doc.prev) == Success(prev)
    requires DecodeHead(codec, doc.head) == Success(head)
    requires DecodePatches(codec, doc.patches, SortedNames(doc.patches.Keys)) == Success(table)
    ensures Decode(codec, doc) == Success(RawStackState(prev, head, doc.applied, doc.unapplied, doc.hidden, table))
  {
  }

  lemma FormattedTableParses(codec: OidCodec, patches: map<PatchName, PatchDescriptor>,
                             doc: map<PatchName, PatchDoc>)
    requires Coherent(codec) && FormattedTable(codec, patches, doc)
    ensures AllPatchOidsParse(codec, doc)
  {
  }

  lemma TableRoundTrip(codec: OidCodec, patches: map<PatchName, PatchDescriptor>,
                       doc: map<PatchName, PatchDoc>, table: map<PatchName, RawPatchDescriptor>)
    requires Coherent(codec)
    requires FormattedTable(codec, patches, doc) && ParsedTable(codec, doc, table)
    ensures table == map n | n in patches :: RawPatchDescriptor(patches[n].commit.id)
  {
  }

  /** An oid string is canonical when formatting its parse gives it back. */
  ghost predicate Canonical(codec: OidCodec, text: string) {
    codec.parse(text).Some? && codec.format(codec.parse(text).value) == text
  }

  /** Loading a document whose oid strings are all canonical and saving the loaded
      state again writes the same document. */
  lemma DecodeThenEncode(codec: OidCodec, doc: StateDoc, state: StackState)
    requires Decode(codec, doc).Success?
    requires Snapshot(state) == Decode(codec, doc).value
    requires doc.prev.Some? ==> Canonical(codec, doc.prev.value)
    requires Canonical(codec, doc.head)
    requires forall n :: n in doc.patches ==> Canonical(codec, doc.patches[n].oid)
    ensures Encode(codec, state) == doc
  {
  }
}
