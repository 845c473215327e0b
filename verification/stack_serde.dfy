/** The versioned stack-state schema: validation of the decoded document into a
    `RawStackState`, and the document produced when a live `StackState` is saved.
    JSON tokenising is left to the caller: a `StateDoc` is the record serde builds
    from the JSON text (and renders back to it). A Dafny `map` stands for a
    `BTreeMap`; the order in which it is visited or serialised is `SortedNames`. */
module StackSerde {
  import opened Wrappers
  import opened Bytes
  import opened Names

  /** The single schema version this layer reads and writes. */
  const STACK_STATE_VERSION: int := 5

  /** A git object id, kept abstract. */
  datatype Oid = Oid(raw: seq<byte>)

  /** `Oid::from_str` and `Oid::to_string`, supplied by the caller. */
  datatype OidCodec = OidCodec(parse: string -> Option<Oid>, format: Oid -> string)

  /** Formatting an oid and parsing the text back gives the same oid. */
  ghost predicate Coherent(codec: OidCodec) {
    forall o :: codec.parse(codec.format(o)) == Some(o)
  }

  /** The document shape on both sides of the JSON text (`DeserState`, `SerializableState`). */
  datatype PatchDoc = PatchDoc(oid: string)

  datatype StateDoc = StateDoc(
    version: int,
    prev: Option<string>,
    head: string,
    applied: seq<PatchName>,
    unapplied: seq<PatchName>,
    hidden: seq<PatchName>,
    patches: map<PatchName, PatchDoc>)

  /** The validated state: oids parsed, not yet looked up as commits. */
  datatype RawPatchDescriptor = RawPatchDescriptor(oid: Oid)

  datatype RawStackState = RawStackState(
    prev: Option<Oid>,
    head: Oid,
    applied: seq<PatchName>,
    unapplied: seq<PatchName>,
    hidden: seq<PatchName>,
    patches: map<PatchName, RawPatchDescriptor>)

  /** The live state being saved; a commit contributes only its id here. */
  datatype Commit = Commit(id: Oid)

  datatype PatchDescriptor = PatchDescriptor(commit: Commit)

  datatype StackState = StackState(
    prev: Option<Commit>,
    head: Commit,
    applied: seq<PatchName>,
    unapplied: seq<PatchName>,
    hidden: seq<PatchName>,
    patches: map<PatchName, PatchDescriptor>)

  datatype SchemaError =
    | UnsupportedVersion(found: int, expected: int)
    | InvalidPrevOid(text: string)
    | InvalidHeadOid(text: string)
    | InvalidPatchOid(patch: PatchName, text: string)

  /** Every patch entry's oid string parses. */
  ghost predicate AllPatchOidsParse(codec: OidCodec, patches: map<PatchName, PatchDoc>) {
    forall n :: n in patches ==> codec.parse(patches[n].oid).Some?
  }

  /** `table` has exactly the names of `patches`, each with the parse of its oid string. */
  ghost predicate ParsedTable(codec: OidCodec, patches: map<PatchName, PatchDoc>,
                              table: map<PatchName, RawPatchDescriptor>) {
    && table.Keys == patches.Keys
    && forall n :: n in table ==> codec.parse(patches[n].oid) == Some(table[n].oid)
  }

  /** `doc` has exactly the names of `patches`, each with its commit id formatted. */
  ghost predicate FormattedTable(codec: OidCodec, patches: map<PatchName, PatchDescriptor>,
                                 doc: map<PatchName, PatchDoc>) {
    && doc.Keys == patches.Keys
    && forall n :: n in doc ==> doc[n].oid == codec.format(patches[n].commit.id)
  }

  function DecodePrev(codec: OidCodec, prev: Option<string>): (r: Result<Option<Oid>, SchemaError>)
    ensures prev.None? ==> r == Success(None)
    ensures prev.Some? && codec.parse(prev.value).None? ==> r == Failure(InvalidPrevOid(prev.value))
    ensures prev.Some? && codec.parse(prev.value).Some? ==> r == Success(codec.parse(prev.value))
  {
    match prev
    case None => Success(None)
    case Some(text) =>
      match codec.parse(text)
      case None => Failure(InvalidPrevOid(text))
      case Some(oid) => Success(Some(oid))
  }

  function DecodeHead(codec: OidCodec, head: string): (r: Result<Oid, SchemaError>)
    ensures codec.parse(head).None? <==> r == Failure(InvalidHeadOid(head))
    ensures r.Success? ==> codec.parse(head) == Some(r.value)
    ensures codec.parse(head).Some? ==> r == Success(codec.parse(head).value)
  {
    match codec.parse(head)
    case None => Failure(InvalidHeadOid(head))
    case Some(oid) => Success(oid)
  }

  /** The patch entries of `patches` named by `names`, validated in the order of `names`;
      the first entry whose oid does not parse is reported. */
  function DecodePatches(codec: OidCodec, patches: map<PatchName, PatchDoc>, names: seq<PatchName>)
    : (r: Result<map<PatchName, RawPatchDescriptor>, SchemaError>)
    requires forall i :: 0 <= i < |names| ==> names[i] in patches
    ensures r.Success? <==> forall i :: 0 <= i < |names| ==> codec.parse(patches[names[i]].oid).Some?
    ensures r.Success? ==> forall n :: n in r.value <==> n in names
    ensures r.Success? ==> forall n :: n in r.value ==> codec.parse(patches[n].oid) == Some(r.value[n].oid)
    ensures r.Failure? ==>
      exists i :: 0 <= i < |names|
        && r.error == InvalidPatchOid(names[i], patches[names[i]].oid)
        && codec.parse(patches[names[i]].oid).None?
        && forall j :: 0 <= j < i ==> codec.parse(patches[names[j]].oid).Some?
    decreases |names|
  {
    if names == [] then Success(map[])
    else
      var name := names[0];
      var text := patches[name].oid;
      match codec.parse(text)
      case None => Failure(InvalidPatchOid(name, text))
      case Some(oid) =>
        var rest :- DecodePatches(codec, patches, names[1..]);
        Success(rest[name := RawPatchDescriptor(oid)])
  }

  /** `Deserialize for RawStackState`, after the structural decode into `DeserState`. */
  function Decode(codec: OidCodec, doc: StateDoc): (r: Result<RawStackState, SchemaError>)
    ensures doc.version != STACK_STATE_VERSION ==> r == Failure(UnsupportedVersion(doc.version, STACK_STATE_VERSION))
    ensures r.Success? ==> doc.version == STACK_STATE_VERSION
    ensures r.Success? ==>
      && r.value.applied == doc.applied
      && r.value.unapplied == doc.unapplied
      && r.value.hidden == doc.hidden
    ensures r.Success? ==> (r.value.prev.None? <==> doc.prev.None?)
    ensures r.Success? && doc.prev.Some? ==> codec.parse(doc.prev.value) == r.value.prev
    ensures r.Success? ==> codec.parse(doc.head) == Some(r.value.head)
    ensures r.Success? ==> ParsedTable(codec, doc.patches, r.value.patches)
    ensures doc.version == STACK_STATE_VERSION && doc.prev.Some? && codec.parse(doc.prev.value).None? ==>
      r == Failure(InvalidPrevOid(doc.prev.value))
    ensures doc.version == STACK_STATE_VERSION && (doc.prev.Some? ==> codec.parse(doc.prev.value).Some?) ==>
      (codec.parse(doc.head).None? ==> r == Failure(InvalidHeadOid(doc.head)))
    ensures r.Success? <==>
      && doc.version == STACK_STATE_VERSION
      && (doc.prev.Some? ==> codec.parse(doc.prev.value).Some?)
      && codec.parse(doc.head).Some?
      && AllPatchOidsParse(codec, doc.patches)
    ensures (&& doc.version == STACK_STATE_VERSION
             && (doc.prev.Some? ==> codec.parse(doc.prev.value).Some?)
             && codec.parse(doc.head).Some?
             && !AllPatchOidsParse(codec, doc.patches)) ==>
      && r.Failure? && r.error.InvalidPatchOid?
      && r.error.patch in doc.patches
      && r.error.text == doc.patches[r.error.patch].oid
      && codec.parse(r.error.text).None?
  {
    if doc.version != STACK_STATE_VERSION then
      Failure(UnsupportedVersion(doc.version, STACK_STATE_VERSION))
    else
      var prev :- DecodePrev(codec, doc.prev);
      var head :- DecodeHead(codec, doc.head);
      var patches :- DecodePatches(codec, doc.patches, SortedNames(doc.patches.Keys));
      Success(RawStackState(prev, head, doc.applied, doc.unapplied, doc.hidden, patches))
  }

  /** `Serialize for StackState`: the document written when the stack is saved. */
  function Encode(codec: OidCodec, state: StackState): (doc: StateDoc)
    ensures doc.version == STACK_STATE_VERSION
    ensures doc.prev.Some? <==> state.prev.Some?
    ensures state.prev.Some? ==> doc.prev.value == codec.format(state.prev.value.id)
    ensures doc.head == codec.format(state.head.id)
    ensures doc.applied == state.applied && doc.unapplied == state.unapplied && doc.hidden == state.hidden
    ensures FormattedTable(codec, state.patches, doc.patches)
  {
    var prev := match state.prev case Some(c) => Some(codec.format(c.id)) case None => None;
    var patches := map n | n in state.patches :: PatchDoc(codec.format(state.patches[n].commit.id));
    StateDoc(STACK_STATE_VERSION, prev, codec.format(state.head.id),
             state.applied, state.unapplied, state.hidden, patches)
  }

  predicate SortedByName<V>(entries: seq<(PatchName, V)>) {
    forall i, j :: 0 <= i < j < |entries| ==> NameLess(entries[i].0, entries[j].0)
  }

  /** The `patches` object as serialised: its entries in the order of the map's keys. */
  function PatchEntries(patches: map<PatchName, PatchDoc>): (entries: seq<(PatchName, PatchDoc)>)
    ensures |entries| == |patches|
    ensures forall i :: 0 <= i < |entries| ==> entries[i].0 in patches && entries[i].1 == patches[entries[i].0]
    ensures SortedByName(entries)
    ensures forall n :: n in patches ==> exists i :: 0 <= i < |entries| && entries[i].0 == n
  {
    var names := SortedNames(patches.Keys);
    EntriesInKeyOrder(patches, names);
    EntriesOf(patches, names)
  }

  lemma EntriesInKeyOrder(patches: map<PatchName, PatchDoc>, names: seq<PatchName>)
    requires names == SortedNames(patches.Keys)
    ensures var entries := EntriesOf(patches, names);
      && |entries| == |patches|
      && (forall i :: 0 <= i < |entries| ==> entries[i].0 in patches && entries[i].1 == patches[entries[i].0])
      && SortedByName(entries)
      && (forall n :: n in patches ==> exists i :: 0 <= i < |entries| && entries[i].0 == n)
  {
    EntriesSorted(patches, names);
    EntriesCover(patches, names);
  }

  function EntriesOf(patches: map<PatchName, PatchDoc>, names: seq<PatchName>): (entries: seq<(PatchName, PatchDoc)>)
    requires forall i :: 0 <= i < |names| ==> names[i] in patches
    ensures |entries| == |names|
    ensures forall i :: 0 <= i < |names| ==> entries[i] == (names[i], patches[names[i]])
  {
    if names == [] then [] else [(names[0], patches[names[0]])] + EntriesOf(patches, names[1..])
  }

  lemma EntriesSorted(patches: map<PatchName, PatchDoc>, names: seq<PatchName>)
    requires forall i :: 0 <= i < |names| ==> names[i] in patches
    requires StrictlyAscending(names)
    ensures SortedByName(EntriesOf(patches, names))
  {
    var entries := EntriesOf(patches, names);
    forall i, j | 0 <= i < j < |entries|
      ensures NameLess(entries[i].0, entries[j].0)
    {
      assert entries[i].0 == names[i] && entries[j].0 == names[j];
    }
  }

  lemma EntriesCover(patches: map<PatchName, PatchDoc>, names: seq<PatchName>)
    requires forall n :: n in names <==> n in patches
    requires |names| == |patches.Keys|
    ensures |EntriesOf(patches, names)| == |patches|
    ensures forall i :: 0 <= i < |names| ==> EntriesOf(patches, names)[i].0 in patches
    ensures forall n :: n in patches ==> exists i :: 0 <= i < |names| && EntriesOf(patches, names)[i].0 == n
  {
    var entries := EntriesOf(patches, names);
    assert |patches| == |patches.Keys|;
    forall n | n in patches
      ensures exists i :: 0 <= i < |names| && entries[i].0 == n
    {
      var i :| 0 <= i < |names| && names[i] == n;
      assert entries[i].0 == n;
    }
  }
}
