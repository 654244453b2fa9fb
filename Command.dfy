/**
 * The `Command` wire protocol: a closed tagged union of the messages peers
 * exchange, its convenience constructors, per-variant accessors, the tag
 * string, the keyed-archive encoder and decoder, and the human-readable
 * description.
 */
module Commands {
  import opened Wrappers
  import opened Payloads
  import opened KeyedArchive
  import Tags
  import Interpolation

  datatype Command =
    | Undefined
    | Doc(doc: Document)
    | Update(changes: Changeset)
    | Version(hash: string)        // unused by the peers
    | GetDoc
    | GetVersion                   // unused by the peers
    | Name(name: string)
    | Cursor(selection: Selection)

  /** The variants that carry a payload, written under the "data" key. */
  predicate HasPayload(c: Command)
  {
    c.Doc? || c.Update? || c.Version? || c.Name? || c.Cursor?
  }

  /** The two commands are the same variant, whatever their payloads. */
  predicate SameVariant(c1: Command, c2: Command)
  {
    || (c1.Undefined? && c2.Undefined?)
    || (c1.Doc? && c2.Doc?)
    || (c1.Update? && c2.Update?)
    || (c1.Version? && c2.Version?)
    || (c1.GetDoc? && c2.GetDoc?)
    || (c1.GetVersion? && c2.GetVersion?)
    || (c1.Name? && c2.Name?)
    || (c1.Cursor? && c2.Cursor?)
  }

  // Convenience constructors

  /** `init(document:)` */
  function FromDocument(d: Document): (c: Command)
    ensures DocumentOf(c) == Some(d)
  {
    Doc(d)
  }

  /** `init(update:)` */
  function FromUpdate(changes: Changeset): (c: Command)
    ensures ChangesOf(c) == Some(changes)
  {
    Update(changes)
  }

  /** `init(version:)` */
  function FromVersion(hash: string): (c: Command)
    ensures VersionOf(c) == Some(hash)
  {
    Version(hash)
  }

  /** `init(name:)` */
  function FromName(name: string): (c: Command)
    ensures NameOf(c) == Some(name)
  {
    Name(name)
  }

  /** `init(selection:)` */
  function FromSelection(s: Selection): (c: Command)
    ensures SelectionOf(c) == Some(s)
  {
    Cursor(s)
  }

  // Optional accessors: the payload of the matching variant, nil otherwise

  /** `document` */
  function DocumentOf(c: Command): (r: Option<Document>)
    ensures r.Some? <==> c.Doc?
    ensures r.Some? ==> c == Doc(r.value)
  {
    match c
    case Doc(d) => Some(d)
    case _ => None
  }

  /** `changes` */
  function ChangesOf(c: Command): (r: Option<Changeset>)
    ensures r.Some? <==> c.Update?
    ensures r.Some? ==> c == Update(r.value)
  {
    match c
    case Update(changes) => Some(changes)
    case _ => None
  }

  /** `version` */
  function VersionOf(c: Command): (r: Option<string>)
    ensures r.Some? <==> c.Version?
    ensures r.Some? ==> c == Version(r.value)
  {
    match c
    case Version(hash) => Some(hash)
    case _ => None
  }

  /** `name` */
  function NameOf(c: Command): (r: Option<string>)
    ensures r.Some? <==> c.Name?
    ensures r.Some? ==> c == Name(r.value)
  {
    match c
    case Name(name) => Some(name)
    case _ => None
  }

  /** `selection` */
  function SelectionOf(c: Command): (r: Option<Selection>)
    ensures r.Some? <==> c.Cursor?
    ensures r.Some? ==> c == Cursor(r.value)
  {
    match c
    case Cursor(s) => Some(s)
    case _ => None
  }

  /** `typeName`: the raw value of the variant's `TypeNames` case, a single non-empty word. */
  function TypeName(c: Command): (r: string)
    ensures |r| > 0 && ' ' !in r
  {
    match c
    case Undefined => Tags.RawValue(Tags.Undefined)
    case Doc(_) => Tags.RawValue(Tags.Doc)
    case Update(_) => Tags.RawValue(Tags.Update)
    case Version(_) => Tags.RawValue(Tags.Version)
    case GetDoc => Tags.RawValue(Tags.GetDoc)
    case GetVersion => Tags.RawValue(Tags.GetVersion)
    case Name(_) => Tags.RawValue(Tags.Name)
    case Cursor(_) => Tags.RawValue(Tags.Cursor)
  }

  // Encoding

  /**
   * The archive `serialize()` produces: the tag under "typeName" always, and
   * the payload under "data" for exactly the variants that carry one.
   */
  function Encoding(c: Command): (a: Archive)
    ensures a.Keys == if HasPayload(c) then {Tags.TypeNameKey, Tags.DataKey} else {Tags.TypeNameKey}
    ensures a[Tags.TypeNameKey] == Str(TypeName(c))
  {
    var tagged := map[Tags.TypeNameKey := Str(TypeName(c))];
    match c
    case Doc(d) => tagged[Tags.DataKey := Data(SerializeDocument(d))]
    case Update(changes) => tagged[Tags.DataKey := Data(SerializeChangeset(changes))]
    case Version(hash) => tagged[Tags.DataKey := Str(hash)]
    case Name(name) => tagged[Tags.DataKey := Str(name)]
    case Cursor(s) => tagged[Tags.DataKey := Data(SerializeSelection(s))]
    case _ => tagged
  }

  /** `serialize()`: drives an archiver entry by entry and returns its finished output. */
  method Serialize(c: Command) returns (data: Archive)
    ensures data == Encoding(c)
  {
    var archiver := new Archiver();
    archiver.EncodeObject(Str(TypeName(c)), Tags.TypeNameKey);
    match c {
      case Doc(d) => archiver.EncodeObject(Data(SerializeDocument(d)), Tags.DataKey);
      case Update(changes) => archiver.EncodeObject(Data(SerializeChangeset(changes)), Tags.DataKey);
      case Version(hash) => archiver.EncodeObject(Str(hash), Tags.DataKey);
      case Name(name) => archiver.EncodeObject(Str(name), Tags.DataKey);
      case Cursor(s) => archiver.EncodeObject(Data(SerializeSelection(s)), Tags.DataKey);
      case _ =>
    }
    archiver.FinishEncoding();
    data := archiver.output;
  }

  // Decoding

  /** The tags that `init(data:)` decodes into a payload-carrying variant. */
  const PayloadTypeNames: set<string> :=
    {Tags.RawValue(Tags.Doc), Tags.RawValue(Tags.Update), Tags.RawValue(Tags.Version),
     Tags.RawValue(Tags.Name), Tags.RawValue(Tags.Cursor)}

  /** The tags that `init(data:)` decodes into a variant without payload. */
  const BareTypeNames: set<string> := {Tags.RawValue(Tags.GetDoc), Tags.RawValue(Tags.GetVersion)}

  /**
   * The forced casts `obj as! NSData` and `obj as! NSString` succeed: the
   * payload is the archived form of the tag's payload type for "Doc",
   * "Update" and "Cursor", and a string for "Version" and "Name". Under any
   * other tag no cast is made, so any payload fits.
   */
  predicate PayloadFits(tag: string, obj: Value)
    ensures tag !in PayloadTypeNames ==> PayloadFits(tag, obj)
    ensures tag in PayloadTypeNames && PayloadFits(tag, obj) ==>
              (obj.Str? <==> tag == Tags.RawValue(Tags.Version) || tag == Tags.RawValue(Tags.Name))
  {
    && (tag == Tags.RawValue(Tags.Doc) ==> obj.Data? && obj.blob.DocumentBlob?)
    && (tag == Tags.RawValue(Tags.Update) ==> obj.Data? && obj.blob.ChangesetBlob?)
    && (tag == Tags.RawValue(Tags.Version) ==> obj.Str?)
    && (tag == Tags.RawValue(Tags.Name) ==> obj.Str?)
    && (tag == Tags.RawValue(Tags.Cursor) ==> obj.Data? && obj.blob.SelectionBlob?)
  }

  /**
   * An archive on which `init(data:)` does not trap in a forced cast. A cast
   * is made only when both a string tag and a payload are present.
   */
  predicate CastsSucceed(a: Archive)
    ensures DecodeString(a, Tags.TypeNameKey).None? ==> CastsSucceed(a)
    ensures Tags.DataKey !in a ==> CastsSucceed(a)
    ensures DecodeString(a, Tags.TypeNameKey).Some? && Tags.DataKey in a ==>
              (CastsSucceed(a) <==> PayloadFits(a[Tags.TypeNameKey].s, a[Tags.DataKey]))
  {
    match (DecodeString(a, Tags.TypeNameKey), DecodeObject(a, Tags.DataKey))
    case (Some(tag), Some(obj)) => PayloadFits(tag, obj)
    case _ => true
  }

  /**
   * `init(data:)`: read the tag; with a payload present, dispatch among the
   * payload variants, without one among `GetDoc` and `GetVersion`; anything
   * else, and a missing or non-string tag, yields `Undefined`. Whatever it
   * decodes other than `Undefined` has the archived tag, and carries a
   * payload exactly when the archive has one.
   */
  function Decode(a: Archive): (c: Command)
    requires CastsSucceed(a)
    ensures DecodeString(a, Tags.TypeNameKey).None? ==> c == Undefined
    ensures !c.Undefined? ==> DecodeString(a, Tags.TypeNameKey) == Some(TypeName(c))
    ensures !c.Undefined? ==> (HasPayload(c) <==> Tags.DataKey in a)
  {
    match DecodeString(a, Tags.TypeNameKey)
    case None => Undefined
    case Some(tag) =>
      match DecodeObject(a, Tags.DataKey)
      case Some(obj) =>
        if tag == Tags.RawValue(Tags.Doc) then Doc(DocumentFromData(obj.blob))
        else if tag == Tags.RawValue(Tags.Update) then Update(ChangesetFromData(obj.blob))
        else if tag == Tags.RawValue(Tags.Version) then Version(obj.s)
        else if tag == Tags.RawValue(Tags.Name) then Name(obj.s)
        else if tag == Tags.RawValue(Tags.Cursor) then Cursor(SelectionFromData(obj.blob))
        else Undefined
      case None =>
        if tag == Tags.RawValue(Tags.GetDoc) then GetDoc
        else if tag == Tags.RawValue(Tags.GetVersion) then GetVersion
        else Undefined
  }

  // Description

  /**
   * `description`: "." and the tag, then for `Update` a space and the
   * changeset's own description (`changesDescription`, which is not part of
   * this model), for `Name` a space and the name, for `Cursor` the range's
   * location and length, each after a space. The tag is always a prefix,
   * and only those three variants add anything after it.
   */
  function Description(c: Command, changesDescription: Changeset -> string): (r: string)
    ensures |r| > |TypeName(c)| && r[..|TypeName(c)| + 1] == "." + TypeName(c)
    ensures (c.Update? || c.Name? || c.Cursor?) <==> |r| > |TypeName(c)| + 1
    ensures |r| > |TypeName(c)| + 1 ==> r[|TypeName(c)| + 1] == ' '
  {
    match c
    case Update(changes) => "." + TypeName(c) + " " + changesDescription(changes)
    case Name(name) => "." + TypeName(c) + " " + name
    case Cursor(s) =>
      "." + TypeName(c) + " " + Interpolation.IntToString(s.location) + " " + Interpolation.IntToString(s.length)
    case _ => "." + TypeName(c)
  }

}
