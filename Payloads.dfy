/**
 * The values a command carries. Their own serialisers (`Document.serialize`,
 * `Changeset.serialize`, `Selection.serialize` and the matching
 * `init(data:)` initialisers) are not part of this model: each is replaced by
 * an identity encoding into a `Blob`, the archived form of that payload.
 */
module Payloads {

  newtype byte = b: int | 0 <= b < 0x100

  /** A document snapshot; its MD5 content hash is not part of this model. */
  datatype Document = Document(text: string)

  /** A bundle of patches, kept as the opaque bytes its serialiser produces. */
  datatype Changeset = Changeset(serialized: seq<byte>)

  /** An `NSColor`, kept as opaque archived bytes (its float components are not modelled). */
  datatype Color = Color(archived: seq<byte>)

  /** A remote cursor: an `NSRange` (location, length), a UUID string and a colour. */
  datatype Selection = Selection(location: int, length: int, id: string, color: Color)

  /** The `NSData` a payload serialiser produces, one shape per payload type. */
  datatype Blob =
    | DocumentBlob(text: string)
    | ChangesetBlob(bytes: seq<byte>)
    | SelectionBlob(location: int, length: int, id: string, color: Color)

  function SerializeDocument(d: Document): Blob
  {
    DocumentBlob(d.text)
  }

  function DocumentFromData(b: Blob): Document
    requires b.DocumentBlob?
  {
    Document(b.text)
  }

  function SerializeChangeset(ch: Changeset): Blob
  {
    ChangesetBlob(ch.serialized)
  }

  function ChangesetFromData(b: Blob): Changeset
    requires b.ChangesetBlob?
  {
    Changeset(b.bytes)
  }

  function SerializeSelection(s: Selection): Blob
  {
    SelectionBlob(s.location, s.length, s.id, s.color)
  }

  function SelectionFromData(b: Blob): Selection
    requires b.SelectionBlob?
  {
    Selection(b.location, b.length, b.id, b.color)
  }

}
