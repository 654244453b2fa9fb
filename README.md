# CoPilot command protocol in Dafny

CoPilot is an Xcode plugin that lets peers on a local network edit one
document together. Peers send each other `Command` messages: a full document
snapshot (`Doc`), a changeset (`Update`), a version hash (`Version`, unused),
a request for the document (`GetDoc`), a request for the version (`GetVersion`,
unused), a peer name (`Name`) and a remote cursor (`Cursor`). `Undefined` is
both a command and what the decoder falls back to.

This project models `CoPilot/Command.swift`:

- the closed enum with its payloads and its convenience constructors;
- the optional accessors, which return a payload only for the matching variant;
- `typeName`, the tag string of each variant;
- `serialize()`, which writes the tag under `"typeName"` and, for the five
  payload variants, the payload under `"data"`, through `NSKeyedArchiver`;
- `init(data:)`, the nested, exhaustive dispatch that decodes such an archive
  and falls back to `Undefined`;
- `description`.

Modules:

- `Wrappers`: `Option`, which stands for Swift's `T?`.
- `Tags`: the `EncodingKeys` and `TypeNames` string enumerations.
- `Payloads`: `Document`, `Changeset`, `Selection` and `Color`, and identity
  encodings that stand in for their serialisers.
- `KeyedArchive`: the key/value view of an archive. It has an `Archiver`
  class that collects objects and yields them on `FinishEncoding`, and the
  unarchiver's reads by key.
- `Interpolation`: what Swift's `\(n)` prints for an `Int`, with a parser
  that reads it back.
- `Commands`: the protocol itself.
- `CommandLemmas`: the properties, and the unit tests of
  `CoPilotTests/CommandTests.swift` restated as lemmas.

The archive is a map from key to `Str(string)` or `Data(blob)`. A blob is the
archived form of one payload type. The forced casts `obj as! NSData` and
`obj as! NSString` in `init(data:)` trap when the payload has the wrong shape.
The model turns this into the precondition `CastsSucceed` of `Decode`, so it
does not claim that decoding is total. Swift's `Int` for the range fields
becomes an unbounded `int`; a negative value prints with a leading `-`.

## Model

| member | source | states |
|---|---|---|
| Commands.FromDocument | CoPilot/Command.swift:23-25 | `init(document:)` makes a command whose `document` accessor returns that document |
| Commands.FromUpdate | CoPilot/Command.swift:27-29 | `init(update:)` makes a command whose `changes` accessor returns that changeset |
| Commands.FromVersion | CoPilot/Command.swift:31-33 | `init(version:)` makes a command whose `version` accessor returns that hash |
| Commands.FromName | CoPilot/Command.swift:35-37 | `init(name:)` makes a command whose `name` accessor returns that name |
| Commands.FromSelection | CoPilot/Command.swift:39-41 | `init(selection:)` makes a command whose `selection` accessor returns that selection |
| Commands.DocumentOf | CoPilot/Command.swift:43-50 | returns a value exactly for `Doc`, and that value is the carried document |
| Commands.ChangesOf | CoPilot/Command.swift:52-59 | returns a value exactly for `Update`, and that value is the carried changeset |
| Commands.VersionOf | CoPilot/Command.swift:61-68 | returns a value exactly for `Version`, and that value is the carried hash |
| Commands.NameOf | CoPilot/Command.swift:70-77 | returns a value exactly for `Name`, and that value is the carried name |
| Commands.SelectionOf | CoPilot/Command.swift:79-86 | returns a value exactly for `Cursor`, and that value is the carried selection |
| CommandLemmas.AccessorsExclusive | CoPilot/Command.swift:43-86 | a payload variant answers exactly one accessor; `Undefined`, `GetDoc` and `GetVersion` answer none |
| Tags.RawValue | CoPilot/Command.swift:93-102 | the raw value of each `TypeNames` case is a single non-empty word (distinctness is in RawValueInjective) |
| Tags.RawValueInjective | CoPilot/Command.swift:93-102 | the eight tag strings are distinct, non-empty and contain no space |
| Commands.TypeName | CoPilot/Command.swift:104-123 | the tag string of each variant is a single non-empty word (that it tells variants apart is in TypeNameInjective) |
| CommandLemmas.TypeNameInjective | CoPilot/Command.swift:104-123 | two commands have the same `typeName` if and only if they are the same variant |
| KeyedArchive.Archiver.constructor | CoPilot/Command.swift:173-174 | a new archiver has collected nothing and its output buffer is empty |
| KeyedArchive.Archiver.EncodeObject | CoPilot/Command.swift:175-186 | `encodeObject(_:forKey:)` adds or replaces the entry under the key and leaves the buffer alone |
| KeyedArchive.Archiver.FinishEncoding | CoPilot/Command.swift:189 | `finishEncoding()` puts the collected entries into the buffer and closes the archiver |
| Commands.Encoding | CoPilot/Command.swift:172-191 | the archive always holds the tag under "typeName"; it holds "data" exactly for `Doc`, `Update`, `Version`, `Name`, `Cursor` |
| Commands.Serialize | CoPilot/Command.swift:172-191 | driving the archiver entry by entry and finishing it yields exactly `Encoding(c)` |
| KeyedArchive.DecodeObject | CoPilot/Command.swift:135 | `decodeObjectForKey` returns a value exactly when the key is present, and that value is the stored object |
| KeyedArchive.DecodeString | CoPilot/Command.swift:133 | the conditional cast `as? String` succeeds exactly when a string is stored under the key |
| Commands.PayloadFits | CoPilot/Command.swift:136-154 | the payload has the shape the tag's forced cast expects: a string exactly for "Version" and "Name", a blob of the tag's payload type for "Doc", "Update", "Cursor"; under any other tag, where no cast is made, every payload fits |
| Commands.CastsSucceed | CoPilot/Command.swift:133-154 | the archives on which none of `init(data:)`'s forced casts traps: always when the tag or the payload is missing, otherwise exactly when the payload fits the tag |
| Commands.Decode | CoPilot/Command.swift:130-170 | a missing or non-string tag gives `Undefined`; any other result has the archived tag, and it has a payload exactly when the archive has "data" |
| CommandLemmas.SerializeRoundTrip | CoPilot/Command.swift:130-191 | decoding the archive `serialize()` writes never traps, and it gives back the same command with the same tag and payload |
| CommandLemmas.EncodingInvertsDecode | CoPilot/Command.swift:130-191 | an archive with only the two keys that decodes to a command other than `Undefined` is exactly that command's encoding |
| CommandLemmas.DecodeUndefinedIff | CoPilot/Command.swift:133-169 | the result is `Undefined` exactly in three cases: no string tag; data under a tag with no payload; no data under a tag other than "GetDoc"/"GetVersion" |
| CommandLemmas.UndefinedTagDecodesToUndefined | CoPilot/Command.swift:152-163 | an archive tagged "Undefined" reaches a default branch and decodes to `Undefined`, with or without data |
| CommandLemmas.FallbackExamples | CoPilot/Command.swift:152-168 | "GetDoc" with data, "Name" without data, and a missing tag all decode to `Undefined` |
| Commands.Description | CoPilot/Command.swift:198-209 | the description starts with "." and the tag; only `Update`, `Name` and `Cursor` add anything after it, and that starts with a space |
| CommandLemmas.DescriptionForms | CoPilot/Command.swift:198-209 | the forms are ".Name <name>", ".Cursor <location> <length>", ".Update <changeset>", and "." plus the tag for every other variant |
| CommandLemmas.DescriptionShowsTypeName | CoPilot/Command.swift:198-209 | the tag can be read back from a description: it runs from after the "." up to the first space |
| CommandLemmas.DescriptionDeterminesVariant | CoPilot/Command.swift:198-209 | two commands with equal descriptions are the same variant |
| CommandLemmas.NameDescriptionDeterminesName | CoPilot/Command.swift:202-203 | two `Name` descriptions are equal if and only if the names are equal |
| CommandLemmas.CursorDescriptionDeterminesRange | CoPilot/Command.swift:204-205 | two `Cursor` descriptions are equal if and only if the locations and lengths are equal |
| Interpolation.NatToString | CoPilot/Command.swift:205 | the numeral of a non-negative number is non-empty, all digits, with no leading zero |
| Interpolation.IntToString | CoPilot/Command.swift:205 | `\(n)` for an `Int` is non-empty, has no space, and starts with '-' exactly when the number is negative |
| Interpolation.ParseNatToString | CoPilot/Command.swift:205 | reading a non-negative numeral back gives the number |
| Interpolation.IntToStringRoundTrip | CoPilot/Command.swift:205 | reading any `Int` numeral back gives the number |
| Interpolation.IntToStringInjective | CoPilot/Command.swift:205 | distinct integers print differently |
| CommandLemmas.SerializeDocTest | CoPilotTests/CommandTests.swift:16-24 | a decoded `Doc("foo")` describes itself as ".Doc" and carries the text "foo" |
| CommandLemmas.SerializeUpdateTest | CoPilotTests/CommandTests.swift:26-34 | a decoded `Update` has tag "Update" and carries the same changeset |
| CommandLemmas.SerializeUndefinedTest | CoPilotTests/CommandTests.swift:40-47 | a decoded `Undefined` has tag "Undefined" and no document or changeset |
| CommandLemmas.SerializeVersionTest | CoPilotTests/CommandTests.swift:49-57 | a decoded `Version("hash")` describes itself as ".Version", carries "hash", and has no document or changeset |
| CommandLemmas.SerializeGetDocAndGetVersionTest | CoPilotTests/CommandTests.swift:59-77 | decoded `GetDoc` and `GetVersion` describe themselves as ".GetDoc" and ".GetVersion" and have no document, changeset or version |
| CommandLemmas.SerializeNameTest | CoPilotTests/CommandTests.swift:79-87 | a decoded `Name("foo")` describes itself as ".Name foo", carries "foo", and has no document or changeset |
| CommandLemmas.SerializeCursorTest | CoPilotTests/CommandTests.swift:89-105 | a decoded cursor at location 1, length 37 describes itself as ".Cursor 1 37" and carries the same location, length, id and colour |

## Left out

- The payload serialisers `Document.serialize`/`Document(data:)`, `Changeset.serialize`/`Changeset(data:)` and `Selection.serialize`/`Selection(data:)` are not part of this model. Each is an identity encoding into a `Blob`. `CastsSucceed` asks for a blob of the expected type, not just any `NSData`, because what those initialisers do with foreign bytes is not known here.
- The byte format of `NSKeyedArchiver`/`NSKeyedUnarchiver` is a foreign library. Only its key/value view is modelled.
- `Changeset.description`, which the `Update` form interpolates, is not part of this model. `Description` takes it as a parameter.
- `Document.hash` is an MD5 digest computed by code that is not part of this model. A document is modelled as its text alone.
- The `Selection` colour is an `NSColor` with floating-point components. It is kept as opaque archived bytes. The round trip preserves it, but the component values checked in CommandTests.swift:99-101 are not modelled.
- SerializeUpdateTest: the test also applies the decoded changeset and expects "bar" (CommandTests.swift:35-37). Patch application is not part of this model, so the lemma stops at the decoded changeset.
- A forced cast that traps is not modelled as behaviour. `Decode` requires `CastsSucceed` instead.
- The diff, patch, merge and cursor-remapping engine, the broadcast server, Bonjour resolution and the Xcode plugin glue are outside this file. Their code is not part of this model.
