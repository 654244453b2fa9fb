/**
 * Properties of the `Command` protocol: constructors and accessors agree,
 * tags identify variants, decoding inverts encoding, decoding falls back to
 * `Undefined` in exactly the documented cases, and descriptions keep the tag
 * and the payloads they show. The last group restates the unit tests of
 * CommandTests.swift.
 */
module CommandLemmas {
  import opened Wrappers
  import opened Payloads
  import opened KeyedArchive
  import opened Commands
  import Tags
  import Interpolation

  // Accessors

  /** How many of the five optional accessors return a value. */
  function PresentAccessors(c: Command): nat
  {
    (if DocumentOf(c).Some? then 1 else 0) + (if ChangesOf(c).Some? then 1 else 0)
    + (if VersionOf(c).Some? then 1 else 0) + (if NameOf(c).Some? then 1 else 0)
    + (if SelectionOf(c).Some? then 1 else 0)
  }

  /**
   * A payload-carrying command answers exactly one accessor; `Undefined`,
   * `GetDoc` and `GetVersion` answer none.
   */
  lemma AccessorsExclusive(c: Command)
    ensures PresentAccessors(c) == if HasPayload(c) then 1 else 0
  {
  }

  // Tags

  /** `typeName` tells the eight variants apart, and only them. */
  lemma TypeNameInjective(c1: Command, c2: Command)
    ensures TypeName(c1) == TypeName(c2) <==> SameVariant(c1, c2)
    ensures |TypeName(c1)| > 0 && ' ' !in TypeName(c1)
  {
  }

  // Round trips

  /** Decoding what `serialize()` wrote gives back the same command, payload included. */
  lemma SerializeRoundTrip(c: Command)
    ensures CastsSucceed(Encoding(c))
    ensures Decode(Encoding(c)) == c
  {
  }

  /**
   * Conversely, an archive holding only the two keys that decodes to a
   * command other than `Undefined` is exactly that command's encoding.
   */
  lemma EncodingInvertsDecode(a: Archive)
    requires CastsSucceed(a)
    requires a.Keys <= {Tags.TypeNameKey, Tags.DataKey}
    requires !Decode(a).Undefined?
    ensures Encoding(Decode(a)) == a
  {
  }

  // Fallbacks to Undefined

  /**
   * The three ways an archive decodes to `Undefined`: no string under
   * "typeName"; a payload under a tag that is not a payload variant's; no
   * payload under a tag other than "GetDoc" and "GetVersion".
   */
  predicate FallsBack(a: Archive)
  {
    match DecodeString(a, Tags.TypeNameKey)
    case None => true
    case Some(tag) => if Tags.DataKey in a then tag !in PayloadTypeNames else tag !in BareTypeNames
  }

  lemma DecodeUndefinedIff(a: Archive)
    requires CastsSucceed(a)
    ensures Decode(a).Undefined? <==> FallsBack(a)
  {
  }

  /** An archive tagged "Undefined" decodes to `Undefined`, with or without a payload. */
  lemma UndefinedTagDecodesToUndefined(a: Archive)
    requires DecodeString(a, Tags.TypeNameKey) == Some("Undefined")
    ensures CastsSucceed(a) && Decode(a) == Undefined
  {
  }

  /** Instances of the fallbacks: "GetDoc" with data, "Name" without, and a missing tag. */
  lemma FallbackExamples(v: Value)
    ensures Decode(map[Tags.TypeNameKey := Str("GetDoc"), Tags.DataKey := v]) == Undefined
    ensures Decode(map[Tags.TypeNameKey := Str("Name")]) == Undefined
    ensures Decode(map[Tags.DataKey := v]) == Undefined
  {
  }

  // Description

  /**
   * The three forms of `description`, plus the `Update` form that shows the
   * changeset's own description.
   */
  lemma DescriptionForms(c: Command, changesDescription: Changeset -> string)
    ensures !(c.Update? || c.Name? || c.Cursor?) ==> Description(c, changesDescription) == "." + TypeName(c)
    ensures c.Name? ==> Description(c, changesDescription) == ".Name " + c.name
    ensures c.Cursor? ==>
              Description(c, changesDescription)
              == ".Cursor " + Interpolation.IntToString(c.selection.location) + " "
                 + Interpolation.IntToString(c.selection.length)
    ensures c.Update? ==> Description(c, changesDescription) == ".Update " + changesDescription(c.changes)
  {
    // "." + tag + " " is one literal only after the concatenation is regrouped
    match c
    case Update(changes) =>
      assert "." + TypeName(c) + " " == ".Update ";
    case Name(name) =>
      assert "." + TypeName(c) + " " == ".Name ";
    case Cursor(s) =>
      assert "." + TypeName(c) + " " == ".Cursor ";
    case _ =>
  }

  /** The tag can be read back from a description: it runs from after the "." to the first space. */
  lemma DescriptionShowsTypeName(c: Command, changesDescription: Changeset -> string)
    ensures var r := Description(c, changesDescription);
      TypeName(c) == r[1..1 + Interpolation.FirstSpace(r[1..])]
  {
    var r := Description(c, changesDescription);
    var t := TypeName(c);
    assert r[1..] == t + r[1 + |t|..];
    Interpolation.WordEnds(t, r[1 + |t|..]);
  }

  /** Equal descriptions come from commands of the same variant. */
  lemma DescriptionDeterminesVariant(c1: Command, f1: Changeset -> string, c2: Command, f2: Changeset -> string)
    requires Description(c1, f1) == Description(c2, f2)
    ensures SameVariant(c1, c2)
  {
    DescriptionShowsTypeName(c1, f1);
    DescriptionShowsTypeName(c2, f2);
    TypeNameInjective(c1, c2);
  }

  /** A `Name` description shows the name: equal descriptions, equal names. */
  lemma NameDescriptionDeterminesName(n1: string, f1: Changeset -> string, n2: string, f2: Changeset -> string)
    ensures Description(Name(n1), f1) == Description(Name(n2), f2) <==> n1 == n2
  {
    var r1, r2 := Description(Name(n1), f1), Description(Name(n2), f2);
    assert r1[6..] == n1 && r2[6..] == n2;
  }

  /** A `Cursor` description shows the range: equal descriptions, equal locations and lengths. */
  lemma CursorDescriptionDeterminesRange(s1: Selection, f1: Changeset -> string, s2: Selection, f2: Changeset -> string)
    ensures Description(Cursor(s1), f1) == Description(Cursor(s2), f2)
      <==> s1.location == s2.location && s1.length == s2.length
  {
    var a1, b1 := Interpolation.IntToString(s1.location), Interpolation.IntToString(s1.length);
    var a2, b2 := Interpolation.IntToString(s2.location), Interpolation.IntToString(s2.length);
    var r1, r2 := Description(Cursor(s1), f1), Description(Cursor(s2), f2);
    assert r1 == ".Cursor " + (a1 + " " + b1);
    assert r2 == ".Cursor " + (a2 + " " + b2);
    if r1 == r2 {
      assert r1[8..] == a1 + " " + b1;
      assert r2[8..] == a2 + " " + b2;
      Interpolation.SplitAtSpace(a1, b1, a2, b2);
      Interpolation.IntToStringInjective(s1.location, s2.location);
      Interpolation.IntToStringInjective(s1.length, s2.length);
    }
  }

  // The unit tests of CommandTests.swift, stated for the model

  lemma SerializeDocTest(f: Changeset -> string)
    ensures var copy := Decode(Encoding(FromDocument(Document("foo"))));
      Description(copy, f) == ".Doc" && DocumentOf(copy) == Some(Document("foo"))
  {
  }

  lemma SerializeUpdateTest(changes: Changeset)
    ensures var copy := Decode(Encoding(FromUpdate(changes)));
      TypeName(copy) == "Update" && ChangesOf(copy) == Some(changes)
  {
  }

  lemma SerializeUndefinedTest()
    ensures var copy := Decode(Encoding(Undefined));
      TypeName(copy) == "Undefined" && DocumentOf(copy).None? && ChangesOf(copy).None?
  {
  }

  lemma SerializeVersionTest(f: Changeset -> string)
    ensures var copy := Decode(Encoding(FromVersion("hash")));
      && Description(copy, f) == ".Version" && VersionOf(copy) == Some("hash")
      && DocumentOf(copy).None? && ChangesOf(copy).None?
  {
  }

  lemma SerializeGetDocAndGetVersionTest(f: Changeset -> string)
    ensures var copy := Decode(Encoding(GetDoc));
      && Description(copy, f) == ".GetDoc"
      && DocumentOf(copy).None? && ChangesOf(copy).None? && VersionOf(copy).None?
    ensures var copy := Decode(Encoding(GetVersion));
      && Description(copy, f) == ".GetVersion"
      && DocumentOf(copy).None? && ChangesOf(copy).None? && VersionOf(copy).None?
  {
  }

  lemma SerializeNameTest(f: Changeset -> string)
    ensures var copy := Decode(Encoding(FromName("foo")));
      && Description(copy, f) == ".Name foo" && NameOf(copy) == Some("foo")
      && DocumentOf(copy).None? && ChangesOf(copy).None?
  {
  }

  lemma SerializeCursorTest(id: string, red: Color, f: Changeset -> string)
    ensures var copy := Decode(Encoding(FromSelection(Selection(1, 37, id, red))));
      && Description(copy, f) == ".Cursor 1 37"
      && SelectionOf(copy) == Some(Selection(1, 37, id, red))
      && NameOf(copy).None? && DocumentOf(copy).None? && ChangesOf(copy).None?
  {
  }

}
