/**
 * gradle/util/DependencyUtil.kt, `toGradleDependencyNotation`: Maven
 * dependency coordinates as a Gradle dependency string,
 * `group:id:version[:classifier][@extension]`.
 */
module DependencyUtil {
  import opened Wrappers
  import opened KotlinText
  import opened Conversions

  /**
   * `toGradleDependencyNotation`; `printVersion` is the version's `toString`,
   * which belongs to model/maven and is not part of this model.
   */
  function GradleNotation(c: DependencyCoordinates, printVersion: MavenVersionOrRange -> string): (r: string)
    ensures StartsWith(r, c.groupId + ":" + c.id + ":" + printVersion(c.version))
    ensures c.extension.Some? ==> EndsWith(r, "@" + c.extension.value)
  {
    var head := c.groupId + ":" + c.id + ":" + printVersion(c.version);
    assert (head + ClassifierSuffix(c.classifier) + ExtensionSuffix(c.extension))[..|head|] == head;
    head + ClassifierSuffix(c.classifier) + ExtensionSuffix(c.extension)
  }

  /** The classifier segment: `:classifier`, or nothing. */
  function ClassifierSuffix(classifier: Option<string>): string {
    match classifier case Some(s) => ":" + s case None => ""
  }

  /** The extension suffix: `@extension`, or nothing. */
  function ExtensionSuffix(extension: Option<string>): string {
    match extension case Some(s) => "@" + s case None => ""
  }

  predicate EndsWith(s: string, suffix: string) {
    |suffix| <= |s| && s[|s| - |suffix|..] == suffix
  }

  /** The parts of a Gradle dependency string. */
  datatype Notation = Notation(groupId: string, id: string, version: string, classifier: Option<string>, extension: Option<string>)

  /** Reads `group:id:version[:classifier][@extension]` back into its parts. */
  function ParseNotation(s: string): (r: Option<Notation>)
    ensures r.Some? ==> ':' !in r.value.groupId && ':' !in r.value.id && ':' !in r.value.version
  {
    var pieces := Split(s, '@');
    if |pieces| > 2 then None
    else
      var extension := if |pieces| == 2 then Some(pieces[1]) else None;
      var fields := Split(pieces[0], ':');
      if |fields| == 3 then Some(Notation(fields[0], fields[1], fields[2], None, extension))
      else if |fields| == 4 then Some(Notation(fields[0], fields[1], fields[2], Some(fields[3]), extension))
      else None
  }

  /** A separator that is in none of the parts and is not the joining character is not in the join. */
  lemma {:induction false} JoinAvoids(parts: seq<string>, sep: char, c: char)
    requires c != sep && forall k :: 0 <= k < |parts| ==> c !in parts[k]
    ensures c !in Join(parts, sep)
    decreases |parts|
  {
    if |parts| > 1 {
      JoinAvoids(parts[1..], sep, c);
    }
  }

  /** Text free of the characters the notation uses as separators. */
  predicate Plain(s: string) {
    ':' !in s && '@' !in s
  }

  /** The fields before the extension, joined by `:`, are the notation's front part. */
  lemma FrontJoin(groupId: string, id: string, version: string, classifier: Option<string>)
    ensures Join([groupId, id, version] + OptionToSeq(classifier), ':') == groupId + ":" + id + ":" + version + ClassifierSuffix(classifier)
  {
    var fields := [groupId, id, version] + OptionToSeq(classifier);
    var last := version + ClassifierSuffix(classifier);
    if classifier.Some? {
      var s := classifier.value;
      assert fields[1..][1..][1..] == [s];
      assert Join(fields[1..][1..], ':') == version + [':'] + s == last;
    } else {
      assert fields[1..][1..] == [version];
      assert Join(fields[1..][1..], ':') == last;
    }
    assert Join(fields[1..], ':') == id + [':'] + last;
    assert Join(fields, ':') == groupId + [':'] + (id + [':'] + last);
  }

  function OptionToSeq(o: Option<string>): seq<string> {
    match o case Some(s) => [s] case None => []
  }

  /** The extension suffix is split off at the only `@`. */
  lemma SplitExtension(front: string, extension: Option<string>)
    requires '@' !in front
    requires extension.Some? ==> '@' !in extension.value
    ensures Split(front + ExtensionSuffix(extension), '@') == [front] + OptionToSeq(extension)
  {
    match extension
    case None =>
      assert front + ExtensionSuffix(extension) == front == Join([front], '@');
      SplitOfJoin([front], '@');
    case Some(e) =>
      var pieces := [front, e];
      assert pieces[1..] == [e];
      assert Join(pieces, '@') == front + ExtensionSuffix(extension);
      SplitOfJoin(pieces, '@');
  }

  /** `ParseNotation` in terms of the two splits it makes. */
  lemma ParseOfParts(s: string, front: string, fields: seq<string>, extension: Option<string>)
    requires Split(s, '@') == [front] + OptionToSeq(extension)
    requires Split(front, ':') == fields && 3 <= |fields| <= 4
    ensures ParseNotation(s) == Some(Notation(fields[0], fields[1], fields[2], if |fields| == 4 then Some(fields[3]) else None, extension))
  {
    if extension.Some? {
      assert Split(s, '@')[1] == extension.value;
    }
  }

  /**
   * The notation is unambiguous: when the group, id, version text and
   * classifier are free of `:` and `@` and the extension of `@`, reading it
   * back gives the coordinates' parts, the classifier present exactly when
   * set, and the extension likewise.
   */
  lemma {:induction false} ParseGradleNotation(c: DependencyCoordinates, printVersion: MavenVersionOrRange -> string)
    requires Plain(c.groupId) && Plain(c.id) && Plain(printVersion(c.version))
    requires c.classifier.Some? ==> Plain(c.classifier.value)
    requires c.extension.Some? ==> '@' !in c.extension.value
    ensures ParseNotation(GradleNotation(c, printVersion))
      == Some(Notation(c.groupId, c.id, printVersion(c.version), c.classifier, c.extension))
  {
    var version := printVersion(c.version);
    var fields := [c.groupId, c.id, version] + OptionToSeq(c.classifier);
    var front := c.groupId + ":" + c.id + ":" + version + ClassifierSuffix(c.classifier);
    FrontJoin(c.groupId, c.id, version, c.classifier);
    assert forall k :: 0 <= k < |fields| ==> Plain(fields[k]);
    SplitOfJoin(fields, ':');
    JoinAvoids(fields, ':', '@');
    SplitExtension(front, c.extension);
    var notation := GradleNotation(c, printVersion);
    assert notation == front + ExtensionSuffix(c.extension);
    ParseOfParts(notation, front, fields, c.extension);
  }
}
