/**
 * mavenize/BundleConverter.kt: the first manifest-to-Maven converter, which
 * reads `Require-Bundle` straight into `MavenDependency` records of a fixed
 * group. It differs from the bundle readers: elements are matched before
 * trimming, the version text is passed through unparsed (`[0.1,)` when
 * absent), an `optional` resolution is never reset by a later one, and a
 * missing header is a `NullPointerException`.
 */
module BundleConverter {
  import opened Wrappers
  import opened KotlinText
  import opened RequireBundleSyntax
  import opened MavenMetadata

  /** The exceptions `convert(Manifest)` throws. */
  datatype Exception = NullPointerException | RequireBundleParseException(message: string)

  /** The main attributes of a manifest, by header name. */
  type Manifest = map<string, string>

  /** The version of a dependency without a `bundle-version` element. */
  const DefaultVersion := "[0.1,)"

  /** The element sets the version: checked on the untrimmed element. */
  predicate IsVersionElement(element: string) {
    StartsWith(element, "bundle-version")
  }

  /** The element is a resolution element: checked on the untrimmed element, after the version branch. */
  predicate IsResolutionElement(element: string) {
    !IsVersionElement(element) && StartsWith(element, "resolution")
  }

  /** A resolution element that makes the dependency optional: its text after the first `=`, trimmed, is `optional`. */
  predicate IsOptionalElement(element: string) {
    IsResolutionElement(element) && Trim(AfterFirst(element, '=')) == "optional"
  }

  /** One turn of the loop of `parseInnerRequireBundleString`. */
  function ApplyElement(d: MavenDependency, element: string): MavenDependency {
    if IsVersionElement(element) then d.(version := StripElement(element))
    else if IsOptionalElement(element) then d.(optional := true)
    else d
  }

  /** The loop over `elements`, from the default version and not optional. */
  function ApplyElements(groupId: string, artifactId: string, elements: seq<string>): MavenDependency
    decreases |elements|
  {
    if |elements| == 0 then MavenDependency(groupId, artifactId, DefaultVersion, false)
    else ApplyElement(ApplyElements(groupId, artifactId, elements[..|elements| - 1]), elements[|elements| - 1])
  }

  /** One turn of the loop sets the version on a version element, and `optional` only ever to true. */
  lemma ApplyElementStep(d: MavenDependency, element: string)
    ensures ApplyElement(d, element).groupId == d.groupId && ApplyElement(d, element).artifactId == d.artifactId
    ensures ApplyElement(d, element).version == if IsVersionElement(element) then StripElement(element) else d.version
    ensures ApplyElement(d, element).optional == (d.optional || IsOptionalElement(element))
  {
  }

  /** The loop keeps group and artifact. */
  lemma {:induction false} ApplyElementsKeys(groupId: string, artifactId: string, elements: seq<string>)
    ensures ApplyElements(groupId, artifactId, elements).groupId == groupId
    ensures ApplyElements(groupId, artifactId, elements).artifactId == artifactId
    decreases |elements|
  {
    if |elements| > 0 {
      ApplyElementsKeys(groupId, artifactId, elements[..|elements| - 1]);
    }
  }

  /** The version comes from the last version element, or is the default when there is none. */
  lemma {:induction false} ApplyElementsVersion(groupId: string, artifactId: string, elements: seq<string>)
    ensures ApplyElements(groupId, artifactId, elements).version
      == match LastSelected(elements, IsVersionElement) case None => DefaultVersion case Some(e) => StripElement(e)
    decreases |elements|
  {
    if |elements| > 0 {
      var init, last := elements[..|elements| - 1], elements[|elements| - 1];
      ApplyElementsVersion(groupId, artifactId, init);
      ApplyElementStep(ApplyElements(groupId, artifactId, init), last);
    }
  }

  /** The dependency is optional when any resolution element says so, whatever follows it. */
  lemma {:induction false} ApplyElementsOptional(groupId: string, artifactId: string, elements: seq<string>)
    ensures ApplyElements(groupId, artifactId, elements).optional == AnySelected(elements, IsOptionalElement)
    decreases |elements|
  {
    if |elements| > 0 {
      var init, last := elements[..|elements| - 1], elements[|elements| - 1];
      ApplyElementsOptional(groupId, artifactId, init);
      ApplyElementStep(ApplyElements(groupId, artifactId, init), last);
    }
  }

  /**
   * `parseInnerRequireBundleString`: the trimmed text before the first `;` is
   * the artifact, the later elements set version and `optional`. The
   * exception for an empty split has no model: a split always has a first part.
   */
  function ParseInner(groupId: string, str: string): (r: MavenDependency)
    ensures r.groupId == groupId
    ensures r.artifactId == Trim(if ';' in str then str[..IndexOf(str, ';')] else str)
    ensures var elements := Split(str, ';')[1..];
      && r.version == (match LastSelected(elements, IsVersionElement) case None => DefaultVersion case Some(e) => StripElement(e))
      && r.optional == AnySelected(elements, IsOptionalElement)
  {
    var elements := Split(str, ';');
    SplitHead(str, ';');
    ApplyElementsKeys(groupId, Trim(elements[0]), elements[1..]);
    ApplyElementsVersion(groupId, Trim(elements[0]), elements[1..]);
    ApplyElementsOptional(groupId, Trim(elements[0]), elements[1..]);
    ApplyElements(groupId, Trim(elements[0]), elements[1..])
  }

  /** The message of the exception for an unclosed quote. */
  function UnclosedQuoteMessage(str: string): string {
    "Failed to parse Require-Bundle string '" + str + "': a quote was not closed"
  }

  /**
   * `parseOuterRequireBundleString`: the quote-aware split of the header, each
   * piece through `parseInnerRequireBundleString`, or the exception for an
   * unclosed quote.
   */
  function ParseOuter(groupId: string, str: string): (r: Result<seq<MavenDependency>, Exception>)
    ensures r.Failure? <==> !EvenQuotes(str)
    ensures r.Failure? ==> r.error == RequireBundleParseException(UnclosedQuoteMessage(str))
    ensures str == [] ==> r == Success([])
    ensures r.Success? ==> |r.value| == UnquotedCommas(str) + (if Closed(str) then 0 else 1)
    ensures r.Success? ==> forall k :: 0 <= k < |r.value| ==> r.value[k].groupId == groupId
    ensures r.Success? ==> forall k :: 0 <= k < |r.value| ==> Trimmed(r.value[k].artifactId)
    ensures r.Success? ==> forall k :: 0 <= k < |r.value| ==> r.value[k] == ParseInner(groupId, Clauses(str).value[k])
  {
    match Clauses(str)
    case None => Failure(RequireBundleParseException(UnclosedQuoteMessage(str)))
    case Some(pieces) => Success(seq(|pieces|, k requires 0 <= k < |pieces| => ParseInner(groupId, pieces[k])))
  }

  /**
   * `convert(Manifest)` of a converter for `groupId`: the artifact from the
   * symbolic name, the version with `.qualifier` turned into `-SNAPSHOT`, and
   * the dependencies. A missing symbolic name, version or `Require-Bundle` is
   * dereferenced as `null`.
   */
  function Convert(groupId: string, manifest: Manifest): (r: Result<Metadata, Exception>)
    ensures r.Failure? <==>
      || "Bundle-SymbolicName" !in manifest || "Bundle-Version" !in manifest || "Require-Bundle" !in manifest
      || !EvenQuotes(manifest["Require-Bundle"])
    ensures r.Failure? && r.error.RequireBundleParseException? ==>
      && "Bundle-SymbolicName" in manifest && "Bundle-Version" in manifest && "Require-Bundle" in manifest
      && r.error.message == UnclosedQuoteMessage(manifest["Require-Bundle"])
    ensures r.Success? ==>
      var symbolicName := manifest["Bundle-SymbolicName"];
      && r.value.groupId == groupId
      && r.value.artifactId == Trim(if ';' in symbolicName then symbolicName[..IndexOf(symbolicName, ';')] else symbolicName)
      && r.value.version == Trim(Replace(manifest["Bundle-Version"], ".qualifier", "-SNAPSHOT"))
      && Success(r.value.dependencies) == ParseOuter(groupId, manifest["Require-Bundle"])
  {
    if "Bundle-SymbolicName" !in manifest || "Bundle-Version" !in manifest || "Require-Bundle" !in manifest then
      Failure(NullPointerException)
    else
      var symbolicName := manifest["Bundle-SymbolicName"];
      SplitHead(symbolicName, ';');
      var artifactId := Trim(if ';' in symbolicName then Split(symbolicName, ';')[0] else symbolicName);
      var version := Trim(Replace(manifest["Bundle-Version"], ".qualifier", "-SNAPSHOT"));
      match ParseOuter(groupId, manifest["Require-Bundle"])
      case Failure(e) => Failure(e)
      case Success(dependencies) => Success(Metadata(groupId, artifactId, version, dependencies))
  }

  // ----- consequences of matching untrimmed elements -----

  /** The elements after the name of `name;element`. */
  lemma ElementsOfPair(name: string, element: string)
    requires ';' !in name && ';' !in element
    ensures Split(name + ";" + element, ';') == [name, element]
  {
    assert Join([name, element], ';') == name + ";" + element;
    SplitOfJoin([name, element], ';');
  }

  /** An element indented by a space is not recognised: ` bundle-version=...` leaves the default version. */
  lemma IndentedVersionIgnored(groupId: string, name: string, element: string)
    requires ';' !in name && ';' !in element
    ensures ParseInner(groupId, name + "; " + element).version == DefaultVersion
  {
    assert name + "; " + element == name + ";" + (" " + element);
    ElementsOfPair(name, " " + element);
    var elements := Split(name + ";" + (" " + element), ';')[1..];
    assert elements == [" " + element];
    assert !IsVersionElement(elements[0]);
    assert LastSelected(elements[..0], IsVersionElement) == None;
  }

  /** For a single element after the name, the dependency is optional exactly when that element says so. */
  lemma OptionalOfPair(groupId: string, name: string, element: string)
    requires ';' !in name && ';' !in element
    ensures ParseInner(groupId, name + ";" + element).optional <==> IsOptionalElement(element)
  {
    ElementsOfPair(name, element);
    assert Split(name + ";" + element, ';')[1..] == [element];
  }

  /** For `OptionalResolutionElement`: any text after `resolution:=` is a resolution element. */
  lemma ResolutionElementPrefix(value: string)
    ensures IsResolutionElement("resolution:=" + value)
  {
    var element := "resolution:=" + value;
    assert element[0] == 'r';
    assert element[..10] == "resolution";
  }

  /** For `OptionalResolutionElement`: the value of a `resolution:=` element is the text after `:=`. */
  lemma ResolutionElementValue(value: string)
    ensures AfterFirst("resolution:=" + value, '=') == value
  {
    assert "resolution:=" + value == "resolution:" + ['='] + value;
    AfterFirstOfPrefix("resolution:", '=', value);
  }

  /** A `resolution:=` element makes the dependency optional when its trimmed value is `optional`. */
  lemma OptionalResolutionElement(value: string)
    ensures IsOptionalElement("resolution:=" + value) <==> Trim(value) == "optional"
  {
    ResolutionElementPrefix(value);
    ResolutionElementValue(value);
  }

  /**
   * With one `resolution:=` element after the name, the dependency is
   * optional exactly when the trimmed value is `optional`: the quoted
   * `resolution:="optional"` is not.
   */
  lemma OptionalOfResolution(groupId: string, name: string, value: string)
    requires ';' !in name && ';' !in value
    ensures ParseInner(groupId, name + ";resolution:=" + value).optional <==> Trim(value) == "optional"
  {
    var element := "resolution:=" + value;
    assert name + ";resolution:=" + value == name + ";" + element;
    assert ';' !in element by {
      assert forall k :: 12 <= k < |element| ==> element[k] == value[k - 12];
    }
    OptionalOfPair(groupId, name, element);
    OptionalResolutionElement(value);
  }

  /**
   * A quoted resolution value, such as `resolution:="optional"`, never makes
   * the dependency optional: the element's value is only trimmed, so the
   * quotes are kept.
   */
  lemma QuotedOptionalIgnored(groupId: string, name: string, w: string)
    requires ';' !in name && ';' !in w
    ensures !ParseInner(groupId, name + ";resolution:=" + ("\"" + w + "\"")).optional
  {
    var value := "\"" + w + "\"";
    QuotedAvoids(w);
    QuotedValueNotOptional(value);
    OptionalOfResolution(groupId, name, value);
  }

  lemma QuotedValueNotOptional(value: string)
    requires |value| > 0 && value[0] == '"' && value[|value| - 1] == '"'
    ensures Trim(value) != "optional"
  {
    QuotedIsTrimmed(value);
    FirstCharDiffers(value, "optional");
  }

  lemma FirstCharDiffers(a: string, b: string)
    requires |a| > 0 && |b| > 0 && a[0] != b[0]
    ensures a != b
  {
  }

  lemma QuotedAvoids(w: string)
    requires ';' !in w
    ensures ';' !in "\"" + w + "\""
  {
  }

  lemma QuotedIsTrimmed(value: string)
    requires |value| > 0 && value[0] == '"' && value[|value| - 1] == '"'
    ensures Trim(value) == value
  {
    TrimOfTrimmed(value);
  }
}
