/**
 * model/Bundle.kt: the bundle model read from a manifest, with the
 * `Eclipse-SourceBundle` header and versions from model/Version.kt. Its
 * `Require-Bundle` parser is the one of mavenize/EclipseBundle.kt except that
 * an element starting with `version` also sets the version.
 */
module ModelBundle {
  import opened Wrappers
  import opened KotlinText
  import opened RequireBundleSyntax
  import opened ModelVersion
  import VersionPatterns

  /** A version or range as its own `toString` prints it. */
  function VersionOrRangeToString(v: VersionOrRange): string {
    match v
    case PlainVersion(version) => ToString(version)
    case Range(range) => RangeToString(range)
  }

  // ----- resolution and visibility -----

  /** `DependencyResolution`: whether the required bundle must be present. */
  datatype DependencyResolution = Mandatory | Optional

  /** `DependencyVisibility`: whether the required bundle is re-exported to dependents. */
  datatype DependencyVisibility = Private | Reexport

  /** `DependencyResolution.parse`: `optional` is the one text that is not `Mandatory`; unknown texts fall back to it. */
  function ResolutionParse(str: string): (r: DependencyResolution)
    ensures r == Optional <==> str == "optional"
  {
    if str == "mandatory" then Mandatory
    else if str == "optional" then Optional
    else Mandatory
  }

  /** `DependencyResolution.toString`: the name that `parse` reads back. */
  function ResolutionToString(resolution: DependencyResolution): (s: string)
    ensures ResolutionParse(s) == resolution
    ensures s == "mandatory" || s == "optional"
  {
    match resolution
    case Mandatory => "mandatory"
    case Optional => "optional"
  }

  /** On the two names, printing undoes parsing. */
  lemma ResolutionToStringOfParse(str: string)
    requires str == "mandatory" || str == "optional"
    ensures ResolutionToString(ResolutionParse(str)) == str
  {
  }

  /** `DependencyVisibility.parse`: `reexport` is the one text that is not `Private`; unknown texts fall back to it. */
  function VisibilityParse(str: string): (r: DependencyVisibility)
    ensures r == Reexport <==> str == "reexport"
  {
    if str == "private" then Private
    else if str == "reexport" then Reexport
    else Private
  }

  /** `DependencyVisibility.toString`: the name that `parse` reads back. */
  function VisibilityToString(visibility: DependencyVisibility): (s: string)
    ensures VisibilityParse(s) == visibility
    ensures s == "private" || s == "reexport"
  {
    match visibility
    case Private => "private"
    case Reexport => "reexport"
  }

  /** On the two names, printing undoes parsing. */
  lemma VisibilityToStringOfParse(str: string)
    requires str == "private" || str == "reexport"
    ensures VisibilityToString(VisibilityParse(str)) == str
  {
  }

  // ----- dependencies -----

  datatype BundleDependency = BundleDependency(
    name: string,
    versionOrRange: Option<VersionOrRange>,
    resolution: DependencyResolution,
    visibility: DependencyVisibility)

  /** What `readFromManifest` and `BundleDependency.parse` throw. */
  datatype Exception = IOException(message: string) | RequireBundleParseException(message: string)

  /**
   * The element sets the version (checked first). `version` is accepted as
   * well as `bundle-version`, so that an `Eclipse-SourceBundle` header parses.
   */
  predicate IsVersionElement(element: string) {
    StartsWith(element, "bundle-version") || StartsWith(element, "version")
  }

  /** The element sets the resolution: the second branch of the `when`. */
  predicate IsResolutionElement(element: string) {
    !IsVersionElement(element) && StartsWith(element, "resolution")
  }

  /** The element sets the visibility: the third branch of the `when`. */
  predicate IsVisibilityElement(element: string) {
    !IsVersionElement(element) && !IsResolutionElement(element) && StartsWith(element, "visibility")
  }

  /** One turn of the loop of `parseInner` on a trimmed element. */
  function ApplyElement(d: BundleDependency, element: string): BundleDependency {
    if IsVersionElement(element) then d.(versionOrRange := VersionOrRangeParse(StripElement(element)))
    else if IsResolutionElement(element) then d.(resolution := ResolutionParse(StripElement(element)))
    else if IsVisibilityElement(element) then d.(visibility := VisibilityParse(StripElement(element)))
    else d
  }

  /** The loop of `parseInner` over the trimmed `elements`, from the defaults. */
  function ApplyElements(name: string, elements: seq<string>): BundleDependency
    decreases |elements|
  {
    if |elements| == 0 then BundleDependency(name, None, Mandatory, Private)
    else ApplyElement(ApplyElements(name, elements[..|elements| - 1]), elements[|elements| - 1])
  }

  /** One turn of the loop sets at most the attribute its element names, and never the name. */
  lemma ApplyElementStep(d: BundleDependency, element: string)
    ensures ApplyElement(d, element).name == d.name
    ensures ApplyElement(d, element).versionOrRange == if IsVersionElement(element) then VersionOrRangeParse(StripElement(element)) else d.versionOrRange
    ensures ApplyElement(d, element).resolution == if IsResolutionElement(element) then ResolutionParse(StripElement(element)) else d.resolution
    ensures ApplyElement(d, element).visibility == if IsVisibilityElement(element) then VisibilityParse(StripElement(element)) else d.visibility
  {
  }

  /**
   * `parseInner`: the trimmed text before the first `;` names the bundle, the
   * later `;` elements set the attributes. The exception for an empty split
   * has no model: a split always has a first part.
   */
  function ParseInner(str: string): (r: BundleDependency)
    ensures r.name == Trim(if ';' in str then str[..IndexOf(str, ';')] else str)
  {
    var elements := Split(str, ';');
    SplitHead(str, ';');
    ApplyElementsAttributes(Trim(elements[0]), TrimAll(elements[1..]));
    ApplyElements(Trim(elements[0]), TrimAll(elements[1..]))
  }

  /** The value of an attribute: read from the last element that sets it, or the default. */
  function Attribute<T>(last: Option<string>, default: T, parse: string -> T): T {
    match last
    case None => default
    case Some(element) => parse(StripElement(element))
  }

  /** The loop never changes the name. */
  lemma {:induction false} ApplyElementsName(name: string, elements: seq<string>)
    ensures ApplyElements(name, elements).name == name
    decreases |elements|
  {
    if |elements| > 0 {
      var init := elements[..|elements| - 1];
      ApplyElementsName(name, init);
      ApplyElementStep(ApplyElements(name, init), elements[|elements| - 1]);
    }
  }

  /** The version or range comes from the last version element, or stays `null`. */
  lemma {:induction false} ApplyElementsVersion(name: string, elements: seq<string>)
    ensures ApplyElements(name, elements).versionOrRange
      == Attribute(LastSelected(elements, IsVersionElement), None, VersionOrRangeParse)
    decreases |elements|
  {
    if |elements| > 0 {
      var init, last := elements[..|elements| - 1], elements[|elements| - 1];
      ApplyElementsVersion(name, init);
      ApplyElementStep(ApplyElements(name, init), last);
      LastSelectedStep(elements, IsVersionElement);
    }
  }

  /** The resolution comes from the last resolution element, or stays `Mandatory`. */
  lemma {:induction false} ApplyElementsResolution(name: string, elements: seq<string>)
    ensures ApplyElements(name, elements).resolution
      == Attribute(LastSelected(elements, IsResolutionElement), Mandatory, ResolutionParse)
    decreases |elements|
  {
    if |elements| > 0 {
      var init, last := elements[..|elements| - 1], elements[|elements| - 1];
      ApplyElementsResolution(name, init);
      ApplyElementStep(ApplyElements(name, init), last);
      LastSelectedStep(elements, IsResolutionElement);
    }
  }

  /** The visibility comes from the last visibility element, or stays `Private`. */
  lemma {:induction false} ApplyElementsVisibility(name: string, elements: seq<string>)
    ensures ApplyElements(name, elements).visibility
      == Attribute(LastSelected(elements, IsVisibilityElement), Private, VisibilityParse)
    decreases |elements|
  {
    if |elements| > 0 {
      var init, last := elements[..|elements| - 1], elements[|elements| - 1];
      ApplyElementsVisibility(name, init);
      ApplyElementStep(ApplyElements(name, init), last);
      LastSelectedStep(elements, IsVisibilityElement);
    }
  }

  /** Each attribute comes from the last element that sets it, or keeps its default. */
  lemma ApplyElementsAttributes(name: string, elements: seq<string>)
    ensures ApplyElements(name, elements).name == name
    ensures ApplyElements(name, elements).versionOrRange
      == Attribute(LastSelected(elements, IsVersionElement), None, VersionOrRangeParse)
    ensures ApplyElements(name, elements).resolution
      == Attribute(LastSelected(elements, IsResolutionElement), Mandatory, ResolutionParse)
    ensures ApplyElements(name, elements).visibility
      == Attribute(LastSelected(elements, IsVisibilityElement), Private, VisibilityParse)
  {
    ApplyElementsName(name, elements);
    ApplyElementsVersion(name, elements);
    ApplyElementsResolution(name, elements);
    ApplyElementsVisibility(name, elements);
  }

  /** `parseInner` in terms of the last setting element of each attribute. */
  lemma ParseInnerAttributes(str: string)
    ensures var elements := TrimAll(Split(str, ';')[1..]);
      && ParseInner(str).versionOrRange == Attribute(LastSelected(elements, IsVersionElement), None, VersionOrRangeParse)
      && ParseInner(str).resolution == Attribute(LastSelected(elements, IsResolutionElement), Mandatory, ResolutionParse)
      && ParseInner(str).visibility == Attribute(LastSelected(elements, IsVisibilityElement), Private, VisibilityParse)
  {
    ApplyElementsAttributes(Trim(Split(str, ';')[0]), TrimAll(Split(str, ';')[1..]));
  }

  /** The message of the exception for an unclosed quote. */
  function UnclosedQuoteMessage(str: string): string {
    "Failed to parse Require-Bundle string '" + str + "': a quote was not closed"
  }

  /**
   * `BundleDependency.parse`: the quote-aware split of a `Require-Bundle`
   * header, each piece through `parseInner`, or the exception for an unclosed
   * quote.
   */
  function ParseRequireBundle(str: string): (r: Result<seq<BundleDependency>, Exception>)
    ensures r.Failure? <==> !EvenQuotes(str)
    ensures r.Failure? ==> r.error == RequireBundleParseException(UnclosedQuoteMessage(str))
    ensures str == [] ==> r == Success([])
    ensures r.Success? ==> |r.value| == UnquotedCommas(str) + (if Closed(str) then 0 else 1)
    ensures r.Success? ==> forall k :: 0 <= k < |r.value| ==> r.value[k] == ParseInner(Clauses(str).value[k])
  {
    match Clauses(str)
    case None => Failure(RequireBundleParseException(UnclosedQuoteMessage(str)))
    case Some(pieces) => Success(seq(|pieces|, k requires 0 <= k < |pieces| => ParseInner(pieces[k])))
  }

  /** `BundleDependency.toString`: the name, `;`, then the attributes separated by commas. */
  function DependencyToString(d: BundleDependency): (s: string)
    ensures StartsWith(s, d.name + ";")
  {
    var versionStr := match d.versionOrRange
      case None => ""
      case Some(v) => "bundle-version=\"" + VersionOrRangeToString(v) + "\",";
    var attributes := versionStr + "resolution:=" + ResolutionToString(d.resolution)
      + ",visibility:=" + VisibilityToString(d.visibility);
    StartsWithConcat(d.name + ";", attributes);
    d.name + ";" + attributes
  }

  /**
   * As in mavenize/EclipseBundle.kt, `parseInner` reads what `toString`
   * writes as a mandatory, private dependency: the attributes form one `;`
   * element, a version element or a resolution element whose value runs on
   * into `,visibility:=...`. Only the name survives.
   */
  lemma DependencyToStringLosesAttributes(d: BundleDependency)
    requires ';' !in d.name
    requires d.versionOrRange.Some? ==> ';' !in VersionOrRangeToString(d.versionOrRange.value)
    ensures ParseInner(DependencyToString(d)).name == Trim(d.name)
    ensures ParseInner(DependencyToString(d)).resolution == Mandatory
    ensures ParseInner(DependencyToString(d)).visibility == Private
  {
    if d.versionOrRange.None? {
      LosesAttributesWithoutVersion(d);
    } else {
      LosesAttributesWithVersion(d);
    }
  }

  lemma LosesAttributesWithoutVersion(d: BundleDependency)
    requires ';' !in d.name && d.versionOrRange.None?
    ensures ParseInner(DependencyToString(d)).name == Trim(d.name)
    ensures ParseInner(DependencyToString(d)).resolution == Mandatory
    ensures ParseInner(DependencyToString(d)).visibility == Private
  {
    var value := RunOnValue(ResolutionToString(d.resolution), VisibilityToString(d.visibility));
    NamesBare(d);
    RunOnValueBare(ResolutionToString(d.resolution), VisibilityToString(d.visibility));
    var e := "resolution:=" + value;
    ToStringWithoutVersion(d);
    ResolutionElementReads(value);
    ClauseOfOneElement(DependencyToString(d), d.name, e);
    OneElementReads(DependencyToString(d), d.name, e);
  }

  lemma LosesAttributesWithVersion(d: BundleDependency)
    requires ';' !in d.name && d.versionOrRange.Some?
    requires ';' !in VersionOrRangeToString(d.versionOrRange.value)
    ensures ParseInner(DependencyToString(d)).name == Trim(d.name)
    ensures ParseInner(DependencyToString(d)).resolution == Mandatory
    ensures ParseInner(DependencyToString(d)).visibility == Private
  {
    var value := RunOnValue(ResolutionToString(d.resolution), VisibilityToString(d.visibility));
    NamesBare(d);
    RunOnValueBare(ResolutionToString(d.resolution), VisibilityToString(d.visibility));
    var text := VersionOrRangeToString(d.versionOrRange.value);
    var e := "bundle-version=\"" + text + "\"" + ("," + ("resolution:=" + value));
    ToStringWithVersion(d);
    VersionElementFirst(text, value);
    ClauseOfOneElement(DependencyToString(d), d.name, e);
    OneElementReads(DependencyToString(d), d.name, e);
  }

  /** Without a version, `toString` writes the name and one resolution element. */
  lemma ToStringWithoutVersion(d: BundleDependency)
    requires d.versionOrRange.None?
    ensures DependencyToString(d)
      == d.name + ";" + ("resolution:=" + RunOnValue(ResolutionToString(d.resolution), VisibilityToString(d.visibility)))
  {
  }

  /** With a version, `toString` writes the name and one version element that runs on into the other attributes. */
  lemma ToStringWithVersion(d: BundleDependency)
    requires d.versionOrRange.Some?
    ensures DependencyToString(d)
      == d.name + ";" + ("bundle-version=\"" + VersionOrRangeToString(d.versionOrRange.value) + "\""
        + ("," + ("resolution:=" + RunOnValue(ResolutionToString(d.resolution), VisibilityToString(d.visibility)))))
  {
    var text := VersionOrRangeToString(d.versionOrRange.value);
    var r, v := ResolutionToString(d.resolution), VisibilityToString(d.visibility);
    assert DependencyToString(d) == d.name + ";" + ("bundle-version=\"" + text + "\"," + "resolution:=" + r + ",visibility:=" + v);
    RunOnRegroup(d.name, text, r, v);
  }

  lemma RunOnRegroup(name: string, text: string, r: string, v: string)
    ensures name + ";" + ("bundle-version=\"" + text + "\"," + "resolution:=" + r + ",visibility:=" + v)
      == name + ";" + ("bundle-version=\"" + text + "\"" + ("," + ("resolution:=" + RunOnValue(r, v))))
  {
    assert "\"," == "\"" + ",";
  }

  lemma NamesBare(d: BundleDependency)
    ensures BareValue(ResolutionToString(d.resolution)) && BareValue(VisibilityToString(d.visibility))
  {
  }

  /** The clause `name;e`, for a `;`-free name and element, splits into the name and `e`. */
  lemma ClauseOfOneElement(str: string, name: string, e: string)
    requires str == name + ";" + e
    requires ';' !in name && ';' !in e
    ensures Split(str, ';') == [name, e]
  {
    JoinPair(name, e, ';');
    SplitOfJoin([name, e], ';');
  }

  /** `resolution:=value` with a bare value sets the resolution to what the value reads as, and nothing else. */
  lemma ResolutionElementReads(value: string)
    requires BareValue(value)
    ensures var e := "resolution:=" + value;
      && IsResolutionElement(e) && !IsVisibilityElement(e)
      && Trimmed(e) && ';' !in e && StripElement(e) == value
  {
    ResolutionElementSelects(value);
    ResolutionElementStrips(value);
    ResolutionElementTrimmed(value);
    ResolutionElementAvoids(value);
  }

  lemma ResolutionElementTrimmed(value: string)
    requires BareValue(value)
    ensures Trimmed("resolution:=" + value)
  {
    var e := "resolution:=" + value;
    assert e[0] == 'r' && e[|e| - 1] == value[|value| - 1];
  }

  lemma ResolutionElementAvoids(value: string)
    requires BareValue(value)
    ensures ';' !in "resolution:=" + value
  {
  }

  lemma ResolutionElementSelects(value: string)
    ensures IsResolutionElement("resolution:=" + value) && !IsVisibilityElement("resolution:=" + value)
  {
    var e := "resolution:=" + value;
    assert e == "resolution" + (":=" + value);
    StartsWithConcat("resolution", ":=" + value);
    NotStartsWith(e, "bundle-version");
    NotStartsWith(e, "version");
  }

  lemma ResolutionElementStrips(value: string)
    requires BareValue(value)
    ensures StripElement("resolution:=" + value) == value
  {
    assert "resolution:=" + value == "resolution:" + "=" + value;
    StripElementOfBare("resolution:", value);
  }

  /** A version element followed by more attributes after a comma is one version element. */
  lemma VersionElementFirst(text: string, value: string)
    requires ';' !in text && BareValue(value)
    ensures var e := "bundle-version=\"" + text + "\"" + ("," + ("resolution:=" + value));
      && IsVersionElement(e) && !IsResolutionElement(e) && !IsVisibilityElement(e)
      && Trimmed(e) && ';' !in e
  {
    var rest := "=\"" + text + "\"" + ("," + ("resolution:=" + value));
    var e := "bundle-version" + rest;
    assert e == "bundle-version=\"" + text + "\"" + ("," + ("resolution:=" + value));
    StartsWithConcat("bundle-version", rest);
    assert e[0] == 'b' && e[|e| - 1] == value[|value| - 1];
  }

  /** A clause of a name and one trimmed element: the name, and each attribute from the element if it sets it. */
  lemma OneElementReads(str: string, name: string, e: string)
    requires Split(str, ';') == [name, e] && Trimmed(e)
    ensures ParseInner(str).name == Trim(name)
    ensures ParseInner(str).resolution == if IsResolutionElement(e) then ResolutionParse(StripElement(e)) else Mandatory
    ensures ParseInner(str).visibility == if IsVisibilityElement(e) then VisibilityParse(StripElement(e)) else Private
  {
    OneElementName(str, name, e);
    OneElementOnly(str, name, e);
    LastSelectedStep([e], IsResolutionElement);
    LastSelectedStep([e], IsVisibilityElement);
    ParseInnerAttributes(str);
  }

  lemma OneElementName(str: string, name: string, e: string)
    requires Split(str, ';') == [name, e]
    ensures ParseInner(str).name == Trim(name)
  {
    SplitHead(str, ';');
    if ';' !in str {
      CountAbsent(str, ';');
    }
  }

  lemma OneElementOnly(str: string, name: string, e: string)
    requires Split(str, ';') == [name, e] && Trimmed(e)
    ensures TrimAll(Split(str, ';')[1..]) == [e]
  {
    assert Split(str, ';')[1..] == [e];
    TrimAllSingle(e);
  }

  lemma TrimAllSingle(e: string)
    requires Trimmed(e)
    ensures TrimAll([e]) == [e]
  {
    TrimOfTrimmed(e);
  }

  // ----- bundles -----

  /** The main attributes of a manifest, by header name. */
  type Manifest = map<string, string>

  datatype Bundle = Bundle(
    name: string,
    version: Option<Version>,
    requiredBundles: seq<BundleDependency>,
    fragmentHost: Option<BundleDependency>,
    sourceBundleFor: Option<BundleDependency>)

  const NoSymbolicNameMessage := "Cannot read bundle from manifest, it does not have a Bundle-SymbolicName attribute"

  /** The bundle name in a `Bundle-SymbolicName` header: the text before its first directive, trimmed. */
  function SymbolicName(header: string): (r: string)
    ensures r == Trim(if ';' in header then header[..IndexOf(header, ';')] else header)
  {
    SplitHead(header, ';');
    Trim(if ';' in header then Split(header, ';')[0] else header)
  }

  /** The `Bundle-Version` header read as a version: zero when absent, `null` when unparseable. */
  function ManifestVersion(manifest: Manifest): (r: Option<Version>)
    ensures "Bundle-Version" !in manifest ==> r == Some(Zero())
    ensures "Bundle-Version" in manifest ==>
      (r.Some? <==> VersionPatterns.InVersionLanguage(Trim(manifest["Bundle-Version"])))
  {
    if "Bundle-Version" in manifest then Parse(Trim(manifest["Bundle-Version"])) else Some(Zero())
  }

  /** An optional header naming one bundle, such as `Fragment-Host`, read as a dependency clause. */
  function DependencyHeader(manifest: Manifest, header: string): (r: Option<BundleDependency>)
    ensures r.Some? <==> header in manifest
    ensures header in manifest ==> r.value == ParseInner(manifest[header])
  {
    if header in manifest then Some(ParseInner(manifest[header])) else None
  }

  /**
   * `Bundle.readFromManifest`: the symbolic name before its directives, the
   * version (zero when absent, `null` when unparseable), the required bundles,
   * the fragment host and the bundle whose sources this bundle holds.
   */
  function ReadFromManifest(manifest: Manifest): (r: Result<Bundle, Exception>)
    ensures "Bundle-SymbolicName" !in manifest ==> r == Failure(IOException(NoSymbolicNameMessage))
    ensures r.Failure? <==>
      || "Bundle-SymbolicName" !in manifest
      || ("Require-Bundle" in manifest && !EvenQuotes(manifest["Require-Bundle"]))
    ensures r.Success? ==>
      var symbolicName := manifest["Bundle-SymbolicName"];
      r.value.name == Trim(if ';' in symbolicName then symbolicName[..IndexOf(symbolicName, ';')] else symbolicName)
    ensures r.Success? && "Bundle-Version" !in manifest ==> r.value.version == Some(Zero())
    ensures r.Success? && "Bundle-Version" in manifest ==>
      (r.value.version.Some? <==> VersionPatterns.InVersionLanguage(Trim(manifest["Bundle-Version"])))
    ensures r.Success? && "Bundle-Version" in manifest ==> r.value.version == Parse(Trim(manifest["Bundle-Version"]))
    ensures r.Success? && "Require-Bundle" !in manifest ==> r.value.requiredBundles == []
    ensures r.Success? && "Require-Bundle" in manifest ==>
      Success(r.value.requiredBundles) == ParseRequireBundle(manifest["Require-Bundle"])
    ensures r.Success? ==> (r.value.fragmentHost.Some? <==> "Fragment-Host" in manifest)
    ensures r.Success? && "Fragment-Host" in manifest ==>
      r.value.fragmentHost.value == ParseInner(manifest["Fragment-Host"])
    ensures r.Success? ==> (r.value.sourceBundleFor.Some? <==> "Eclipse-SourceBundle" in manifest)
    ensures r.Success? && "Eclipse-SourceBundle" in manifest ==>
      r.value.sourceBundleFor.value == ParseInner(manifest["Eclipse-SourceBundle"])
  {
    if "Bundle-SymbolicName" !in manifest then Failure(IOException(NoSymbolicNameMessage))
    else
      var name := SymbolicName(manifest["Bundle-SymbolicName"]);
      var version := ManifestVersion(manifest);
      var required := if "Require-Bundle" in manifest then ParseRequireBundle(manifest["Require-Bundle"]) else Success([]);
      match required
      case Failure(e) => Failure(e)
      case Success(requiredBundles) =>
        var fragmentHost := DependencyHeader(manifest, "Fragment-Host");
        var sourceBundleFor := DependencyHeader(manifest, "Eclipse-SourceBundle");
        Success(Bundle(name, version, requiredBundles, fragmentHost, sourceBundleFor))
  }
}
