/**
 * model/eclipse/Bundle.kt: the strict bundle reader, which throws
 * `BundleParseException` where the other readers fall back to defaults.
 * `BundleVersion` and `BundleVersionOrRange` are declared in
 * model/eclipse/Version.kt, which is not part of this model: they are the
 * type parameters `V` and `VR` here, and their `parse` and `toString`
 * functions are parameters of the members that call them.
 */
module ModelEclipseBundle {
  import opened Wrappers
  import opened KotlinText
  import opened RequireBundleSyntax

  /** `BundleCoordinates`: a bundle's name and version. */
  datatype BundleCoordinates<V> = BundleCoordinates(name: string, version: V)

  /** `BundleCoordinates.toString`: `name@version`. */
  function CoordinatesToString<V>(c: BundleCoordinates<V>, printVersion: V -> string): (s: string)
    ensures '@' !in c.name ==>
      var i := IndexOf(s, '@');
      0 <= i && s[..i] == c.name && s[i + 1..] == printVersion(c.version)
  {
    var s := c.name + "@" + printVersion(c.version);
    assert s[|c.name|] == '@';
    assert s[..|c.name|] == c.name;
    s
  }

  // ----- resolution and visibility -----

  /** `DependencyResolution`: whether the required bundle must be present. */
  datatype DependencyResolution = Mandatory | Optional

  /** `DependencyVisibility`: whether the required bundle is re-exported to dependents. */
  datatype DependencyVisibility = Private | Reexport

  /** `DependencyResolution.parse`: `optional` is the one text that is not `Mandatory`; unknown texts fall back to it. */
  function ResolutionParse(str: string): (r: DependencyResolution)
    ensures r == Optional <==> str == "optional"
  {
    if str == "mandatory" then Mandatory
    else if str == "optional" then Optional
    else Mandatory
  }

  /** `DependencyResolution.default`: what `parse` gives for every text that names no resolution. */
  function ResolutionDefault(): (r: DependencyResolution)
    ensures forall str :: str != "mandatory" && str != "optional" ==> ResolutionParse(str) == r
  {
    Mandatory
  }

  /** `DependencyResolution.toString`: the name that `parse` reads back. */
  function ResolutionToString(resolution: DependencyResolution): (s: string)
    ensures ResolutionParse(s) == resolution
    ensures s == "mandatory" || s == "optional"
  {
    match resolution
    case Mandatory => "mandatory"
    case Optional => "optional"
  }

  /** On the two names, printing undoes parsing. */
  lemma ResolutionToStringOfParse(str: string)
    requires str == "mandatory" || str == "optional"
    ensures ResolutionToString(ResolutionParse(str)) == str
  {
  }

  /** `DependencyVisibility.parse`: `reexport` is the one text that is not `Private`; unknown texts fall back to it. */
  function VisibilityParse(str: string): (r: DependencyVisibility)
    ensures r == Reexport <==> str == "reexport"
  {
    if str == "private" then Private
    else if str == "reexport" then Reexport
    else Private
  }

  /** `DependencyVisibility.default`: what `parse` gives for every text that names no visibility. */
  function VisibilityDefault(): (r: DependencyVisibility)
    ensures forall str :: str != "private" && str != "reexport" ==> VisibilityParse(str) == r
  {
    Private
  }

  /** `DependencyVisibility.toString`: the name that `parse` reads back. */
  function VisibilityToString(visibility: DependencyVisibility): (s: string)
    ensures VisibilityParse(s) == visibility
    ensures s == "private" || s == "reexport"
  {
    match visibility
    case Private => "private"
    case Reexport => "reexport"
  }

  /** On the two names, printing undoes parsing. */
  lemma VisibilityToStringOfParse(str: string)
    requires str == "private" || str == "reexport"
    ensures VisibilityToString(VisibilityParse(str)) == str
  {
  }

  // ----- dependencies -----

  datatype BundleDependency<VR> = BundleDependency(
    name: string,
    version: Option<VR>,
    resolution: DependencyResolution,
    visibility: DependencyVisibility)

  /** `RequireBundleParseException`, and `BundleParseException` with its optional cause. */
  datatype Exception =
    | RequireBundleParseException(message: string)
    | BundleParseException(message: string, cause: Option<Exception>)

  /**
   * The element sets the version (checked first). `version` is accepted as
   * well as `bundle-version`, so that an `Eclipse-SourceBundle` header parses.
   */
  predicate IsVersionElement(element: string) {
    StartsWith(element, "bundle-version") || StartsWith(element, "version")
  }

  /** The element sets the resolution: the second branch of the `when`. */
  predicate IsResolutionElement(element: string) {
    !IsVersionElement(element) && StartsWith(element, "resolution")
  }

  /** The element sets the visibility: the third branch of the `when`. */
  predicate IsVisibilityElement(element: string) {
    !IsVersionElement(element) && !IsResolutionElement(element) && StartsWith(element, "visibility")
  }

  /** One turn of the loop of `parseInner` on a trimmed element. */
  function ApplyElement<VR>(d: BundleDependency<VR>, element: string, parseVersion: string -> Option<VR>): BundleDependency<VR> {
    if IsVersionElement(element) then d.(version := parseVersion(StripElement(element)))
    else if IsResolutionElement(element) then d.(resolution := ResolutionParse(StripElement(element)))
    else if IsVisibilityElement(element) then d.(visibility := VisibilityParse(StripElement(element)))
    else d
  }

  /** The loop of `parseInner` over the trimmed `elements`, from the defaults. */
  function ApplyElements<VR>(name: string, elements: seq<string>, parseVersion: string -> Option<VR>): BundleDependency<VR>
    decreases |elements|
  {
    if |elements| == 0 then BundleDependency(name, None, ResolutionDefault(), VisibilityDefault())
    else ApplyElement(ApplyElements(name, elements[..|elements| - 1], parseVersion), elements[|elements| - 1], parseVersion)
  }

  /**
   * `parseInner`, with `BundleVersionOrRange.parse` as `parseVersion`: the
   * trimmed text before the first `;` names the bundle, the later `;`
   * elements set the attributes. The exception for an empty split has no
   * model: a split always has a first part.
   */
  function ParseInner<VR>(str: string, parseVersion: string -> Option<VR>): (r: BundleDependency<VR>)
    ensures r.name == Trim(if ';' in str then str[..IndexOf(str, ';')] else str)
  {
    var elements := Split(str, ';');
    SplitHead(str, ';');
    ApplyElementsName(Trim(elements[0]), TrimAll(elements[1..]), parseVersion);
    ApplyElements(Trim(elements[0]), TrimAll(elements[1..]), parseVersion)
  }

  /** The value of an attribute: read from the last element that sets it, or the default. */
  function Attribute<T>(last: Option<string>, default: T, parse: string -> T): T {
    match last
    case None => default
    case Some(element) => parse(StripElement(element))
  }

  /** The loop never changes the name. */
  lemma {:induction false} ApplyElementsName<VR>(name: string, elements: seq<string>, parseVersion: string -> Option<VR>)
    ensures ApplyElements(name, elements, parseVersion).name == name
    decreases |elements|
  {
    if |elements| > 0 {
      ApplyElementsName(name, elements[..|elements| - 1], parseVersion);
    }
  }

  /** One turn of the loop sets the version exactly on a version element. */
  lemma ApplyElementVersion<VR>(d: BundleDependency<VR>, element: string, parseVersion: string -> Option<VR>)
    ensures ApplyElement(d, element, parseVersion).version
      == if IsVersionElement(element) then parseVersion(StripElement(element)) else d.version
  {
  }

  /** The version comes from the last version element, or stays `null`. */
  lemma {:induction false} ApplyElementsVersion<VR>(name: string, elements: seq<string>, parseVersion: string -> Option<VR>)
    ensures ApplyElements(name, elements, parseVersion).version
      == Attribute(LastSelected(elements, IsVersionElement), None, parseVersion)
    decreases |elements|
  {
    if |elements| > 0 {
      var init, last := elements[..|elements| - 1], elements[|elements| - 1];
      ApplyElementsVersion(name, init, parseVersion);
      ApplyElementVersion(ApplyElements(name, init, parseVersion), last, parseVersion);
    }
  }

  /** The resolution comes from the last resolution element, or stays at the default. */
  lemma {:induction false} ApplyElementsResolution<VR>(name: string, elements: seq<string>, parseVersion: string -> Option<VR>)
    ensures ApplyElements(name, elements, parseVersion).resolution
      == Attribute(LastSelected(elements, IsResolutionElement), ResolutionDefault(), ResolutionParse)
    decreases |elements|
  {
    if |elements| > 0 {
      var init, last := elements[..|elements| - 1], elements[|elements| - 1];
      ApplyElementsResolution(name, init, parseVersion);
      if !IsResolutionElement(last) {
        assert LastSelected(elements, IsResolutionElement) == LastSelected(init, IsResolutionElement);
      }
    }
  }

  /** The visibility comes from the last visibility element, or stays at the default. */
  lemma {:induction false} ApplyElementsVisibility<VR>(name: string, elements: seq<string>, parseVersion: string -> Option<VR>)
    ensures ApplyElements(name, elements, parseVersion).visibility
      == Attribute(LastSelected(elements, IsVisibilityElement), VisibilityDefault(), VisibilityParse)
    decreases |elements|
  {
    if |elements| > 0 {
      var init, last := elements[..|elements| - 1], elements[|elements| - 1];
      ApplyElementsVisibility(name, init, parseVersion);
      if !IsVisibilityElement(last) {
        assert LastSelected(elements, IsVisibilityElement) == LastSelected(init, IsVisibilityElement);
      }
    }
  }

  /** `parseInner` in terms of the last setting element of each attribute. */
  lemma ParseInnerAttributes<VR>(str: string, parseVersion: string -> Option<VR>)
    ensures var elements := TrimAll(Split(str, ';')[1..]);
      && ParseInner(str, parseVersion).version
        == Attribute(LastSelected(elements, IsVersionElement), None, parseVersion)
      && ParseInner(str, parseVersion).resolution
        == Attribute(LastSelected(elements, IsResolutionElement), ResolutionDefault(), ResolutionParse)
      && ParseInner(str, parseVersion).visibility
        == Attribute(LastSelected(elements, IsVisibilityElement), VisibilityDefault(), VisibilityParse)
  {
    var name, elements := Trim(Split(str, ';')[0]), TrimAll(Split(str, ';')[1..]);
    ApplyElementsVersion(name, elements, parseVersion);
    ApplyElementsResolution(name, elements, parseVersion);
    ApplyElementsVisibility(name, elements, parseVersion);
  }

  /** The message of the exception for an unclosed quote. */
  function UnclosedQuoteMessage(str: string): string {
    "Failed to parse Require-Bundle string '" + str + "': a quote was not closed"
  }

  /**
   * `BundleDependency.parse`: the quote-aware split of a `Require-Bundle`
   * header, each piece through `parseInner`, or the exception for an unclosed
   * quote.
   */
  function ParseRequireBundle<VR>(str: string, parseVersion: string -> Option<VR>): (r: Result<seq<BundleDependency<VR>>, Exception>)
    ensures r.Failure? <==> !EvenQuotes(str)
    ensures r.Failure? ==> r.error == RequireBundleParseException(UnclosedQuoteMessage(str))
    ensures str == [] ==> r == Success([])
    ensures r.Success? ==> |r.value| == UnquotedCommas(str) + (if Closed(str) then 0 else 1)
    ensures r.Success? ==>
      forall k :: 0 <= k < |r.value| ==> r.value[k] == ParseInner(Clauses(str).value[k], parseVersion)
  {
    match Clauses(str)
    case None => Failure(RequireBundleParseException(UnclosedQuoteMessage(str)))
    case Some(pieces) =>
      Success(seq(|pieces|, k requires 0 <= k < |pieces| => ParseInner(pieces[k], parseVersion)))
  }

  // ----- bundles -----

  /** The main attributes of a manifest, by header name. */
  type Manifest = map<string, string>

  datatype Bundle<V, VR> = Bundle(
    coordinates: BundleCoordinates<V>,
    requiredBundles: seq<BundleDependency<VR>>,
    fragmentHost: Option<BundleDependency<VR>>,
    sourceBundleFor: Option<BundleDependency<VR>>)

  /** `Bundle.toString`: the coordinates, `name@version`. */
  function BundleToString<V, VR>(b: Bundle<V, VR>, printVersion: V -> string): (s: string)
    ensures '@' !in b.coordinates.name ==>
      var i := IndexOf(s, '@');
      0 <= i && s[..i] == b.coordinates.name && s[i + 1..] == printVersion(b.coordinates.version)
  {
    CoordinatesToString(b.coordinates, printVersion)
  }

  const NoSymbolicNameMessage := "Cannot read bundle from manifest, it does not have a Bundle-SymbolicName attribute"

  /** The symbolic name before its directives (such as `singleton:=true`), trimmed. */
  function NameOf(symbolicName: string): (r: string)
    ensures r == Trim(if ';' in symbolicName then symbolicName[..IndexOf(symbolicName, ';')] else symbolicName)
  {
    SplitHead(symbolicName, ';');
    Trim(if ';' in symbolicName then Split(symbolicName, ';')[0] else symbolicName)
  }

  /**
   * `Bundle.readFromManifest`, with `BundleVersion.parse` as `parseVersion`
   * and `BundleVersionOrRange.parse` as `parseVersionOrRange`: every failure
   * is a `BundleParseException`, and there are no defaults for the name and
   * the version.
   */
  function ReadFromManifest<V, VR>(
    manifest: Manifest, parseVersion: string -> Option<V>, parseVersionOrRange: string -> Option<VR>
  ): (r: Result<Bundle<V, VR>, Exception>)
    ensures r.Failure? <==>
      || "Bundle-SymbolicName" !in manifest
      || "Bundle-Version" !in manifest
      || parseVersion(Trim(manifest["Bundle-Version"])).None?
      || ("Require-Bundle" in manifest && !EvenQuotes(manifest["Require-Bundle"]))
    ensures r.Failure? ==> r.error.BundleParseException?
    ensures "Bundle-SymbolicName" !in manifest ==> r == Failure(BundleParseException(NoSymbolicNameMessage, None))
    ensures "Bundle-SymbolicName" in manifest && "Bundle-Version" !in manifest ==>
      r == Failure(BundleParseException(
        "Cannot read bundle '" + NameOf(manifest["Bundle-SymbolicName"])
          + "' from manifest, it does not have a Bundle-Version attribute", None))
    ensures
      && "Bundle-SymbolicName" in manifest && "Bundle-Version" in manifest
      && parseVersion(Trim(manifest["Bundle-Version"])).None?
      ==>
      r == Failure(BundleParseException(
        "Cannot read bundle '" + NameOf(manifest["Bundle-SymbolicName"]) + "' from manifest, failed to parse Bundle-Version '"
          + Trim(manifest["Bundle-Version"]) + "'", None))
    ensures
      && "Bundle-SymbolicName" in manifest && "Bundle-Version" in manifest
      && parseVersion(Trim(manifest["Bundle-Version"])).Some?
      && "Require-Bundle" in manifest && !EvenQuotes(manifest["Require-Bundle"])
      ==>
      r == Failure(BundleParseException(
        "Cannot read bundle '" + NameOf(manifest["Bundle-SymbolicName"]) + "' from manifest, failed to parse Require-Bundle '"
          + manifest["Require-Bundle"] + "'",
        Some(RequireBundleParseException(UnclosedQuoteMessage(manifest["Require-Bundle"])))))
    ensures r.Success? ==>
      && r.value.coordinates.name == NameOf(manifest["Bundle-SymbolicName"])
      && Some(r.value.coordinates.version) == parseVersion(Trim(manifest["Bundle-Version"]))
    ensures r.Success? && "Require-Bundle" !in manifest ==> r.value.requiredBundles == []
    ensures r.Success? && "Require-Bundle" in manifest ==>
      Success(r.value.requiredBundles) == ParseRequireBundle(manifest["Require-Bundle"], parseVersionOrRange)
    ensures r.Success? ==> (r.value.fragmentHost.Some? <==> "Fragment-Host" in manifest)
    ensures r.Success? && "Fragment-Host" in manifest ==>
      r.value.fragmentHost.value == ParseInner(manifest["Fragment-Host"], parseVersionOrRange)
    ensures r.Success? ==> (r.value.sourceBundleFor.Some? <==> "Eclipse-SourceBundle" in manifest)
    ensures r.Success? && "Eclipse-SourceBundle" in manifest ==>
      r.value.sourceBundleFor.value == ParseInner(manifest["Eclipse-SourceBundle"], parseVersionOrRange)
  {
    if "Bundle-SymbolicName" !in manifest then Failure(BundleParseException(NoSymbolicNameMessage, None))
    else
      var name := NameOf(manifest["Bundle-SymbolicName"]);
      if "Bundle-Version" !in manifest then
        Failure(BundleParseException(
          "Cannot read bundle '" + name + "' from manifest, it does not have a Bundle-Version attribute", None))
      else
        var versionStr := Trim(manifest["Bundle-Version"]);
        match parseVersion(versionStr)
        case None =>
          Failure(BundleParseException(
            "Cannot read bundle '" + name + "' from manifest, failed to parse Bundle-Version '" + versionStr + "'", None))
        case Some(version) =>
          var coordinates := BundleCoordinates(name, version);
          var required :=
            if "Require-Bundle" in manifest then ParseRequireBundle(manifest["Require-Bundle"], parseVersionOrRange)
            else Success([]);
          match required
          case Failure(e) =>
            Failure(BundleParseException(
              "Cannot read bundle '" + name + "' from manifest, failed to parse Require-Bundle '"
                + manifest["Require-Bundle"] + "'", Some(e)))
          case Success(requiredBundles) =>
            var fragmentHost :=
              if "Fragment-Host" in manifest then Some(ParseInner(manifest["Fragment-Host"], parseVersionOrRange))
              else None;
            var sourceBundleFor :=
              if "Eclipse-SourceBundle" in manifest
              then Some(ParseInner(manifest["Eclipse-SourceBundle"], parseVersionOrRange))
              else None;
            Success(Bundle(coordinates, requiredBundles, fragmentHost, sourceBundleFor))
  }
}
