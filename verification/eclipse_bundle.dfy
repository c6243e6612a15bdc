/**
 * mavenize/EclipseBundle.kt: the bundle reader of the mavenizer. Its own
 * copies of `Version` and `VersionRange` (the same texts as in
 * model/Version.kt), the sealed class `DependencyVersion` over them, the
 * `Require-Bundle` dependency parser and `Bundle.readFromManifest`.
 */
module EclipseBundle {
  import opened Wrappers
  import opened KotlinText
  import opened VersionPatterns
  import opened RequireBundleSyntax

  datatype Version = Version(major: nat, minor: Option<nat>, micro: Option<nat>, qualifier: Option<string>)

  datatype VersionRange = VersionRange(
    minInclusive: bool,
    minVersion: Version,
    maxVersion: Option<Version>,
    maxInclusive: bool)

  /** The sealed class `DependencyVersion`, whose subclasses are `Version` and `VersionRange`. */
  datatype DependencyVersion = PlainVersion(version: Version) | Range(range: VersionRange)

  /** The versions whose printed text parses back to them. */
  predicate Printable(v: Version) {
    VersionPatterns.Printable(v.minor, v.micro, v.qualifier)
  }

  /** `Version.parse`: the four groups of the version pattern, numbers read with `toInt`, or `null` when the text does not match. */
  function Parse(str: string): (r: Option<Version>)
    ensures r.Some? <==> InVersionLanguage(str)
    ensures r.Some? ==> IsDigit(str[0]) && Printable(r.value)
  {
    match MatchVersion(str)
    case None => None
    case Some(g) =>
      Some(Version(DigitsToNat(g.major), ReadNumber(g.minor), ReadNumber(g.micro), g.qualifier))
  }

  function Zero(): (r: Version)
    ensures ToString(r) == "0"
    ensures Parse("0") == Some(r)
  {
    Version(0, None, None, None)
  }

  /** `toString`: the major number, then a dot and each present part. */
  function ToString(v: Version): string {
    Render(PrintGroups(v.major, v.minor, v.micro, v.qualifier))
  }

  /** Printing a printable version and parsing the text gives the version back. */
  lemma ParseOfToString(v: Version)
    requires Printable(v)
    ensures Parse(ToString(v)) == Some(v)
  {
    MatchVersionOfPrinted(v.major, v.minor, v.micro, v.qualifier);
    DigitsToNatOfNatToString(v.major);
    ReadPrintNumber(v.minor);
    ReadPrintNumber(v.micro);
  }

  /** Parsing text whose numbers have no leading zeros and printing the version gives the text back. */
  lemma ToStringOfParse(str: string)
    requires Parse(str).Some?
    requires CanonicalGroups(MatchVersion(str).value)
    ensures ToString(Parse(str).value) == str
  {
    var g := MatchVersion(str).value;
    NatToStringOfDigitsToNat(g.major);
    PrintReadNumber(g.minor);
    PrintReadNumber(g.micro);
  }

  /** The printed text of a printable version is what a range may hold between bracket and comma. */
  lemma ToStringText(v: Version)
    requires Printable(v)
    ensures |ToString(v)| > 0 && NoLineTerminator(ToString(v)) && IsDigit(ToString(v)[0])
  {
    ParseOfToString(v);
    InVersionLanguageText(ToString(v));
  }

  /** `withoutQualifier`: the same numbers, no qualifier. */
  function WithoutQualifier(v: Version): (r: Version)
    ensures (v.micro.Some? ==> v.minor.Some?) ==> Parse(ToString(r)) == Some(r)
    ensures ToString(v) == ToString(r) + Dotted(v.qualifier)
  {
    var r := Version(v.major, v.minor, v.micro, None);
    RenderWithoutQualifier(PrintGroups(v.major, v.minor, v.micro, v.qualifier));
    if v.micro.Some? ==> v.minor.Some? then
      ParseOfToString(r);
      r
    else
      r
  }

  lemma WithoutQualifierIdempotent(v: Version)
    ensures WithoutQualifier(WithoutQualifier(v)) == WithoutQualifier(v)
  {
  }

  // ----- ranges -----

  /**
   * `VersionRange.parse`: `null` unless the range pattern matches and group 2
   * parses as a version. The maximum is `Version.parse` of group 3, which the
   * second `\w*` has already stripped of its leading digits, so it is never set.
   */
  function RangeParse(str: string): (r: Option<VersionRange>)
    ensures r.Some? <==> InRangeLanguage(str) && Parse(MinText(str)).Some?
    ensures r.Some? ==>
      && r.value.minInclusive == (str[0] == '[')
      && r.value.maxInclusive == (str[|str| - 1] == ']')
      && Parse(MinText(str)) == Some(r.value.minVersion)
      && r.value.maxVersion.None?
  {
    match MatchRange(str)
    case None => None
    case Some(g) =>
      MatchRangeMin(str);
      match Parse(g.min)
      case None => None
      case Some(minVersion) =>
        MatchRangeMaxNeverVersion(str);
        Some(VersionRange(g.open == '[', minVersion, Parse(g.max), g.close == ']'))
  }

  /** `anyVersionsRange`: from version 0 inclusive, unbounded. */
  function AnyVersionsRange(): (r: VersionRange)
    ensures RangeToString(r) == "[0,)"
    ensures RangeParse("[0,)") == Some(r)
  {
    var r := VersionRange(true, Zero(), None, false);
    var zero := ToString(Zero());
    assert zero == "0";
    assert RangeToString(r) == ['['] + zero + "," + "" + [')'];
    assert ['['] + "0" + "," + "" + [')'] == "[0,)";
    RangeParseOfToString(r);
    r
  }

  /** `withoutQualifiers`: both bounds without qualifier, brackets unchanged. */
  function WithoutQualifiers(range: VersionRange): (r: VersionRange)
    ensures r.minInclusive == range.minInclusive && r.maxInclusive == range.maxInclusive
    ensures r.maxVersion.Some? <==> range.maxVersion.Some?
    ensures r.minVersion.qualifier.None? && (r.maxVersion.Some? ==> r.maxVersion.value.qualifier.None?)
    ensures r.minVersion.major == range.minVersion.major && r.minVersion.minor == range.minVersion.minor
      && r.minVersion.micro == range.minVersion.micro
    ensures r.maxVersion.Some? ==>
      && r.maxVersion.value.major == range.maxVersion.value.major
      && r.maxVersion.value.minor == range.maxVersion.value.minor
      && r.maxVersion.value.micro == range.maxVersion.value.micro
    ensures ToString(range.minVersion) == ToString(r.minVersion) + Dotted(range.minVersion.qualifier)
    ensures r.maxVersion.Some? ==>
      ToString(range.maxVersion.value) == ToString(r.maxVersion.value) + Dotted(range.maxVersion.value.qualifier)
  {
    VersionRange(
      range.minInclusive,
      WithoutQualifier(range.minVersion),
      match range.maxVersion
      case None => None
      case Some(v) => Some(WithoutQualifier(v)),
      range.maxInclusive)
  }

  lemma WithoutQualifiersIdempotent(range: VersionRange)
    ensures WithoutQualifiers(WithoutQualifiers(range)) == WithoutQualifiers(range)
  {
  }

  /** `VersionRange.toString`: bracket, minimum, comma, maximum if any, bracket. */
  function RangeToString(r: VersionRange): string {
    [if r.minInclusive then '[' else '('] + ToString(r.minVersion) + ","
      + (match r.maxVersion case None => "" case Some(v) => ToString(v))
      + [if r.maxInclusive then ']' else ')']
  }

  /** A range without maximum and with a printable minimum survives printing and parsing. */
  lemma RangeParseOfToString(r: VersionRange)
    requires r.maxVersion.None? && Printable(r.minVersion)
    ensures RangeParse(RangeToString(r)) == Some(r)
  {
    var open := if r.minInclusive then '[' else '(';
    var close := if r.maxInclusive then ']' else ')';
    var text := ToString(r.minVersion);
    ToStringText(r.minVersion);
    assert RangeToString(r) == [open] + text + "," + [close];
    MatchRangeOfPrinted(open, text, close);
    ParseOfToString(r.minVersion);
  }

  /** A printed maximum does not survive: the parsed range has none. */
  lemma RangeParseLosesMax(r: VersionRange)
    requires r.maxVersion.Some?
    ensures RangeParse(RangeToString(r)) != Some(r)
  {
  }

  // ----- dependency versions -----

  /** `DependencyVersion.parse`: a version if the text is one, otherwise a range if it is one, otherwise `null`. */
  function DependencyVersionParse(str: string): (r: Option<DependencyVersion>)
    ensures r.Some? <==> Parse(str).Some? || RangeParse(str).Some?
    ensures r.Some? && r.value.PlainVersion? ==> Parse(str) == Some(r.value.version)
    ensures r.Some? && r.value.Range? ==> RangeParse(str) == Some(r.value.range)
  {
    match Parse(str)
    case Some(v) => Some(PlainVersion(v))
    case None =>
      match RangeParse(str)
      case Some(range) => Some(Range(range))
      case None => None
  }

  /** At most one reading applies: a version starts with a digit, a range with a bracket. */
  lemma DependencyVersionDisjoint(str: string)
    ensures !(Parse(str).Some? && RangeParse(str).Some?)
  {
  }

  /** A dependency version as its own `toString` prints it. */
  function DependencyVersionToString(v: DependencyVersion): string {
    match v
    case PlainVersion(version) => ToString(version)
    case Range(range) => RangeToString(range)
  }

  // ----- resolution and visibility -----

  /** `DependencyResolution`: whether the required bundle must be present. */
  datatype DependencyResolution = Mandatory | Optional

  /** `DependencyVisibility`: whether the required bundle is re-exported to dependents. */
  datatype DependencyVisibility = Private | Reexport

  /** `DependencyResolution.parse`: `optional` is the one text that is not `Mandatory`; unknown texts fall back to it. */
  function ResolutionParse(str: string): (r: DependencyResolution)
    ensures r == Optional <==> str == "optional"
  {
    if str == "mandatory" then Mandatory
    else if str == "optional" then Optional
    else Mandatory
  }

  /** `DependencyResolution.toString`: the name that `parse` reads back. */
  function ResolutionToString(resolution: DependencyResolution): (s: string)
    ensures ResolutionParse(s) == resolution
    ensures s == "mandatory" || s == "optional"
  {
    match resolution
    case Mandatory => "mandatory"
    case Optional => "optional"
  }

  /** On the two names, printing undoes parsing. */
  lemma ResolutionToStringOfParse(str: string)
    requires str == "mandatory" || str == "optional"
    ensures ResolutionToString(ResolutionParse(str)) == str
  {
  }

  /** `DependencyVisibility.parse`: `reexport` is the one text that is not `Private`; unknown texts fall back to it. */
  function VisibilityParse(str: string): (r: DependencyVisibility)
    ensures r == Reexport <==> str == "reexport"
  {
    if str == "private" then Private
    else if str == "reexport" then Reexport
    else Private
  }

  /** `DependencyVisibility.toString`: the name that `parse` reads back. */
  function VisibilityToString(visibility: DependencyVisibility): (s: string)
    ensures VisibilityParse(s) == visibility
    ensures s == "private" || s == "reexport"
  {
    match visibility
    case Private => "private"
    case Reexport => "reexport"
  }

  /** On the two names, printing undoes parsing. */
  lemma VisibilityToStringOfParse(str: string)
    requires str == "private" || str == "reexport"
    ensures VisibilityToString(VisibilityParse(str)) == str
  {
  }

  // ----- dependencies -----

  datatype BundleDependency = BundleDependency(
    name: string,
    version: Option<DependencyVersion>,
    resolution: DependencyResolution,
    visibility: DependencyVisibility)

  /** What `readFromManifest` and `BundleDependency.parse` throw. */
  datatype Exception = IOException(message: string) | RequireBundleParseException(message: string)

  /** The element sets the version (checked first). */
  predicate IsVersionElement(element: string) {
    StartsWith(element, "bundle-version")
  }

  /** The element sets the resolution: the second branch of the `when`. */
  predicate IsResolutionElement(element: string) {
    !IsVersionElement(element) && StartsWith(element, "resolution")
  }

  /** The element sets the visibility: the third branch of the `when`. */
  predicate IsVisibilityElement(element: string) {
    !IsVersionElement(element) && !IsResolutionElement(element) && StartsWith(element, "visibility")
  }

  /** One turn of the loop of `parseInner` on a trimmed element. */
  function ApplyElement(d: BundleDependency, element: string): BundleDependency {
    if IsVersionElement(element) then d.(version := DependencyVersionParse(StripElement(element)))
    else if IsResolutionElement(element) then d.(resolution := ResolutionParse(StripElement(element)))
    else if IsVisibilityElement(element) then d.(visibility := VisibilityParse(StripElement(element)))
    else d
  }

  /** The loop of `parseInner` over the trimmed `elements`, from the defaults. */
  function ApplyElements(name: string, elements: seq<string>): BundleDependency
    decreases |elements|
  {
    if |elements| == 0 then BundleDependency(name, None, Mandatory, Private)
    else ApplyElement(ApplyElements(name, elements[..|elements| - 1]), elements[|elements| - 1])
  }

  /** One turn of the loop sets at most the attribute its element names, and never the name. */
  lemma ApplyElementStep(d: BundleDependency, element: string)
    ensures ApplyElement(d, element).name == d.name
    ensures ApplyElement(d, element).version == if IsVersionElement(element) then DependencyVersionParse(StripElement(element)) else d.version
    ensures ApplyElement(d, element).resolution == if IsResolutionElement(element) then ResolutionParse(StripElement(element)) else d.resolution
    ensures ApplyElement(d, element).visibility == if IsVisibilityElement(element) then VisibilityParse(StripElement(element)) else d.visibility
  {
  }

  /**
   * `parseInner`: the trimmed text before the first `;` names the bundle, the
   * later `;` elements set the attributes. The exception for an empty split
   * has no model: a split always has a first part.
   */
  function ParseInner(str: string): (r: BundleDependency)
    ensures r.name == Trim(if ';' in str then str[..IndexOf(str, ';')] else str)
  {
    var elements := Split(str, ';');
    SplitHead(str, ';');
    ApplyElementsAttributes(Trim(elements[0]), TrimAll(elements[1..]));
    ApplyElements(Trim(elements[0]), TrimAll(elements[1..]))
  }

  /** The value of an attribute: read from the last element that sets it, or the default. */
  function Attribute<T>(last: Option<string>, default: T, parse: string -> T): T {
    match last
    case None => default
    case Some(element) => parse(StripElement(element))
  }

  /** The loop never changes the name. */
  lemma {:induction false} ApplyElementsName(name: string, elements: seq<string>)
    ensures ApplyElements(name, elements).name == name
    decreases |elements|
  {
    if |elements| > 0 {
      var init := elements[..|elements| - 1];
      ApplyElementsName(name, init);
      ApplyElementStep(ApplyElements(name, init), elements[|elements| - 1]);
    }
  }

  /** The version comes from the last version element, or stays `null`. */
  lemma {:induction false} ApplyElementsVersion(name: string, elements: seq<string>)
    ensures ApplyElements(name, elements).version
      == Attribute(LastSelected(elements, IsVersionElement), None, DependencyVersionParse)
    decreases |elements|
  {
    if |elements| > 0 {
      var init, last := elements[..|elements| - 1], elements[|elements| - 1];
      ApplyElementsVersion(name, init);
      ApplyElementStep(ApplyElements(name, init), last);
      LastSelectedStep(elements, IsVersionElement);
    }
  }

  /** The resolution comes from the last resolution element, or stays `Mandatory`. */
  lemma {:induction false} ApplyElementsResolution(name: string, elements: seq<string>)
    ensures ApplyElements(name, elements).resolution
      == Attribute(LastSelected(elements, IsResolutionElement), Mandatory, ResolutionParse)
    decreases |elements|
  {
    if |elements| > 0 {
      var init, last := elements[..|elements| - 1], elements[|elements| - 1];
      ApplyElementsResolution(name, init);
      ApplyElementStep(ApplyElements(name, init), last);
      LastSelectedStep(elements, IsResolutionElement);
    }
  }

  /** The visibility comes from the last visibility element, or stays `Private`. */
  lemma {:induction false} ApplyElementsVisibility(name: string, elements: seq<string>)
    ensures ApplyElements(name, elements).visibility
      == Attribute(LastSelected(elements, IsVisibilityElement), Private, VisibilityParse)
    decreases |elements|
  {
    if |elements| > 0 {
      var init, last := elements[..|elements| - 1], elements[|elements| - 1];
      ApplyElementsVisibility(name, init);
      ApplyElementStep(ApplyElements(name, init), last);
      LastSelectedStep(elements, IsVisibilityElement);
    }
  }

  /** Each attribute comes from the last element that sets it, or keeps its default. */
  lemma ApplyElementsAttributes(name: string, elements: seq<string>)
    ensures ApplyElements(name, elements).name == name
    ensures ApplyElements(name, elements).version
      == Attribute(LastSelected(elements, IsVersionElement), None, DependencyVersionParse)
    ensures ApplyElements(name, elements).resolution
      == Attribute(LastSelected(elements, IsResolutionElement), Mandatory, ResolutionParse)
    ensures ApplyElements(name, elements).visibility
      == Attribute(LastSelected(elements, IsVisibilityElement), Private, VisibilityParse)
  {
    ApplyElementsName(name, elements);
    ApplyElementsVersion(name, elements);
    ApplyElementsResolution(name, elements);
    ApplyElementsVisibility(name, elements);
  }

  /** `parseInner` in terms of the last setting element of each attribute. */
  lemma ParseInnerAttributes(str: string)
    ensures var elements := TrimAll(Split(str, ';')[1..]);
      && ParseInner(str).version == Attribute(LastSelected(elements, IsVersionElement), None, DependencyVersionParse)
      && ParseInner(str).resolution == Attribute(LastSelected(elements, IsResolutionElement), Mandatory, ResolutionParse)
      && ParseInner(str).visibility == Attribute(LastSelected(elements, IsVisibilityElement), Private, VisibilityParse)
  {
    ApplyElementsAttributes(Trim(Split(str, ';')[0]), TrimAll(Split(str, ';')[1..]));
  }

  /** The version `parseInner` reads is that of the last version element, if any. */
  lemma VersionOfLast(str: string, last: Option<string>)
    requires LastSelected(TrimAll(Split(str, ';')[1..]), IsVersionElement) == last
    ensures ParseInner(str).version == match last case None => None case Some(e) => DependencyVersionParse(StripElement(e))
  {
    ParseInnerAttributes(str);
  }

  /** The version `parseInner` reads from a last version element that strips to `text`. */
  lemma VersionOfLastText(str: string, last: string, text: string)
    requires LastSelected(TrimAll(Split(str, ';')[1..]), IsVersionElement) == Some(last)
    requires StripElement(last) == text
    ensures ParseInner(str).version == DependencyVersionParse(text)
  {
    VersionOfLast(str, Some(last));
  }

  /** The resolution `parseInner` reads is that of the last resolution element. */
  lemma ResolutionOfLast(str: string, last: string)
    requires LastSelected(TrimAll(Split(str, ';')[1..]), IsResolutionElement) == Some(last)
    ensures ParseInner(str).resolution == ResolutionParse(StripElement(last))
  {
    ParseInnerAttributes(str);
  }

  /** The visibility `parseInner` reads is that of the last visibility element. */
  lemma VisibilityOfLast(str: string, last: string)
    requires LastSelected(TrimAll(Split(str, ';')[1..]), IsVisibilityElement) == Some(last)
    ensures ParseInner(str).visibility == VisibilityParse(StripElement(last))
  {
    ParseInnerAttributes(str);
  }

  /** The message of the exception for an unclosed quote. */
  function UnclosedQuoteMessage(str: string): string {
    "Failed to parse Require-Bundle string '" + str + "': a quote was not closed"
  }

  /**
   * `BundleDependency.parse`: the quote-aware split of a `Require-Bundle`
   * header, each piece through `parseInner`, or the exception for an unclosed
   * quote.
   */
  function ParseRequireBundle(str: string): (r: Result<seq<BundleDependency>, Exception>)
    ensures r.Failure? <==> !EvenQuotes(str)
    ensures r.Failure? ==> r.error == RequireBundleParseException(UnclosedQuoteMessage(str))
    ensures str == [] ==> r == Success([])
    ensures r.Success? ==> |r.value| == UnquotedCommas(str) + (if Closed(str) then 0 else 1)
    ensures r.Success? ==> forall k :: 0 <= k < |r.value| ==> r.value[k] == ParseInner(Clauses(str).value[k])
  {
    match Clauses(str)
    case None => Failure(RequireBundleParseException(UnclosedQuoteMessage(str)))
    case Some(pieces) => Success(seq(|pieces|, k requires 0 <= k < |pieces| => ParseInner(pieces[k])))
  }

  /** `BundleDependency.toString`: the name, `;`, then the attributes separated by commas. */
  function DependencyToString(d: BundleDependency): (s: string)
    ensures StartsWith(s, d.name + ";")
  {
    var versionStr := match d.version
      case None => ""
      case Some(v) => "bundle-version=\"" + DependencyVersionToString(v) + "\",";
    var attributes := versionStr + "resolution:=" + ResolutionToString(d.resolution)
      + ",visibility:=" + VisibilityToString(d.visibility);
    StartsWithConcat(d.name + ";", attributes);
    d.name + ";" + attributes
  }

  /** The `;` element that sets the version. */
  function VersionElement(text: string): string {
    "bundle-version=\"" + text + "\""
  }

  /** The `;` element that sets the resolution. */
  function ResolutionElement(text: string): string {
    "resolution:=" + text
  }

  /** The `;` element that sets the visibility. */
  function VisibilityElement(text: string): string {
    "visibility:=" + text
  }

  lemma ResolutionNameBare(resolution: DependencyResolution)
    ensures BareValue(ResolutionToString(resolution))
  {
  }

  lemma VisibilityNameBare(visibility: DependencyVisibility)
    ensures BareValue(VisibilityToString(visibility))
  {
  }

  /** A version element selects the version and strips to its text. */
  lemma VersionElementReads(text: string)
    requires Trimmed(text)
    ensures IsVersionElement(VersionElement(text)) && Trimmed(VersionElement(text))
    ensures StripElement(VersionElement(text)) == text
    ensures ';' !in text ==> ';' !in VersionElement(text)
  {
    VersionElementSelects(text);
    VersionElementStrips(text);
    VersionElementTrimmed(text);
    if ';' !in text {
      VersionElementAvoids(text);
    }
  }

  lemma VersionElementTrimmed(text: string)
    ensures Trimmed(VersionElement(text))
  {
    ElementTrimmed(VersionElement(text), 'b', '"');
  }

  lemma VersionElementAvoids(text: string)
    requires ';' !in text
    ensures ';' !in VersionElement(text)
  {
  }

  lemma VersionElementSelects(text: string)
    ensures IsVersionElement(VersionElement(text))
  {
    assert VersionElement(text) == "bundle-version" + ("=\"" + text + "\"");
    StartsWithConcat("bundle-version", "=\"" + text + "\"");
  }

  lemma VersionElementStrips(text: string)
    requires Trimmed(text)
    ensures StripElement(VersionElement(text)) == text
  {
    assert VersionElement(text) == "bundle-version" + "=\"" + text + "\"";
    StripElementOfQuoted("bundle-version", text);
  }

  /** An element whose first and last characters are not blank is trimmed. */
  lemma ElementTrimmed(e: string, first: char, last: char)
    requires |e| > 0 && e[0] == first && e[|e| - 1] == last
    requires !IsWhitespace(first) && !IsWhitespace(last)
    ensures Trimmed(e)
  {
  }

  /** A resolution element selects the resolution and strips to its text. */
  lemma ResolutionElementReads(text: string)
    requires BareValue(text)
    ensures !IsVersionElement(ResolutionElement(text)) && IsResolutionElement(ResolutionElement(text))
    ensures Trimmed(ResolutionElement(text)) && ';' !in ResolutionElement(text)
    ensures StripElement(ResolutionElement(text)) == text
  {
    ResolutionElementSelects(text);
    ResolutionElementStrips(text);
    ResolutionElementTrimmed(text);
    ResolutionElementAvoids(text);
  }

  lemma ResolutionElementTrimmed(text: string)
    requires BareValue(text)
    ensures Trimmed(ResolutionElement(text))
  {
    ElementTrimmed(ResolutionElement(text), 'r', text[|text| - 1]);
  }

  lemma ResolutionElementAvoids(text: string)
    requires BareValue(text)
    ensures ';' !in ResolutionElement(text)
  {
  }

  lemma ResolutionElementSelects(text: string)
    ensures !IsVersionElement(ResolutionElement(text)) && IsResolutionElement(ResolutionElement(text))
  {
    assert ResolutionElement(text) == "resolution" + (":=" + text);
    StartsWithConcat("resolution", ":=" + text);
    NotStartsWith(ResolutionElement(text), "bundle-version");
  }

  lemma ResolutionElementStrips(text: string)
    requires BareValue(text)
    ensures StripElement(ResolutionElement(text)) == text
  {
    assert ResolutionElement(text) == "resolution:" + "=" + text;
    StripElementOfBare("resolution:", text);
  }

  /** A visibility element selects the visibility and strips to its text. */
  lemma VisibilityElementReads(text: string)
    requires BareValue(text)
    ensures !IsVersionElement(VisibilityElement(text)) && !IsResolutionElement(VisibilityElement(text))
    ensures IsVisibilityElement(VisibilityElement(text))
    ensures Trimmed(VisibilityElement(text)) && ';' !in VisibilityElement(text)
    ensures StripElement(VisibilityElement(text)) == text
  {
    VisibilityElementSelects(text);
    VisibilityElementStrips(text);
    VisibilityElementTrimmed(text);
    VisibilityElementAvoids(text);
  }

  lemma VisibilityElementTrimmed(text: string)
    requires BareValue(text)
    ensures Trimmed(VisibilityElement(text))
  {
    ElementTrimmed(VisibilityElement(text), 'v', text[|text| - 1]);
  }

  lemma VisibilityElementAvoids(text: string)
    requires BareValue(text)
    ensures ';' !in VisibilityElement(text)
  {
  }

  lemma VisibilityElementSelects(text: string)
    ensures !IsVersionElement(VisibilityElement(text)) && !IsResolutionElement(VisibilityElement(text))
    ensures IsVisibilityElement(VisibilityElement(text))
  {
    assert VisibilityElement(text) == "visibility" + (":=" + text);
    StartsWithConcat("visibility", ":=" + text);
    NotStartsWith(VisibilityElement(text), "bundle-version");
    NotStartsWith(VisibilityElement(text), "resolution");
  }

  lemma VisibilityElementStrips(text: string)
    requires BareValue(text)
    ensures StripElement(VisibilityElement(text)) == text
  {
    assert VisibilityElement(text) == "visibility:" + "=" + text;
    StripElementOfBare("visibility:", text);
  }

  /**
   * `toString` writes the attributes after the first as `,` elements, which
   * the element loop of `parseInner` does not split at: the clause
   * `a;resolution:=optional,visibility:=private` it writes for an optional
   * dependency reads back as a mandatory one.
   */
  lemma DependencyToStringMisreadsResolution()
    ensures ParseInner(DependencyToString(BundleDependency("a", None, Optional, Private))).resolution == Mandatory
  {
    OptionalPrivateString();
    OptionalPrivateValue();
    ResolutionOfOneElement("a", "optional" + ",visibility:=" + "private");
  }

  /**
   * The misreading holds for every dependency: `toString` writes all the
   * attributes as one `;` element, which is either a version element, which
   * sets neither resolution nor visibility, or a resolution element whose
   * value runs on into `,visibility:=...` and so is never `optional`. Only the
   * name survives; the dependency reads back mandatory and private.
   */
  lemma DependencyToStringLosesAttributes(d: BundleDependency)
    requires ';' !in d.name
    requires d.version.Some? ==> ';' !in DependencyVersionToString(d.version.value)
    ensures ParseInner(DependencyToString(d)).name == Trim(d.name)
    ensures ParseInner(DependencyToString(d)).resolution == Mandatory
    ensures ParseInner(DependencyToString(d)).visibility == Private
  {
    var r, v := ResolutionToString(d.resolution), VisibilityToString(d.visibility);
    ResolutionNameBare(d.resolution);
    VisibilityNameBare(d.visibility);
    var value := RunOnValue(r, v);
    RunOnValueBare(r, v);
    var str := DependencyToString(d);
    match d.version
    case None =>
      var e := ResolutionElement(value);
      AttributesWithoutVersion(d.name, r, v);
      ResolutionElementReads(value);
      OneElementParts(d.name, e);
      ResolutionOfOneElement(d.name, value);
      OneElementVisibility(str, d.name, e);
      OneElementName(str, d.name, e);
    case Some(version) =>
      var text := DependencyVersionToString(version);
      var e := VersionElement(text) + ("," + ResolutionElement(value));
      AttributesWithVersion(d.name, text, r, v);
      VersionElementFirst(text, value, v);
      OneElementParts(d.name, e);
      OneElementResolution(str, d.name, e);
      OneElementVisibility(str, d.name, e);
      OneElementName(str, d.name, e);
  }

  lemma AttributesWithoutVersion(name: string, resolution: string, visibility: string)
    ensures name + ";" + ("" + "resolution:=" + resolution + ",visibility:=" + visibility)
      == Join([name, ResolutionElement(RunOnValue(resolution, visibility))], ';')
  {
    JoinPair(name, ResolutionElement(RunOnValue(resolution, visibility)), ';');
  }

  lemma AttributesWithVersion(name: string, text: string, resolution: string, visibility: string)
    ensures name + ";" + ("bundle-version=\"" + text + "\"," + "resolution:=" + resolution + ",visibility:=" + visibility)
      == Join([name, VersionElement(text) + ("," + ResolutionElement(RunOnValue(resolution, visibility)))], ';')
  {
    JoinPair(name, VersionElement(text) + ("," + ResolutionElement(RunOnValue(resolution, visibility))), ';');
  }

  /** A version element followed by more attributes after a comma is still one trimmed version element. */
  lemma VersionElementFirst(text: string, value: string, visibility: string)
    requires ';' !in text && BareValue(value) && BareValue(visibility)
    requires value[|value| - 1] == visibility[|visibility| - 1]
    ensures var e := VersionElement(text) + ("," + ResolutionElement(value));
      IsVersionElement(e) && Trimmed(e) && ';' !in e
  {
    var e := VersionElement(text) + ("," + ResolutionElement(value));
    assert e == "bundle-version" + ("=\"" + text + "\"" + ("," + ResolutionElement(value)));
    StartsWithConcat("bundle-version", "=\"" + text + "\"" + ("," + ResolutionElement(value)));
    ElementTrimmed(e, 'b', value[|value| - 1]);
    VersionElementAvoids(text);
    ResolutionElementAvoids(value);
  }

  /** A clause of a name and one element reads the name, trimmed. */
  lemma OneElementName(str: string, name: string, e: string)
    requires Split(str, ';') == [name, e]
    ensures ParseInner(str).name == Trim(name)
  {
    SplitHead(str, ';');
    assert ';' in str by {
      if ';' !in str {
        CountAbsent(str, ';');
      }
    }
  }

  /** A clause of a name and one trimmed element that does not set the resolution reads the default resolution. */
  lemma OneElementResolution(str: string, name: string, e: string)
    requires Split(str, ';') == [name, e] && Trimmed(e) && !IsResolutionElement(e)
    ensures ParseInner(str).resolution == Mandatory
  {
    OneElementNotSelected(str, name, e, IsResolutionElement);
    ResolutionOfNone(str);
  }

  /** A clause of a name and one trimmed element that does not set the visibility reads the default visibility. */
  lemma OneElementVisibility(str: string, name: string, e: string)
    requires Split(str, ';') == [name, e] && Trimmed(e) && !IsVisibilityElement(e)
    ensures ParseInner(str).visibility == Private
  {
    OneElementNotSelected(str, name, e, IsVisibilityElement);
    VisibilityOfNone(str);
  }

  /** A clause with one trimmed element after the name selects nothing the element is not. */
  lemma OneElementNotSelected(str: string, name: string, e: string, selects: string -> bool)
    requires Split(str, ';') == [name, e] && Trimmed(e) && !selects(e)
    ensures LastSelected(TrimAll(Split(str, ';')[1..]), selects) == None
  {
    TrimOfTrimmed(e);
    assert TrimAll(Split(str, ';')[1..]) == [e];
    LastSelectedStep([e], selects);
  }

  /** Without a resolution element the resolution is the default. */
  lemma ResolutionOfNone(str: string)
    requires LastSelected(TrimAll(Split(str, ';')[1..]), IsResolutionElement) == None
    ensures ParseInner(str).resolution == Mandatory
  {
    ParseInnerAttributes(str);
  }

  /** Without a visibility element the visibility is the default. */
  lemma VisibilityOfNone(str: string)
    requires LastSelected(TrimAll(Split(str, ';')[1..]), IsVisibilityElement) == None
    ensures ParseInner(str).visibility == Private
  {
    ParseInnerAttributes(str);
  }

  /** A clause of a name and one resolution element reads the element's value as the resolution. */
  lemma ResolutionOfOneElement(name: string, value: string)
    requires ';' !in name && BareValue(value)
    ensures ParseInner(Join([name, ResolutionElement(value)], ';')).resolution == ResolutionParse(value)
  {
    var element := ResolutionElement(value);
    ResolutionElementAvoids(value);
    ResolutionElementSelects(value);
    ResolutionElementTrimmed(value);
    ResolutionElementStrips(value);
    OneElementParts(name, element);
    OneElementSelected(Join([name, element], ';'), name, element);
    ResolutionOfLast(Join([name, element], ';'), element);
  }

  /** What `toString` writes for an optional, private dependency `a` without version. */
  lemma OptionalPrivateString()
    ensures DependencyToString(BundleDependency("a", None, Optional, Private))
      == Join(["a", ResolutionElement("optional" + ",visibility:=" + "private")], ';')
  {
    JoinPair("a", ResolutionElement("optional" + ",visibility:=" + "private"), ';');
  }

  /** The text after `resolution:=` in that clause is bare, and is not `optional`. */
  lemma OptionalPrivateValue()
    ensures BareValue("optional" + ",visibility:=" + "private")
    ensures ResolutionParse("optional" + ",visibility:=" + "private") == Mandatory
  {
    var value := "optional" + ",visibility:=" + "private";
    assert |value| != |"optional"|;
  }

  /** A name and one element, both `;`-free, split back into themselves. */
  lemma OneElementParts(name: string, element: string)
    requires ';' !in name && ';' !in element
    ensures Split(Join([name, element], ';'), ';') == [name, element]
  {
    assert [name] + [element] == [name, element];
    ClauseParts(name, [element]);
  }

  /** A clause with one trimmed element after the name selects that element. */
  lemma OneElementSelected(s: string, name: string, element: string)
    requires Split(s, ';') == [name, element]
    requires Trimmed(element) && IsResolutionElement(element)
    ensures LastSelected(TrimAll(Split(s, ';')[1..]), IsResolutionElement) == Some(element)
  {
    TrimOfTrimmed(element);
    assert TrimAll(Split(s, ';')[1..]) == [element];
    LastSelectedStep([element], IsResolutionElement);
  }

  /** The dependency versions whose printed text reads back as them: a printable version, or a range from a printable version without maximum. */
  predicate Readable(v: DependencyVersion) {
    match v
    case PlainVersion(version) => Printable(version)
    case Range(range) => range.maxVersion.None? && Printable(range.minVersion)
  }

  /** A readable dependency version survives printing and parsing. */
  lemma DependencyVersionParseOfToString(v: DependencyVersion)
    requires Readable(v)
    ensures DependencyVersionParse(DependencyVersionToString(v)) == Some(v)
  {
    match v
    case PlainVersion(version) =>
      ParseOfToString(version);
    case Range(range) =>
      RangeParseOfToString(range);
      DependencyVersionDisjoint(RangeToString(range));
  }

  /** The `;` elements of a clause after the name: the version element if there is a version text, then the resolution and visibility elements. */
  function ClauseElements(version: Option<string>, resolution: string, visibility: string): seq<string> {
    VersionElements(version) + [ResolutionElement(resolution)] + [VisibilityElement(visibility)]
  }

  /** The version element of a clause, if it has a version text. */
  function VersionElements(version: Option<string>): seq<string> {
    match version
    case None => []
    case Some(text) => [VersionElement(text)]
  }

  /** The version text of a dependency, as the clause writes it. */
  function VersionText(version: Option<DependencyVersion>): Option<string> {
    match version
    case None => None
    case Some(v) => Some(DependencyVersionToString(v))
  }

  /** The version elements: none without a version text, else one, which selects the version and is trimmed and `;`-free when its text is. */
  lemma VersionElementsRead(version: Option<string>)
    requires version.Some? ==> Trimmed(version.value) && ';' !in version.value
    ensures |VersionElements(version)| <= 1
    ensures |VersionElements(version)| == 1 ==>
      IsVersionElement(VersionElements(version)[0]) && Trimmed(VersionElements(version)[0]) && ';' !in VersionElements(version)[0]
    ensures (if |VersionElements(version)| == 0 then None else Some(VersionElements(version)[0]))
      == match version case None => None case Some(text) => Some(VersionElement(text))
  {
    if version.Some? {
      VersionElementReads(version.value);
    }
  }

  /**
   * The clause `toString` evidently means to write: the name, then every
   * attribute as a `;` element, as a `Require-Bundle` clause has them.
   */
  function DependencyToClause(d: BundleDependency): (s: string)
    ensures StartsWith(s, d.name + ";")
  {
    var elements := ClauseElements(VersionText(d.version), ResolutionToString(d.resolution), VisibilityToString(d.visibility));
    JoinCons(d.name, elements, ';');
    StartsWithConcat(d.name + ";", Join(elements, ';'));
    Join([d.name] + elements, ';')
  }

  /**
   * Elements made of an optional version element, a resolution element and a
   * visibility element, each trimmed and `;`-free, are left alone by trimming
   * and each is the last element that sets its attribute.
   */
  lemma ElementsSelect(front: seq<string>, res: string, vis: string)
    requires |front| <= 1
    requires |front| == 1 ==> IsVersionElement(front[0]) && Trimmed(front[0]) && ';' !in front[0]
    requires !IsVersionElement(res) && IsResolutionElement(res) && Trimmed(res) && ';' !in res
    requires !IsVersionElement(vis) && !IsResolutionElement(vis) && IsVisibilityElement(vis)
    requires Trimmed(vis) && ';' !in vis
    ensures TrimAll(front + [res] + [vis]) == front + [res] + [vis]
    ensures forall k :: 0 <= k < |front + [res] + [vis]| ==> ';' !in (front + [res] + [vis])[k]
    ensures LastSelected(front + [res] + [vis], IsVersionElement) == if |front| == 0 then None else Some(front[0])
    ensures LastSelected(front + [res] + [vis], IsResolutionElement) == Some(res)
    ensures LastSelected(front + [res] + [vis], IsVisibilityElement) == Some(vis)
  {
    ElementsTrimmed(front, res, vis);
    TrimAllOfTrimmed(front + [res] + [vis]);
    LastVersionElement(front, res, vis);
    LastResolutionElement(front, res, vis);
    LastSelectedStep(front + [res] + [vis], IsVisibilityElement);
  }

  lemma ElementsTrimmed(front: seq<string>, res: string, vis: string)
    requires |front| <= 1
    requires |front| == 1 ==> Trimmed(front[0]) && ';' !in front[0]
    requires Trimmed(res) && ';' !in res && Trimmed(vis) && ';' !in vis
    ensures forall k :: 0 <= k < |front + [res] + [vis]| ==>
      Trimmed((front + [res] + [vis])[k]) && ';' !in (front + [res] + [vis])[k]
  {
  }

  lemma LastVersionElement(front: seq<string>, res: string, vis: string)
    requires |front| <= 1
    requires |front| == 1 ==> IsVersionElement(front[0])
    requires !IsVersionElement(res) && !IsVersionElement(vis)
    ensures LastSelected(front + [res] + [vis], IsVersionElement) == if |front| == 0 then None else Some(front[0])
  {
    var elements := front + [res] + [vis];
    assert elements[..|elements| - 1] == front + [res];
    assert (front + [res])[..|front|] == front;
    if |front| == 1 {
      LastSelectedStep(front, IsVersionElement);
      assert front[..0] == [];
    }
    LastSelectedStep(elements, IsVersionElement);
    LastSelectedStep(front + [res], IsVersionElement);
  }

  lemma LastResolutionElement(front: seq<string>, res: string, vis: string)
    requires IsResolutionElement(res) && !IsResolutionElement(vis)
    ensures LastSelected(front + [res] + [vis], IsResolutionElement) == Some(res)
  {
    var elements := front + [res] + [vis];
    assert elements[..|elements| - 1] == front + [res];
    LastSelectedStep(elements, IsResolutionElement);
    LastSelectedStep(front + [res], IsResolutionElement);
  }

  /** The elements of a clause are trimmed, `;`-free, and each selects the attribute it names. */
  lemma ClauseElementsSelect(version: Option<string>, resolution: string, visibility: string)
    requires version.Some? ==> Trimmed(version.value) && ';' !in version.value
    requires BareValue(resolution) && BareValue(visibility)
    ensures TrimAll(ClauseElements(version, resolution, visibility)) == ClauseElements(version, resolution, visibility)
    ensures forall k :: 0 <= k < |ClauseElements(version, resolution, visibility)| ==> ';' !in ClauseElements(version, resolution, visibility)[k]
    ensures LastSelected(ClauseElements(version, resolution, visibility), IsVersionElement)
      == match version case None => None case Some(text) => Some(VersionElement(text))
    ensures LastSelected(ClauseElements(version, resolution, visibility), IsResolutionElement) == Some(ResolutionElement(resolution))
    ensures LastSelected(ClauseElements(version, resolution, visibility), IsVisibilityElement) == Some(VisibilityElement(visibility))
  {
    VersionElementsRead(version);
    ResolutionElementReads(resolution);
    VisibilityElementReads(visibility);
    ElementsSelect(VersionElements(version), ResolutionElement(resolution), VisibilityElement(visibility));
  }

  /** A clause of `;`-free parts splits back into them. */
  lemma ClauseParts(name: string, elements: seq<string>)
    requires ';' !in name
    requires forall k :: 0 <= k < |elements| ==> ';' !in elements[k]
    ensures Split(Join([name] + elements, ';'), ';') == [name] + elements
  {
    assert forall k :: 0 <= k < |[name] + elements| ==> ';' !in ([name] + elements)[k];
    SplitOfJoin([name] + elements, ';');
  }

  /**
   * A clause written with every attribute as a `;` element reads back as
   * its name and the parsed texts of its attributes.
   */
  lemma ParseInnerOfClause(name: string, version: Option<string>, resolution: string, visibility: string)
    requires ';' !in name && Trimmed(name)
    requires version.Some? ==> Trimmed(version.value) && ';' !in version.value
    requires BareValue(resolution) && BareValue(visibility)
    ensures var r := ParseInner(Join([name] + ClauseElements(version, resolution, visibility), ';'));
      && r.name == name
      && r.version == (match version case None => None case Some(text) => DependencyVersionParse(text))
      && r.resolution == ResolutionParse(resolution)
      && r.visibility == VisibilityParse(visibility)
  {
    ClauseNameOfParse(name, version, resolution, visibility);
    ClauseVersionOfParse(name, version, resolution, visibility);
    ClauseResolutionOfParse(name, version, resolution, visibility);
    ClauseVisibilityOfParse(name, version, resolution, visibility);
  }

  /** The trimmed elements `parseInner` loops over are the clause's elements. */
  lemma ClauseElementsOfParse(name: string, version: Option<string>, resolution: string, visibility: string)
    requires ';' !in name && Trimmed(name)
    requires version.Some? ==> Trimmed(version.value) && ';' !in version.value
    requires BareValue(resolution) && BareValue(visibility)
    ensures TrimAll(Split(Join([name] + ClauseElements(version, resolution, visibility), ';'), ';')[1..]) == ClauseElements(version, resolution, visibility)
    ensures Trim(Split(Join([name] + ClauseElements(version, resolution, visibility), ';'), ';')[0]) == name
  {
    var elements := ClauseElements(version, resolution, visibility);
    ClauseElementsSelect(version, resolution, visibility);
    ClauseParts(name, elements);
    assert Split(Join([name] + ClauseElements(version, resolution, visibility), ';'), ';')[1..] == elements;
    TrimOfTrimmed(name);
  }

  lemma ClauseNameOfParse(name: string, version: Option<string>, resolution: string, visibility: string)
    requires ';' !in name && Trimmed(name)
    requires version.Some? ==> Trimmed(version.value) && ';' !in version.value
    requires BareValue(resolution) && BareValue(visibility)
    ensures ParseInner(Join([name] + ClauseElements(version, resolution, visibility), ';')).name == name
  {
    ClauseElementsOfParse(name, version, resolution, visibility);
    ApplyElementsName(name, ClauseElements(version, resolution, visibility));
  }

  lemma ClauseVersionOfParse(name: string, version: Option<string>, resolution: string, visibility: string)
    requires ';' !in name && Trimmed(name)
    requires version.Some? ==> Trimmed(version.value) && ';' !in version.value
    requires BareValue(resolution) && BareValue(visibility)
    ensures ParseInner(Join([name] + ClauseElements(version, resolution, visibility), ';')).version == (match version case None => None case Some(text) => DependencyVersionParse(text))
  {
    match version
    case None => ClauseWithoutVersionOfParse(name, resolution, visibility);
    case Some(text) => ClauseWithVersionOfParse(name, text, resolution, visibility);
  }

  lemma ClauseWithoutVersionOfParse(name: string, resolution: string, visibility: string)
    requires ';' !in name && Trimmed(name)
    requires BareValue(resolution) && BareValue(visibility)
    ensures ParseInner(Join([name] + ClauseElements(None, resolution, visibility), ';')).version.None?
  {
    ClauseElementsOfParse(name, None, resolution, visibility);
    ClauseElementsSelect(None, resolution, visibility);
    VersionOfLast(Join([name] + ClauseElements(None, resolution, visibility), ';'), None);
  }

  lemma ClauseWithVersionOfParse(name: string, text: string, resolution: string, visibility: string)
    requires ';' !in name && Trimmed(name)
    requires Trimmed(text) && ';' !in text
    requires BareValue(resolution) && BareValue(visibility)
    ensures ParseInner(Join([name] + ClauseElements(Some(text), resolution, visibility), ';')).version == DependencyVersionParse(text)
  {
    ClauseLastVersion(name, text, resolution, visibility);
    VersionElementStrips(text);
    VersionOfLastText(Join([name] + ClauseElements(Some(text), resolution, visibility), ';'), VersionElement(text), text);
  }

  /** The last version element of a clause with a version text is the one written for it. */
  lemma ClauseLastVersion(name: string, text: string, resolution: string, visibility: string)
    requires ';' !in name && Trimmed(name)
    requires Trimmed(text) && ';' !in text
    requires BareValue(resolution) && BareValue(visibility)
    ensures LastSelected(TrimAll(Split(Join([name] + ClauseElements(Some(text), resolution, visibility), ';'), ';')[1..]), IsVersionElement)
      == Some(VersionElement(text))
  {
    ClauseElementsOfParse(name, Some(text), resolution, visibility);
    ClauseElementsSelect(Some(text), resolution, visibility);
  }

  lemma ClauseResolutionOfParse(name: string, version: Option<string>, resolution: string, visibility: string)
    requires ';' !in name && Trimmed(name)
    requires version.Some? ==> Trimmed(version.value) && ';' !in version.value
    requires BareValue(resolution) && BareValue(visibility)
    ensures ParseInner(Join([name] + ClauseElements(version, resolution, visibility), ';')).resolution == ResolutionParse(resolution)
  {
    ClauseElementsOfParse(name, version, resolution, visibility);
    ClauseElementsSelect(version, resolution, visibility);
    ResolutionOfLast(Join([name] + ClauseElements(version, resolution, visibility), ';'), ResolutionElement(resolution));
    ResolutionElementReads(resolution);
  }

  lemma ClauseVisibilityOfParse(name: string, version: Option<string>, resolution: string, visibility: string)
    requires ';' !in name && Trimmed(name)
    requires version.Some? ==> Trimmed(version.value) && ';' !in version.value
    requires BareValue(resolution) && BareValue(visibility)
    ensures ParseInner(Join([name] + ClauseElements(version, resolution, visibility), ';')).visibility == VisibilityParse(visibility)
  {
    ClauseElementsOfParse(name, version, resolution, visibility);
    ClauseElementsSelect(version, resolution, visibility);
    VisibilityOfLast(Join([name] + ClauseElements(version, resolution, visibility), ';'), VisibilityElement(visibility));
    VisibilityElementReads(visibility);
  }

  /**
   * The corrected clause reads back as the dependency, when its name is
   * trimmed and `;`-free and its version is readable, trimmed and `;`-free.
   */
  lemma ParseInnerOfDependencyToClause(d: BundleDependency)
    requires ';' !in d.name && Trimmed(d.name)
    requires d.version.Some? ==>
      && Readable(d.version.value)
      && ';' !in DependencyVersionToString(d.version.value)
      && Trimmed(DependencyVersionToString(d.version.value))
    ensures ParseInner(DependencyToClause(d)) == d
  {
    ResolutionNameBare(d.resolution);
    VisibilityNameBare(d.visibility);
    ParseInnerOfClause(d.name, VersionText(d.version), ResolutionToString(d.resolution), VisibilityToString(d.visibility));
    if d.version.Some? {
      DependencyVersionParseOfToString(d.version.value);
    }
  }

  // ----- bundles -----

  /** The main attributes of a manifest, by header name. */
  type Manifest = map<string, string>

  datatype Bundle = Bundle(
    name: string,
    version: Option<Version>,
    requiredBundles: seq<BundleDependency>,
    fragmentHost: Option<BundleDependency>)

  const NoSymbolicNameMessage := "Cannot read bundle from manifest, it does not have a Bundle-SymbolicName attribute"

  /**
   * `Bundle.readFromManifest`: the symbolic name before its directives, the
   * version (zero when absent, `null` when unparseable), the required bundles
   * and the fragment host.
   */
  function ReadFromManifest(manifest: Manifest): (r: Result<Bundle, Exception>)
    ensures "Bundle-SymbolicName" !in manifest ==> r == Failure(IOException(NoSymbolicNameMessage))
    ensures r.Failure? <==>
      || "Bundle-SymbolicName" !in manifest
      || ("Require-Bundle" in manifest && !EvenQuotes(manifest["Require-Bundle"]))
    ensures r.Success? ==>
      var symbolicName := manifest["Bundle-SymbolicName"];
      r.value.name == Trim(if ';' in symbolicName then symbolicName[..IndexOf(symbolicName, ';')] else symbolicName)
    ensures r.Success? && "Bundle-Version" !in manifest ==> r.value.version == Some(Zero())
    ensures r.Success? && "Bundle-Version" in manifest ==>
      (r.value.version.Some? <==> InVersionLanguage(Trim(manifest["Bundle-Version"])))
    ensures r.Success? && "Bundle-Version" in manifest ==> r.value.version == Parse(Trim(manifest["Bundle-Version"]))
    ensures r.Success? && "Require-Bundle" !in manifest ==> r.value.requiredBundles == []
    ensures r.Success? && "Require-Bundle" in manifest ==>
      Success(r.value.requiredBundles) == ParseRequireBundle(manifest["Require-Bundle"])
    ensures r.Success? ==> (r.value.fragmentHost.Some? <==> "Fragment-Host" in manifest)
    ensures r.Success? && "Fragment-Host" in manifest ==>
      r.value.fragmentHost.value == ParseInner(manifest["Fragment-Host"])
  {
    if "Bundle-SymbolicName" !in manifest then Failure(IOException(NoSymbolicNameMessage))
    else
      var symbolicName := manifest["Bundle-SymbolicName"];
      SplitHead(symbolicName, ';');
      var name := Trim(if ';' in symbolicName then Split(symbolicName, ';')[0] else symbolicName);
      var version := if "Bundle-Version" in manifest then Parse(Trim(manifest["Bundle-Version"])) else Some(Zero());
      var required := if "Require-Bundle" in manifest then ParseRequireBundle(manifest["Require-Bundle"]) else Success([]);
      match required
      case Failure(e) => Failure(e)
      case Success(requiredBundles) =>
        var fragmentHost := if "Fragment-Host" in manifest then Some(ParseInner(manifest["Fragment-Host"])) else None;
        Success(Bundle(name, version, requiredBundles, fragmentHost))
  }
}
