/**
 * model/Version.kt: an OSGi-style bundle version `major[.minor][.micro][.qualifier]`,
 * a version range `[min,max)` with either bracket style, and the sealed
 * class `VersionOrRange` that a dependency's version attribute parses to.
 * The numeric parts are unbounded naturals.
 */
module ModelVersion {
  import opened Wrappers
  import opened KotlinText
  import opened VersionPatterns

  datatype Version = Version(major: nat, minor: Option<nat>, micro: Option<nat>, qualifier: Option<string>)

  datatype VersionRange = VersionRange(
    minInclusive: bool,
    minVersion: Version,
    maxVersion: Option<Version>,
    maxInclusive: bool)

  /** The sealed class `VersionOrRange`, whose subclasses are `Version` and `VersionRange`. */
  datatype VersionOrRange = PlainVersion(version: Version) | Range(range: VersionRange)

  /** The versions whose printed text parses back to them. */
  predicate Printable(v: Version) {
    VersionPatterns.Printable(v.minor, v.micro, v.qualifier)
  }

  /** `Version.parse`: the four groups of the version pattern, numbers read with `toInt`, or `null` when the text does not match. */
  function Parse(str: string): (r: Option<Version>)
    ensures r.Some? <==> InVersionLanguage(str)
    ensures r.Some? ==> IsDigit(str[0]) && Printable(r.value)
  {
    match MatchVersion(str)
    case None => None
    case Some(g) =>
      Some(Version(DigitsToNat(g.major), ReadNumber(g.minor), ReadNumber(g.micro), g.qualifier))
  }

  function Zero(): (r: Version)
    ensures ToString(r) == "0"
    ensures Parse("0") == Some(r)
  {
    Version(0, None, None, None)
  }

  /** `toString`: the major number, then a dot and each present part. */
  function ToString(v: Version): string {
    Render(PrintGroups(v.major, v.minor, v.micro, v.qualifier))
  }

  /** Printing a printable version and parsing the text gives the version back. */
  lemma ParseOfToString(v: Version)
    requires Printable(v)
    ensures Parse(ToString(v)) == Some(v)
  {
    MatchVersionOfPrinted(v.major, v.minor, v.micro, v.qualifier);
    DigitsToNatOfNatToString(v.major);
    ReadPrintNumber(v.minor);
    ReadPrintNumber(v.micro);
  }

  /** Parsing text whose numbers have no leading zeros and printing the version gives the text back. */
  lemma ToStringOfParse(str: string)
    requires Parse(str).Some?
    requires CanonicalGroups(MatchVersion(str).value)
    ensures ToString(Parse(str).value) == str
  {
    var g := MatchVersion(str).value;
    NatToStringOfDigitsToNat(g.major);
    PrintReadNumber(g.minor);
    PrintReadNumber(g.micro);
  }

  /** The printed text of a printable version is what a range may hold between bracket and comma. */
  lemma ToStringText(v: Version)
    requires Printable(v)
    ensures |ToString(v)| > 0 && NoLineTerminator(ToString(v)) && IsDigit(ToString(v)[0])
  {
    ParseOfToString(v);
    InVersionLanguageText(ToString(v));
  }

  /** `withoutQualifier`: the same numbers, no qualifier. */
  function WithoutQualifier(v: Version): (r: Version)
    ensures (v.micro.Some? ==> v.minor.Some?) ==> Parse(ToString(r)) == Some(r)
    ensures ToString(v) == ToString(r) + Dotted(v.qualifier)
  {
    var r := Version(v.major, v.minor, v.micro, None);
    RenderWithoutQualifier(PrintGroups(v.major, v.minor, v.micro, v.qualifier));
    if v.micro.Some? ==> v.minor.Some? then
      ParseOfToString(r);
      r
    else
      r
  }

  lemma WithoutQualifierIdempotent(v: Version)
    ensures WithoutQualifier(WithoutQualifier(v)) == WithoutQualifier(v)
  {
  }

  /** A version without qualifier prints as digits and dots only, so never with a comma. */
  lemma UnqualifiedNoComma(v: Version)
    requires v.qualifier.None?
    ensures ',' !in ToString(v)
  {
    var major := NatToString(v.major);
    var minor := Dotted(PrintNumber(v.minor));
    var micro := Dotted(PrintNumber(v.micro));
    assert ToString(v) == major + (minor + (micro + ""));
    assert forall i :: 0 <= i < |major| ==> IsDigit(major[i]);
    if v.minor.Some? {
      var d := NatToString(v.minor.value);
      assert forall i :: 0 <= i < |d| ==> IsDigit(d[i]);
    }
    if v.micro.Some? {
      var d := NatToString(v.micro.value);
      assert forall i :: 0 <= i < |d| ==> IsDigit(d[i]);
    }
  }

  // ----- ranges -----

  /**
   * `VersionRange.parse`: `null` unless the range pattern matches and group 2
   * parses as a version. The maximum is `Version.parse` of group 3, which the
   * second `\w*` has already stripped of its leading digits, so it is never set.
   */
  function RangeParse(str: string): (r: Option<VersionRange>)
    ensures r.Some? <==> InRangeLanguage(str) && Parse(MinText(str)).Some?
    ensures r.Some? ==>
      && r.value.minInclusive == (str[0] == '[')
      && r.value.maxInclusive == (str[|str| - 1] == ']')
      && Parse(MinText(str)) == Some(r.value.minVersion)
      && r.value.maxVersion.None?
  {
    match MatchRange(str)
    case None => None
    case Some(g) =>
      MatchRangeMin(str);
      match Parse(g.min)
      case None => None
      case Some(minVersion) =>
        MatchRangeMaxNeverVersion(str);
        Some(VersionRange(g.open == '[', minVersion, Parse(g.max), g.close == ']'))
  }

  /** `anyVersionsRange`: from version 0 inclusive, unbounded. */
  function AnyVersionsRange(): (r: VersionRange)
    ensures RangeToString(r) == "[0,)"
    ensures RangeParse("[0,)") == Some(r)
  {
    var r := VersionRange(true, Zero(), None, false);
    var zero := ToString(Zero());
    assert zero == "0";
    assert RangeToString(r) == ['['] + zero + "," + "" + [')'];
    assert ['['] + "0" + "," + "" + [')'] == "[0,)";
    RangeParseOfToString(r);
    r
  }

  /** `withoutQualifiers`: both bounds without qualifier, brackets unchanged. */
  function WithoutQualifiers(range: VersionRange): (r: VersionRange)
    ensures r.minInclusive == range.minInclusive && r.maxInclusive == range.maxInclusive
    ensures r.maxVersion.Some? <==> range.maxVersion.Some?
    ensures r.minVersion.qualifier.None? && (r.maxVersion.Some? ==> r.maxVersion.value.qualifier.None?)
    ensures r.minVersion.major == range.minVersion.major && r.minVersion.minor == range.minVersion.minor
      && r.minVersion.micro == range.minVersion.micro
    ensures r.maxVersion.Some? ==>
      && r.maxVersion.value.major == range.maxVersion.value.major
      && r.maxVersion.value.minor == range.maxVersion.value.minor
      && r.maxVersion.value.micro == range.maxVersion.value.micro
    ensures ToString(range.minVersion) == ToString(r.minVersion) + Dotted(range.minVersion.qualifier)
    ensures r.maxVersion.Some? ==>
      ToString(range.maxVersion.value) == ToString(r.maxVersion.value) + Dotted(range.maxVersion.value.qualifier)
  {
    VersionRange(
      range.minInclusive,
      WithoutQualifier(range.minVersion),
      match range.maxVersion
      case None => None
      case Some(v) => Some(WithoutQualifier(v)),
      range.maxInclusive)
  }

  lemma WithoutQualifiersIdempotent(range: VersionRange)
    ensures WithoutQualifiers(WithoutQualifiers(range)) == WithoutQualifiers(range)
  {
  }

  /** `VersionRange.toString`: bracket, minimum, comma, maximum if any, bracket. */
  function RangeToString(r: VersionRange): string {
    [if r.minInclusive then '[' else '('] + ToString(r.minVersion) + ","
      + (match r.maxVersion case None => "" case Some(v) => ToString(v))
      + [if r.maxInclusive then ']' else ')']
  }

  /** A range without maximum and with a printable minimum survives printing and parsing. */
  lemma RangeParseOfToString(r: VersionRange)
    requires r.maxVersion.None? && Printable(r.minVersion)
    ensures RangeParse(RangeToString(r)) == Some(r)
  {
    var open := if r.minInclusive then '[' else '(';
    var close := if r.maxInclusive then ']' else ')';
    var text := ToString(r.minVersion);
    ToStringText(r.minVersion);
    assert RangeToString(r) == [open] + text + "," + [close];
    MatchRangeOfPrinted(open, text, close);
    ParseOfToString(r.minVersion);
  }

  /** A printed maximum does not survive: the parsed range has none. */
  lemma RangeParseLosesMax(r: VersionRange)
    requires r.maxVersion.Some?
    ensures RangeParse(RangeToString(r)) != Some(r)
  {
  }

  /**
   * `VersionRange.parse` with the range pattern as evidently intended: group 3
   * is the whole text after the last comma, so a printed maximum is read.
   */
  function RangeParseWholeMax(str: string): (r: Option<VersionRange>)
    ensures r.Some? ==> InRangeLanguage(str)
    ensures r.Some? ==> r.value.minInclusive == (str[0] == '[') && r.value.maxInclusive == (str[|str| - 1] == ']')
  {
    match MatchRangeWholeMax(str)
    case None => None
    case Some(g) =>
      match Parse(g.min)
      case None => None
      case Some(minVersion) => Some(VersionRange(g.open == '[', minVersion, Parse(g.max), g.close == ']'))
  }

  /** With the corrected pattern, every range with printable bounds survives printing and parsing, maximum included. */
  lemma RangeParseWholeMaxOfToString(r: VersionRange)
    requires Printable(r.minVersion)
    requires r.maxVersion.Some? ==> Printable(r.maxVersion.value) && ',' !in ToString(r.maxVersion.value)
    ensures RangeParseWholeMax(RangeToString(r)) == Some(r)
  {
    var open := if r.minInclusive then '[' else '(';
    var close := if r.maxInclusive then ']' else ')';
    var min := ToString(r.minVersion);
    ToStringText(r.minVersion);
    ParseOfToString(r.minVersion);
    match r.maxVersion
    case None =>
      assert RangeToString(r) == [open] + min + "," + "" + [close];
      Reassociate(open, min, "", close);
      RangeParseWholeMaxOfParts(open, min, "", close);
    case Some(v) =>
      var max := ToString(v);
      ToStringText(v);
      ParseOfToString(v);
      assert RangeToString(r) == [open] + min + "," + max + [close];
      Reassociate(open, min, max, close);
      RangeParseWholeMaxOfParts(open, min, max, close);
  }

  /** Regrouping the parts of a printed range. */
  lemma Reassociate(open: char, min: string, max: string, close: char)
    ensures [open] + min + "," + max + [close] == [open] + (min + ("," + max)) + [close]
  {
  }

  /** How the corrected parse reads a bracket, a minimum text, a comma, a comma-free maximum text and a bracket. */
  lemma RangeParseWholeMaxOfParts(open: char, min: string, max: string, close: char)
    requires IsOpen(open) && IsClose(close)
    requires |min| > 0 && NoLineTerminator(min) && NoLineTerminator(max) && ',' !in max
    requires Parse(min).Some?
    ensures RangeParseWholeMax([open] + (min + ("," + max)) + [close])
      == Some(VersionRange(open == '[', Parse(min).value, Parse(max), close == ']'))
  {
    MatchRangeWholeMaxOfPrinted(open, min, max, close);
  }

  // ----- version or range -----

  /** `VersionOrRange.parse`: a version if the text is one, otherwise a range if it is one, otherwise `null`. */
  function VersionOrRangeParse(str: string): (r: Option<VersionOrRange>)
    ensures r.Some? <==> Parse(str).Some? || RangeParse(str).Some?
    ensures r.Some? && r.value.PlainVersion? ==> Parse(str) == Some(r.value.version)
    ensures r.Some? && r.value.Range? ==> RangeParse(str) == Some(r.value.range)
  {
    match Parse(str)
    case Some(v) => Some(PlainVersion(v))
    case None =>
      match RangeParse(str)
      case Some(range) => Some(Range(range))
      case None => None
  }

  /** At most one reading applies: a version starts with a digit, a range with a bracket. */
  lemma VersionOrRangeDisjoint(str: string)
    ensures !(Parse(str).Some? && RangeParse(str).Some?)
  {
  }
}
