/**
 * mavenize/EclipseVersionParser.kt: the same version and range syntax as
 * model/Version.kt, with the third number called `patch`, and without the
 * `VersionOrRange` class. The numeric parts are unbounded naturals.
 */
module EclipseVersionParser {
  import opened Wrappers
  import opened KotlinText
  import opened VersionPatterns

  datatype Version = Version(major: nat, minor: Option<nat>, patch: Option<nat>, qualifier: Option<string>)

  datatype VersionRange = VersionRange(
    minInclusive: bool,
    minVersion: Version,
    maxVersion: Option<Version>,
    maxInclusive: bool)

  /** The versions whose printed text parses back to them. */
  predicate Printable(v: Version) {
    VersionPatterns.Printable(v.minor, v.patch, v.qualifier)
  }

  /** `Version.parse`: the four groups of the version pattern, numbers read with `toInt`, or `null` when the text does not match. */
  function Parse(str: string): (r: Option<Version>)
    ensures r.Some? <==> InVersionLanguage(str)
    ensures r.Some? ==> IsDigit(str[0]) && Printable(r.value)
  {
    match MatchVersion(str)
    case None => None
    case Some(g) =>
      Some(Version(DigitsToNat(g.major), ReadNumber(g.minor), ReadNumber(g.micro), g.qualifier))
  }

  function Zero(): (r: Version)
    ensures ToString(r) == "0"
    ensures Parse("0") == Some(r)
  {
    Version(0, None, None, None)
  }

  /** `toString`: the major number, then a dot and each present part. */
  function ToString(v: Version): string {
    Render(PrintGroups(v.major, v.minor, v.patch, v.qualifier))
  }

  /** Printing a printable version and parsing the text gives the version back. */
  lemma ParseOfToString(v: Version)
    requires Printable(v)
    ensures Parse(ToString(v)) == Some(v)
  {
    MatchVersionOfPrinted(v.major, v.minor, v.patch, v.qualifier);
    DigitsToNatOfNatToString(v.major);
    ReadPrintNumber(v.minor);
    ReadPrintNumber(v.patch);
  }

  /** Parsing text whose numbers have no leading zeros and printing the version gives the text back. */
  lemma ToStringOfParse(str: string)
    requires Parse(str).Some?
    requires CanonicalGroups(MatchVersion(str).value)
    ensures ToString(Parse(str).value) == str
  {
    var g := MatchVersion(str).value;
    NatToStringOfDigitsToNat(g.major);
    PrintReadNumber(g.minor);
    PrintReadNumber(g.micro);
  }

  /** The printed text of a printable version is what a range may hold between bracket and comma. */
  lemma ToStringText(v: Version)
    requires Printable(v)
    ensures |ToString(v)| > 0 && NoLineTerminator(ToString(v)) && IsDigit(ToString(v)[0])
  {
    ParseOfToString(v);
    InVersionLanguageText(ToString(v));
  }

  /** `withoutQualifier`: the same numbers, no qualifier. */
  function WithoutQualifier(v: Version): (r: Version)
    ensures (v.patch.Some? ==> v.minor.Some?) ==> Parse(ToString(r)) == Some(r)
    ensures ToString(v) == ToString(r) + Dotted(v.qualifier)
  {
    var r := Version(v.major, v.minor, v.patch, None);
    RenderWithoutQualifier(PrintGroups(v.major, v.minor, v.patch, v.qualifier));
    if v.patch.Some? ==> v.minor.Some? then
      ParseOfToString(r);
      r
    else
      r
  }

  lemma WithoutQualifierIdempotent(v: Version)
    ensures WithoutQualifier(WithoutQualifier(v)) == WithoutQualifier(v)
  {
  }

  // ----- ranges -----

  /**
   * `VersionRange.parse`: `null` unless the range pattern matches and group 2
   * parses as a version. The maximum is `Version.parse` of group 3, which the
   * second `\w*` has already stripped of its leading digits, so it is never set.
   */
  function RangeParse(str: string): (r: Option<VersionRange>)
    ensures r.Some? <==> InRangeLanguage(str) && Parse(MinText(str)).Some?
    ensures r.Some? ==>
      && r.value.minInclusive == (str[0] == '[')
      && r.value.maxInclusive == (str[|str| - 1] == ']')
      && Parse(MinText(str)) == Some(r.value.minVersion)
      && r.value.maxVersion.None?
  {
    match MatchRange(str)
    case None => None
    case Some(g) =>
      MatchRangeMin(str);
      match Parse(g.min)
      case None => None
      case Some(minVersion) =>
        MatchRangeMaxNeverVersion(str);
        Some(VersionRange(g.open == '[', minVersion, Parse(g.max), g.close == ']'))
  }

  /** `anyVersionsRange`: from version 0 inclusive, unbounded. */
  function AnyVersionsRange(): (r: VersionRange)
    ensures RangeToString(r) == "[0,)"
    ensures RangeParse("[0,)") == Some(r)
  {
    var r := VersionRange(true, Zero(), None, false);
    var zero := ToString(Zero());
    assert zero == "0";
    assert RangeToString(r) == ['['] + zero + "," + "" + [')'];
    assert ['['] + "0" + "," + "" + [')'] == "[0,)";
    RangeParseOfToString(r);
    r
  }

  /** `VersionRange.toString`: bracket, minimum, comma, maximum if any, bracket. */
  function RangeToString(r: VersionRange): string {
    [if r.minInclusive then '[' else '('] + ToString(r.minVersion) + ","
      + (match r.maxVersion case None => "" case Some(v) => ToString(v))
      + [if r.maxInclusive then ']' else ')']
  }

  /** A range without maximum and with a printable minimum survives printing and parsing. */
  lemma RangeParseOfToString(r: VersionRange)
    requires r.maxVersion.None? && Printable(r.minVersion)
    ensures RangeParse(RangeToString(r)) == Some(r)
  {
    var open := if r.minInclusive then '[' else '(';
    var close := if r.maxInclusive then ']' else ')';
    var text := ToString(r.minVersion);
    ToStringText(r.minVersion);
    assert RangeToString(r) == [open] + text + "," + [close];
    MatchRangeOfPrinted(open, text, close);
    ParseOfToString(r.minVersion);
  }

  /** A printed maximum does not survive: the parsed range has none. */
  lemma RangeParseLosesMax(r: VersionRange)
    requires r.maxVersion.Some?
    ensures RangeParse(RangeToString(r)) != Some(r)
  {
  }
}
