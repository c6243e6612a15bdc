/**
 * mavenize/Conversions.kt: conversions between the Eclipse bundle model of
 * model/eclipse/Bundle.kt and Maven coordinates and dependencies.
 *
 * model/eclipse/Version.kt and the model/maven records are not part of this
 * model. The Eclipse versions are records holding the fields these
 * conversions read. The Maven versions are abstract records: `from` builds
 * one from its parts and the accessors give those parts back, which leaves
 * Maven's own version parser out.
 */
module Conversions {
  import opened Wrappers
  import opened KotlinText
  import opened ModelEclipseBundle

  // ----- Eclipse versions (model/eclipse/Version.kt) -----

  datatype BundleVersion = BundleVersion(major: nat, minor: Option<nat>, micro: Option<nat>, qualifier: Option<string>)

  datatype BundleVersionRange = BundleVersionRange(
    minInclusive: bool,
    minVersion: BundleVersion,
    maxVersion: Option<BundleVersion>,
    maxInclusive: bool)

  datatype BundleVersionOrRange = Version(version: BundleVersion) | Range(range: BundleVersionRange)

  // ----- Maven versions and records (model/maven) -----

  /** `MavenVersion.from(major, minor, incremental, qualifier)`. */
  datatype MavenVersion = MavenVersion(major: nat, minor: Option<nat>, incremental: Option<nat>, qualifier: Option<string>)

  /** `MavenVersionRange.from(minInclusive, minVersion, maxVersion, maxInclusive)`. */
  datatype MavenVersionRange = MavenVersionRange(
    minInclusive: bool,
    minVersion: MavenVersion,
    maxVersion: Option<MavenVersion>,
    maxInclusive: bool)

  datatype MavenVersionOrRange = MavenPlain(version: MavenVersion) | MavenRange(range: MavenVersionRange)

  /** `MavenVersion.zero()`: `from(0)`. */
  function MavenZero(): (r: MavenVersion)
    ensures r.major == 0 && r.minor.None? && r.incremental.None? && r.qualifier.None?
  {
    MavenVersion(0, None, None, None)
  }

  /** `MavenVersionRange.any()`: from zero, inclusive, without maximum. */
  function MavenAny(): (r: MavenVersionRange)
    ensures r.minInclusive && r.minVersion == MavenZero() && r.maxVersion.None? && !r.maxInclusive
  {
    MavenVersionRange(true, MavenZero(), None, false)
  }

  datatype Coordinates = Coordinates(
    groupId: string,
    id: string,
    version: MavenVersion,
    classifier: Option<string>,
    extension: string)

  datatype DependencyCoordinates = DependencyCoordinates(
    groupId: string,
    id: string,
    version: MavenVersionOrRange,
    classifier: Option<string>,
    extension: Option<string>)

  datatype MavenDependency = MavenDependency(coordinates: DependencyCoordinates, scope: Option<string>, optional: bool)

  /** `Feature.Dependency.Coordinates`: an included feature or plugin. */
  datatype FeatureCoordinates = FeatureCoordinates(id: string, version: BundleVersion)

  /** `Site.Dependency`: a feature listed on an update site. */
  datatype SiteDependency = SiteDependency(id: string, version: BundleVersion)

  // ----- qualifiers -----

  const EclipseQualifier := "qualifier"
  const MavenSnapshot := "SNAPSHOT"

  /** The Eclipse build qualifier placeholder as the Maven snapshot marker. */
  function QualifierToMaven(qualifier: Option<string>): (r: Option<string>)
    ensures r.Some? <==> qualifier.Some?
    ensures qualifier.Some? && !ContainsText(qualifier.value, EclipseQualifier) ==> r == qualifier
  {
    match qualifier
    case None => None
    case Some(q) =>
      if !ContainsText(q, EclipseQualifier) then
        ReplaceAbsent(q, EclipseQualifier, MavenSnapshot);
        Some(Replace(q, EclipseQualifier, MavenSnapshot))
      else
        Some(Replace(q, EclipseQualifier, MavenSnapshot))
  }

  /** The Maven snapshot marker as the Eclipse build qualifier placeholder. */
  function QualifierToEclipse(qualifier: Option<string>): (r: Option<string>)
    ensures r.Some? <==> qualifier.Some?
    ensures qualifier.Some? && !ContainsText(qualifier.value, MavenSnapshot) ==> r == qualifier
  {
    match qualifier
    case None => None
    case Some(q) =>
      if !ContainsText(q, MavenSnapshot) then
        ReplaceAbsent(q, MavenSnapshot, EclipseQualifier);
        Some(Replace(q, MavenSnapshot, EclipseQualifier))
      else
        Some(Replace(q, MavenSnapshot, EclipseQualifier))
  }

  /** Replacing a whole text gives the replacement. */
  lemma ReplaceWhole(target: string, replacement: string)
    requires |target| > 0
    ensures Replace(target, target, replacement) == replacement
  {
    assert target[..|target|] == target;
    assert Replace(target[|target|..], target, replacement) == [];
    assert replacement + [] == replacement;
  }

  /** The placeholder `qualifier` becomes `SNAPSHOT` and back. */
  lemma PlaceholderQualifier()
    ensures QualifierToMaven(Some(EclipseQualifier)) == Some(MavenSnapshot)
    ensures QualifierToEclipse(Some(MavenSnapshot)) == Some(EclipseQualifier)
  {
    ReplaceWhole(EclipseQualifier, MavenSnapshot);
    ReplaceWhole(MavenSnapshot, EclipseQualifier);
  }

  /**
   * A qualifier that is the placeholder, or that holds neither marker, comes
   * back unchanged from Maven.
   */
  lemma QualifierRoundTrip(qualifier: Option<string>)
    requires qualifier.Some? ==>
      || qualifier.value == EclipseQualifier
      || (!ContainsText(qualifier.value, EclipseQualifier) && !ContainsText(qualifier.value, MavenSnapshot))
    ensures QualifierToEclipse(QualifierToMaven(qualifier)) == qualifier
  {
    if qualifier == Some(EclipseQualifier) {
      PlaceholderQualifier();
    }
  }

  // ----- versions -----

  /** `BundleVersion.toMaven`: the same numbers, with `qualifier` in the qualifier turned into `SNAPSHOT`. */
  function VersionToMaven(v: BundleVersion): (r: MavenVersion)
    ensures r.major == v.major && r.minor == v.minor && r.incremental == v.micro
    ensures r.qualifier == QualifierToMaven(v.qualifier)
  {
    MavenVersion(v.major, v.minor, v.micro, QualifierToMaven(v.qualifier))
  }

  /** `MavenVersion.toEclipse`: the same numbers, with `SNAPSHOT` in the qualifier turned into `qualifier`. */
  function VersionToEclipse(v: MavenVersion): (r: BundleVersion)
    ensures r.major == v.major && r.minor == v.minor && r.micro == v.incremental
    ensures r.qualifier == QualifierToEclipse(v.qualifier)
  {
    BundleVersion(v.major, v.minor, v.incremental, QualifierToEclipse(v.qualifier))
  }

  /**
   * A bundle version whose qualifier round-trips survives the trip through
   * the Maven version record. Maven itself would read an absent minor or
   * micro back as 0, which this record does not model.
   */
  lemma VersionRoundTrip(v: BundleVersion)
    requires v.qualifier.Some? ==>
      || v.qualifier.value == EclipseQualifier
      || (!ContainsText(v.qualifier.value, EclipseQualifier) && !ContainsText(v.qualifier.value, MavenSnapshot))
    ensures VersionToEclipse(VersionToMaven(v)) == v
  {
    QualifierRoundTrip(v.qualifier);
  }

  // ----- Maven version texts and range specs (model/maven/Version.kt) -----

  /** `.n` for a present number, nothing for an absent one. */
  function DotNumber(n: Option<nat>): string {
    match n
    case None => ""
    case Some(k) => "." + NatToString(k)
  }

  /** `-q` for a present qualifier, nothing for an absent one. */
  function DashQualifier(q: Option<string>): string {
    match q
    case None => ""
    case Some(text) => "-" + text
  }

  /**
   * The text `MavenVersion.from` builds and hands to `DefaultArtifactVersion`:
   * the major number, then `.minor`, `.incremental` and `-qualifier` for each
   * part present. A Maven version prints as the text it was built from, so
   * this is also `MavenVersion.toString`.
   */
  function MavenVersionText(v: MavenVersion): (s: string)
    ensures |s| > 0 && IsDigit(s[0])
  {
    NatToString(v.major) + VersionTail(v)
  }

  /** What follows the major number in a Maven version text: a dot or a dash, or nothing. */
  function VersionTail(v: MavenVersion): (t: string)
    ensures |t| == 0 || t[0] == '.' || t[0] == '-'
  {
    DotNumber(v.minor) + (DotNumber(v.incremental) + DashQualifier(v.qualifier))
  }

  /**
   * The version spec `MavenVersionRange.from` builds: `[` or `(`, the minimum,
   * a comma, the maximum when there is one, `]` or `)`.
   */
  function RangeSpec(r: MavenVersionRange): (spec: string)
    ensures |spec| >= 2
    ensures spec[0] == (if r.minInclusive then '[' else '(')
    ensures spec[|spec| - 1] == (if r.maxInclusive then ']' else ')')
  {
    var max := match r.maxVersion case None => "" case Some(v) => MavenVersionText(v);
    [if r.minInclusive then '[' else '('] + (MavenVersionText(r.minVersion) + ("," + max)) + [if r.maxInclusive then ']' else ')']
  }

  /** The message `MavenVersionRange.from` throws with when Maven rejects the spec. */
  function RangeFailure(spec: string): string {
    "Failed to build Maven version range from string '" + spec + "'"
  }

  /**
   * `MavenVersionRange.from`: the range, when Maven's
   * `VersionRange.createFromVersionSpec`, whose verdict on a spec `accepts`
   * stands for, takes its spec; otherwise the conversion throws. Maven turns
   * down, among others, bounds in the wrong order and equal bounds that are
   * not both inclusive.
   */
  function MavenRangeFrom(range: MavenVersionRange, accepts: string -> bool): (r: Result<MavenVersionRange, string>)
    ensures r.Success? <==> accepts(RangeSpec(range))
    ensures r.Success? ==> r.value == range
    ensures r.Failure? ==> r.error == RangeFailure(RangeSpec(range))
  {
    if accepts(RangeSpec(range)) then Success(range) else Failure(RangeFailure(RangeSpec(range)))
  }

  /** Reads `.n` off the front of a text: the number and the rest, or no number and the whole text. */
  function ReadDotNumber(t: string): (r: (Option<nat>, string))
  {
    if |t| >= 2 && t[0] == '.' && IsDigit(t[1]) then
      var k := DigitRun(t[1..]);
      (Some(DigitsToNat(t[1..][..k])), t[1..][k..])
    else (None, t)
  }

  /** Reads a Maven version text: digits, up to two `.n`, and an optional `-qualifier`. */
  function ReadMavenVersionText(s: string): (r: Option<MavenVersion>)
  {
    var n := DigitRun(s);
    if n == 0 then None else ReadVersionTail(DigitsToNat(s[..n]), s[n..])
  }

  /** Reads what follows a Maven version's major number: up to two `.n`, and an optional `-qualifier`. */
  function ReadVersionTail(major: nat, t: string): (r: Option<MavenVersion>)
  {
    var (minor, afterMinor) := ReadDotNumber(t);
    var (incremental, rest) := if minor.Some? then ReadDotNumber(afterMinor) else (None, afterMinor);
    if rest == [] then Some(MavenVersion(major, minor, incremental, None))
    else if rest[0] == '-' then Some(MavenVersion(major, minor, incremental, Some(rest[1..])))
    else None
  }

  /**
   * Reads a range spec: the brackets, the minimum up to the first comma, and
   * the maximum after it, if any.
   */
  function ReadRangeSpec(spec: string): (r: Option<MavenVersionRange>)
  {
    if |spec| < 2 || (spec[0] != '[' && spec[0] != '(') || (spec[|spec| - 1] != ']' && spec[|spec| - 1] != ')') then None
    else ReadBounds(spec[0] == '[', spec[1..|spec| - 1], spec[|spec| - 1] == ']')
  }

  /** Reads the text between the brackets of a range spec: the minimum up to the first comma, the maximum after it. */
  function ReadBounds(minInclusive: bool, m: string, maxInclusive: bool): (r: Option<MavenVersionRange>)
  {
    var c := IndexOf(m, ',');
    if c < 0 then None
    else
      match ReadMavenVersionText(m[..c])
      case None => None
      case Some(min) =>
        if c + 1 == |m| then Some(MavenVersionRange(minInclusive, min, None, maxInclusive))
        else
          match ReadMavenVersionText(m[c + 1..])
          case None => None
          case Some(max) => Some(MavenVersionRange(minInclusive, min, Some(max), maxInclusive))
  }

  /** A Maven version whose text reads back: an incremental number only after a minor one. */
  predicate WellFormedMaven(v: MavenVersion) {
    v.incremental.Some? ==> v.minor.Some?
  }

  lemma ReadDotNumberOf(k: nat, t: string)
    requires |t| == 0 || !IsDigit(t[0])
    ensures ReadDotNumber("." + NatToString(k) + t) == (Some(k), t)
  {
    var d := NatToString(k);
    var u := "." + d + t;
    assert u[1..] == d + t;
    DigitRunOfConcat(d, t);
    assert (d + t)[..|d|] == d && (d + t)[|d|..] == t;
    DigitsToNatOfNatToString(k);
  }

  lemma ReadDotNumberOfNone(t: string)
    requires |t| == 0 || t[0] == '-'
    ensures ReadDotNumber(t) == (None, t)
  {
  }

  /** The text of a well-formed Maven version reads back as that version. */
  lemma MavenVersionTextRoundTrip(v: MavenVersion)
    requires WellFormedMaven(v)
    ensures ReadMavenVersionText(MavenVersionText(v)) == Some(v)
  {
    var a := NatToString(v.major);
    var rest := VersionTail(v);
    VersionTailRoundTrip(v);
    DigitRunOfConcat(a, rest);
    assert (a + rest)[..|a|] == a && (a + rest)[|a|..] == rest;
    DigitsToNatOfNatToString(v.major);
  }

  /** What follows the major number of a well-formed Maven version reads back as the rest of that version. */
  lemma VersionTailRoundTrip(v: MavenVersion)
    requires WellFormedMaven(v)
    ensures ReadVersionTail(v.major, VersionTail(v)) == Some(v)
  {
    var q := DashQualifier(v.qualifier);
    assert |q| == 0 || q[0] == '-';
    assert v.qualifier == if q == [] then None else Some(q[1..]);
    match v.minor
    case None =>
      assert VersionTail(v) == q;
      ReadDotNumberOfNone(q);
    case Some(k) =>
      assert VersionTail(v) == "." + NatToString(k) + (DotNumber(v.incremental) + q);
      TailAfterMinor(v.major, k, v.incremental, q);
  }

  /** A tail that starts with a minor number reads back as that number, the incremental one and the qualifier. */
  lemma TailAfterMinor(major: nat, k: nat, incremental: Option<nat>, q: string)
    requires |q| == 0 || q[0] == '-'
    ensures ReadVersionTail(major, "." + NatToString(k) + (DotNumber(incremental) + q))
      == Some(MavenVersion(major, Some(k), incremental, if q == [] then None else Some(q[1..])))
  {
    var t := DotNumber(incremental) + q;
    ReadDotNumberOf(k, t);
    match incremental
    case None =>
      assert t == q;
      ReadDotNumberOfNone(q);
    case Some(j) =>
      assert t == "." + NatToString(j) + q;
      ReadDotNumberOf(j, q);
  }

  /** A Maven version text has a comma only inside its qualifier. */
  lemma MavenVersionTextNoComma(v: MavenVersion)
    requires v.qualifier.Some? ==> ',' !in v.qualifier.value
    ensures ',' !in MavenVersionText(v)
  {
    NumberNoComma(v.major);
    if v.minor.Some? {
      NumberNoComma(v.minor.value);
    }
    if v.incremental.Some? {
      NumberNoComma(v.incremental.value);
    }
  }

  lemma NumberNoComma(k: nat)
    ensures ',' !in NatToString(k)
  {
    var d := NatToString(k);
    assert forall i :: 0 <= i < |d| ==> IsDigit(d[i]);
  }

  /**
   * The spec `MavenVersionRange.from` hands to Maven reads back as the range
   * it was built from, when both bounds are well formed and the minimum's
   * qualifier has no comma.
   */
  lemma RangeSpecRoundTrip(r: MavenVersionRange)
    requires WellFormedMaven(r.minVersion)
    requires r.maxVersion.Some? ==> WellFormedMaven(r.maxVersion.value)
    requires r.minVersion.qualifier.Some? ==> ',' !in r.minVersion.qualifier.value
    ensures ReadRangeSpec(RangeSpec(r)) == Some(r)
  {
    var minText := MavenVersionText(r.minVersion);
    var max := match r.maxVersion case None => "" case Some(v) => MavenVersionText(v);
    var o, c := if r.minInclusive then '[' else '(', if r.maxInclusive then ']' else ')';
    assert RangeSpec(r) == [o] + (minText + ("," + max)) + [c];
    MavenVersionTextNoComma(r.minVersion);
    MavenVersionTextRoundTrip(r.minVersion);
    match r.maxVersion
    case None =>
      ReadRangeSpecParts(o, minText, max, c);
    case Some(v) =>
      MavenVersionTextRoundTrip(v);
      ReadRangeSpecParts(o, minText, max, c);
  }

  /** How a spec made of brackets, a comma-free minimum text, a comma and a maximum text reads. */
  lemma ReadRangeSpecParts(o: char, x: string, y: string, c: char)
    requires (o == '[' || o == '(') && (c == ']' || c == ')') && ',' !in x
    ensures ReadRangeSpec([o] + (x + ("," + y)) + [c]) ==
        match ReadMavenVersionText(x)
        case None => None
        case Some(min) =>
          if y == [] then Some(MavenVersionRange(o == '[', min, None, c == ']'))
          else
            match ReadMavenVersionText(y)
            case None => None
            case Some(max) => Some(MavenVersionRange(o == '[', min, Some(max), c == ']'))
  {
    var m := x + ("," + y);
    var spec := [o] + m + [c];
    assert spec[1..|spec| - 1] == m;
    ReadBoundsParts(o == '[', x, y, c == ']');
  }

  /** The bounds text of a comma-free minimum, a comma and a maximum reads as those two versions. */
  lemma ReadBoundsParts(minInclusive: bool, x: string, y: string, maxInclusive: bool)
    requires ',' !in x
    ensures ReadBounds(minInclusive, x + ("," + y), maxInclusive) ==
        match ReadMavenVersionText(x)
        case None => None
        case Some(min) =>
          if y == [] then Some(MavenVersionRange(minInclusive, min, None, maxInclusive))
          else
            match ReadMavenVersionText(y)
            case None => None
            case Some(max) => Some(MavenVersionRange(minInclusive, min, Some(max), maxInclusive))
  {
    var m := x + ("," + y);
    CommaAfter(x, y);
    assert m[..|x|] == x && m[|x| + 1..] == y;
  }

  /** The first comma after a comma-free text is the one that follows it. */
  lemma CommaAfter(x: string, y: string)
    requires ',' !in x
    ensures IndexOf(x + ("," + y), ',') == |x|
  {
    var m := x + ("," + y);
    assert m[|x|] == ',';
    assert forall i :: 0 <= i < |x| ==> m[i] == x[i];
  }

  // ----- versions and ranges to Maven -----

  /** The Maven range `BundleVersionRange.toMaven` asks for: the same brackets, with each bound converted. */
  function RangeRecord(range: BundleVersionRange): (r: MavenVersionRange)
    ensures r.minInclusive == range.minInclusive && r.maxInclusive == range.maxInclusive
    ensures r.minVersion == VersionToMaven(range.minVersion)
    ensures r.maxVersion.Some? <==> range.maxVersion.Some?
    ensures range.maxVersion.Some? ==> r.maxVersion.value == VersionToMaven(range.maxVersion.value)
  {
    MavenVersionRange(range.minInclusive, VersionToMaven(range.minVersion),
      match range.maxVersion case None => None case Some(v) => Some(VersionToMaven(v)),
      range.maxInclusive)
  }

  /**
   * `BundleVersionRange.toMaven`: the same brackets, with each bound
   * converted, as long as Maven takes the spec; otherwise it throws.
   */
  function RangeToMaven(range: BundleVersionRange, accepts: string -> bool): (r: Result<MavenVersionRange, string>)
    ensures r.Success? <==> accepts(RangeSpec(RangeRecord(range)))
    ensures r.Failure? ==> r.error == RangeFailure(RangeSpec(RangeRecord(range)))
    ensures r.Success? ==> r.value.minInclusive == range.minInclusive && r.value.maxInclusive == range.maxInclusive
    ensures r.Success? ==> r.value.minVersion == VersionToMaven(range.minVersion)
    ensures r.Success? ==> (r.value.maxVersion.Some? <==> range.maxVersion.Some?)
    ensures r.Success? && range.maxVersion.Some? ==> r.value.maxVersion.value == VersionToMaven(range.maxVersion.value)
  {
    MavenRangeFrom(RangeRecord(range), accepts)
  }

  /** The Maven range a dependency version stands for: from a plain version on, or the converted range. */
  function VersionOrRangeRecord(v: BundleVersionOrRange): MavenVersionRange {
    match v
    case Version(version) => MavenVersionRange(true, VersionToMaven(version), None, false)
    case Range(range) => RangeRecord(range)
  }

  /**
   * `BundleVersionOrRange.toMaven`: a plain version, used as a dependency
   * version, means that version or later: a range from it, inclusive, without
   * maximum. A range is converted bound by bound. Either way Maven must take
   * the spec, or the conversion throws.
   */
  function VersionOrRangeToMaven(v: BundleVersionOrRange, accepts: string -> bool): (r: Result<MavenVersionOrRange, string>)
    ensures r.Success? <==> accepts(RangeSpec(VersionOrRangeRecord(v)))
    ensures r.Failure? ==> r.error == RangeFailure(RangeSpec(VersionOrRangeRecord(v)))
    ensures r.Success? ==> r.value.MavenRange?
    ensures v.Version? && r.Success? ==>
      && r.value.range.minInclusive && r.value.range.minVersion == VersionToMaven(v.version)
      && r.value.range.maxVersion.None? && !r.value.range.maxInclusive
    ensures v.Range? ==> (r.Success? <==> RangeToMaven(v.range, accepts).Success?)
    ensures v.Range? && r.Success? ==> r.value.range == RangeToMaven(v.range, accepts).value
  {
    match v
    case Version(version) =>
      (match MavenRangeFrom(MavenVersionRange(true, VersionToMaven(version), None, false), accepts)
       case Success(range) => Success(MavenRange(range))
       case Failure(message) => Failure(message))
    case Range(range) =>
      (match RangeToMaven(range, accepts)
       case Success(converted) => Success(MavenRange(converted))
       case Failure(message) => Failure(message))
  }

  /**
   * `MavenVersionRange.toEclipse`: the range's Maven text, `printRange`, parsed
   * back with `BundleVersionRange.parse`, `parseRange`; when that fails the
   * conversion throws.
   */
  function RangeToEclipse(
    range: MavenVersionRange,
    printRange: MavenVersionRange -> string,
    parseRange: string -> Option<BundleVersionRange>): (r: Result<BundleVersionRange, string>)
    ensures r.Success? <==> parseRange(printRange(range)).Some?
    ensures r.Success? ==> r.value == parseRange(printRange(range)).value
    ensures r.Failure? ==>
      r.error == "Could not convert Maven version range '" + printRange(range) + "' to an Eclipse bundle version range"
  {
    match parseRange(printRange(range))
    case Some(parsed) => Success(parsed)
    case None => Failure("Could not convert Maven version range '" + printRange(range) + "' to an Eclipse bundle version range")
  }

  /** `MavenVersionOrRange.toEclipse`: a version converts directly, a range by way of its text. */
  function VersionOrRangeToEclipse(
    v: MavenVersionOrRange,
    printRange: MavenVersionRange -> string,
    parseRange: string -> Option<BundleVersionRange>): (r: Result<BundleVersionOrRange, string>)
    ensures v.MavenPlain? ==> r == Success(Version(VersionToEclipse(v.version)))
    ensures v.MavenRange? ==> (r.Success? <==> parseRange(printRange(v.range)).Some?)
    ensures v.MavenRange? && r.Success? ==> r.value == Range(parseRange(printRange(v.range)).value)
  {
    match v
    case MavenPlain(version) => Success(Version(VersionToEclipse(version)))
    case MavenRange(range) =>
      match RangeToEclipse(range, printRange, parseRange)
      case Success(parsed) => Success(Range(parsed))
      case Failure(message) => Failure(message)
  }

  // ----- coordinates -----

  /** The extension `BundleCoordinates.toMaven` uses when none is given. */
  const DefaultExtension := "jar"

  /** `BundleCoordinates.toMaven(groupId, classifier, extension)`. */
  function CoordinatesToMaven(
    c: BundleCoordinates<BundleVersion>,
    groupId: string,
    classifier: Option<string>,
    extension: string): (r: Coordinates)
    ensures r.groupId == groupId && r.id == c.name && r.version == VersionToMaven(c.version)
    ensures r.classifier == classifier && r.extension == extension
  {
    Coordinates(groupId, c.name, VersionToMaven(c.version), classifier, extension)
  }

  /** `Coordinates.toEclipse`: the artifact id as the bundle name. */
  function CoordinatesToEclipse(c: Coordinates): (r: BundleCoordinates<BundleVersion>)
    ensures r.name == c.id && r.version == VersionToEclipse(c.version)
  {
    BundleCoordinates(c.id, VersionToEclipse(c.version))
  }

  /** Bundle coordinates survive the trip through the Maven coordinates record when their qualifier does. */
  lemma CoordinatesRoundTrip(c: BundleCoordinates<BundleVersion>, groupId: string, classifier: Option<string>, extension: string)
    requires c.version.qualifier.Some? ==>
      || c.version.qualifier.value == EclipseQualifier
      || (!ContainsText(c.version.qualifier.value, EclipseQualifier) && !ContainsText(c.version.qualifier.value, MavenSnapshot))
    ensures CoordinatesToEclipse(CoordinatesToMaven(c, groupId, classifier, extension)) == c
  {
    VersionRoundTrip(c.version);
  }

  // ----- dependencies -----

  /** The Maven range a dependency asks for: any version when it has none. */
  function DependencyRange(d: BundleDependency<BundleVersionOrRange>): MavenVersionRange {
    match d.version
    case None => MavenAny()
    case Some(v) => VersionOrRangeRecord(v)
  }

  /**
   * `BundleDependency.toMaven`: a dependency on the bundle's name in the given
   * group; no version means any version; optional exactly when the resolution
   * is optional; visibility is dropped. It throws when Maven does not take
   * the version's range spec.
   */
  function DependencyToMaven(
    d: BundleDependency<BundleVersionOrRange>,
    groupId: string,
    classifier: Option<string>,
    extension: Option<string>,
    scope: Option<string>,
    accepts: string -> bool): (r: Result<MavenDependency, string>)
    ensures r.Success? <==> accepts(RangeSpec(DependencyRange(d)))
    ensures r.Failure? ==> r.error == RangeFailure(RangeSpec(DependencyRange(d)))
    ensures r.Success? ==> r.value.coordinates.groupId == groupId && r.value.coordinates.id == d.name
    ensures r.Success? && d.version.None? ==> r.value.coordinates.version == MavenRange(MavenAny())
    ensures r.Success? && d.version.Some? ==> r.value.coordinates.version == VersionOrRangeToMaven(d.version.value, accepts).value
    ensures r.Success? ==>
      r.value.coordinates.classifier == classifier && r.value.coordinates.extension == extension && r.value.scope == scope
    ensures r.Success? ==> (r.value.optional <==> d.resolution == Optional)
  {
    var version := match d.version
      case Some(v) => VersionOrRangeToMaven(v, accepts)
      case None =>
        (match MavenRangeFrom(MavenAny(), accepts)
         case Success(any) => Success(MavenRange(any))
         case Failure(message) => Failure(message));
    match version
    case Failure(message) => Failure(message)
    case Success(version) =>
      Success(MavenDependency(DependencyCoordinates(groupId, d.name, version, classifier, extension), scope, d.resolution == Optional))
  }

  /**
   * `MavenDependency.toEclipse`: a dependency on the artifact id, optional
   * exactly when the Maven dependency is, with the default visibility. It
   * throws when the version is a range that does not convert.
   */
  function DependencyToEclipse(
    d: MavenDependency,
    printRange: MavenVersionRange -> string,
    parseRange: string -> Option<BundleVersionRange>): (r: Result<BundleDependency<BundleVersionOrRange>, string>)
    ensures r.Success? <==> VersionOrRangeToEclipse(d.coordinates.version, printRange, parseRange).Success?
    ensures r.Success? ==>
      && r.value.name == d.coordinates.id
      && r.value.version == Some(VersionOrRangeToEclipse(d.coordinates.version, printRange, parseRange).value)
      && (r.value.resolution == Optional <==> d.optional)
      && r.value.visibility == VisibilityDefault()
  {
    match VersionOrRangeToEclipse(d.coordinates.version, printRange, parseRange)
    case Failure(message) => Failure(message)
    case Success(version) =>
      var resolution := if d.optional then Optional else Mandatory;
      Success(BundleDependency(d.coordinates.id, Some(version), resolution, VisibilityDefault()))
  }

  /**
   * A dependency that goes to Maven and back keeps its name and resolution;
   * its visibility becomes the default.
   */
  lemma DependencyRoundTrip(
    d: BundleDependency<BundleVersionOrRange>,
    groupId: string,
    scope: Option<string>,
    accepts: string -> bool,
    printRange: MavenVersionRange -> string,
    parseRange: string -> Option<BundleVersionRange>)
    requires var m := DependencyToMaven(d, groupId, None, None, scope, accepts);
      m.Success? && DependencyToEclipse(m.value, printRange, parseRange).Success?
    ensures var r := DependencyToEclipse(DependencyToMaven(d, groupId, None, None, scope, accepts).value, printRange, parseRange);
      r.value.name == d.name && r.value.resolution == d.resolution && r.value.visibility == Private
  {
  }

  /** `Feature.Dependency.Coordinates.toMaven`: the feature's id and version in the given group. */
  function FeatureCoordinatesToMaven(
    c: FeatureCoordinates,
    groupId: string,
    classifier: Option<string>,
    extension: Option<string>): (r: DependencyCoordinates)
    ensures r.groupId == groupId && r.id == c.id && r.version == MavenPlain(VersionToMaven(c.version))
    ensures r.classifier == classifier && r.extension == extension
  {
    DependencyCoordinates(groupId, c.id, MavenPlain(VersionToMaven(c.version)), classifier, extension)
  }

  /** `Site.Dependency.toMaven`: the site dependency's id and version in the given group. */
  function SiteDependencyToMaven(
    d: SiteDependency,
    groupId: string,
    classifier: Option<string>,
    extension: Option<string>): (r: DependencyCoordinates)
    ensures r.groupId == groupId && r.id == d.id && r.version == MavenPlain(VersionToMaven(d.version))
    ensures r.classifier == classifier && r.extension == extension
  {
    DependencyCoordinates(groupId, d.id, MavenPlain(VersionToMaven(d.version)), classifier, extension)
  }
}
