/**
 * mavenize/EclipseBundleToMavenArtifact.kt: turns bundles read by
 * model/Bundle.kt into Maven artifacts. The converter remembers every bundle
 * it was given, which fragments name which host, and which bundle holds the
 * sources of which; the state is an immutable record threaded through
 * `AddBundle`. The Maven records the file builds (coordinates, dependency,
 * artifact) are plain records here.
 */
module EclipseBundleToMavenArtifact {
  import opened Wrappers
  import opened KotlinText
  import opened ModelVersion
  import opened ModelBundle
  import opened KotlinCollections
  import VersionPatterns

  // ----- Maven records -----

  datatype Coordinates = Coordinates(
    groupId: string,
    id: string,
    version: string,
    classifier: Option<string>,
    extension: Option<string>)

  datatype MavenDependency = MavenDependency(coordinates: Coordinates, scope: Option<string>, optional: bool)

  datatype MavenArtifact = MavenArtifact(coordinates: Coordinates, dependencies: seq<MavenDependency>)

  // ----- versions -----

  /**
   * `convertVersion`: `"0"` for a bundle without a version; otherwise the
   * version's numbers as Maven text, which is the version printed without its
   * qualifier.
   */
  function ConvertVersion(version: Option<Version>): (s: string)
    ensures version.None? ==> s == "0"
    ensures version.Some? ==> s == ToString(WithoutQualifier(version.value))
    ensures version.Some? ==> ToString(version.value) == s + VersionPatterns.Dotted(version.value.qualifier)
    ensures version.Some? && (version.value.micro.Some? ==> version.value.minor.Some?) ==>
      Parse(s) == Some(WithoutQualifier(version.value))
  {
    match version
    case None => "0"
    case Some(v) =>
      var w := WithoutQualifier(v);
      var minor := match w.minor case None => "" case Some(n) => "." + NatToString(n);
      var patch := match w.micro case None => "" case Some(n) => "." + NatToString(n);
      var text := NatToString(w.major) + minor + patch;
      assert text == ToString(w) by {
        assert minor == VersionPatterns.Dotted(VersionPatterns.PrintNumber(w.minor));
        assert patch == VersionPatterns.Dotted(VersionPatterns.PrintNumber(w.micro));
        assert ToString(w) == NatToString(w.major) + (minor + (patch + ""));
        assert patch + "" == patch;
        ConcatAssociates(NatToString(w.major), minor, patch);
      }
      text
  }

  /**
   * `convertVersionRange`: the range printed with both bounds stripped of
   * their qualifiers, so that each bound reads as `convertVersion` writes it.
   */
  function ConvertVersionRange(range: VersionRange): (s: string)
    ensures |s| >= 3 && s[0] == (if range.minInclusive then '[' else '(')
    ensures s[|s| - 1] == (if range.maxInclusive then ']' else ')')
    ensures s == [s[0]] + ConvertVersion(Some(range.minVersion)) + ","
      + (match range.maxVersion case None => "" case Some(v) => ConvertVersion(Some(v)))
      + [s[|s| - 1]]
  {
    RangeToString(WithoutQualifiers(range))
  }

  /**
   * A converted range without maximum reads back as the range without
   * qualifiers: the conversion loses exactly the qualifiers.
   */
  lemma ConvertVersionRangeParses(range: VersionRange)
    requires range.maxVersion.None? && (range.minVersion.micro.Some? ==> range.minVersion.minor.Some?)
    ensures RangeParse(ConvertVersionRange(range)) == Some(WithoutQualifiers(range))
  {
    RangeParseOfToString(WithoutQualifiers(range));
  }

  /**
   * Read with the range pattern as evidently intended, a converted range
   * gives back the range without qualifiers, maximum included.
   */
  lemma ConvertVersionRangeWholeMax(range: VersionRange)
    requires range.minVersion.micro.Some? ==> range.minVersion.minor.Some?
    requires range.maxVersion.Some? ==> (range.maxVersion.value.micro.Some? ==> range.maxVersion.value.minor.Some?)
    ensures RangeParseWholeMax(ConvertVersionRange(range)) == Some(WithoutQualifiers(range))
  {
    var w := WithoutQualifiers(range);
    if w.maxVersion.Some? {
      UnqualifiedNoComma(w.maxVersion.value);
    }
    RangeParseWholeMaxOfToString(w);
  }

  /**
   * `convertDependencyVersion`: a plain version means that version or any
   * later one, no version means any version at all, and a range is kept.
   */
  function ConvertDependencyVersion(versionOrRange: Option<VersionOrRange>): (s: string)
    ensures versionOrRange.None? ==> s == "[0,)"
    ensures versionOrRange.Some? && versionOrRange.value.PlainVersion? ==>
      s == "[" + ConvertVersion(Some(versionOrRange.value.version)) + ",)"
    ensures versionOrRange.Some? && versionOrRange.value.Range? ==>
      s == ConvertVersionRange(versionOrRange.value.range)
  {
    match versionOrRange
    case Some(PlainVersion(v)) =>
      AtLeastText(v);
      ConvertVersionRange(VersionRange(true, v, None, false))
    case Some(Range(range)) => ConvertVersionRange(range)
    case None =>
      AnyVersionText();
      ConvertVersionRange(VersionRange(true, Zero(), None, false))
  }

  /** The range from version zero upwards prints as `[0,)`. */
  lemma AnyVersionText()
    ensures ConvertVersionRange(VersionRange(true, Zero(), None, false)) == "[0,)"
  {
    AtLeastText(Zero());
    ZeroText();
  }

  /** Version zero converts to `0`. */
  lemma ZeroText()
    ensures ConvertVersion(Some(Zero())) == "0"
  {
    assert WithoutQualifier(Zero()) == Zero();
  }

  /** The range from a version upwards prints as the version's Maven text between `[` and `,)`. */
  lemma AtLeastText(v: Version)
    ensures ConvertVersionRange(VersionRange(true, v, None, false)) == "[" + ConvertVersion(Some(v)) + ",)"
  {
    var text := ConvertVersion(Some(v));
    assert WithoutQualifiers(VersionRange(true, v, None, false)) == VersionRange(true, WithoutQualifier(v), None, false);
    assert ConvertVersionRange(VersionRange(true, v, None, false)) == ['['] + text + "," + "" + [')'];
  }

  // ----- bundles and dependencies -----

  /** `bundleToCoordinates`: a `jar` in the converter's group, classified `sources` for a source bundle. */
  function BundleToCoordinates(bundle: Bundle, groupId: string): (r: Coordinates)
    ensures r.groupId == groupId && r.id == bundle.name && r.version == ConvertVersion(bundle.version)
    ensures r.classifier.Some? <==> bundle.sourceBundleFor.Some?
    ensures r.classifier.Some? ==> r.classifier.value == "sources"
    ensures r.extension == Some("jar")
  {
    Coordinates(groupId, bundle.name, ConvertVersion(bundle.version),
      if bundle.sourceBundleFor.Some? then Some("sources") else None, Some("jar"))
  }

  /**
   * `convertRequiredBundle`: a Maven dependency on the required bundle, optional
   * exactly when its resolution is optional. Visibility has no Maven
   * counterpart and is dropped.
   */
  function ConvertRequiredBundle(requiredBundle: BundleDependency, groupId: string): (r: MavenDependency)
    ensures r.coordinates.groupId == groupId && r.coordinates.id == requiredBundle.name
    ensures r.coordinates.version == ConvertDependencyVersion(requiredBundle.versionOrRange)
    ensures r.coordinates.classifier.None? && r.coordinates.extension.None? && r.scope.None?
    ensures r.optional <==> requiredBundle.resolution == Optional
  {
    var coordinates := Coordinates(groupId, requiredBundle.name, ConvertDependencyVersion(requiredBundle.versionOrRange), None, None);
    MavenDependency(coordinates, None, requiredBundle.resolution == Optional)
  }

  /** The visibility of a required bundle never shows in its Maven dependency. */
  lemma ConvertRequiredBundleIgnoresVisibility(requiredBundle: BundleDependency, visibility: DependencyVisibility, groupId: string)
    ensures ConvertRequiredBundle(requiredBundle.(visibility := visibility), groupId)
         == ConvertRequiredBundle(requiredBundle, groupId)
  {
  }

  /** The dependency through which a fragment's host depends on the fragment: mandatory and re-exported. */
  function GuestDependency(guest: Bundle): (r: BundleDependency)
    ensures r.name == guest.name && r.resolution == Mandatory && r.visibility == Reexport
    ensures r.versionOrRange.Some? <==> guest.version.Some?
    ensures guest.version.Some? ==> r.versionOrRange.value == PlainVersion(guest.version.value)
  {
    BundleDependency(guest.name, match guest.version case None => None case Some(v) => Some(PlainVersion(v)),
      Mandatory, Reexport)
  }

  // ----- the converter -----

  /**
   * `EclipseBundleConverter`: the bundles added so far, in order, the fragments
   * added so far by the name of their host, and the last source bundle added
   * for each bundle name.
   */
  datatype Converter = Converter(
    groupId: string,
    bundles: seq<Bundle>,
    fragmentHostToGuests: map<string, set<Bundle>>,
    sourceBundles: map<string, Bundle>)

  /** A bundle that declares itself a fragment of the bundle named `host`; the host version is not looked at. */
  predicate HostedBy(bundle: Bundle, host: string) {
    bundle.fragmentHost.Some? && bundle.fragmentHost.value.name == host
  }

  /** A bundle that declares itself the sources of the bundle named `name`. */
  predicate SourcesOf(bundle: Bundle, name: string) {
    bundle.sourceBundleFor.Some? && bundle.sourceBundleFor.value.name == name
  }

  /** The guests recorded for `host`; no entry reads as no guests. */
  function Guests(c: Converter, host: string): set<Bundle> {
    if host in c.fragmentHostToGuests then c.fragmentHostToGuests[host] else {}
  }

  /** The fragments of `host` among `bundles`: the reference the recorded guests are held to. */
  function GuestsAmong(bundles: seq<Bundle>, host: string): (r: set<Bundle>)
    ensures forall b :: b in r <==> b in bundles && HostedBy(b, host)
  {
    set b | b in bundles && HostedBy(b, host)
  }

  /** The last of `bundles` that holds the sources of `name`: the reference for the recorded source bundles. */
  function LastSourcesOf(bundles: seq<Bundle>, name: string): (r: Option<Bundle>)
    ensures r.None? <==> forall k :: 0 <= k < |bundles| ==> !SourcesOf(bundles[k], name)
    ensures r.Some? ==> r.value in bundles && SourcesOf(r.value, name)
  {
    if |bundles| == 0 then None
    else if SourcesOf(bundles[|bundles| - 1], name) then Some(bundles[|bundles| - 1])
    else
      var r := LastSourcesOf(bundles[..|bundles| - 1], name);
      assert forall k :: 0 <= k < |bundles| - 1 ==> bundles[..|bundles| - 1][k] == bundles[k];
      r
  }

  /** No bundle after the one `LastSourcesOf` picks holds the sources of `name`. */
  lemma {:induction false} LastSourcesOfIsLast(bundles: seq<Bundle>, name: string, k: nat)
    requires k < |bundles| && SourcesOf(bundles[k], name)
    ensures LastSourcesOf(bundles, name).Some?
    ensures LastSourcesOf(bundles, name) == Some(bundles[k]) || exists j :: k < j < |bundles| && bundles[j] == LastSourcesOf(bundles, name).value
    decreases |bundles|
  {
    var n := |bundles| - 1;
    if k < n && !SourcesOf(bundles[n], name) {
      LastSourcesOfIsLast(bundles[..n], name, k);
      if LastSourcesOf(bundles, name) != Some(bundles[k]) {
        var j :| k < j < n && bundles[..n][j] == LastSourcesOf(bundles, name).value;
        assert bundles[j] == LastSourcesOf(bundles, name).value;
      }
    }
  }

  /** The recorded state agrees with the bundles added so far. */
  ghost predicate Consistent(c: Converter) {
    && (forall host :: Guests(c, host) == GuestsAmong(c.bundles, host))
    && (forall name :: SourceBundleFor(c, name) == LastSourcesOf(c.bundles, name))
  }

  /** A converter that has seen no bundle. */
  function NewConverter(groupId: string): (c: Converter)
    ensures c.groupId == groupId && c.bundles == [] && Consistent(c)
  {
    Converter(groupId, [], map[], map[])
  }

  /** `addBundle`: remembers the bundle, files it as a guest of its host and as the sources of the bundle it names. */
  function AddBundle(c: Converter, bundle: Bundle): (r: Converter)
    ensures r.groupId == c.groupId && r.bundles == c.bundles + [bundle]
    ensures forall host :: Guests(r, host) == if HostedBy(bundle, host) then Guests(c, host) + {bundle} else Guests(c, host)
    ensures forall name :: SourceBundleFor(r, name) == if SourcesOf(bundle, name) then Some(bundle) else SourceBundleFor(c, name)
  {
    var guests := match bundle.fragmentHost
      case None => c.fragmentHostToGuests
      case Some(host) => c.fragmentHostToGuests[host.name := Guests(c, host.name) + {bundle}];
    var sources := match bundle.sourceBundleFor
      case None => c.sourceBundles
      case Some(target) => c.sourceBundles[target.name := bundle];
    Converter(c.groupId, c.bundles + [bundle], guests, sources)
  }

  /** Adding a bundle keeps the recorded state in agreement with the bundles added. */
  lemma AddBundleConsistent(c: Converter, bundle: Bundle)
    requires Consistent(c)
    ensures Consistent(AddBundle(c, bundle))
  {
    var r := AddBundle(c, bundle);
    forall host
      ensures Guests(r, host) == GuestsAmong(r.bundles, host)
    {
      assert forall b :: b in r.bundles <==> b in c.bundles || b == bundle;
    }
    forall name
      ensures SourceBundleFor(r, name) == LastSourcesOf(r.bundles, name)
    {
      assert r.bundles[..|r.bundles| - 1] == c.bundles;
    }
  }

  /** `addBundles`: each bundle added in turn. */
  function AddBundles(c: Converter, bundles: seq<Bundle>): (r: Converter)
    ensures r.groupId == c.groupId && r.bundles == c.bundles + bundles
    decreases |bundles|
  {
    if |bundles| == 0 then
      assert c.bundles + bundles == c.bundles;
      c
    else
      var r := AddBundles(AddBundle(c, bundles[0]), bundles[1..]);
      assert c.bundles + [bundles[0]] + bundles[1..] == c.bundles + bundles;
      r
  }

  /** A converter that bundles were added to has recorded exactly the fragments and source bundles among them. */
  lemma {:induction false} AddBundlesConsistent(c: Converter, bundles: seq<Bundle>)
    requires Consistent(c)
    ensures Consistent(AddBundles(c, bundles))
    decreases |bundles|
  {
    if |bundles| > 0 {
      AddBundleConsistent(c, bundles[0]);
      AddBundlesConsistent(AddBundle(c, bundles[0]), bundles[1..]);
    }
  }

  /** `sourceBundle`: the bundle recorded as holding the sources of `bundle`, by name only. */
  function SourceBundleFor(c: Converter, name: string): Option<Bundle> {
    if name in c.sourceBundles then Some(c.sourceBundles[name]) else None
  }

  function SourceBundle(c: Converter, bundle: Bundle): (r: Option<Bundle>)
    ensures Consistent(c) ==> r == LastSourcesOf(c.bundles, bundle.name)
    ensures Consistent(c) && r.Some? ==> r.value in c.bundles && SourcesOf(r.value, bundle.name)
  {
    SourceBundleFor(c, bundle.name)
  }

  // ----- fragment guests -----

  /** The dependency a host gets on one of its fragment guests. */
  function GuestToMaven(groupId: string): Bundle -> MavenDependency {
    guest => ConvertRequiredBundle(GuestDependency(guest), groupId)
  }

  /**
   * `fragmentGuestDependencies`: one dependency per fragment recorded under the
   * bundle's name. The guests come out of a hash set, whose iteration order
   * `order` stands for.
   */
  function FragmentGuestDependencies(c: Converter, bundle: Bundle, order: seq<Bundle>): (r: seq<MavenDependency>)
    requires Enumerates(order, Guests(c, bundle.name))
    ensures |r| == |order| == |Guests(c, bundle.name)|
    ensures forall i :: 0 <= i < |r| ==> r[i] == GuestToMaven(c.groupId)(order[i])
  {
    EnumerationSize(order, Guests(c, bundle.name));
    Map(order, GuestToMaven(c.groupId))
  }

  /**
   * The guest dependencies are exactly those of the bundle's guests, whatever
   * the iteration order.
   */
  lemma FragmentGuestDependenciesOfGuests(c: Converter, bundle: Bundle, order: seq<Bundle>)
    requires Enumerates(order, Guests(c, bundle.name))
    ensures forall d :: d in FragmentGuestDependencies(c, bundle, order) <==>
      exists guest :: guest in Guests(c, bundle.name) && d == GuestToMaven(c.groupId)(guest)
  {
    MapMembers(order, GuestToMaven(c.groupId));
  }

  /** Which dependencies the guests give does not depend on the hash set's iteration order. */
  lemma FragmentGuestDependenciesOrderFree(c: Converter, bundle: Bundle, order1: seq<Bundle>, order2: seq<Bundle>)
    requires Enumerates(order1, Guests(c, bundle.name)) && Enumerates(order2, Guests(c, bundle.name))
    ensures forall d :: d in FragmentGuestDependencies(c, bundle, order1) <==> d in FragmentGuestDependencies(c, bundle, order2)
  {
    FragmentGuestDependenciesOfGuests(c, bundle, order1);
    FragmentGuestDependenciesOfGuests(c, bundle, order2);
  }

  /** A guest dependency is mandatory, on the guest's name and version, in the converter's group. */
  lemma GuestToMavenMandatory(groupId: string, guest: Bundle)
    ensures !GuestToMaven(groupId)(guest).optional
    ensures GuestToMaven(groupId)(guest).coordinates.id == guest.name
    ensures GuestToMaven(groupId)(guest).coordinates.groupId == groupId
    ensures guest.version.Some? ==>
      GuestToMaven(groupId)(guest).coordinates.version == "[" + ConvertVersion(guest.version) + ",)"
    ensures guest.version.None? ==> GuestToMaven(groupId)(guest).coordinates.version == "[0,)"
  {
  }

  /**
   * `toMavenArtifact`: the bundle's coordinates, and a dependency per required
   * bundle, in order, followed by one per fragment guest of the bundle.
   */
  function ToMavenArtifact(c: Converter, bundle: Bundle, order: seq<Bundle>): (r: MavenArtifact)
    requires Enumerates(order, Guests(c, bundle.name))
    ensures r.coordinates == BundleToCoordinates(bundle, c.groupId)
    ensures |r.dependencies| == |bundle.requiredBundles| + |Guests(c, bundle.name)|
    ensures forall i :: 0 <= i < |bundle.requiredBundles| ==>
      r.dependencies[i] == ConvertRequiredBundle(bundle.requiredBundles[i], c.groupId)
    ensures r.dependencies[|bundle.requiredBundles|..] == FragmentGuestDependencies(c, bundle, order)
    ensures forall i :: |bundle.requiredBundles| <= i < |r.dependencies| ==> !r.dependencies[i].optional
  {
    var dependencies := seq(|bundle.requiredBundles|, i requires 0 <= i < |bundle.requiredBundles| =>
      ConvertRequiredBundle(bundle.requiredBundles[i], c.groupId));
    var guests := FragmentGuestDependencies(c, bundle, order);
    assert (dependencies + guests)[|dependencies|..] == guests;
    forall i | 0 <= i < |guests|
      ensures !guests[i].optional
    {
      GuestToMavenMandatory(c.groupId, order[i]);
    }
    MavenArtifact(BundleToCoordinates(bundle, c.groupId), dependencies + guests)
  }

  /** A host gets a dependency on every fragment among the bundles added that names it as host. */
  lemma ToMavenArtifactDependsOnFragments(groupId: string, bundles: seq<Bundle>, bundle: Bundle, order: seq<Bundle>, guest: Bundle)
    requires Enumerates(order, Guests(AddBundles(NewConverter(groupId), bundles), bundle.name))
    requires guest in bundles && HostedBy(guest, bundle.name)
    ensures GuestToMaven(groupId)(guest) in ToMavenArtifact(AddBundles(NewConverter(groupId), bundles), bundle, order).dependencies
  {
    var c := AddBundles(NewConverter(groupId), bundles);
    AddBundlesConsistent(NewConverter(groupId), bundles);
    assert guest in Guests(c, bundle.name);
    FragmentGuestDependenciesOfGuests(c, bundle, order);
    var r := ToMavenArtifact(c, bundle, order);
    var guests := FragmentGuestDependencies(c, bundle, order);
    assert GuestToMaven(groupId)(guest) in guests;
    var i :| 0 <= i < |guests| && guests[i] == GuestToMaven(groupId)(guest);
    assert r.dependencies[|bundle.requiredBundles| + i] == guests[i];
  }

  // ----- EclipseBundleToMavenArtifact -----

  /**
   * `EclipseBundleToMavenArtifact.convert` as written: it adds the bundle, then
   * converts every bundle the converter holds and returns the first of them,
   * which is the artifact of the first bundle ever added.
   */
  function Convert(c: Converter, bundle: Bundle, order: seq<Bundle>): (r: (Converter, MavenArtifact))
    requires Enumerates(order, Guests(AddBundle(c, bundle), (c.bundles + [bundle])[0].name))
    ensures r.0 == AddBundle(c, bundle)
    ensures r.1.coordinates == BundleToCoordinates(r.0.bundles[0], c.groupId)
    ensures c.bundles == [] ==> r.1.coordinates == BundleToCoordinates(bundle, c.groupId)
  {
    var next := AddBundle(c, bundle);
    (next, ToMavenArtifact(next, next.bundles[0], order))
  }

  /** Converting a second, different bundle gives back the first bundle's coordinates. */
  lemma ConvertReturnsFirstBundle(groupId: string, first: Bundle, second: Bundle)
    requires first.fragmentHost.None? && second.fragmentHost.None? && first.name != second.name
    ensures var (c, _) := Convert(NewConverter(groupId), first, []);
      Convert(c, second, []).1.coordinates.id == first.name != second.name
  {
    var (c, _) := Convert(NewConverter(groupId), first, []);
    assert Guests(c, first.name) == {};
    assert Guests(AddBundle(c, second), first.name) == {};
  }

  /** `convert` with the artifact of the bundle just added, which its name promises. */
  function ConvertAdded(c: Converter, bundle: Bundle, order: seq<Bundle>): (r: (Converter, MavenArtifact))
    requires Enumerates(order, Guests(AddBundle(c, bundle), bundle.name))
    ensures r.0 == AddBundle(c, bundle)
    ensures r.1.coordinates == BundleToCoordinates(bundle, c.groupId)
    ensures r.1.coordinates.id == bundle.name
  {
    var next := AddBundle(c, bundle);
    (next, ToMavenArtifact(next, bundle, order))
  }

  /** `convertAll`: every bundle added, then every bundle the converter holds, converted in order. */
  function ConvertAll(c: Converter, bundles: seq<Bundle>, orders: seq<seq<Bundle>>): (r: (Converter, seq<MavenArtifact>))
    requires |orders| == |c.bundles| + |bundles|
    requires forall i :: 0 <= i < |orders| ==>
      Enumerates(orders[i], Guests(AddBundles(c, bundles), AddBundles(c, bundles).bundles[i].name))
    ensures r.0 == AddBundles(c, bundles)
    ensures |r.1| == |c.bundles| + |bundles|
    ensures forall i :: 0 <= i < |c.bundles| ==> r.1[i].coordinates == BundleToCoordinates(c.bundles[i], c.groupId)
    ensures forall i :: 0 <= i < |bundles| ==> r.1[|c.bundles| + i].coordinates == BundleToCoordinates(bundles[i], c.groupId)
    ensures forall i :: 0 <= i < |r.1| ==> r.1[i] == ToMavenArtifact(r.0, r.0.bundles[i], orders[i])
  {
    var next := AddBundles(c, bundles);
    var artifacts := Artifacts(next, orders);
    assert forall i :: 0 <= i < |c.bundles| ==> next.bundles[i] == c.bundles[i];
    assert forall i :: 0 <= i < |bundles| ==> next.bundles[|c.bundles| + i] == bundles[i];
    (next, artifacts)
  }

  /** One artifact per bundle of the converter, in order. */
  function Artifacts(c: Converter, orders: seq<seq<Bundle>>): (r: seq<MavenArtifact>)
    requires |orders| == |c.bundles|
    requires forall i :: 0 <= i < |orders| ==> Enumerates(orders[i], Guests(c, c.bundles[i].name))
    ensures |r| == |c.bundles|
    ensures forall i :: 0 <= i < |r| ==> r[i].coordinates == BundleToCoordinates(c.bundles[i], c.groupId)
    ensures forall i :: 0 <= i < |r| ==> r[i] == ToMavenArtifact(c, c.bundles[i], orders[i])
  {
    seq(|orders|, i requires 0 <= i < |orders| => ToMavenArtifact(c, c.bundles[i], orders[i]))
  }
}
