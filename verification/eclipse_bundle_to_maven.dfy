/**
 * mavenize/EclipseBundleToMaven.kt: the default methods of the
 * `EclipseBundleToMaven` interface, which turn bundles read by
 * mavenize/EclipseBundle.kt into Maven coordinates and dependencies, and the
 * `FragmentEmulator`, which gives each host bundle a dependency on each of
 * its fragments.
 */
module EclipseBundleToMaven {
  import opened Wrappers
  import opened KotlinText
  import opened KotlinCollections
  import opened EclipseBundle
  import VersionPatterns

  // ----- Maven records -----

  datatype Coordinates = Coordinates(
    groupId: string,
    id: string,
    version: string,
    classifier: Option<string>,
    extension: Option<string>)

  datatype MavenDependency = MavenDependency(coordinates: Coordinates, scope: Option<string>, optional: bool)

  // ----- versions -----

  /**
   * `convertVersion`: `"0"` for a bundle without a version; otherwise the
   * version's numbers as Maven text, which is the version printed without its
   * qualifier.
   */
  function ConvertVersion(version: Option<Version>): (s: string)
    ensures version.None? ==> s == "0"
    ensures version.Some? ==> s == ToString(WithoutQualifier(version.value))
    ensures version.Some? ==> ToString(version.value) == s + VersionPatterns.Dotted(version.value.qualifier)
    ensures version.Some? && (version.value.micro.Some? ==> version.value.minor.Some?) ==>
      Parse(s) == Some(WithoutQualifier(version.value))
  {
    match version
    case None => "0"
    case Some(v) =>
      var w := WithoutQualifier(v);
      var minor := match w.minor case None => "" case Some(n) => "." + NatToString(n);
      var patch := match w.micro case None => "" case Some(n) => "." + NatToString(n);
      var text := NatToString(w.major) + minor + patch;
      assert text == ToString(w) by {
        assert minor == VersionPatterns.Dotted(VersionPatterns.PrintNumber(w.minor));
        assert patch == VersionPatterns.Dotted(VersionPatterns.PrintNumber(w.micro));
        assert ToString(w) == NatToString(w.major) + (minor + (patch + ""));
        assert patch + "" == patch;
        ConcatAssociates(NatToString(w.major), minor, patch);
      }
      text
  }

  /**
   * `convertVersionRange`: the range printed with both bounds stripped of
   * their qualifiers, so that each bound reads as `convertVersion` writes it.
   */
  function ConvertVersionRange(range: VersionRange): (s: string)
    ensures |s| >= 3 && s[0] == (if range.minInclusive then '[' else '(')
    ensures s[|s| - 1] == (if range.maxInclusive then ']' else ')')
    ensures s == [s[0]] + ConvertVersion(Some(range.minVersion)) + ","
      + (match range.maxVersion case None => "" case Some(v) => ConvertVersion(Some(v)))
      + [s[|s| - 1]]
  {
    RangeToString(WithoutQualifiers(range))
  }

  /**
   * A converted range without maximum reads back as the range without
   * qualifiers: the conversion loses exactly the qualifiers.
   */
  lemma ConvertVersionRangeParses(range: VersionRange)
    requires range.maxVersion.None? && (range.minVersion.micro.Some? ==> range.minVersion.minor.Some?)
    ensures RangeParse(ConvertVersionRange(range)) == Some(WithoutQualifiers(range))
  {
    RangeParseOfToString(WithoutQualifiers(range));
  }

  /**
   * `convertDependencyVersion`: a plain version means that version or any
   * later one, no version means any version at all, and a range is kept.
   */
  function ConvertDependencyVersion(version: Option<DependencyVersion>): (s: string)
    ensures version.None? ==> s == "[0,)"
    ensures version.Some? && version.value.PlainVersion? ==>
      s == "[" + ConvertVersion(Some(version.value.version)) + ",)"
    ensures version.Some? && version.value.Range? ==>
      s == ConvertVersionRange(version.value.range)
  {
    match version
    case Some(PlainVersion(v)) =>
      AtLeastText(v);
      ConvertVersionRange(VersionRange(true, v, None, false))
    case Some(Range(range)) => ConvertVersionRange(range)
    case None =>
      AnyVersionText();
      ConvertVersionRange(VersionRange(true, Zero(), None, false))
  }

  /** The range from version zero upwards prints as `[0,)`. */
  lemma AnyVersionText()
    ensures ConvertVersionRange(VersionRange(true, Zero(), None, false)) == "[0,)"
  {
    AtLeastText(Zero());
    ZeroText();
  }

  /** Version zero converts to `0`. */
  lemma ZeroText()
    ensures ConvertVersion(Some(Zero())) == "0"
  {
    assert WithoutQualifier(Zero()) == Zero();
  }

  /** The range from a version upwards prints as the version's Maven text between `[` and `,)`. */
  lemma AtLeastText(v: Version)
    ensures ConvertVersionRange(VersionRange(true, v, None, false)) == "[" + ConvertVersion(Some(v)) + ",)"
  {
    var text := ConvertVersion(Some(v));
    assert WithoutQualifiers(VersionRange(true, v, None, false)) == VersionRange(true, WithoutQualifier(v), None, false);
    assert ConvertVersionRange(VersionRange(true, v, None, false)) == ['['] + text + "," + "" + [')'];
  }

  // ----- bundles and dependencies -----

  /**
   * `bundleToCoordinates`: the bundle's name and Maven version in the given
   * group, with neither classifier nor extension.
   */
  function BundleToCoordinates(bundle: Bundle, groupId: string): (r: Coordinates)
    ensures r.groupId == groupId && r.id == bundle.name && r.version == ConvertVersion(bundle.version)
    ensures r.classifier.None? && r.extension.None?
  {
    Coordinates(groupId, bundle.name, ConvertVersion(bundle.version), None, None)
  }

  /**
   * `convertRequiredBundle`: a Maven dependency on the required bundle, optional
   * exactly when its resolution is optional. Visibility has no Maven
   * counterpart and is dropped.
   */
  function ConvertRequiredBundle(requiredBundle: BundleDependency, groupId: string): (r: MavenDependency)
    ensures r.coordinates.groupId == groupId && r.coordinates.id == requiredBundle.name
    ensures r.coordinates.version == ConvertDependencyVersion(requiredBundle.version)
    ensures r.coordinates.classifier.None? && r.coordinates.extension.None? && r.scope.None?
    ensures r.optional <==> requiredBundle.resolution == Optional
  {
    var coordinates := Coordinates(groupId, requiredBundle.name, ConvertDependencyVersion(requiredBundle.version), None, None);
    MavenDependency(coordinates, None, requiredBundle.resolution == Optional)
  }

  /** The visibility of a required bundle never shows in its Maven dependency. */
  lemma ConvertRequiredBundleIgnoresVisibility(requiredBundle: BundleDependency, visibility: DependencyVisibility, groupId: string)
    ensures ConvertRequiredBundle(requiredBundle.(visibility := visibility), groupId)
         == ConvertRequiredBundle(requiredBundle, groupId)
  {
  }

  // ----- fragment emulation -----

  /** A bundle that declares itself a fragment of the bundle named `host`; the host version is not looked at. */
  predicate HostedBy(bundle: Bundle, host: string) {
    bundle.fragmentHost.Some? && bundle.fragmentHost.value.name == host
  }

  /** The fragments of `host` among `bundles`. */
  function GuestsAmong(bundles: seq<Bundle>, host: string): (r: set<Bundle>)
    ensures forall b :: b in r <==> b in bundles && HostedBy(b, host)
  {
    set b | b in bundles && HostedBy(b, host)
  }

  /** A fragment is one of the guests of its host among the bundles it appears in. */
  lemma GuestsAmongCons(bundles: seq<Bundle>, host: string)
    requires |bundles| > 0
    ensures GuestsAmong(bundles, host)
         == (if HostedBy(bundles[0], host) then {bundles[0]} else {}) + GuestsAmong(bundles[1..], host)
  {
    assert forall b :: b in bundles <==> b == bundles[0] || b in bundles[1..];
  }

  /** `FragmentEmulator`: the fragments among the bundles it was built from, by the name of their host. */
  datatype FragmentEmulator = FragmentEmulator(fragmentHostToGuests: map<string, set<Bundle>>)

  /** The set a hash map holds for `host`; no entry reads as no guests. */
  function Lookup(m: map<string, set<Bundle>>, host: string): set<Bundle> {
    if host in m then m[host] else {}
  }

  /** The guests recorded for `host`. */
  function Guests(emulator: FragmentEmulator, host: string): set<Bundle> {
    Lookup(emulator.fragmentHostToGuests, host)
  }

  /**
   * The loop that fills `fragmentHostToGuests`: each fragment is added to the
   * set of its host's name, created on first use.
   */
  function RecordGuests(m0: map<string, set<Bundle>>, bundles: seq<Bundle>): (m: map<string, set<Bundle>>)
    ensures forall host :: Lookup(m, host) == Lookup(m0, host) + GuestsAmong(bundles, host)
    ensures forall host :: host in m ==> host in m0 || GuestsAmong(bundles, host) != {}
    decreases |bundles|
  {
    if |bundles| == 0 then m0
    else
      var b := bundles[0];
      var next := match b.fragmentHost
        case None => m0
        case Some(host) => m0[host.name := Lookup(m0, host.name) + {b}];
      var m := RecordGuests(next, bundles[1..]);
      forall host
        ensures Lookup(m, host) == Lookup(m0, host) + GuestsAmong(bundles, host)
        ensures host in m ==> host in m0 || GuestsAmong(bundles, host) != {}
      {
        GuestsAmongCons(bundles, host);
        assert Lookup(next, host) == Lookup(m0, host) + (if HostedBy(b, host) then {b} else {});
      }
      m
  }

  /** The emulator built from `bundles`. */
  function NewFragmentEmulator(bundles: seq<Bundle>): (e: FragmentEmulator)
    ensures forall host :: Guests(e, host) == GuestsAmong(bundles, host)
    ensures forall host :: host in e.fragmentHostToGuests ==> Guests(e, host) != {}
  {
    FragmentEmulator(RecordGuests(map[], bundles))
  }

  /** The dependency through which a host depends on one of its fragments: mandatory and re-exported. */
  function GuestDependency(guest: Bundle): (r: BundleDependency)
    ensures r.name == guest.name && r.resolution == Mandatory && r.visibility == Reexport
    ensures r.version.Some? <==> guest.version.Some?
    ensures guest.version.Some? ==> r.version.value == PlainVersion(guest.version.value)
  {
    BundleDependency(guest.name, match guest.version case None => None case Some(v) => Some(PlainVersion(v)), Mandatory, Reexport)
  }

  /**
   * `emulateFor`: a bundle with fragments gets one more required bundle per
   * fragment, after its own; any other bundle is returned as it is. The
   * fragments come out of a hash set, whose iteration order `order` stands for.
   */
  function EmulateFor(emulator: FragmentEmulator, bundle: Bundle, order: seq<Bundle>): (r: Bundle)
    requires Enumerates(order, Guests(emulator, bundle.name))
    ensures bundle.name !in emulator.fragmentHostToGuests ==> r == bundle
    ensures r.name == bundle.name && r.version == bundle.version && r.fragmentHost == bundle.fragmentHost
    ensures |r.requiredBundles| == |bundle.requiredBundles| + |Guests(emulator, bundle.name)|
    ensures r.requiredBundles[..|bundle.requiredBundles|] == bundle.requiredBundles
    ensures r.requiredBundles[|bundle.requiredBundles|..] == Map(order, GuestDependency)
  {
    EnumerationSize(order, Guests(emulator, bundle.name));
    if bundle.name in emulator.fragmentHostToGuests then
      var guests := Map(order, GuestDependency);
      var r := Bundle(bundle.name, bundle.version, bundle.requiredBundles + guests, bundle.fragmentHost);
      assert r.requiredBundles[..|bundle.requiredBundles|] == bundle.requiredBundles;
      assert r.requiredBundles[|bundle.requiredBundles|..] == guests;
      r
    else
      assert order == [];
      assert bundle.requiredBundles[|bundle.requiredBundles|..] == [] == Map(order, GuestDependency);
      bundle
  }

  /** A bundle that no fragment among the emulator's bundles names as host is left as it is. */
  lemma EmulateForWithoutFragments(bundles: seq<Bundle>, bundle: Bundle)
    requires forall b :: b in bundles ==> !HostedBy(b, bundle.name)
    ensures EmulateFor(NewFragmentEmulator(bundles), bundle, []) == bundle
  {
    var e := NewFragmentEmulator(bundles);
    assert Guests(e, bundle.name) == {};
    assert bundle.name !in e.fragmentHostToGuests;
  }

  /**
   * The required bundles `emulateFor` appends are, whatever the iteration
   * order, a mandatory re-exported dependency on each fragment among the
   * emulator's bundles that names the bundle as host, and nothing else.
   */
  lemma EmulateForAddsFragments(bundles: seq<Bundle>, bundle: Bundle, order: seq<Bundle>)
    requires Enumerates(order, Guests(NewFragmentEmulator(bundles), bundle.name))
    ensures forall d :: d in EmulateFor(NewFragmentEmulator(bundles), bundle, order).requiredBundles[|bundle.requiredBundles|..] <==>
      exists guest :: guest in bundles && HostedBy(guest, bundle.name) && d == GuestDependency(guest)
  {
    var e := NewFragmentEmulator(bundles);
    MapMembers(order, GuestDependency);
  }

  /** Hosts are matched by name: two bundles of the same name get the same fragment dependencies. */
  lemma EmulateForIgnoresHostVersion(emulator: FragmentEmulator, host1: Bundle, host2: Bundle, order: seq<Bundle>)
    requires host1.name == host2.name
    requires Enumerates(order, Guests(emulator, host1.name))
    ensures EmulateFor(emulator, host1, order).requiredBundles[|host1.requiredBundles|..]
         == EmulateFor(emulator, host2, order).requiredBundles[|host2.requiredBundles|..]
  {
  }
}
