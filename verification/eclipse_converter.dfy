/**
 * mavenize/EclipseConverter.kt: converts bundles read by model/eclipse/Bundle.kt
 * into Maven artifacts. The converter is told which group each bundle belongs
 * to, and remembers the fragments of each host and the source bundle of each
 * bundle, all keyed by bundle name only. Its state is an immutable record
 * threaded through `RecordBundle` and `RecordGroupId`.
 */
module EclipseConverter {
  import opened Wrappers
  import opened KotlinCollections
  import opened ModelEclipseBundle
  import opened Conversions

  type EclipseBundle = ModelEclipseBundle.Bundle<BundleVersion, BundleVersionOrRange>
  type EclipseDependency = ModelEclipseBundle.BundleDependency<BundleVersionOrRange>

  /** `MavenArtifact`: an artifact's coordinates and its dependencies. */
  datatype MavenArtifact = MavenArtifact(coordinates: Coordinates, dependencies: seq<MavenDependency>)

  /** The name of the hidden system bundle, which no Maven artifact stands for. */
  const SystemBundle := "system.bundle"

  datatype Converter = Converter(
    fallbackGroupId: string,
    bundleNameToGroupIds: map<string, string>,
    fragmentHostNameToGuests: map<string, set<EclipseBundle>>,
    bundleNameToSourceBundle: map<string, EclipseBundle>)

  function NewConverter(fallbackGroupId: string): (c: Converter)
    ensures c.fallbackGroupId == fallbackGroupId
    ensures c.bundleNameToGroupIds == map[] && c.fragmentHostNameToGuests == map[] && c.bundleNameToSourceBundle == map[]
  {
    Converter(fallbackGroupId, map[], map[], map[])
  }

  /** The group of the bundle named `name`: the one recorded for it, or the fallback. */
  function GroupIdOf(c: Converter, name: string): string {
    if name in c.bundleNameToGroupIds then c.bundleNameToGroupIds[name] else c.fallbackGroupId
  }

  /** The fragments recorded for the host named `host`; no entry reads as none. */
  function Guests(c: Converter, host: string): set<EclipseBundle> {
    if host in c.fragmentHostNameToGuests then c.fragmentHostNameToGuests[host] else {}
  }

  predicate HostedBy(bundle: EclipseBundle, host: string) {
    bundle.fragmentHost.Some? && bundle.fragmentHost.value.name == host
  }

  predicate SourcesOf(bundle: EclipseBundle, name: string) {
    bundle.sourceBundleFor.Some? && bundle.sourceBundleFor.value.name == name
  }

  /**
   * `recordBundle`: the bundle's group under its name, the bundle among the
   * guests of its host, and the bundle as the sources of the bundle it names.
   */
  function RecordBundle(c: Converter, bundle: EclipseBundle, groupId: string): (r: Converter)
    ensures r.fallbackGroupId == c.fallbackGroupId
    ensures forall name :: GroupIdOf(r, name) == if name == bundle.coordinates.name then groupId else GroupIdOf(c, name)
    ensures forall host :: Guests(r, host) == if HostedBy(bundle, host) then Guests(c, host) + {bundle} else Guests(c, host)
    ensures forall name :: SourceBundleFor(r, name) == if SourcesOf(bundle, name) then Some(bundle) else SourceBundleFor(c, name)
  {
    var groups := c.bundleNameToGroupIds[bundle.coordinates.name := groupId];
    var guests := match bundle.fragmentHost
      case None => c.fragmentHostNameToGuests
      case Some(host) => c.fragmentHostNameToGuests[host.name := Guests(c, host.name) + {bundle}];
    var sources := match bundle.sourceBundleFor
      case None => c.bundleNameToSourceBundle
      case Some(target) => c.bundleNameToSourceBundle[target.name := bundle];
    Converter(c.fallbackGroupId, groups, guests, sources)
  }

  /** `recordGroupId`: the group of the bundle named `bundleName`, nothing else. */
  function RecordGroupId(c: Converter, bundleName: string, groupId: string): (r: Converter)
    ensures r.fallbackGroupId == c.fallbackGroupId
    ensures forall name :: GroupIdOf(r, name) == if name == bundleName then groupId else GroupIdOf(c, name)
    ensures r.fragmentHostNameToGuests == c.fragmentHostNameToGuests
    ensures r.bundleNameToSourceBundle == c.bundleNameToSourceBundle
  {
    c.(bundleNameToGroupIds := c.bundleNameToGroupIds[bundleName := groupId])
  }

  /** `sourceBundleFor`: the bundle recorded as holding the sources of the bundle named `name`. */
  function SourceBundleFor(c: Converter, name: string): Option<EclipseBundle> {
    if name in c.bundleNameToSourceBundle then Some(c.bundleNameToSourceBundle[name]) else None
  }

  // ----- the recording history -----

  /** One call that records something. */
  datatype Record =
    | RecordedBundle(bundle: EclipseBundle, groupId: string)
    | RecordedGroupId(bundleName: string, groupId: string)

  /** A fresh converter after the given calls, in order. */
  function Replay(fallbackGroupId: string, records: seq<Record>): (c: Converter)
    ensures c.fallbackGroupId == fallbackGroupId
    decreases |records|
  {
    if |records| == 0 then NewConverter(fallbackGroupId)
    else
      var c := Replay(fallbackGroupId, records[..|records| - 1]);
      match records[|records| - 1]
      case RecordedBundle(bundle, groupId) => RecordBundle(c, bundle, groupId)
      case RecordedGroupId(name, groupId) => RecordGroupId(c, name, groupId)
  }

  /** The group a record gives the bundle named `name`, if it names it. */
  function GroupIdRecorded(r: Record, name: string): Option<string> {
    match r
    case RecordedBundle(bundle, groupId) => if bundle.coordinates.name == name then Some(groupId) else None
    case RecordedGroupId(bundleName, groupId) => if bundleName == name then Some(groupId) else None
  }

  /** The group recorded last for the bundle named `name`. */
  function LastGroupId(records: seq<Record>, name: string): (r: Option<string>)
    ensures r.None? <==> forall k :: 0 <= k < |records| ==> GroupIdRecorded(records[k], name).None?
    ensures r.Some? ==> exists k :: 0 <= k < |records| && GroupIdRecorded(records[k], name) == r
    decreases |records|
  {
    if |records| == 0 then None
    else
      var last := GroupIdRecorded(records[|records| - 1], name);
      if last.Some? then last
      else
        var r := LastGroupId(records[..|records| - 1], name);
        assert forall k :: 0 <= k < |records| - 1 ==> records[..|records| - 1][k] == records[k];
        r
  }

  /** The bundles recorded, in order. */
  function RecordedBundles(records: seq<Record>): (bundles: seq<EclipseBundle>)
    ensures forall b :: b in bundles <==> exists k :: 0 <= k < |records| && records[k] == RecordedBundle(b, records[k].groupId)
    decreases |records|
  {
    if |records| == 0 then []
    else
      var rest := RecordedBundles(records[..|records| - 1]);
      assert forall k :: 0 <= k < |records| - 1 ==> records[..|records| - 1][k] == records[k];
      match records[|records| - 1]
      case RecordedBundle(bundle, _) => rest + [bundle]
      case RecordedGroupId(_, _) => rest
  }

  /** The last of `bundles` that holds the sources of the bundle named `name`. */
  function LastSourcesOf(bundles: seq<EclipseBundle>, name: string): (r: Option<EclipseBundle>)
    ensures r.None? <==> forall k :: 0 <= k < |bundles| ==> !SourcesOf(bundles[k], name)
    ensures r.Some? ==> r.value in bundles && SourcesOf(r.value, name)
    decreases |bundles|
  {
    if |bundles| == 0 then None
    else if SourcesOf(bundles[|bundles| - 1], name) then Some(bundles[|bundles| - 1])
    else
      var r := LastSourcesOf(bundles[..|bundles| - 1], name);
      assert forall k :: 0 <= k < |bundles| - 1 ==> bundles[..|bundles| - 1][k] == bundles[k];
      r
  }

  /** A bundle's group is the last one recorded for its name, or the fallback when none was. */
  lemma {:induction false} GroupIdIsLastRecorded(fallbackGroupId: string, records: seq<Record>, name: string)
    ensures GroupIdOf(Replay(fallbackGroupId, records), name) == LastGroupId(records, name).GetOr(fallbackGroupId)
    decreases |records|
  {
    if |records| > 0 {
      GroupIdIsLastRecorded(fallbackGroupId, records[..|records| - 1], name);
    }
  }

  /** The guests of a host are exactly the recorded bundles that name it as fragment host. */
  lemma {:induction false} GuestsAreRecordedFragments(fallbackGroupId: string, records: seq<Record>, host: string)
    ensures forall b :: b in Guests(Replay(fallbackGroupId, records), host) <==> b in RecordedBundles(records) && HostedBy(b, host)
    decreases |records|
  {
    if |records| > 0 {
      GuestsAreRecordedFragments(fallbackGroupId, records[..|records| - 1], host);
    }
  }

  /** The source bundle of a bundle is the last recorded bundle that names it in `Eclipse-SourceBundle`. */
  lemma {:induction false} SourceBundleIsLastRecorded(fallbackGroupId: string, records: seq<Record>, name: string)
    ensures SourceBundleFor(Replay(fallbackGroupId, records), name) == LastSourcesOf(RecordedBundles(records), name)
    decreases |records|
  {
    if |records| > 0 {
      var init := records[..|records| - 1];
      SourceBundleIsLastRecorded(fallbackGroupId, init, name);
      match records[|records| - 1]
      case RecordedBundle(bundle, _) =>
        assert RecordedBundles(records) == RecordedBundles(init) + [bundle];
        assert (RecordedBundles(init) + [bundle])[..|RecordedBundles(init)|] == RecordedBundles(init);
      case RecordedGroupId(_, _) =>
    }
  }

  /** Every recorded guest has a recorded group: the guest lookup in `fragmentGuestDependencies` never fails. */
  lemma {:induction false} GuestsHaveGroupIds(fallbackGroupId: string, records: seq<Record>, host: string)
    ensures forall guest :: guest in Guests(Replay(fallbackGroupId, records), host) ==>
      guest.coordinates.name in Replay(fallbackGroupId, records).bundleNameToGroupIds
    decreases |records|
  {
    if |records| > 0 {
      GuestsHaveGroupIds(fallbackGroupId, records[..|records| - 1], host);
    }
  }

  // ----- conversion -----

  /** The dependency through which a host depends on one of its fragments: mandatory and re-exported. */
  function GuestDependency(guest: EclipseBundle): (r: EclipseDependency)
    ensures r.name == guest.coordinates.name && r.version == Some(Version(guest.coordinates.version))
    ensures r.resolution == Mandatory && r.visibility == Reexport
  {
    BundleDependency(guest.coordinates.name, Some(Version(guest.coordinates.version)), Mandatory, Reexport)
  }

  /** Why converting a guest fails: it has no recorded group, or Maven does not take its version's spec. */
  predicate GuestFails(c: Converter, guest: EclipseBundle, accepts: string -> bool) {
    guest.coordinates.name !in c.bundleNameToGroupIds || !accepts(RangeSpec(DependencyRange(GuestDependency(guest))))
  }

  /** The message converting a failing guest throws with. */
  function GuestFailure(c: Converter, bundle: EclipseBundle, guest: EclipseBundle, printVersion: BundleVersion -> string): string {
    if guest.coordinates.name !in c.bundleNameToGroupIds then
      "No group ID was set for fragment quest bundle '" + CoordinatesToString(guest.coordinates, printVersion)
        + "', used from bundle '" + CoordinatesToString(bundle.coordinates, printVersion)
    else RangeFailure(RangeSpec(DependencyRange(GuestDependency(guest))))
  }

  /** `k` is the first of `order` whose conversion fails. */
  predicate FirstFailingGuest(c: Converter, order: seq<EclipseBundle>, accepts: string -> bool, k: int) {
    && 0 <= k < |order| && GuestFails(c, order[k], accepts)
    && forall j :: 0 <= j < k ==> !GuestFails(c, order[j], accepts)
  }

  /** The body of the loop of `fragmentGuestDependencies`: the guest's group, then its dependency. */
  function GuestToMaven(
    c: Converter,
    bundle: EclipseBundle,
    printVersion: BundleVersion -> string,
    accepts: string -> bool,
    guest: EclipseBundle): (r: Result<MavenDependency, string>)
    ensures r.Failure? <==> GuestFails(c, guest, accepts)
    ensures r.Failure? ==> r.error == GuestFailure(c, bundle, guest, printVersion)
    ensures r.Success? ==>
      DependencyToMaven(GuestDependency(guest), c.bundleNameToGroupIds[guest.coordinates.name], None, None, None, accepts) == r
  {
    var name := guest.coordinates.name;
    if name !in c.bundleNameToGroupIds then Failure(GuestFailure(c, bundle, guest, printVersion))
    else DependencyToMaven(GuestDependency(guest), c.bundleNameToGroupIds[name], None, None, None, accepts)
  }

  /** The first guest `MapOrFail` stops at is the first failing guest. */
  lemma FirstFailingGuestOfMap(
    c: Converter,
    bundle: EclipseBundle,
    order: seq<EclipseBundle>,
    printVersion: BundleVersion -> string,
    accepts: string -> bool,
    f: EclipseBundle -> Result<MavenDependency, string>)
    requires forall k :: 0 <= k < |order| ==> f(order[k]) == GuestToMaven(c, bundle, printVersion, accepts, order[k])
    ensures forall k :: FirstFailure(order, f, k) ==> FirstFailingGuest(c, order, accepts, k)
  {
  }

  /**
   * `fragmentGuestDependencies`: a dependency on each fragment recorded for the
   * bundle's name, in the fragment's group. The fragments come out of a hash
   * set, whose iteration order `order` stands for. A fragment without a
   * recorded group throws, and so does one whose version Maven does not take
   * as a range spec; `printVersion` is `BundleVersion.toString` for the
   * message.
   */
  function FragmentGuestDependencies(
    c: Converter,
    bundle: EclipseBundle,
    order: seq<EclipseBundle>,
    printVersion: BundleVersion -> string,
    accepts: string -> bool): (r: Result<seq<MavenDependency>, string>)
    requires Enumerates(order, Guests(c, bundle.coordinates.name))
    ensures r.Failure? <==> exists k :: 0 <= k < |order| && GuestFails(c, order[k], accepts)
    ensures r.Failure? ==> exists k :: FirstFailingGuest(c, order, accepts, k) && r.error == GuestFailure(c, bundle, order[k], printVersion)
    ensures r.Success? ==> |r.value| == |order| == |Guests(c, bundle.coordinates.name)|
    ensures r.Success? ==> forall i :: 0 <= i < |r.value| ==>
      DependencyToMaven(GuestDependency(order[i]), c.bundleNameToGroupIds[order[i].coordinates.name], None, None, None, accepts) == Success(r.value[i])
  {
    EnumerationSize(order, Guests(c, bundle.coordinates.name));
    var f := guest => GuestToMaven(c, bundle, printVersion, accepts, guest);
    assert forall k :: 0 <= k < |order| ==> f(order[k]) == GuestToMaven(c, bundle, printVersion, accepts, order[k]);
    FirstFailingGuestOfMap(c, bundle, order, printVersion, accepts, f);
    MapOrFail(order, f)
  }

  /** `k` is the first of `required` whose conversion fails. */
  predicate FirstFailingRequired(required: seq<EclipseDependency>, accepts: string -> bool, k: int) {
    && 0 <= k < |required| && !accepts(RangeSpec(DependencyRange(required[k])))
    && forall j :: 0 <= j < k ==> accepts(RangeSpec(DependencyRange(required[j])))
  }

  /** The body of the `mapNotNull` of `convert`: a required bundle in its own group. */
  function RequiredDependencyToMaven(c: Converter, accepts: string -> bool, d: EclipseDependency): (r: Result<MavenDependency, string>)
    ensures r.Failure? <==> !accepts(RangeSpec(DependencyRange(d)))
    ensures r.Failure? ==> r.error == RangeFailure(RangeSpec(DependencyRange(d)))
    ensures r.Success? ==> DependencyToMaven(d, GroupIdOf(c, d.name), None, None, None, accepts) == r
  {
    DependencyToMaven(d, GroupIdOf(c, d.name), None, None, None, accepts)
  }

  /** The first required bundle `MapOrFail` stops at is the first failing one. */
  lemma FirstFailingRequiredOfMap(
    c: Converter,
    required: seq<EclipseDependency>,
    accepts: string -> bool,
    f: EclipseDependency -> Result<MavenDependency, string>)
    requires forall k :: 0 <= k < |required| ==> f(required[k]) == RequiredDependencyToMaven(c, accepts, required[k])
    ensures forall k :: FirstFailure(required, f, k) ==> FirstFailingRequired(required, accepts, k)
  {
  }

  /**
   * The `mapNotNull` of `convert` over the required bundles other than the
   * system bundle: each in its own group, in order, stopping at the first
   * whose version Maven does not take.
   */
  function RequiredToMaven(c: Converter, required: seq<EclipseDependency>, accepts: string -> bool): (r: Result<seq<MavenDependency>, string>)
    ensures r.Failure? <==> exists k :: 0 <= k < |required| && !accepts(RangeSpec(DependencyRange(required[k])))
    ensures r.Failure? ==>
      exists k :: FirstFailingRequired(required, accepts, k) && r.error == RangeFailure(RangeSpec(DependencyRange(required[k])))
    ensures r.Success? ==> |r.value| == |required|
    ensures r.Success? ==> forall i :: 0 <= i < |r.value| ==>
      RequiredDependencyToMaven(c, accepts, required[i]) == Success(r.value[i])
  {
    var f := d => RequiredDependencyToMaven(c, accepts, d);
    assert forall k :: 0 <= k < |required| ==> f(required[k]) == RequiredDependencyToMaven(c, accepts, required[k]);
    FirstFailingRequiredOfMap(c, required, accepts, f);
    MapOrFail(required, f)
  }

  /** The required bundles other than the system bundle, in order. */
  function WithoutSystemBundle(required: seq<EclipseDependency>): (r: seq<EclipseDependency>)
    ensures |r| <= |required|
    ensures forall d :: d in r <==> d in required && d.name != SystemBundle
    decreases |required|
  {
    if |required| == 0 then []
    else
      var rest := WithoutSystemBundle(required[1..]);
      assert forall d :: d in required <==> d == required[0] || d in required[1..];
      if required[0].name == SystemBundle then rest else [required[0]] + rest
  }

  /** Dropping the system bundle keeps the order: it distributes over concatenation. */
  lemma {:induction false} WithoutSystemBundleConcat(xs: seq<EclipseDependency>, ys: seq<EclipseDependency>)
    ensures WithoutSystemBundle(xs + ys) == WithoutSystemBundle(xs) + WithoutSystemBundle(ys)
    decreases |xs|
  {
    if |xs| == 0 {
      assert xs + ys == ys;
    } else {
      assert (xs + ys)[0] == xs[0];
      assert (xs + ys)[1..] == xs[1..] + ys;
      WithoutSystemBundleConcat(xs[1..], ys);
    }
  }

  /**
   * `convert(bundle)`: the bundle's coordinates in its group, classified
   * `sources` for a source bundle, then a dependency per required bundle other
   * than the system bundle, in order and each in its own group, then a
   * dependency per fragment guest. The required bundles are converted first,
   * so their failure is the one reported.
   */
  function Convert(
    c: Converter,
    bundle: EclipseBundle,
    order: seq<EclipseBundle>,
    printVersion: BundleVersion -> string,
    accepts: string -> bool): (r: Result<MavenArtifact, string>)
    requires Enumerates(order, Guests(c, bundle.coordinates.name))
    ensures r.Failure? <==>
      || !AllAccepted(WithoutSystemBundle(bundle.requiredBundles), accepts)
      || FragmentGuestDependencies(c, bundle, order, printVersion, accepts).Failure?
    ensures forall k :: FirstFailingRequired(WithoutSystemBundle(bundle.requiredBundles), accepts, k) ==>
      r == Failure(RangeFailure(RangeSpec(DependencyRange(WithoutSystemBundle(bundle.requiredBundles)[k]))))
    ensures
      && AllAccepted(WithoutSystemBundle(bundle.requiredBundles), accepts)
      && FragmentGuestDependencies(c, bundle, order, printVersion, accepts).Failure?
      ==>
      r == Failure(FragmentGuestDependencies(c, bundle, order, printVersion, accepts).error)
    ensures r.Success? ==>
      && r.value.coordinates.groupId == GroupIdOf(c, bundle.coordinates.name)
      && r.value.coordinates == CoordinatesToMaven(bundle.coordinates, GroupIdOf(c, bundle.coordinates.name),
           r.value.coordinates.classifier, DefaultExtension)
      && (r.value.coordinates.classifier.Some? <==> bundle.sourceBundleFor.Some?)
      && (r.value.coordinates.classifier.Some? ==> r.value.coordinates.classifier.value == "sources")
      && |r.value.dependencies| == |WithoutSystemBundle(bundle.requiredBundles)| + |Guests(c, bundle.coordinates.name)|
      && (forall i :: 0 <= i < |WithoutSystemBundle(bundle.requiredBundles)| ==>
            RequiredDependencyToMaven(c, accepts, WithoutSystemBundle(bundle.requiredBundles)[i]) == Success(r.value.dependencies[i]))
      && r.value.dependencies[|WithoutSystemBundle(bundle.requiredBundles)|..]
         == FragmentGuestDependencies(c, bundle, order, printVersion, accepts).value
  {
    var required := WithoutSystemBundle(bundle.requiredBundles);
    match RequiredToMaven(c, required, accepts)
    case Failure(message) =>
      FirstFailingRequiredUnique(required, accepts);
      Failure(message)
    case Success(dependencies) =>
      match FragmentGuestDependencies(c, bundle, order, printVersion, accepts)
      case Failure(message) => Failure(message)
      case Success(guests) =>
        assert (dependencies + guests)[|dependencies|..] == guests;
        assert forall i :: 0 <= i < |dependencies| ==> (dependencies + guests)[i] == dependencies[i];
        Success(MavenArtifact(ArtifactCoordinates(c, bundle), dependencies + guests))
  }

  /** The coordinates `convert` gives a bundle: its own group, classified `sources` for a source bundle. */
  function ArtifactCoordinates(c: Converter, bundle: EclipseBundle): (r: Coordinates)
    ensures r.groupId == GroupIdOf(c, bundle.coordinates.name)
    ensures r == CoordinatesToMaven(bundle.coordinates, GroupIdOf(c, bundle.coordinates.name), r.classifier, DefaultExtension)
    ensures r.classifier.Some? <==> bundle.sourceBundleFor.Some?
    ensures r.classifier.Some? ==> r.classifier.value == "sources"
  {
    var classifier := if bundle.sourceBundleFor.Some? then Some("sources") else None;
    CoordinatesToMaven(bundle.coordinates, GroupIdOf(c, bundle.coordinates.name), classifier, DefaultExtension)
  }

  /** Maven takes the range spec of each of `deps`. */
  predicate AllAccepted(deps: seq<EclipseDependency>, accepts: string -> bool) {
    forall k :: 0 <= k < |deps| ==> accepts(RangeSpec(DependencyRange(deps[k])))
  }

  /** There is at most one first failing required bundle. */
  lemma FirstFailingRequiredUnique(required: seq<EclipseDependency>, accepts: string -> bool)
    ensures forall k, k' :: FirstFailingRequired(required, accepts, k) && FirstFailingRequired(required, accepts, k') ==> k == k'
  {
  }

  /** No converted bundle depends on the system bundle through its required bundles. */
  lemma ConvertDropsSystemBundle(
    c: Converter,
    bundle: EclipseBundle,
    order: seq<EclipseBundle>,
    printVersion: BundleVersion -> string,
    accepts: string -> bool)
    requires Enumerates(order, Guests(c, bundle.coordinates.name))
    requires Convert(c, bundle, order, printVersion, accepts).Success?
    ensures forall i :: 0 <= i < |WithoutSystemBundle(bundle.requiredBundles)| ==>
      Convert(c, bundle, order, printVersion, accepts).value.dependencies[i].coordinates.id != SystemBundle
  {
    var required := WithoutSystemBundle(bundle.requiredBundles);
    forall i | 0 <= i < |required|
      ensures Convert(c, bundle, order, printVersion, accepts).value.dependencies[i].coordinates.id != SystemBundle
    {
      assert required[i] in required;
    }
  }

  /**
   * A converter built by recording calls never hits the missing-group error:
   * converting a bundle fails only where Maven does not take the range spec
   * of a required bundle or of a fragment guest.
   */
  lemma ConvertOfReplaySucceeds(
    fallbackGroupId: string,
    records: seq<Record>,
    bundle: EclipseBundle,
    order: seq<EclipseBundle>,
    printVersion: BundleVersion -> string,
    accepts: string -> bool)
    requires Enumerates(order, Guests(Replay(fallbackGroupId, records), bundle.coordinates.name))
    ensures Convert(Replay(fallbackGroupId, records), bundle, order, printVersion, accepts).Success? <==>
      && AllAccepted(WithoutSystemBundle(bundle.requiredBundles), accepts)
      && (forall k :: 0 <= k < |order| ==> accepts(RangeSpec(DependencyRange(GuestDependency(order[k])))))
  {
    var c := Replay(fallbackGroupId, records);
    GuestsHaveGroupIds(fallbackGroupId, records, bundle.coordinates.name);
    assert forall k :: 0 <= k < |order| ==> order[k] in Guests(c, bundle.coordinates.name);
    GuestsWithGroupsConvert(c, bundle, order, printVersion, accepts);
  }

  /** When every guest has a recorded group, the guests convert exactly when Maven takes each guest's spec. */
  lemma GuestsWithGroupsConvert(
    c: Converter,
    bundle: EclipseBundle,
    order: seq<EclipseBundle>,
    printVersion: BundleVersion -> string,
    accepts: string -> bool)
    requires Enumerates(order, Guests(c, bundle.coordinates.name))
    requires forall k :: 0 <= k < |order| ==> order[k].coordinates.name in c.bundleNameToGroupIds
    ensures FragmentGuestDependencies(c, bundle, order, printVersion, accepts).Success? <==>
      forall k :: 0 <= k < |order| ==> accepts(RangeSpec(DependencyRange(GuestDependency(order[k]))))
  {
    var guests := FragmentGuestDependencies(c, bundle, order, printVersion, accepts);
    assert guests.Success? <==> forall k :: 0 <= k < |order| ==> !GuestFails(c, order[k], accepts);
  }

  /** The dependencies on fragment guests are never optional: a fragment is always part of its host. */
  lemma ConvertGuestsMandatory(
    c: Converter,
    bundle: EclipseBundle,
    order: seq<EclipseBundle>,
    printVersion: BundleVersion -> string,
    accepts: string -> bool)
    requires Enumerates(order, Guests(c, bundle.coordinates.name))
    requires Convert(c, bundle, order, printVersion, accepts).Success?
    ensures forall i :: |WithoutSystemBundle(bundle.requiredBundles)| <= i < |Convert(c, bundle, order, printVersion, accepts).value.dependencies| ==>
      !Convert(c, bundle, order, printVersion, accepts).value.dependencies[i].optional
  {
    var deps := Convert(c, bundle, order, printVersion, accepts).value.dependencies;
    var n := |WithoutSystemBundle(bundle.requiredBundles)|;
    var guests := FragmentGuestDependencies(c, bundle, order, printVersion, accepts).value;
    forall i | n <= i < |deps|
      ensures !deps[i].optional
    {
      assert deps[i] == guests[i - n];
      assert GuestDependency(order[i - n]).resolution == Mandatory;
    }
  }

  /** `convert(Feature.Dependency.Coordinates)`: the feature in its recorded group, or the fallback. */
  function ConvertFeatureCoordinates(c: Converter, coordinates: FeatureCoordinates): (r: DependencyCoordinates)
    ensures r.id == coordinates.id && r.groupId == GroupIdOf(c, coordinates.id)
    ensures r.version == MavenPlain(VersionToMaven(coordinates.version))
    ensures r.classifier.None? && r.extension.None?
  {
    FeatureCoordinatesToMaven(coordinates, GroupIdOf(c, coordinates.id), None, None)
  }

  /** `convert(Site.Dependency)`: the site dependency in its recorded group, or the fallback. */
  function ConvertSiteDependency(c: Converter, dependency: SiteDependency): (r: DependencyCoordinates)
    ensures r.id == dependency.id && r.groupId == GroupIdOf(c, dependency.id)
    ensures r.version == MavenPlain(VersionToMaven(dependency.version))
    ensures r.classifier.None? && r.extension.None?
  {
    SiteDependencyToMaven(dependency, GroupIdOf(c, dependency.id), None, None)
  }
}
