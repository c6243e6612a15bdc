/**
 * mavenize/EclipseInstallationMavenizer.kt, without its file system work: the
 * pre-processing that strips qualifiers from every bundle read from an
 * installation before it is converted, and the description of a mavenized
 * installation, which says which bundles it holds and sets up a converter that
 * puts those bundles in the installation's group.
 */
module InstallationMavenizer {
  import opened Wrappers
  import opened KotlinCollections
  import opened ModelEclipseBundle
  import opened Conversions
  import opened EclipseConverter

  // ----- removing qualifiers -----

  /** `BundleVersion.withoutQualifier`: the same numbers, no qualifier. */
  function VersionWithoutQualifier(v: BundleVersion): (r: BundleVersion)
    ensures r.major == v.major && r.minor == v.minor && r.micro == v.micro
    ensures r.qualifier.None?
  {
    v.(qualifier := None)
  }

  /** `BundleVersionRange.withoutQualifiers`: both bounds without qualifier, brackets unchanged. */
  function RangeWithoutQualifiers(range: BundleVersionRange): (r: BundleVersionRange)
    ensures r.minInclusive == range.minInclusive && r.maxInclusive == range.maxInclusive
    ensures r.minVersion == VersionWithoutQualifier(range.minVersion)
    ensures r.maxVersion.Some? <==> range.maxVersion.Some?
    ensures r.maxVersion.Some? ==> r.maxVersion.value == VersionWithoutQualifier(range.maxVersion.value)
  {
    range.(
      minVersion := VersionWithoutQualifier(range.minVersion),
      maxVersion := match range.maxVersion case None => None case Some(v) => Some(VersionWithoutQualifier(v)))
  }

  /** No version anywhere in the bundle carries a qualifier. */
  predicate Unqualified(version: Option<BundleVersionOrRange>) {
    match version
    case None => true
    case Some(Version(v)) => v.qualifier.None?
    case Some(Range(range)) => range.minVersion.qualifier.None? && (range.maxVersion.Some? ==> range.maxVersion.value.qualifier.None?)
  }

  predicate DependencyUnqualified(d: EclipseDependency) {
    Unqualified(d.version)
  }

  predicate BundleUnqualified(bundle: EclipseBundle) {
    && bundle.coordinates.version.qualifier.None?
    && (forall k :: 0 <= k < |bundle.requiredBundles| ==> DependencyUnqualified(bundle.requiredBundles[k]))
    && (bundle.fragmentHost.Some? ==> DependencyUnqualified(bundle.fragmentHost.value))
    && (bundle.sourceBundleFor.Some? ==> DependencyUnqualified(bundle.sourceBundleFor.value))
  }

  /** `fixDepVersion`: no version stays none; a version or a range loses its qualifiers and keeps its kind. */
  function FixDepVersion(version: Option<BundleVersionOrRange>): (r: Option<BundleVersionOrRange>)
    ensures r.None? <==> version.None?
    ensures version.Some? && version.value.Version? ==> r == Some(Version(VersionWithoutQualifier(version.value.version)))
    ensures version.Some? && version.value.Range? ==> r == Some(Range(RangeWithoutQualifiers(version.value.range)))
    ensures Unqualified(r)
  {
    match version
    case None => None
    case Some(Version(v)) => Some(Version(VersionWithoutQualifier(v)))
    case Some(Range(range)) => Some(Range(RangeWithoutQualifiers(range)))
  }

  /** `fixDep`: the same dependency with its version's qualifiers removed. */
  function FixDep(d: EclipseDependency): (r: EclipseDependency)
    ensures r.name == d.name && r.resolution == d.resolution && r.visibility == d.visibility
    ensures r.version == FixDepVersion(d.version)
    ensures DependencyUnqualified(r)
  {
    BundleDependency(d.name, FixDepVersion(d.version), d.resolution, d.visibility)
  }

  /**
   * The pre-processing of each installation bundle: the name is kept and every
   * qualifier is removed, from the bundle's version and from the versions of its
   * required bundles, fragment host and source bundle target, which keep their
   * order and presence.
   */
  function RemoveQualifiers(bundle: EclipseBundle): (r: EclipseBundle)
    ensures r.coordinates.name == bundle.coordinates.name
    ensures r.coordinates.version == VersionWithoutQualifier(bundle.coordinates.version)
    ensures |r.requiredBundles| == |bundle.requiredBundles|
    ensures forall k :: 0 <= k < |r.requiredBundles| ==> r.requiredBundles[k] == FixDep(bundle.requiredBundles[k])
    ensures r.fragmentHost.Some? <==> bundle.fragmentHost.Some?
    ensures r.fragmentHost.Some? ==> r.fragmentHost.value == FixDep(bundle.fragmentHost.value)
    ensures r.sourceBundleFor.Some? <==> bundle.sourceBundleFor.Some?
    ensures r.sourceBundleFor.Some? ==> r.sourceBundleFor.value == FixDep(bundle.sourceBundleFor.value)
    ensures BundleUnqualified(r)
  {
    var coordinates := BundleCoordinates(bundle.coordinates.name, VersionWithoutQualifier(bundle.coordinates.version));
    var required := Map(bundle.requiredBundles, FixDep);
    var fragmentHost := match bundle.fragmentHost case None => None case Some(d) => Some(FixDep(d));
    var sourceBundleFor := match bundle.sourceBundleFor case None => None case Some(d) => Some(FixDep(d));
    Bundle(coordinates, required, fragmentHost, sourceBundleFor)
  }

  /** A bundle without qualifiers is left alone by the pre-processing. */
  lemma RemoveQualifiersOfUnqualified(bundle: EclipseBundle)
    requires BundleUnqualified(bundle)
    ensures RemoveQualifiers(bundle) == bundle
  {
    var r := RemoveQualifiers(bundle);
    forall k | 0 <= k < |bundle.requiredBundles|
      ensures r.requiredBundles[k] == bundle.requiredBundles[k]
    {
      assert DependencyUnqualified(bundle.requiredBundles[k]);
    }
  }

  /** The pre-processing is idempotent. */
  lemma RemoveQualifiersIdempotent(bundle: EclipseBundle)
    ensures RemoveQualifiers(RemoveQualifiers(bundle)) == RemoveQualifiers(bundle)
  {
    RemoveQualifiersOfUnqualified(RemoveQualifiers(bundle));
  }

  /** Fragment hosts and source bundle targets are found by name, which the pre-processing keeps. */
  lemma RemoveQualifiersKeepsLinks(bundle: EclipseBundle, name: string)
    ensures HostedBy(RemoveQualifiers(bundle), name) <==> HostedBy(bundle, name)
    ensures SourcesOf(RemoveQualifiers(bundle), name) <==> SourcesOf(bundle, name)
  {
  }

  // ----- the mavenized installation -----

  /**
   * `MavenizedEclipseInstallation`, without its paths: the installation's
   * group and the names of the bundles installed into it.
   */
  datatype MavenizedInstallation = MavenizedInstallation(groupId: string, installationBundleNames: set<string>)

  /** `isMavenizedBundle`: the artifact is one of the installation's bundles. */
  predicate IsMavenizedBundle(installation: MavenizedInstallation, groupId: string, id: string) {
    groupId == installation.groupId && id in installation.installationBundleNames
  }

  /** `recordGroupId` for each of `names`, in order. */
  function RecordGroupIds(c: Converter, names: seq<string>, groupId: string): (r: Converter)
    ensures r.fallbackGroupId == c.fallbackGroupId
    ensures r.fragmentHostNameToGuests == c.fragmentHostNameToGuests
    ensures r.bundleNameToSourceBundle == c.bundleNameToSourceBundle
    ensures r.bundleNameToGroupIds.Keys == c.bundleNameToGroupIds.Keys + set k | 0 <= k < |names| :: names[k]
    ensures forall name :: name in r.bundleNameToGroupIds ==>
      r.bundleNameToGroupIds[name] == if name in names then groupId else c.bundleNameToGroupIds[name]
    decreases |names|
  {
    if |names| == 0 then c
    else
      var r := RecordGroupIds(RecordGroupId(c, names[0], groupId), names[1..], groupId);
      assert forall name :: name in names <==> name == names[0] || name in names[1..];
      assert (set k | 0 <= k < |names| :: names[k]) == {names[0]} + set k | 0 <= k < |names[1..]| :: names[1..][k];
      r
  }

  /**
   * `createConverter`: a converter that puts every installation bundle in the
   * installation's group and every other bundle in the fallback group. The
   * names come out of a set, whose iteration order `order` stands for.
   */
  function CreateConverter(installation: MavenizedInstallation, fallbackGroupId: string, order: seq<string>): (r: Converter)
    requires Enumerates(order, installation.installationBundleNames)
    ensures r.fallbackGroupId == fallbackGroupId
    ensures r.bundleNameToGroupIds.Keys == installation.installationBundleNames
    ensures forall name :: GroupIdOf(r, name) == if name in installation.installationBundleNames then installation.groupId else fallbackGroupId
    ensures r.fragmentHostNameToGuests == map[] && r.bundleNameToSourceBundle == map[]
  {
    var r := RecordGroupIds(NewConverter(fallbackGroupId), order, installation.groupId);
    assert (set k | 0 <= k < |order| :: order[k]) == installation.installationBundleNames by {
      forall name | name in installation.installationBundleNames
        ensures name in set k | 0 <= k < |order| :: order[k]
      {
        var k :| 0 <= k < |order| && order[k] == name;
      }
    }
    r
  }

  /** The converter does not depend on the order in which the installation's names are visited. */
  lemma CreateConverterOrderFree(installation: MavenizedInstallation, fallbackGroupId: string, order1: seq<string>, order2: seq<string>)
    requires Enumerates(order1, installation.installationBundleNames)
    requires Enumerates(order2, installation.installationBundleNames)
    ensures CreateConverter(installation, fallbackGroupId, order1) == CreateConverter(installation, fallbackGroupId, order2)
  {
    CreatedGroupIds(installation, fallbackGroupId, order1);
    CreatedGroupIds(installation, fallbackGroupId, order2);
  }

  /** The group table of a created converter maps every installation bundle, and nothing else, to the installation's group. */
  lemma CreatedGroupIds(installation: MavenizedInstallation, fallbackGroupId: string, order: seq<string>)
    requires Enumerates(order, installation.installationBundleNames)
    ensures CreateConverter(installation, fallbackGroupId, order).bundleNameToGroupIds
      == map name | name in installation.installationBundleNames :: installation.groupId
  {
    var r := CreateConverter(installation, fallbackGroupId, order);
    forall name | name in r.bundleNameToGroupIds
      ensures r.bundleNameToGroupIds[name] == installation.groupId
    {
      assert GroupIdOf(r, name) == installation.groupId;
    }
  }

  /** The converter puts exactly the mavenized bundles in the installation's group, when that differs from the fallback. */
  lemma CreateConverterGroupsMavenized(installation: MavenizedInstallation, fallbackGroupId: string, order: seq<string>, id: string)
    requires Enumerates(order, installation.installationBundleNames)
    requires installation.groupId != fallbackGroupId
    ensures IsMavenizedBundle(installation, GroupIdOf(CreateConverter(installation, fallbackGroupId, order), id), id)
      <==> id in installation.installationBundleNames
  {
  }
}
