/**
 * The `build.properties` file of an Eclipse plugin or feature: source
 * directories, output directory and binary includes. The repository holds three
 * copies of this reader, model/eclipse/BuildProperties.kt in releng/eclipse
 * and in releng/eclipsex, and mavenize/EclipseBuildProperties.kt; they differ
 * only in the record's name and one comment, and this module models all three.
 */
module BuildProperties {
  import opened Wrappers
  import opened KotlinText

  /** `java.util.Properties` after loading: `getProperty` gives null for a missing key. */
  type Properties = map<string, string>

  datatype BuildProperties = BuildProperties(sourceDirs: seq<string>, outputDir: Option<string>, binaryIncludes: seq<string>)

  const SourceKey := "source.."
  const OutputKey := "output.."
  const BinaryIncludesKey := "bin.includes"

  /**
   * Includes that are dropped: `.` would include everything, and `META-INF/`
   * holds the manifest, which every JAR file includes anyway.
   */
  const DroppedIncludes: set<string> := {".", "META-INF/"}

  /** `properties.getProperty(key) ?: ""`. */
  function PropertyOrEmpty(properties: Properties, key: string): string {
    if key in properties then properties[key] else ""
  }

  /**
   * `read(Properties)`: the source directories are the comma-separated pieces
   * of `source..`, the output directory is `output..` if present, and the
   * binary includes are the pieces of `bin.includes` other than `.` and
   * `META-INF/`. Pieces are not trimmed.
   */
  function Read(properties: Properties): (r: BuildProperties)
    ensures |r.sourceDirs| == Count(PropertyOrEmpty(properties, SourceKey), ',') + 1
    ensures Join(r.sourceDirs, ',') == PropertyOrEmpty(properties, SourceKey)
    ensures SourceKey !in properties ==> r.sourceDirs == [""]
    ensures r.outputDir.Some? <==> OutputKey in properties
    ensures r.outputDir.Some? ==> r.outputDir.value == properties[OutputKey]
    ensures "." !in r.binaryIncludes && "META-INF/" !in r.binaryIncludes
    ensures forall x :: x !in DroppedIncludes ==>
      multiset(r.binaryIncludes)[x] == multiset(Split(PropertyOrEmpty(properties, BinaryIncludesKey), ','))[x]
    ensures forall k :: 0 <= k < |r.binaryIncludes| ==> ',' !in r.binaryIncludes[k]
  {
    var sourceDirs := Split(PropertyOrEmpty(properties, SourceKey), ',');
    var outputDir := if OutputKey in properties then Some(properties[OutputKey]) else None;
    var pieces := Split(PropertyOrEmpty(properties, BinaryIncludesKey), ',');
    var binaryIncludes := Filter(pieces, DroppedIncludes);
    FilterKeepsCommaFree(pieces, DroppedIncludes);
    BuildProperties(sourceDirs, outputDir, binaryIncludes)
  }

  /** Filtering comma-free pieces leaves comma-free pieces. */
  lemma FilterKeepsCommaFree(pieces: seq<string>, drop: set<string>)
    requires forall k :: 0 <= k < |pieces| ==> ',' !in pieces[k]
    ensures forall k :: 0 <= k < |Filter(pieces, drop)| ==> ',' !in Filter(pieces, drop)[k]
  {
    var kept := Filter(pieces, drop);
    forall k | 0 <= k < |kept|
      ensures ',' !in kept[k]
    {
      assert kept[k] in multiset(kept);
      assert kept[k] in pieces;
    }
  }

  /** `eclipsePluginDefaults`: no sources, no output directory, and `plugin.xml` as the only include. */
  function PluginDefaults(): (r: BuildProperties)
    ensures r.sourceDirs == [] && r.outputDir.None? && r.binaryIncludes == ["plugin.xml"]
  {
    BuildProperties([], None, ["plugin.xml"])
  }

  /** `eclipseFeatureDefaults`: no sources, no output directory, and `feature.xml` as the only include. */
  function FeatureDefaults(): (r: BuildProperties)
    ensures r.sourceDirs == [] && r.outputDir.None? && r.binaryIncludes == ["feature.xml"]
  {
    BuildProperties([], None, ["feature.xml"])
  }

  /** Filtering a list none of whose items is dropped changes nothing. */
  lemma {:induction false} FilterNothingDropped(xs: seq<string>, drop: set<string>)
    requires forall k :: 0 <= k < |xs| ==> xs[k] !in drop
    ensures Filter(xs, drop) == xs
    decreases |xs|
  {
    if |xs| > 0 {
      FilterNothingDropped(xs[1..], drop);
      assert xs == [xs[0]] + xs[1..];
    }
  }

  /**
   * The file a list of comma-free source directories, an output directory and
   * a list of kept includes would be written as is read back as exactly those.
   */
  lemma ReadOfWritten(sourceDirs: seq<string>, outputDir: Option<string>, binaryIncludes: seq<string>)
    requires |sourceDirs| > 0 && forall k :: 0 <= k < |sourceDirs| ==> ',' !in sourceDirs[k]
    requires |binaryIncludes| > 0 && forall k :: 0 <= k < |binaryIncludes| ==> ',' !in binaryIncludes[k]
    requires forall k :: 0 <= k < |binaryIncludes| ==> binaryIncludes[k] !in DroppedIncludes
    ensures var written := map[SourceKey := Join(sourceDirs, ','), BinaryIncludesKey := Join(binaryIncludes, ',')];
      var properties := if outputDir.Some? then written[OutputKey := outputDir.value] else written;
      Read(properties) == BuildProperties(sourceDirs, outputDir, binaryIncludes)
  {
    SplitOfJoin(sourceDirs, ',');
    SplitOfJoin(binaryIncludes, ',');
    FilterNothingDropped(binaryIncludes, DroppedIncludes);
  }

  /**
   * The kept includes stay in file order: when the pieces of `bin.includes`
   * split into a front and a back, so do the includes.
   */
  lemma ReadKeepsIncludeOrder(properties: Properties, front: seq<string>, back: seq<string>)
    requires Split(PropertyOrEmpty(properties, BinaryIncludesKey), ',') == front + back
    ensures Read(properties).binaryIncludes == Filter(front, DroppedIncludes) + Filter(back, DroppedIncludes)
  {
    FilterConcat(front, back, DroppedIncludes);
  }

  /** Reading always yields at least one source directory, so the defaults never come from a file. */
  lemma DefaultsAreNotRead(properties: Properties)
    ensures Read(properties) != PluginDefaults() && Read(properties) != FeatureDefaults()
  {
  }
}
