/**
 * mavenize/MavenMetadata.kt: the Maven metadata of a converted bundle and
 * the POM file written for it. `toPomXml` prints to a writer one line per
 * `println`; here it returns those lines. A reader that takes the lines
 * apart again shows that the POM holds every field verbatim and one
 * `<dependency>` block per dependency, in order.
 */
module MavenMetadata {
  import opened Wrappers

  /** `MavenDependency`. */
  datatype MavenDependency = MavenDependency(groupId: string, artifactId: string, version: string, optional: bool)

  /** The class `MavenMetadata`. */
  datatype Metadata = Metadata(
    groupId: string,
    artifactId: string,
    version: string,
    dependencies: seq<MavenDependency>)

  const XmlDeclaration := "<?xml version=\"1.0\" encoding=\"UTF-8\"?>"
  const ProjectOpen := "<project xmlns=\"http://maven.apache.org/POM/4.0.0\" xmlns:xsi=\"http://www.w3.org/2001/XMLSchema-instance\" xsi:schemaLocation=\"http://maven.apache.org/POM/4.0.0 http://maven.apache.org/xsd/maven-4.0.0.xsd\">"
  const ModelVersionLine := "  <modelVersion>4.0.0</modelVersion>"
  const ProjectClose := "</project>"
  const DependenciesOpen := "  <dependencies>"
  const DependenciesClose := "  </dependencies>"
  const DependencyOpen := "    <dependency>"
  const DependencyClose := "    </dependency>"
  const OptionalLine := "      <optional>true</optional>"

  /** An element on a line of its own: `indent<tag>value</tag>`, the value not escaped. */
  function Element(indent: string, tag: string, value: string): string {
    indent + "<" + tag + ">" + value + "</" + tag + ">"
  }

  /** The value of a line written by `Element` with this indent and tag, or `None`. */
  function ReadElement(line: string, indent: string, tag: string): (r: Option<string>)
    ensures r.Some? ==> Element(indent, tag, r.value) == line
  {
    var open := indent + "<" + tag + ">";
    var close := "</" + tag + ">";
    if |open| + |close| <= |line| && line[..|open|] == open && line[|line| - |close|..] == close then
      var value := line[|open|..|line| - |close|];
      assert line == open + value + close;
      Some(value)
    else None
  }

  /** Reading an element line gives back the value written, whatever characters it holds. */
  lemma ReadElementOfElement(indent: string, tag: string, value: string)
    ensures ReadElement(Element(indent, tag, value), indent, tag) == Some(value)
  {
    var open := indent + "<" + tag + ">";
    var close := "</" + tag + ">";
    var line := Element(indent, tag, value);
    assert line == open + value + close;
    assert line[..|open|] == open;
    assert line[|line| - |close|..] == close;
    assert line[|open|..|line| - |close|] == value;
  }

  // ----- writing -----

  /** `MavenDependency.toPomXml`: one `<dependency>` block, with `<optional>` only for an optional dependency. */
  function DependencyLines(d: MavenDependency): (lines: seq<string>)
    ensures |lines| == if d.optional then 6 else 5
    ensures lines[0] == DependencyOpen && lines[|lines| - 1] == DependencyClose
    ensures (OptionalLine in lines) <==> d.optional
  {
    var fields := [
      DependencyOpen,
      Element("      ", "groupId", d.groupId),
      Element("      ", "artifactId", d.artifactId),
      Element("      ", "version", d.version)];
    assert fields[1][7] == 'g' && fields[2][7] == 'a' && fields[3][7] == 'v' && OptionalLine[7] == 'o';
    fields + (if d.optional then [OptionalLine] else []) + [DependencyClose]
  }

  /** The blocks of all dependencies, in list order. */
  function DependenciesLines(ds: seq<MavenDependency>): seq<string>
    decreases |ds|
  {
    if |ds| == 0 then [] else DependencyLines(ds[0]) + DependenciesLines(ds[1..])
  }

  /** The lines before the dependencies: declaration, project, model version, group, artifact, version. */
  function HeaderLines(m: Metadata): (lines: seq<string>)
    ensures |lines| == 6
  {
    [XmlDeclaration,
     ProjectOpen,
     ModelVersionLine,
     Element("  ", "groupId", m.groupId),
     Element("  ", "artifactId", m.artifactId),
     Element("  ", "version", m.version)]
  }

  /** An empty line and the `<dependencies>` block, or nothing when there are no dependencies. */
  function BodyLines(ds: seq<MavenDependency>): (lines: seq<string>)
    ensures |lines| == 0 <==> |ds| == 0
    ensures |ds| > 0 ==> |lines| >= 8 && lines[1] == DependenciesOpen && lines[|lines| - 1] == DependenciesClose
  {
    if |ds| == 0 then []
    else
      var blocks := DependenciesLines(ds);
      assert blocks == DependencyLines(ds[0]) + DependenciesLines(ds[1..]);
      ["", DependenciesOpen] + blocks + [DependenciesClose]
  }

  /**
   * `MavenMetadata.toPomXml`: the XML declaration, the project element with
   * model version, group, artifact and version, a `<dependencies>` block
   * after an empty line only when there are dependencies, and `</project>`.
   */
  function ToPomXml(m: Metadata): (lines: seq<string>)
    ensures |lines| >= 7
    ensures lines[0] == XmlDeclaration && lines[|lines| - 1] == ProjectClose
    ensures lines[3] == Element("  ", "groupId", m.groupId)
    ensures lines[4] == Element("  ", "artifactId", m.artifactId)
    ensures lines[5] == Element("  ", "version", m.version)
    ensures (|lines| == 7) <==> (|m.dependencies| == 0)
    ensures |m.dependencies| > 0 ==> lines[7] == DependenciesOpen && lines[|lines| - 2] == DependenciesClose
    ensures |m.dependencies| == 0 ==> DependenciesOpen !in lines
  {
    var header := HeaderLines(m);
    assert forall k :: 0 <= k < 6 ==> header[k] != DependenciesOpen by {
      assert header[3][3] == 'g' && header[4][3] == 'a' && header[5][3] == 'v' && DependenciesOpen[3] == 'd';
    }
    var body := BodyLines(m.dependencies);
    var lines := header + body + [ProjectClose];
    assert forall k :: 0 <= k < 6 ==> lines[k] == header[k];
    assert forall k :: 0 <= k < |body| ==> lines[6 + k] == body[k];
    lines
  }

  // ----- reading back -----

  /** One `<dependency>` block at the start of `lines`: the dependency and the number of lines it takes. */
  function ReadDependency(lines: seq<string>): Option<(MavenDependency, nat)>
  {
    if |lines| < 5 || lines[0] != DependencyOpen then None
    else
      match (ReadElement(lines[1], "      ", "groupId"), ReadElement(lines[2], "      ", "artifactId"),
             ReadElement(lines[3], "      ", "version"))
      case (Some(g), Some(a), Some(v)) =>
        if lines[4] == DependencyClose then Some((MavenDependency(g, a, v, false), 5))
        else if lines[4] == OptionalLine && |lines| >= 6 && lines[5] == DependencyClose then
          Some((MavenDependency(g, a, v, true), 6))
        else None
      case _ => None
  }

  /** Consecutive `<dependency>` blocks that fill `lines` exactly. */
  function ReadDependencies(lines: seq<string>): Option<seq<MavenDependency>>
    decreases |lines|
  {
    if |lines| == 0 then Some([])
    else
      match ReadDependency(lines)
      case None => None
      case Some((d, n)) =>
        if n == 0 || n > |lines| then None
        else
          match ReadDependencies(lines[n..])
          case None => None
          case Some(ds) => Some([d] + ds)
  }

  /** The metadata a POM written by `ToPomXml` describes, or `None` for other texts. */
  function ReadPom(lines: seq<string>): Option<Metadata>
  {
    if |lines| < 7 || lines[..3] != [XmlDeclaration, ProjectOpen, ModelVersionLine]
      || lines[|lines| - 1] != ProjectClose then None
    else
      match (ReadElement(lines[3], "  ", "groupId"), ReadElement(lines[4], "  ", "artifactId"),
             ReadElement(lines[5], "  ", "version"))
      case (Some(g), Some(a), Some(v)) =>
        if |lines| == 7 then Some(Metadata(g, a, v, []))
        else if |lines| >= 10 && lines[6] == "" && lines[7] == DependenciesOpen && lines[|lines| - 2] == DependenciesClose then
          match ReadDependencies(lines[8..|lines| - 2])
          case Some(ds) => if |ds| > 0 then Some(Metadata(g, a, v, ds)) else None
          case None => None
        else None
      case _ => None
  }

  lemma ReadDependencyOfLines(d: MavenDependency, rest: seq<string>)
    ensures ReadDependency(DependencyLines(d) + rest) == Some((d, |DependencyLines(d)|))
  {
    var lines := DependencyLines(d) + rest;
    ReadElementOfElement("      ", "groupId", d.groupId);
    ReadElementOfElement("      ", "artifactId", d.artifactId);
    ReadElementOfElement("      ", "version", d.version);
    assert lines[1] == Element("      ", "groupId", d.groupId);
    assert lines[2] == Element("      ", "artifactId", d.artifactId);
    assert lines[3] == Element("      ", "version", d.version);
  }

  /** A block at the front is read, then the rest. */
  lemma ReadDependenciesCons(d: MavenDependency, rest: seq<string>, tail: seq<MavenDependency>)
    requires ReadDependencies(rest) == Some(tail)
    ensures ReadDependencies(DependencyLines(d) + rest) == Some([d] + tail)
  {
    var block := DependencyLines(d);
    ReadDependencyOfLines(d, rest);
    assert (block + rest)[|block|..] == rest;
  }

  /** The dependency blocks read back as the dependencies written, in order. */
  lemma {:induction false} ReadDependenciesOfLines(ds: seq<MavenDependency>)
    ensures ReadDependencies(DependenciesLines(ds)) == Some(ds)
    decreases |ds|
  {
    if |ds| > 0 {
      var rest := DependenciesLines(ds[1..]);
      assert DependenciesLines(ds) == DependencyLines(ds[0]) + rest;
      ReadDependenciesOfLines(ds[1..]);
      ReadDependenciesCons(ds[0], rest, ds[1..]);
      assert [ds[0]] + ds[1..] == ds;
    }
  }

  /** The first three lines of a POM are fixed. */
  lemma PomPrologue(m: Metadata)
    ensures ToPomXml(m)[..3] == [XmlDeclaration, ProjectOpen, ModelVersionLine]
  {
    var lines := ToPomXml(m);
    assert lines == HeaderLines(m) + BodyLines(m.dependencies) + [ProjectClose];
    assert lines[..3] == HeaderLines(m)[..3];
  }

  /** With dependencies, the POM holds an empty line, `<dependencies>`, the blocks and `</dependencies>`. */
  lemma PomDependencies(m: Metadata)
    requires |m.dependencies| > 0
    ensures var lines := ToPomXml(m);
      |lines| >= 10 && lines[6] == "" && lines[8..|lines| - 2] == DependenciesLines(m.dependencies)
  {
    var lines := ToPomXml(m);
    var blocks := DependenciesLines(m.dependencies);
    var body := BodyLines(m.dependencies);
    assert body == ["", DependenciesOpen] + blocks + [DependenciesClose];
    assert lines == HeaderLines(m) + body + [ProjectClose];
    assert lines[6] == "";
    assert lines[8..|lines| - 2] == blocks;
  }

  /** The POM holds all of the metadata: reading it gives the metadata back. */
  lemma ReadPomOfToPomXml(m: Metadata)
    ensures ReadPom(ToPomXml(m)) == Some(m)
  {
    PomPrologue(m);
    ReadElementOfElement("  ", "groupId", m.groupId);
    ReadElementOfElement("  ", "artifactId", m.artifactId);
    ReadElementOfElement("  ", "version", m.version);
    if |m.dependencies| > 0 {
      PomDependencies(m);
      ReadDependenciesOfLines(m.dependencies);
    }
  }
}
