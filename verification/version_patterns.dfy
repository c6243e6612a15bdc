/**
 * `Matcher.matches()` for the two patterns that the version classes compile,
 * written out as deterministic functions that make the same choices as
 * java.util.regex's backtracking matcher (greedy quantifiers, the first
 * successful alternative wins):
 *
 *   version: (\d+)(?:\.(\d+))?(?:\.(\d+))?(?:\.(.+))?
 *   range:   ([\[\(])(.+)\w*,\w*(.*)([\]\)])
 *
 * The same two pattern strings appear in model/Version.kt,
 * mavenize/EclipseVersionParser.kt and mavenize/EclipseBundle.kt; each of
 * those files is modelled in its own module on top of this one.
 */
module VersionPatterns {
  import opened Wrappers
  import opened KotlinText

  // ----- the version pattern -----

  /** Groups 1 to 4 of a successful match; an absent optional group is `None`. */
  datatype VersionGroups = VersionGroups(
    major: string,
    minor: Option<string>,
    micro: Option<string>,
    qualifier: Option<string>)

  /** `"." + x` for a present group, nothing for an absent one. */
  function Dotted(group: Option<string>): string {
    match group
    case None => ""
    case Some(x) => "." + x
  }

  /** The text after group 1, put back together from groups 2 to 4. */
  function Suffix(minor: Option<string>, micro: Option<string>, qualifier: Option<string>): string {
    Dotted(minor) + (Dotted(micro) + Dotted(qualifier))
  }

  /** The text a match covers, put back together from its groups. */
  function Render(g: VersionGroups): string {
    g.major + Suffix(g.minor, g.micro, g.qualifier)
  }

  /**
   * The strings the version pattern matches as a whole: a digit run, then
   * nothing or a dot followed by at least one character that is not a line
   * terminator.
   */
  predicate InVersionLanguage(s: string) {
    var n := DigitRun(s);
    n > 0 && (n == |s| || (s[n] == '.' && n + 1 < |s| && NoLineTerminator(s[n + 1..])))
  }

  /** A matching string is a non-empty run of characters that `.` accepts. */
  lemma InVersionLanguageText(s: string)
    ensures InVersionLanguage(s) ==> |s| > 0 && NoLineTerminator(s)
  {
    if InVersionLanguage(s) {
      var n := DigitRun(s);
      forall i | n < i < |s|
        ensures !IsLineTerminator(s[i])
      {
        assert s[i] == s[n + 1..][i - n - 1];
      }
    }
  }

  /**
   * True when `q`, standing right after a dot, would be read as one more
   * numeric group: it starts with digits that are followed by the end or by
   * a dot and something more.
   */
  predicate Absorbs(q: string) {
    var n := DigitRun(q);
    n > 0 && (n == |q| || (q[n] == '.' && n + 1 < |q|))
  }

  /** For text that `.` accepts, being absorbed and matching the version pattern coincide. */
  lemma AbsorbsInLanguage(q: string)
    ensures NoLineTerminator(q) ==> (Absorbs(q) <==> InVersionLanguage(q))
  {
    var n := DigitRun(q);
    if NoLineTerminator(q) && Absorbs(q) && n < |q| {
      var rest := q[n + 1..];
      forall i | 0 <= i < |rest|
        ensures !IsLineTerminator(rest[i])
      {
        assert rest[i] == q[n + 1 + i];
      }
    }
  }

  /**
   * Groups 2 to 4 as a greedy match can produce them: numeric groups are
   * non-empty digit runs, a micro needs a minor, and a qualifier that follows
   * fewer than three numbers is one that could not have been read as a
   * further number.
   */
  predicate WellFormedSuffix(minor: Option<string>, micro: Option<string>, qualifier: Option<string>) {
    && (minor.Some? ==> |minor.value| > 0 && AllDigits(minor.value))
    && (micro.Some? ==> minor.Some? && |micro.value| > 0 && AllDigits(micro.value))
    && (qualifier.Some? ==>
          && |qualifier.value| > 0
          && NoLineTerminator(qualifier.value)
          && (micro.None? ==> !Absorbs(qualifier.value)))
  }

  predicate WellFormed(g: VersionGroups) {
    |g.major| > 0 && AllDigits(g.major) && WellFormedSuffix(g.minor, g.micro, g.qualifier)
  }

  /** Group 3 present, then optionally group 4: matches `\d+(?:\.(.+))?` against all of `u`. */
  function MicroPath(u: string): (r: Option<(string, Option<string>)>)
    ensures r.Some? <==> InVersionLanguage(u)
    ensures r.Some? ==>
      && "." + u == Dotted(Some(r.value.0)) + Dotted(r.value.1)
      && |r.value.0| > 0 && AllDigits(r.value.0)
      && (r.value.1.Some? ==> |r.value.1.value| > 0 && NoLineTerminator(r.value.1.value))
  {
    var n := DigitRun(u);
    if n == 0 then None
    else if n == |u| then Some((u, None))
    else if u[n] == '.' && n + 1 < |u| && NoLineTerminator(u[n + 1..]) then
      assert "." + u == ("." + u[..n]) + ("." + u[n + 1..]);
      Some((u[..n], Some(u[n + 1..])))
    else None
  }

  /** Group 2 present: matches `\d+(?:\.(\d+))?(?:\.(.+))?` against all of `t`, group 3 tried first. */
  function MinorPath(t: string): (r: Option<(string, Option<string>, Option<string>)>)
    ensures r.Some? <==> InVersionLanguage(t)
    ensures r.Some? ==>
      && "." + t == Suffix(Some(r.value.0), r.value.1, r.value.2)
      && |r.value.0| > 0 && AllDigits(r.value.0)
      && WellFormedSuffix(Some(r.value.0), r.value.1, r.value.2)
  {
    var n := DigitRun(t);
    if n == 0 then None
    else if n == |t| then Some((t, None, None))
    else if t[n] != '.' then None
    else
      var u := t[n + 1..];
      assert "." + t == ("." + t[..n]) + ("." + u);
      InVersionLanguageText(u);
      match MicroPath(u)
      case Some((micro, qualifier)) =>
        assert Suffix(Some(t[..n]), Some(micro), qualifier) == ("." + t[..n]) + (Dotted(Some(micro)) + Dotted(qualifier));
        Some((t[..n], Some(micro), qualifier))
      case None =>
        // Backtrack: group 3 absent, group 4 takes the rest.
        AbsorbsInLanguage(u);
        assert Suffix(Some(t[..n]), None, Some(u)) == ("." + t[..n]) + ("." + u);
        if |u| > 0 && NoLineTerminator(u) then Some((t[..n], None, Some(u))) else None
  }

  /**
   * Everything after `major.`: group 2 is tried first; when it cannot be
   * completed the matcher backtracks to "group 2 absent" and tries group 3,
   * then group 4 alone.
   */
  function AfterMajor(t: string): (r: Option<(Option<string>, Option<string>, Option<string>)>)
    ensures r.Some? <==> |t| > 0 && NoLineTerminator(t)
    ensures r.Some? ==>
      && "." + t == Suffix(r.value.0, r.value.1, r.value.2)
      && WellFormedSuffix(r.value.0, r.value.1, r.value.2)
  {
    InVersionLanguageText(t);
    match MinorPath(t)
    case Some((minor, micro, qualifier)) => Some((Some(minor), micro, qualifier))
    case None =>
      match MicroPath(t)
      case Some(_) =>
        // A group 3 here would have served as group 2 above.
        assert false;
        None
      case None =>
        AbsorbsInLanguage(t);
        if |t| > 0 && NoLineTerminator(t) then Some((None, None, Some(t))) else None
  }

  /** `Matcher.matches()` of the version pattern, as its four groups. */
  function MatchVersion(s: string): (r: Option<VersionGroups>)
    ensures r.Some? <==> InVersionLanguage(s)
    ensures r.Some? ==> WellFormed(r.value) && Render(r.value) == s
  {
    var n := DigitRun(s);
    if n == 0 then None
    else if n == |s| then Some(VersionGroups(s, None, None, None))
    else if s[n] != '.' then None
    else MatchAfterMajor(s, n)
  }

  /** The major digits `s[..n]` and a dot: the rest is read by `AfterMajor`. */
  function MatchAfterMajor(s: string, n: nat): (r: Option<VersionGroups>)
    requires n == DigitRun(s) && 0 < n < |s| && s[n] == '.'
    ensures r.Some? <==> InVersionLanguage(s)
    ensures r.Some? ==> WellFormed(r.value) && Render(r.value) == s
  {
    var t := s[n + 1..];
    assert s == s[..n] + ("." + t);
    assert AllDigits(s[..n]);
    match AfterMajor(t)
    case None => None
    case Some((minor, micro, qualifier)) => Some(VersionGroups(s[..n], minor, micro, qualifier))
  }

  /** A digit run, a dot and more text: where the run ends and what follows the dot. */
  lemma DigitsThenDot(d: string, rest: string)
    requires |d| > 0 && AllDigits(d)
    ensures var t := d + ("." + rest);
      DigitRun(t) == |d| && t[|d|] == '.' && t[..|d|] == d && t[|d| + 1..] == rest
  {
    var t := d + ("." + rest);
    DigitRunOfConcat(d, "." + rest);
    assert t[|d| + 1..] == rest;
  }

  lemma MicroPathOfRender(micro: string, qualifier: Option<string>)
    requires |micro| > 0 && AllDigits(micro)
    requires qualifier.Some? ==> |qualifier.value| > 0 && NoLineTerminator(qualifier.value)
    ensures MicroPath(micro + Dotted(qualifier)) == Some((micro, qualifier))
  {
    match qualifier
    case Some(q) =>
      DigitsThenDot(micro, q);
    case None =>
      assert micro + Dotted(qualifier) == micro;
      DigitRunOfConcat(micro, []);
  }

  lemma MinorPathOfRender(minor: string, micro: Option<string>, qualifier: Option<string>)
    requires |minor| > 0 && AllDigits(minor)
    requires WellFormedSuffix(Some(minor), micro, qualifier)
    ensures MinorPath(minor + (Dotted(micro) + Dotted(qualifier))) == Some((minor, micro, qualifier))
  {
    match micro
    case Some(m) =>
      assert Dotted(micro) + Dotted(qualifier) == "." + (m + Dotted(qualifier));
      MinorPathOfMicro(minor, m, qualifier);
    case None =>
      match qualifier
      case Some(q) =>
        assert Dotted(micro) + Dotted(qualifier) == "." + q;
        MinorPathOfQualifier(minor, q);
      case None =>
        assert minor + (Dotted(micro) + Dotted(qualifier)) == minor;
        MinorPathOfDigits(minor);
  }

  /** Group 2, a dot and group 3 with what follows it. */
  lemma MinorPathOfMicro(minor: string, micro: string, qualifier: Option<string>)
    requires |minor| > 0 && AllDigits(minor) && |micro| > 0 && AllDigits(micro)
    requires qualifier.Some? ==> |qualifier.value| > 0 && NoLineTerminator(qualifier.value)
    ensures MinorPath(minor + ("." + (micro + Dotted(qualifier)))) == Some((minor, Some(micro), qualifier))
  {
    DigitsThenDot(minor, micro + Dotted(qualifier));
    MicroPathOfRender(micro, qualifier);
  }

  /** Group 2, a dot and a qualifier that could not be read as group 3. */
  lemma MinorPathOfQualifier(minor: string, q: string)
    requires |minor| > 0 && AllDigits(minor)
    requires |q| > 0 && NoLineTerminator(q) && !Absorbs(q)
    ensures MinorPath(minor + ("." + q)) == Some((minor, None, Some(q)))
  {
    DigitsThenDot(minor, q);
    AbsorbsInLanguage(q);
    assert MicroPath(q).None?;
  }

  /** Group 2 alone. */
  lemma MinorPathOfDigits(minor: string)
    requires |minor| > 0 && AllDigits(minor)
    ensures MinorPath(minor) == Some((minor, None, None))
  {
    DigitRunOfConcat(minor, []);
    assert minor + [] == minor;
  }

  /** After `major.`, a minor number and what follows it are read through group 2. */
  lemma AfterMajorOfMinor(minor: string, micro: Option<string>, qualifier: Option<string>)
    requires |minor| > 0 && AllDigits(minor)
    requires WellFormedSuffix(Some(minor), micro, qualifier)
    ensures AfterMajor(minor + (Dotted(micro) + Dotted(qualifier))) == Some((Some(minor), micro, qualifier))
  {
    MinorPathOfRender(minor, micro, qualifier);
  }

  /** After `major.`, text that cannot be read as a number is the qualifier alone. */
  lemma AfterMajorOfQualifier(q: string)
    requires |q| > 0 && NoLineTerminator(q) && !Absorbs(q)
    ensures AfterMajor(q) == Some((None, None, Some(q)))
  {
    AbsorbsInLanguage(q);
    assert MinorPath(q).None?;
    assert MicroPath(q).None?;
  }

  /**
   * The match is the only well-formed reading of its text: matching what a
   * well-formed group tuple renders to gives that tuple back.
   */
  lemma MatchVersionOfRender(g: VersionGroups)
    requires WellFormed(g)
    ensures MatchVersion(Render(g)) == Some(g)
  {
    if g.minor.Some? {
      MatchVersionOfMinor(g);
    } else if g.qualifier.Some? {
      MatchVersionOfQualifier(g);
    } else {
      MatchVersionOfMajor(g);
    }
  }

  /** A match of the major digits alone. */
  lemma MatchVersionOfMajor(g: VersionGroups)
    requires WellFormed(g) && g.minor.None? && g.qualifier.None?
    ensures MatchVersion(Render(g)) == Some(g)
  {
    assert g.micro.None?;
    assert Render(g) == g.major;
    DigitRunOfConcat(g.major, []);
    assert g.major + [] == g.major;
    assert DigitRun(g.major) == |g.major|;
  }

  /** A match with a minor group: the major digits, a dot, and what group 2 onwards read. */
  lemma MatchVersionOfMinor(g: VersionGroups)
    requires WellFormed(g) && g.minor.Some?
    ensures MatchVersion(Render(g)) == Some(g)
  {
    var t := g.minor.value + (Dotted(g.micro) + Dotted(g.qualifier));
    assert Render(g) == g.major + ("." + t);
    DigitsThenDot(g.major, t);
    AfterMajorOfMinor(g.minor.value, g.micro, g.qualifier);
  }

  /** A match with only a qualifier after the major digits. */
  lemma MatchVersionOfQualifier(g: VersionGroups)
    requires WellFormed(g) && g.minor.None? && g.qualifier.Some?
    ensures MatchVersion(Render(g)) == Some(g)
  {
    var q := g.qualifier.value;
    assert g.micro.None?;
    assert Suffix(None, None, Some(q)) == "." + q;
    assert Render(g) == g.major + ("." + q);
    DigitsThenDot(g.major, q);
    AfterMajorOfQualifier(q);
  }

  /** Components are assigned greedily: "1.2.x" has minor 2, no micro and qualifier "x". */
  lemma GreedyMinorExample()
    ensures MatchVersion("1.2.x") == Some(VersionGroups("1", Some("2"), None, Some("x")))
  {
    var g := VersionGroups("1", Some("2"), None, Some("x"));
    assert Render(g) == "1.2.x";
    MatchVersionOfRender(g);
  }

  /** Everything after the third number is the qualifier: "1.2.3.4.5" has qualifier "4.5". */
  lemma GreedyQualifierExample()
    ensures MatchVersion("1.2.3.4.5") == Some(VersionGroups("1", Some("2"), Some("3"), Some("4.5")))
  {
    var g := VersionGroups("1", Some("2"), Some("3"), Some("4.5"));
    assert Render(g) == "1.2.3.4.5";
    MatchVersionOfRender(g);
  }

  // ----- numbers in the groups -----

  /** A numeric group as `"$n"` prints it. */
  function PrintNumber(n: Option<nat>): (r: Option<string>)
    ensures r.Some? <==> n.Some?
    ensures r.Some? ==> Canonical(r.value)
  {
    match n
    case None => None
    case Some(k) => Some(NatToString(k))
  }

  /** A numeric group as `group(k)?.toInt()` reads it. */
  function ReadNumber(d: Option<string>): (r: Option<nat>)
    requires d.Some? ==> AllDigits(d.value)
    ensures r.Some? <==> d.Some?
  {
    match d
    case None => None
    case Some(text) => Some(DigitsToNat(text))
  }

  /** The groups that printing a version's numbers and qualifier produces. */
  function PrintGroups(major: nat, minor: Option<nat>, micro: Option<nat>, qualifier: Option<string>): VersionGroups {
    VersionGroups(NatToString(major), PrintNumber(minor), PrintNumber(micro), qualifier)
  }

  /**
   * The versions whose printed text reads back as the same version: a micro
   * only after a minor, and a qualifier that is non-empty, has no line
   * terminator and, after fewer than three numbers, cannot be read as a number.
   */
  predicate Printable(minor: Option<nat>, micro: Option<nat>, qualifier: Option<string>) {
    && (micro.Some? ==> minor.Some?)
    && (qualifier.Some? ==>
          && |qualifier.value| > 0
          && NoLineTerminator(qualifier.value)
          && (micro.None? ==> !Absorbs(qualifier.value)))
  }

  /** The numeric groups of a match are written without leading zeros. */
  predicate CanonicalGroups(g: VersionGroups) {
    && Canonical(g.major)
    && (g.minor.Some? ==> Canonical(g.minor.value))
    && (g.micro.Some? ==> Canonical(g.micro.value))
  }

  lemma ReadPrintNumber(n: Option<nat>)
    ensures ReadNumber(PrintNumber(n)) == n
  {
    if n.Some? {
      DigitsToNatOfNatToString(n.value);
    }
  }

  lemma PrintReadNumber(d: Option<string>)
    requires d.Some? ==> Canonical(d.value)
    ensures PrintNumber(ReadNumber(d)) == d
  {
    if d.Some? {
      NatToStringOfDigitsToNat(d.value);
    }
  }

  /** The qualifier is printed last: dropping it drops exactly its dotted text from the end. */
  lemma RenderWithoutQualifier(g: VersionGroups)
    ensures Render(g) == Render(g.(qualifier := None)) + Dotted(g.qualifier)
  {
    var a := g.major;
    var b := Dotted(g.minor);
    var c := Dotted(g.micro);
    var d := Dotted(g.qualifier);
    assert Render(g) == a + (b + (c + d));
    assert Render(g.(qualifier := None)) == a + (b + (c + ""));
    assert c + "" == c;
    assert a + (b + (c + d)) == (a + (b + c)) + d;
  }

  /** Printing a printable version and matching the text gives back the printed groups. */
  lemma MatchVersionOfPrinted(major: nat, minor: Option<nat>, micro: Option<nat>, qualifier: Option<string>)
    requires Printable(minor, micro, qualifier)
    ensures MatchVersion(Render(PrintGroups(major, minor, micro, qualifier))) == Some(PrintGroups(major, minor, micro, qualifier))
  {
    MatchVersionOfRender(PrintGroups(major, minor, micro, qualifier));
  }

  // ----- the range pattern -----


  /**
   * Groups 1 to 4 of a successful match of the range pattern, plus the text
   * consumed by the `\w*` after the comma (which belongs to no group).
   */
  datatype RangeGroups = RangeGroups(open: char, min: string, skipped: string, max: string, close: char)

  predicate IsOpen(c: char) { c == '[' || c == '(' }

  predicate IsClose(c: char) { c == ']' || c == ')' }

  /**
   * The strings the range pattern matches as a whole: an opening bracket, a
   * middle without line terminators holding a comma after its first
   * character, and a closing bracket.
   */
  predicate InRangeLanguage(s: string) {
    && |s| >= 3 && IsOpen(s[0]) && IsClose(s[|s| - 1])
    && NoLineTerminator(s[1..|s| - 1])
    && ',' in s[2..|s| - 1]
  }

  predicate AllWordChars(s: string) {
    forall i :: 0 <= i < |s| ==> IsWordChar(s[i])
  }

  /** The text between the brackets, put back together from groups 2 and 3 and the skipped word characters. */
  function Middle(g: RangeGroups): string {
    g.min + ("," + (g.skipped + g.max))
  }

  /**
   * What every successful match looks like: brackets around group 2, a comma
   * that is the last one, a run of word characters, and a group 3 that does
   * not start with one.
   */
  predicate RangeShape(s: string, g: RangeGroups) {
    && s == [g.open] + Middle(g) + [g.close]
    && IsOpen(g.open) && IsClose(g.close)
    && |g.min| > 0
    && ',' !in g.skipped + g.max
    && AllWordChars(g.skipped)
    && (g.max == [] || !IsWordChar(g.max[0]))
  }

  /** A comma past the first character exists exactly when the last comma is past the first character. */
  lemma LastCommaPastFirst(m: string)
    ensures LastIndexOf(m, ',') >= 1 <==> |m| >= 1 && ',' in m[1..]
  {
    var c := LastIndexOf(m, ',');
    if c >= 1 {
      assert m[1..][c - 1] == ',';
    } else if c == 0 {
      assert m[1..] == m[c + 1..];
    }
  }

  /**
   * Splits the middle at its last comma, which the greedy `(.+)` reaches
   * first, and the text after that comma at the end of its leading word
   * characters, which the second `\w*` takes.
   */
  function SplitMiddle(m: string): (r: (string, string, string))
    requires LastIndexOf(m, ',') >= 1
    ensures m == r.0 + ("," + (r.1 + r.2))
    ensures |r.0| > 0 && ',' !in r.1 + r.2
    ensures AllWordChars(r.1) && (r.2 == [] || !IsWordChar(r.2[0]))
  {
    var c := LastIndexOf(m, ',');
    var rest := m[c + 1..];
    var w := WordRun(rest);
    CutAtComma(m, c);
    assert rest == rest[..w] + rest[w..];
    (m[..c], rest[..w], rest[w..])
  }

  /** A text is what comes before one of its commas, the comma, and what comes after it. */
  lemma CutAtComma(m: string, c: int)
    requires 0 <= c < |m| && m[c] == ','
    ensures m == m[..c] + ("," + m[c + 1..])
  {
    assert m == m[..c] + [m[c]] + m[c + 1..];
  }

  /**
   * `Matcher.matches()` of the range pattern. The greedy `(.+)` takes the
   * middle up to its last comma, the first `\w*` is then empty, and the
   * second `\w*` takes every word character after the comma, digits included.
   */
  function MatchRange(s: string): (r: Option<RangeGroups>)
    ensures r.Some? <==> InRangeLanguage(s)
    ensures r.Some? ==> RangeShape(s, r.value)
  {
    if |s| < 3 || !IsOpen(s[0]) || !IsClose(s[|s| - 1]) then None
    else
      var m := s[1..|s| - 1];
      assert m[1..] == s[2..|s| - 1];
      LastCommaPastFirst(m);
      if !NoLineTerminator(m) || LastIndexOf(m, ',') < 1 then None
      else Some(Groups(s))
  }

  /** The groups of a bracketed text whose middle has a comma past its first character. */
  function Groups(s: string): (g: RangeGroups)
    requires |s| >= 3 && IsOpen(s[0]) && IsClose(s[|s| - 1])
    requires LastIndexOf(s[1..|s| - 1], ',') >= 1
    ensures RangeShape(s, g)
  {
    var m := s[1..|s| - 1];
    var parts := SplitMiddle(m);
    var g := RangeGroups(s[0], parts.0, parts.1, parts.2, s[|s| - 1]);
    Bracketed(s, Middle(g));
    g
  }

  lemma Bracketed(s: string, m: string)
    requires |s| >= 2 && m == s[1..|s| - 1]
    ensures s == [s[0]] + m + [s[|s| - 1]]
  {
  }

  lemma Unbracket(s: string, open: char, m: string, close: char)
    requires s == [open] + m + [close]
    ensures s[1..|s| - 1] == m
  {
  }

  lemma Regroup(x: string, y: string, z: string)
    ensures x + (y + z) == (x + y) + z
  {
  }

  /** What follows a comma that is glued between two texts. */
  lemma AfterComma(x: string, y: string)
    ensures (x + ("," + y))[|x| + 1..] == y
  {
  }

  /**
   * The match is the one backtracking finds first: of every way to read the
   * middle as group 2, `\w*`, comma, `\w*`, group 3, it has the longest
   * group 2 and, for that group 2, the longest second `\w*`.
   */
  lemma MatchRangeIsGreedy(s: string, a: string, w1: string, w2: string, b: string)
    requires InRangeLanguage(s)
    requires AllWordChars(w1) && AllWordChars(w2)
    requires s[1..|s| - 1] == a + (w1 + ("," + (w2 + b)))
    ensures |a| <= |MatchRange(s).value.min|
    ensures |a| == |MatchRange(s).value.min| ==> |w2| <= |MatchRange(s).value.skipped|
  {
    ShapeIsGreedy(s, MatchRange(s).value, a, w1, w2, b);
  }

  lemma ShapeIsGreedy(s: string, g: RangeGroups, a: string, w1: string, w2: string, b: string)
    requires RangeShape(s, g)
    requires AllWordChars(w1) && AllWordChars(w2)
    requires s[1..|s| - 1] == a + (w1 + ("," + (w2 + b)))
    ensures |a| <= |g.min|
    ensures |a| == |g.min| ==> |w2| <= |g.skipped|
  {
    var tail := g.skipped + g.max;
    Unbracket(s, g.open, Middle(g), g.close);
    Regroup(a, w1, "," + (w2 + b));
    NoCommaAfterLast(g.min, tail, a + w1, w2 + b);
    if |a| == |g.min| {
      AfterComma(g.min, tail);
      AfterComma(a + w1, w2 + b);
      LongestWordRun(g.skipped, g.max, w2, b);
    }
  }

  /** Of two ways to cut a text at a comma, the one whose remainder holds no comma cuts last. */
  lemma NoCommaAfterLast(p: string, tail: string, x: string, y: string)
    requires ',' !in tail
    requires p + ("," + tail) == x + ("," + y)
    ensures |x| <= |p|
  {
    var m := p + ("," + tail);
    forall i | |p| < i < |m|
      ensures m[i] != ','
    {
      assert m[i] == tail[i - |p| - 1];
    }
    assert m[|x|] == ',';
  }

  /** A word-character run followed by a non-word character is the longest one at its start. */
  lemma LongestWordRun(run: string, rest: string, w: string, b: string)
    requires AllWordChars(w)
    requires rest == [] || !IsWordChar(rest[0])
    requires run + rest == w + b
    ensures |w| <= |run|
  {
    var t := run + rest;
    assert |run| < |t| ==> !IsWordChar(t[|run|]);
    assert forall i :: 0 <= i < |w| ==> IsWordChar(t[i]);
  }

  /** The text between the first character and the last comma (empty when there is no such comma). */
  function MinText(s: string): string {
    var c := LastIndexOf(s, ',');
    if c >= 1 then s[1..c] else ""
  }

  /** Group 2 is everything between the opening bracket and the last comma of the whole text. */
  lemma MatchRangeMin(s: string)
    requires InRangeLanguage(s)
    ensures MatchRange(s).value.min == MinText(s)
  {
    ShapeMin(s, MatchRange(s).value);
  }

  lemma ShapeMin(s: string, g: RangeGroups)
    requires RangeShape(s, g)
    ensures LastIndexOf(s, ',') == |g.min| + 1 && g.min == s[1..|g.min| + 1]
  {
    LastCommaOfShape(g.open, g.min, g.skipped + g.max, g.close);
  }

  /** In a bracket, a text, a comma, comma-free text and a closing bracket, the comma shown is the last one. */
  lemma LastCommaOfShape(open: char, min: string, tail: string, close: char)
    requires ',' !in tail && IsClose(close)
    ensures var s := [open] + (min + ("," + tail)) + [close];
      LastIndexOf(s, ',') == |min| + 1 && s[1..|min| + 1] == min
  {
    var pre := [open] + min;
    var post := tail + [close];
    CommaRegroup(open, min, tail, close);
    LastIndexOfBeforeSuffix(pre, ',', post);
    assert (pre + [','] + post)[1..|min| + 1] == min;
  }

  lemma CommaRegroup(open: char, min: string, tail: string, close: char)
    ensures [open] + (min + ("," + tail)) + [close] == ([open] + min) + [','] + (tail + [close])
  {
  }

  /** A bracket, a text without line terminators, a comma and a bracket: the text is group 2 and nothing follows the comma. */
  lemma MatchRangeOfPrinted(open: char, text: string, close: char)
    requires IsOpen(open) && IsClose(close)
    requires |text| > 0 && NoLineTerminator(text)
    ensures MatchRange([open] + text + "," + [close]) == Some(RangeGroups(open, text, "", "", close))
  {
    var s := [open] + text + "," + [close];
    var middle := text + ",";
    assert s[1..|s| - 1] == middle;
    assert s[2..|s| - 1] == middle[1..];
    assert middle[1..][|text| - 1] == ',';
    var g := MatchRange(s).value;
    MatchRangeMin(s);
    assert s == ([open] + text) + [','] + [close];
    LastIndexOfBeforeSuffix([open] + text, ',', [close]);
    assert s[1..|text| + 1] == text;
  }

  /** Because `\w*` swallows the upper bound's leading digits, group 3 never matches the version pattern. */
  lemma MatchRangeMaxNeverVersion(s: string)
    requires InRangeLanguage(s)
    ensures MatchVersion(MatchRange(s).value.max).None?
  {
  }

  // ----- the range pattern as intended -----

  /**
   * What a match of `([\[\(])(.+),(.*)([\]\)])` looks like: the range pattern
   * without the `\w*` around the comma, so that group 3 is the whole text
   * after the last comma. Nothing is skipped.
   */
  predicate WholeMaxShape(s: string, g: RangeGroups) {
    && s == [g.open] + Middle(g) + [g.close]
    && IsOpen(g.open) && IsClose(g.close)
    && |g.min| > 0
    && g.skipped == [] && ',' !in g.max
  }

  /**
   * `Matcher.matches()` of the range pattern without the `\w*`: it matches the
   * same strings, the greedy `(.+)` still takes the middle up to its last
   * comma, and group 3 takes all that follows.
   */
  function MatchRangeWholeMax(s: string): (r: Option<RangeGroups>)
    ensures r.Some? <==> InRangeLanguage(s)
    ensures r.Some? ==> WholeMaxShape(s, r.value)
  {
    if |s| < 3 || !IsOpen(s[0]) || !IsClose(s[|s| - 1]) then None
    else
      var m := s[1..|s| - 1];
      assert m[1..] == s[2..|s| - 1];
      LastCommaPastFirst(m);
      if !NoLineTerminator(m) || LastIndexOf(m, ',') < 1 then None
      else Some(WholeMaxGroups(s))
  }

  /** The groups of the corrected pattern for a bracketed text whose middle has a comma past its first character. */
  function WholeMaxGroups(s: string): (g: RangeGroups)
    requires |s| >= 3 && IsOpen(s[0]) && IsClose(s[|s| - 1])
    requires LastIndexOf(s[1..|s| - 1], ',') >= 1
    ensures WholeMaxShape(s, g)
  {
    var m := s[1..|s| - 1];
    var parts := SplitAtLastComma(m);
    var g := RangeGroups(s[0], parts.0, "", parts.1, s[|s| - 1]);
    assert Middle(g) == m;
    Bracketed(s, m);
    g
  }

  /** Splits the middle at its last comma, all of whose right side group 3 of the corrected pattern takes. */
  function SplitAtLastComma(m: string): (r: (string, string))
    requires LastIndexOf(m, ',') >= 1
    ensures m == r.0 + ("," + r.1)
    ensures |r.0| > 0 && ',' !in r.1
  {
    var c := LastIndexOf(m, ',');
    CutAtComma(m, c);
    (m[..c], m[c + 1..])
  }

  /** A text has at most one reading as bracket, group 2, last comma, group 3, bracket. */
  lemma WholeMaxShapeUnique(s: string, g: RangeGroups, h: RangeGroups)
    requires WholeMaxShape(s, g) && WholeMaxShape(s, h)
    ensures g == h
  {
    assert Middle(g) == g.min + ("," + g.max);
    assert Middle(h) == h.min + ("," + h.max);
    LastCommaOfShape(g.open, g.min, g.max, g.close);
    LastCommaOfShape(h.open, h.min, h.max, h.close);
    Unbracket(s, g.open, Middle(g), g.close);
    Unbracket(s, h.open, Middle(h), h.close);
    AfterComma(g.min, g.max);
    AfterComma(h.min, h.max);
  }

  /**
   * A bracket, a minimum text, a comma, a comma-free maximum text and a
   * bracket: the corrected pattern gives back both texts, so the maximum is
   * no longer lost.
   */
  lemma MatchRangeWholeMaxOfPrinted(open: char, min: string, max: string, close: char)
    requires IsOpen(open) && IsClose(close)
    requires |min| > 0 && NoLineTerminator(min) && NoLineTerminator(max) && ',' !in max
    ensures MatchRangeWholeMax([open] + (min + ("," + max)) + [close]) == Some(RangeGroups(open, min, "", max, close))
  {
    var s := [open] + (min + ("," + max)) + [close];
    var g := RangeGroups(open, min, "", max, close);
    assert Middle(g) == min + ("," + max);
    Unbracket(s, open, Middle(g), close);
    PrintedMiddleInLanguage(min, max);
    assert s[2..|s| - 1] == s[1..|s| - 1][1..];
    assert InRangeLanguage(s);
    WholeMaxShapeUnique(s, MatchRangeWholeMax(s).value, g);
  }

  /** The middle of a printed range has no line terminator and a comma after its first character. */
  lemma PrintedMiddleInLanguage(min: string, max: string)
    requires |min| > 0 && NoLineTerminator(min) && NoLineTerminator(max)
    ensures NoLineTerminator(min + ("," + max)) && ',' in (min + ("," + max))[1..]
  {
    var m := min + ("," + max);
    assert m[1..][|min| - 1] == ',';
    forall i | 0 <= i < |m|
      ensures !IsLineTerminator(m[i])
    {
      if i < |min| {
        assert m[i] == min[i];
      } else if i > |min| {
        assert m[i] == max[i - |min| - 1];
      }
    }
  }
}
