/**
 * The `Require-Bundle` header syntax shared by the bundle readers: the
 * quote-aware comma splitter of `BundleDependency.parse`, the `;` element
 * selection of `parseInner` and `stripElement`. The loop and the helper are
 * textually the same in mavenize/EclipseBundle.kt, model/Bundle.kt,
 * model/eclipse/Bundle.kt and (without the inner parser) in
 * mavenize/BundleConverter.kt; each of those files is modelled in its own
 * module on top of this one.
 */
module RequireBundleSyntax {
  import opened Wrappers
  import opened KotlinText

  // ----- quote parity and unquoted commas -----

  /** The number of double quotes in `s` is even: a scan that ends after `s` is outside quotes. */
  predicate EvenQuotes(s: string) {
    Count(s, '"') % 2 == 0
  }

  /** The commas of `s` that a left-to-right scan starting outside quotes sees outside quotes. */
  function UnquotedCommas(s: string): nat
  {
    if |s| == 0 then 0
    else
      var init := s[..|s| - 1];
      UnquotedCommas(init) + (if s[|s| - 1] == ',' && EvenQuotes(init) then 1 else 0)
  }

  /** `s` is empty or its last character is a comma outside quotes: no text follows the last split point. */
  predicate Closed(s: string) {
    |s| == 0 || (s[|s| - 1] == ',' && EvenQuotes(s[..|s| - 1]))
  }

  /** Each piece followed by a comma: the text the loop has consumed up to its current `pos`. */
  function Terminated(pieces: seq<string>): string
  {
    if |pieces| == 0 then []
    else Terminated(pieces[..|pieces| - 1]) + pieces[|pieces| - 1] + [',']
  }

  /**
   * `pieces` is the quote-aware split of `s`: every piece starts and ends
   * outside quotes and holds no unquoted comma, put back together with the
   * split commas they give `s`, and there is one piece per unquoted comma plus
   * one for non-empty trailing text. `ClauseSplitUnique` shows that at most
   * one sequence of pieces does this.
   */
  predicate ClauseSplit(s: string, pieces: seq<string>) {
    && (forall k :: 0 <= k < |pieces| ==> EvenQuotes(pieces[k]) && UnquotedCommas(pieces[k]) == 0)
    && |pieces| == UnquotedCommas(s) + (if Closed(s) then 0 else 1)
    && (if Closed(s) then Terminated(pieces) == s
        else
          && |pieces| > 0
          && pieces[|pieces| - 1] != []
          && Terminated(pieces[..|pieces| - 1]) + pieces[|pieces| - 1] == s)
  }

  lemma CountSnoc(s: string, i: nat, c: char)
    requires i < |s|
    ensures Count(s[..i + 1], c) == Count(s[..i], c) + (if s[i] == c then 1 else 0)
  {
    assert s[..i + 1] == s[..i] + [s[i]];
    CountConcat(s[..i], [s[i]], c);
  }

  lemma CountSlices(s: string, j: nat, i: nat, c: char)
    requires j <= i <= |s|
    ensures Count(s[..i], c) == Count(s[..j], c) + Count(s[j..i], c)
  {
    assert s[..i] == s[..j] + s[j..i];
    CountConcat(s[..j], s[j..i], c);
  }

  /** After text with an even number of quotes the scan is outside quotes again, so the counts add up. */
  lemma {:induction false} UnquotedCommasConcat(a: string, b: string)
    requires EvenQuotes(a)
    ensures UnquotedCommas(a + b) == UnquotedCommas(a) + UnquotedCommas(b)
    decreases |b|
  {
    if |b| == 0 {
      assert a + b == a;
    } else {
      var ab := a + b;
      var binit := b[..|b| - 1];
      assert ab[..|ab| - 1] == a + binit;
      assert ab[|ab| - 1] == b[|b| - 1];
      CountConcat(a, binit, '"');
      UnquotedCommasConcat(a, binit);
    }
  }

  lemma SliceSnoc(s: string, j: nat, i: nat)
    requires j <= i < |s|
    ensures s[j..i + 1][..i - j] == s[j..i] && s[j..i + 1][i - j] == s[i]
  {
  }

  // ----- the splitting loop -----

  /**
   * What holds before iteration `i` of the loop of `BundleDependency.parse`:
   * `quoted` says whether the scanned text has an odd number of quotes, `pos`
   * is just after an unquoted comma (or 0), the pieces split off so far are
   * the text before `pos`, and no unquoted comma has been seen since.
   */
  predicate ScanState(s: string, i: nat, quoted: bool, pos: nat, acc: seq<string>) {
    && pos <= i <= |s|
    && quoted == !EvenQuotes(s[..i])
    && EvenQuotes(s[..pos]) && (pos == 0 || s[pos - 1] == ',')
    && |acc| == UnquotedCommas(s[..pos]) && Terminated(acc) == s[..pos]
    && UnquotedCommas(s[pos..i]) == 0
    && (forall k :: 0 <= k < |acc| ==> EvenQuotes(acc[k]) && UnquotedCommas(acc[k]) == 0)
  }

  /** A quote, or any character other than an unquoted comma, keeps the current piece going. */
  lemma ScanKeeps(s: string, i: nat, quoted: bool, pos: nat, acc: seq<string>)
    requires ScanState(s, i, quoted, pos, acc) && i < |s|
    requires !(s[i] == ',' && !quoted)
    ensures ScanState(s, i + 1, if s[i] == '"' then !quoted else quoted, pos, acc)
  {
    KeepCounts(s, i, quoted, pos);
  }

  lemma KeepCounts(s: string, i: nat, quoted: bool, pos: nat)
    requires pos <= i < |s|
    requires quoted == !EvenQuotes(s[..i]) && EvenQuotes(s[..pos])
    requires UnquotedCommas(s[pos..i]) == 0
    requires !(s[i] == ',' && !quoted)
    ensures (if s[i] == '"' then !quoted else quoted) == !EvenQuotes(s[..i + 1])
    ensures UnquotedCommas(s[pos..i + 1]) == 0
  {
    CountSnoc(s, i, '"');
    CountSlices(s, pos, i, '"');
    SliceSnoc(s, pos, i);
    var t := s[pos..i + 1];
    assert t[..|t| - 1] == s[pos..i] && t[|t| - 1] == s[i];
  }

  /** An unquoted comma ends the current piece. */
  lemma ScanSplits(s: string, i: nat, quoted: bool, pos: nat, acc: seq<string>)
    requires ScanState(s, i, quoted, pos, acc) && i < |s|
    requires s[i] == ',' && !quoted
    ensures ScanState(s, i + 1, quoted, i + 1, acc + [s[pos..i]])
  {
    SplitCounts(s, i, pos, |acc|);
    SplitPieces(s, i, pos, acc);
    CountSlices(s, pos, i, '"');
  }

  lemma SplitCounts(s: string, i: nat, pos: nat, n: nat)
    requires pos <= i < |s| && s[i] == ','
    requires EvenQuotes(s[..i]) && EvenQuotes(s[..pos])
    requires n == UnquotedCommas(s[..pos]) && UnquotedCommas(s[pos..i]) == 0
    ensures EvenQuotes(s[..i + 1])
    ensures n + 1 == UnquotedCommas(s[..i + 1])
  {
    assert s[..i + 1][..i] == s[..i];
    CountSnoc(s, i, '"');
    UnquotedCommasConcat(s[..pos], s[pos..i]);
    assert s[..pos] + s[pos..i] == s[..i];
  }

  lemma SplitPieces(s: string, i: nat, pos: nat, acc: seq<string>)
    requires pos <= i < |s| && s[i] == ','
    requires Terminated(acc) == s[..pos] && UnquotedCommas(s[pos..i]) == 0
    requires forall k :: 0 <= k < |acc| ==> UnquotedCommas(acc[k]) == 0
    ensures Terminated(acc + [s[pos..i]]) == s[..i + 1]
    ensures forall k :: 0 <= k < |acc| + 1 ==> UnquotedCommas((acc + [s[pos..i]])[k]) == 0
  {
    TerminatedSnoc(acc, s[pos..i]);
    PrefixThroughComma(s, pos, i);
  }

  lemma PrefixThroughComma(s: string, pos: nat, i: nat)
    requires pos <= i < |s| && s[i] == ','
    ensures s[..i + 1] == s[..pos] + s[pos..i] + [',']
  {
  }

  lemma TerminatedSnoc(acc: seq<string>, piece: string)
    ensures Terminated(acc + [piece]) == Terminated(acc) + piece + [',']
  {
    assert (acc + [piece])[..|acc|] == acc;
  }

  /** At the end, outside quotes, with text after the last split point: that text is the last piece. */
  lemma ScanEndsOpen(s: string, pos: nat, acc: seq<string>)
    requires ScanState(s, |s|, false, pos, acc) && pos < |s|
    ensures ClauseSplit(s, acc + [s[pos..]])
  {
    var piece := s[pos..];
    assert s[..|s|] == s;
    UnquotedCommasConcat(s[..pos], piece);
    assert s[..pos] + piece == s;
    assert (acc + [piece])[..|acc|] == acc;
    CountSlices(s, pos, |s|, '"');
    ClosedAfterPiece(s, pos);
  }

  /** At the end, outside quotes, right after a split point: the pieces so far are all of them. */
  lemma ScanEndsClosed(s: string, acc: seq<string>)
    requires ScanState(s, |s|, false, |s|, acc)
    ensures ClauseSplit(s, acc)
  {
    assert s[..|s|] == s;
    if |s| > 0 {
      CountSnoc(s, |s| - 1, '"');
    }
  }

  /** Non-empty text after the last split point, without unquoted commas, means `s` is not closed. */
  lemma ClosedAfterPiece(s: string, pos: nat)
    requires pos < |s| && EvenQuotes(s[..pos])
    requires UnquotedCommas(s[pos..]) == 0
    ensures !Closed(s)
  {
    var piece := s[pos..];
    var n := |s| - 1;
    if s[n] == ',' {
      CountSlices(s, pos, n, '"');
      assert piece[..|piece| - 1] == s[pos..n];
    }
  }

  /**
   * One iteration of the loop of `BundleDependency.parse` per call, from
   * index `i`, with the loop variables `quoted` and `pos` and the pieces
   * `acc` split off so far; at the end, the unclosed-quote check and the
   * trailing piece.
   */
  function Scan(s: string, i: nat, quoted: bool, pos: nat, acc: seq<string>): (r: Option<seq<string>>)
    requires ScanState(s, i, quoted, pos, acc)
    ensures r.None? <==> !EvenQuotes(s)
    ensures r.Some? ==> ClauseSplit(s, r.value)
    decreases |s| - i, 2
  {
    if i < |s| then ScanStep(s, i, quoted, pos, acc) else ScanEnd(s, quoted, pos, acc)
  }

  /** The body of the loop at index `i`: an unquoted comma splits off a piece, any other character keeps it going. */
  function ScanStep(s: string, i: nat, quoted: bool, pos: nat, acc: seq<string>): (r: Option<seq<string>>)
    requires ScanState(s, i, quoted, pos, acc) && i < |s|
    ensures r.None? <==> !EvenQuotes(s)
    ensures r.Some? ==> ClauseSplit(s, r.value)
    decreases |s| - i, 1
  {
    if s[i] == ',' && !quoted then ScanSplit(s, i, pos, acc) else ScanKeep(s, i, quoted, pos, acc)
  }

  /** An unquoted comma at `i`: the text since `pos` is a piece and the next one starts after the comma. */
  function ScanSplit(s: string, i: nat, pos: nat, acc: seq<string>): (r: Option<seq<string>>)
    requires ScanState(s, i, false, pos, acc) && i < |s| && s[i] == ','
    ensures r.None? <==> !EvenQuotes(s)
    ensures r.Some? ==> ClauseSplit(s, r.value)
    decreases |s| - i, 0
  {
    ScanSplits(s, i, false, pos, acc);
    Scan(s, i + 1, false, i + 1, acc + [s[pos..i]])
  }

  /** Any other character at `i` continues the current piece; a quote flips `quoted`. */
  function ScanKeep(s: string, i: nat, quoted: bool, pos: nat, acc: seq<string>): (r: Option<seq<string>>)
    requires ScanState(s, i, quoted, pos, acc) && i < |s| && !(s[i] == ',' && !quoted)
    ensures r.None? <==> !EvenQuotes(s)
    ensures r.Some? ==> ClauseSplit(s, r.value)
    decreases |s| - i, 0
  {
    ScanKeeps(s, i, quoted, pos, acc);
    Scan(s, i + 1, if s[i] == '"' then !quoted else quoted, pos, acc)
  }

  /** After the loop: the unclosed-quote check, then the trailing piece if there is text after the last split point. */
  function ScanEnd(s: string, quoted: bool, pos: nat, acc: seq<string>): (r: Option<seq<string>>)
    requires ScanState(s, |s|, quoted, pos, acc)
    ensures r.None? <==> !EvenQuotes(s)
    ensures r.Some? ==> ClauseSplit(s, r.value)
  {
    assert s[..|s|] == s;
    if quoted then None
    else if pos < |s| then
      ScanEndsOpen(s, pos, acc);
      Some(acc + [s[pos..]])
    else
      ScanEndsClosed(s, acc);
      Some(acc)
  }

  /**
   * `BundleDependency.parse` up to the element parsing: the text between
   * unquoted commas, in order, or `None` for the `RequireBundleParseException`
   * of an unclosed quote. The empty header has no pieces.
   */
  function Clauses(s: string): (r: Option<seq<string>>)
    ensures r.None? <==> !EvenQuotes(s)
    ensures r.Some? ==> ClauseSplit(s, r.value)
    ensures s == [] ==> r == Some([])
  {
    if s == [] then
      assert ClauseSplit(s, []);
      Some([])
    else
      Scan(s, 0, false, 0, [])
  }

  // ----- the split is determined -----

  /** A prefix never has more unquoted commas than the whole text. */
  lemma {:induction false} UnquotedCommasOfPrefix(s: string, k: nat)
    requires k <= |s|
    ensures UnquotedCommas(s[..k]) <= UnquotedCommas(s)
    decreases |s|
  {
    if k < |s| {
      var init := s[..|s| - 1];
      assert init[..k] == s[..k];
      UnquotedCommasOfPrefix(init, k);
    } else {
      assert s[..k] == s;
    }
  }

  /** Pieces that start and end outside quotes, each followed by a comma, end outside quotes right after a comma. */
  lemma {:induction false} TerminatedIsClosed(pieces: seq<string>)
    requires forall k :: 0 <= k < |pieces| ==> EvenQuotes(pieces[k])
    ensures EvenQuotes(Terminated(pieces)) && Closed(Terminated(pieces))
    decreases |pieces|
  {
    if |pieces| > 0 {
      var init := pieces[..|pieces| - 1];
      var last := pieces[|pieces| - 1];
      TerminatedIsClosed(init);
      var t := Terminated(pieces);
      CountConcat(Terminated(init), last, '"');
      CountConcat(Terminated(init) + last, [','], '"');
      assert t[..|t| - 1] == Terminated(init) + last;
    }
  }

  /**
   * Two ways of writing the same text as closed text followed by a piece
   * without unquoted commas cut at the same place: a later cut would put an
   * unquoted comma inside the other piece.
   */
  lemma LastPieceUnique(x1: string, l1: string, x2: string, l2: string)
    requires x1 + l1 == x2 + l2
    requires EvenQuotes(x1) && Closed(x1) && EvenQuotes(x2) && Closed(x2)
    requires UnquotedCommas(l1) == 0 && UnquotedCommas(l2) == 0
    ensures x1 == x2 && l1 == l2
  {
    if |x1| < |x2| {
      NoCutInsidePiece(x1, l1, x2);
    } else if |x2| < |x1| {
      NoCutInsidePiece(x2, l2, x1);
    } else {
      assert x1 == (x1 + l1)[..|x1|] == (x2 + l2)[..|x2|] == x2;
      assert l1 == (x1 + l1)[|x1|..] == (x2 + l2)[|x2|..] == l2;
    }
  }

  /** Closed text that extends `x` into `l` ends at an unquoted comma of `l`. */
  lemma NoCutInsidePiece(x: string, l: string, y: string)
    requires |x| < |y| <= |x + l| && y == (x + l)[..|y|]
    requires EvenQuotes(x) && Closed(y)
    ensures UnquotedCommas(l) >= 1
  {
    var k := |y| - |x|;
    var front := l[..k];
    assert y == x + front;
    assert y[..|y| - 1] == x + front[..k - 1];
    CountConcat(x, front[..k - 1], '"');
    assert front[..|front| - 1] == front[..k - 1];
    assert UnquotedCommas(front) >= 1;
    UnquotedCommasOfPrefix(l, k);
  }

  /** Pieces that start and end outside quotes and hold no unquoted comma are determined by their terminated text. */
  lemma {:induction false} TerminatedUnique(p1: seq<string>, p2: seq<string>)
    requires forall k :: 0 <= k < |p1| ==> EvenQuotes(p1[k]) && UnquotedCommas(p1[k]) == 0
    requires forall k :: 0 <= k < |p2| ==> EvenQuotes(p2[k]) && UnquotedCommas(p2[k]) == 0
    requires Terminated(p1) == Terminated(p2)
    ensures p1 == p2
    decreases |p1|
  {
    if |p1| > 0 && |p2| > 0 {
      var init1, init2 := p1[..|p1| - 1], p2[..|p2| - 1];
      var t := Terminated(p1);
      assert t[..|t| - 1] == Terminated(init1) + p1[|p1| - 1];
      assert t[..|t| - 1] == Terminated(init2) + p2[|p2| - 1];
      TerminatedIsClosed(init1);
      TerminatedIsClosed(init2);
      LastPieceUnique(Terminated(init1), p1[|p1| - 1], Terminated(init2), p2[|p2| - 1]);
      TerminatedUnique(init1, init2);
      assert p1 == init1 + [p1[|p1| - 1]];
      assert p2 == init2 + [p2[|p2| - 1]];
    }
  }

  /** At most one sequence of pieces is the quote-aware split of a text, so `Clauses` gives the only one. */
  lemma ClauseSplitUnique(s: string, p1: seq<string>, p2: seq<string>)
    requires ClauseSplit(s, p1) && ClauseSplit(s, p2)
    ensures p1 == p2
  {
    if Closed(s) {
      TerminatedUnique(p1, p2);
    } else {
      OpenSplitUnique(p1, p2);
    }
  }

  /** Pieces whose last one is not followed by a comma are determined by their text too. */
  lemma OpenSplitUnique(p1: seq<string>, p2: seq<string>)
    requires |p1| > 0 && |p2| > 0
    requires forall k :: 0 <= k < |p1| ==> EvenQuotes(p1[k]) && UnquotedCommas(p1[k]) == 0
    requires forall k :: 0 <= k < |p2| ==> EvenQuotes(p2[k]) && UnquotedCommas(p2[k]) == 0
    requires Terminated(p1[..|p1| - 1]) + p1[|p1| - 1] == Terminated(p2[..|p2| - 1]) + p2[|p2| - 1]
    ensures p1 == p2
  {
    var init1, init2 := p1[..|p1| - 1], p2[..|p2| - 1];
    TerminatedIsClosed(init1);
    TerminatedIsClosed(init2);
    LastPieceUnique(Terminated(init1), p1[|p1| - 1], Terminated(init2), p2[|p2| - 1]);
    TerminatedUnique(init1, init2);
    assert p1 == init1 + [p1[|p1| - 1]];
    assert p2 == init2 + [p2[|p2| - 1]];
  }

  /** Any quote-aware split of a text is what `Clauses` returns for it. */
  lemma ClausesIsTheSplit(s: string, pieces: seq<string>)
    requires ClauseSplit(s, pieces)
    ensures Clauses(s) == Some(pieces)
  {
    if Closed(s) {
      TerminatedIsClosed(pieces);
    } else {
      var init := pieces[..|pieces| - 1];
      TerminatedIsClosed(init);
      CountConcat(Terminated(init), pieces[|pieces| - 1], '"');
    }
    ClauseSplitUnique(s, Clauses(s).value, pieces);
  }

  // ----- the `;` elements -----

  /** A non-empty unquoted value without blanks at its ends or `;`, as the resolution and visibility names are. */
  predicate BareValue(text: string) {
    && |text| > 0 && Trimmed(text)
    && text[0] != '"' && text[|text| - 1] != '"'
    && ';' !in text
  }

  /**
   * The resolution value `BundleDependency.toString` writes: it separates the
   * attributes with commas, so the resolution name runs on into the
   * visibility attribute.
   */
  function RunOnValue(resolution: string, visibility: string): string {
    resolution + ",visibility:=" + visibility
  }

  /** The run-on value is bare, and it is never the one text that reads as optional. */
  lemma RunOnValueBare(resolution: string, visibility: string)
    requires BareValue(resolution) && BareValue(visibility)
    ensures BareValue(RunOnValue(resolution, visibility))
    ensures RunOnValue(resolution, visibility) != "optional"
  {
    assert |RunOnValue(resolution, visibility)| > |"optional"|;
  }

  /** Drops one leading double quote, if there is one. */
  function DropLeadingQuote(e: string): (r: string)
    ensures |e| > 0 && e[0] == '"' ==> e == "\"" + r
    ensures (|e| == 0 || e[0] != '"') ==> r == e
  {
    if StartsWith(e, "\"") then e[1..] else e
  }

  /** Drops one trailing double quote, if there is one. */
  function DropTrailingQuote(e: string): (r: string)
    ensures |e| > 0 && e[|e| - 1] == '"' ==> e == r + "\""
    ensures (|e| == 0 || e[|e| - 1] != '"') ==> r == e
  {
    if |e| > 0 && e[|e| - 1] == '"' then e[..|e| - 1] else e
  }

  /**
   * `stripElement`: the text after the first `=` (all of the element when it
   * has none), without one leading and one trailing double quote, trimmed.
   */
  function StripElement(element: string): (r: string)
    ensures r == [] || (!IsWhitespace(r[0]) && !IsWhitespace(r[|r| - 1]))
  {
    Trim(DropTrailingQuote(DropLeadingQuote(AfterFirst(element, '='))))
  }

  /** What `toString` writes, `key="value"`, strips back to the value. */
  lemma StripElementOfQuoted(key: string, value: string)
    requires '=' !in key
    requires value == [] || (!IsWhitespace(value[0]) && !IsWhitespace(value[|value| - 1]))
    ensures StripElement(key + "=\"" + value + "\"") == value
  {
    var quoted := "\"" + value + "\"";
    assert key + "=\"" + value + "\"" == key + ['='] + quoted;
    AfterFirstOfPrefix(key, '=', quoted);
    UnquoteQuoted(value);
    TrimOfTrimmed(value);
  }

  /** Dropping the quotes around a quoted value leaves the value. */
  lemma UnquoteQuoted(value: string)
    ensures DropTrailingQuote(DropLeadingQuote("\"" + value + "\"")) == value
  {
    assert DropLeadingQuote("\"" + value + "\"") == value + "\"";
    assert DropTrailingQuote(value + "\"") == value;
  }

  /** An unquoted value, as in `resolution:=optional`, strips back to itself. */
  lemma StripElementOfBare(key: string, value: string)
    requires '=' !in key
    requires value == [] || (!IsWhitespace(value[0]) && !IsWhitespace(value[|value| - 1]))
    requires value == [] || (value[0] != '"' && value[|value| - 1] != '"')
    ensures StripElement(key + "=" + value) == value
  {
    AfterFirstOfPrefix(key, '=', value);
    TrimOfTrimmed(value);
  }

  /** Without an `=`, the whole element is the value: `optional` strips to itself. */
  lemma StripElementWithoutEquals(element: string)
    requires '=' !in element
    requires element == [] || (!IsWhitespace(element[0]) && !IsWhitespace(element[|element| - 1]))
    requires element == [] || (element[0] != '"' && element[|element| - 1] != '"')
    ensures StripElement(element) == element
  {
    var unquoted := DropTrailingQuote(DropLeadingQuote(AfterFirst(element, '=')));
    assert AfterFirst(element, '=') == element;
    assert DropLeadingQuote(element) == element;
    assert unquoted == element;
    TrimOfTrimmed(element);
  }

  // ----- the element loop of `parseInner` -----

  /** Every element trimmed, as the loop of `parseInner` sees them. */
  function TrimAll(elements: seq<string>): (r: seq<string>)
    ensures |r| == |elements|
    ensures forall k :: 0 <= k < |r| ==> r[k] == Trim(elements[k])
  {
    seq(|elements|, k requires 0 <= k < |elements| => Trim(elements[k]))
  }

  /** Trimming elements that are already trimmed changes nothing. */
  lemma TrimAllOfTrimmed(elements: seq<string>)
    requires forall k :: 0 <= k < |elements| ==> Trimmed(elements[k])
    ensures TrimAll(elements) == elements
  {
    forall k | 0 <= k < |elements|
      ensures Trim(elements[k]) == elements[k]
    {
      TrimOfTrimmed(elements[k]);
    }
  }

  /**
   * The last of `xs` that `selects` accepts: the element whose assignment
   * survives a loop in which later elements overwrite earlier ones.
   */
  function LastSelected<T>(xs: seq<T>, selects: T -> bool): (r: Option<T>)
    ensures r.None? <==> forall k :: 0 <= k < |xs| ==> !selects(xs[k])
    ensures r.Some? ==> selects(r.value)
    decreases |xs|
  {
    if |xs| == 0 then None
    else if selects(xs[|xs| - 1]) then Some(xs[|xs| - 1])
    else
      var r := LastSelected(xs[..|xs| - 1], selects);
      assert forall k :: 0 <= k < |xs| - 1 ==> xs[..|xs| - 1][k] == xs[k];
      r
  }

  /** The last selected element of a non-empty list: the final element if selected, else the last selected before it. */
  lemma LastSelectedStep<T>(xs: seq<T>, selects: T -> bool)
    requires |xs| > 0
    ensures LastSelected(xs, selects)
      == if selects(xs[|xs| - 1]) then Some(xs[|xs| - 1]) else LastSelected(xs[..|xs| - 1], selects)
  {
  }

  /** `LastSelected` picks an element after which nothing is selected. */
  lemma {:induction false} LastSelectedIsLast<T>(xs: seq<T>, selects: T -> bool)
    requires LastSelected(xs, selects).Some?
    ensures exists k ::
      && 0 <= k < |xs| && LastSelected(xs, selects).value == xs[k]
      && (forall j :: k < j < |xs| ==> !selects(xs[j]))
    decreases |xs|
  {
    var last := |xs| - 1;
    LastSelectedStep(xs, selects);
    if selects(xs[last]) {
      assert LastSelected(xs, selects).value == xs[last];
    } else {
      var init := xs[..last];
      LastSelectedIsLast(init, selects);
      var k :| 0 <= k < |init| && LastSelected(init, selects).value == init[k]
        && (forall j :: k < j < |init| ==> !selects(init[j]));
      assert xs[k] == init[k];
      assert forall j :: k < j < last ==> xs[j] == init[j];
    }
  }

  /** Some element of `xs` is one that `selects` accepts: a flag that a loop sets and never clears. */
  function AnySelected<T>(xs: seq<T>, selects: T -> bool): (r: bool)
    ensures r <==> exists k :: 0 <= k < |xs| && selects(xs[k])
    decreases |xs|
  {
    if |xs| == 0 then false
    else
      var init := xs[..|xs| - 1];
      assert forall k :: 0 <= k < |init| ==> init[k] == xs[k];
      selects(xs[|xs| - 1]) || AnySelected(init, selects)
  }
}
