/**
 * `extract_graphql_queries` (src/main.rs): the regular expression
 *     (?:graphql\s*\(|gql\s*)`([\s\S]*?)`
 * written out as a scanner. Matches are found leftmost-first and without
 * overlap, each search resuming just after the previous closing backtick;
 * the capture is lazy, so it stops at the first backtick after the opening one.
 */
module Extractor {
  import opened Options
  import opened Ast
  import opened Scanner

  /** `\s` of the regex crate in Unicode mode: the Unicode White_Space property. */
  predicate IsWhitespace(c: char) {
    ('\t' <= c <= '\r') || c == ' ' || c == '\U{0085}' || c == '\U{00A0}' || c == '\U{1680}' ||
    ('\U{2000}' <= c <= '\U{200A}') || c == '\U{2028}' || c == '\U{2029}' || c == '\U{202F}' ||
    c == '\U{205F}' || c == '\U{3000}'
  }

  /** `\s*`: the first index at or after `j` that does not hold whitespace. */
  function SkipWhitespace(text: string, j: nat): (k: nat)
    requires j <= |text|
    ensures j <= k <= |text|
    ensures forall m :: j <= m < k ==> IsWhitespace(text[m])
    ensures k == |text| || !IsWhitespace(text[k])
    decreases |text| - j
  {
    if j < |text| && IsWhitespace(text[j]) then SkipWhitespace(text, j + 1) else j
  }

  /** `graphql\s*\(` and the opening backtick at `i`; the index just after that backtick. */
  function CallMarkerEnd(text: string, i: nat): Option<nat>
    requires i <= |text|
  {
    if i + 7 <= |text| && text[i..i + 7] == "graphql" then
      var j := SkipWhitespace(text, i + 7);
      if j + 1 < |text| && text[j] == '(' && text[j + 1] == '`' then Some(j + 2) else None
    else
      None
  }

  /** `gql\s*` and the opening backtick at `i`; the index just after that backtick. */
  function TagMarkerEnd(text: string, i: nat): Option<nat>
    requires i <= |text|
  {
    if i + 3 <= |text| && text[i..i + 3] == "gql" then
      var j := SkipWhitespace(text, i + 3);
      if j < |text| && text[j] == '`' then Some(j + 1) else None
    else
      None
  }

  /** The alternation: the first alternative is tried first. An opening marker is at least
      four characters long and its only backtick is its last character. */
  function MarkerEnd(text: string, i: nat): (r: Option<nat>)
    requires i <= |text|
    ensures r.Some? ==> i + 4 <= r.value <= |text| && text[r.value - 1] == '`'
    ensures r.Some? ==> forall m :: i <= m < r.value - 1 ==> text[m] != '`'
  {
    var call := CallMarkerEnd(text, i);
    var r := if call.Some? then call else TagMarkerEnd(text, i);
    assert call.Some? ==> forall m :: i <= m < i + 7 ==> text[m] == text[i..i + 7][m - i];
    assert r.Some? && call.None? ==> forall m :: i <= m < i + 3 ==> text[m] == text[i..i + 3][m - i];
    r
  }

  /** Every character of `w` is whitespace. */
  predicate AllWhitespace(w: string) {
    forall m :: 0 <= m < |w| ==> IsWhitespace(w[m])
  }

  /** What an opening marker is: the marker at `i` ends just before `e` exactly when the text
      between them is `graphql`, whitespace, `(` and a backtick, or `gql`, whitespace and a
      backtick. */
  lemma MarkerEndShape(text: string, i: nat, e: nat)
    requires i <= e <= |text|
    ensures MarkerEnd(text, i) == Some(e) <==>
            exists w :: AllWhitespace(w) && (text[i..e] == "graphql" + w + "(`" || text[i..e] == "gql" + w + "`")
  {
    if MarkerEnd(text, i) == Some(e) {
      if CallMarkerEnd(text, i).Some? {
        CallMarkerShape(text, i, e);
      } else {
        TagMarkerShape(text, i, e);
      }
    }
    if exists w :: AllWhitespace(w) && (text[i..e] == "graphql" + w + "(`" || text[i..e] == "gql" + w + "`") {
      var w :| AllWhitespace(w) && (text[i..e] == "graphql" + w + "(`" || text[i..e] == "gql" + w + "`");
      if text[i..e] == "graphql" + w + "(`" {
        CallShapeIsMarker(text, i, e, w);
      } else {
        TagShapeIsMarker(text, i, e, w);
      }
    }
  }

  lemma CallMarkerShape(text: string, i: nat, e: nat)
    requires i <= e <= |text| && CallMarkerEnd(text, i) == Some(e)
    ensures exists w :: AllWhitespace(w) && text[i..e] == "graphql" + w + "(`"
  {
    var j := SkipWhitespace(text, i + 7);
    assert e == j + 2;
    var w := text[i + 7..j];
    assert text[i..e] == text[i..i + 7] + w + text[j..e];
    assert text[j..e] == "(`";
    assert forall m :: 0 <= m < |w| ==> w[m] == text[i + 7 + m];
    assert AllWhitespace(w);
  }

  lemma TagMarkerShape(text: string, i: nat, e: nat)
    requires i <= e <= |text| && TagMarkerEnd(text, i) == Some(e)
    ensures exists w :: AllWhitespace(w) && text[i..e] == "gql" + w + "`"
  {
    var j := SkipWhitespace(text, i + 3);
    assert e == j + 1;
    var w := text[i + 3..j];
    assert text[i..e] == text[i..i + 3] + w + text[j..e];
    assert text[j..e] == "`";
    assert forall m :: 0 <= m < |w| ==> w[m] == text[i + 3 + m];
    assert AllWhitespace(w);
  }

  lemma CallShapeIsMarker(text: string, i: nat, e: nat, w: string)
    requires i <= e <= |text| && AllWhitespace(w) && text[i..e] == "graphql" + w + "(`"
    ensures MarkerEnd(text, i) == Some(e)
  {
    var k := i + 7 + |w|;
    assert forall m :: 0 <= m < e - i ==> text[i + m] == text[i..e][m];
    assert text[i..i + 7] == text[i..e][..7];
    assert ("graphql" + w + "(`")[..7] == "graphql";
    assert forall m :: i + 7 <= m < k ==> text[m] == w[m - i - 7];
    assert text[k] == '(' && text[k + 1] == '`';
    SkipWhitespaceOver(text, i + 7, k);
  }

  lemma TagShapeIsMarker(text: string, i: nat, e: nat, w: string)
    requires i <= e <= |text| && AllWhitespace(w) && text[i..e] == "gql" + w + "`"
    ensures MarkerEnd(text, i) == Some(e)
  {
    var k := i + 3 + |w|;
    assert forall m :: 0 <= m < e - i ==> text[i + m] == text[i..e][m];
    assert text[i..i + 3] == text[i..e][..3];
    assert ("gql" + w + "`")[..3] == "gql";
    assert text[i + 1] == 'q';
    assert i + 7 <= |text| ==> text[i..i + 7][1] == text[i + 1];
    assert CallMarkerEnd(text, i).None?;
    assert forall m :: i + 3 <= m < k ==> text[m] == w[m - i - 3];
    assert text[k] == '`';
    SkipWhitespaceOver(text, i + 3, k);
  }

  /** The lazy `([\s\S]*?)` followed by a backtick: the first backtick at or after `j`. */
  function NextBacktick(text: string, j: nat): (r: Option<nat>)
    requires j <= |text|
    ensures r.Some? ==> j <= r.value < |text| && text[r.value] == '`'
    ensures r.Some? ==> forall m :: j <= m < r.value ==> text[m] != '`'
    ensures r.None? ==> forall m :: j <= m < |text| ==> text[m] != '`'
    decreases |text| - j
  {
    if j == |text| then None
    else if text[j] == '`' then Some(j)
    else NextBacktick(text, j + 1)
  }

  /** The match that starts exactly at `i`, if any. */
  function MatchAt(text: string, i: nat): (r: Option<Span>)
    requires i <= |text|
    ensures r.Some? ==> r.value.markerStart == i
    ensures r.Some? ==> MarkerEnd(text, i) == Some(r.value.contentStart)
    ensures r.Some? ==> i + 4 <= r.value.contentStart <= r.value.contentEnd < |text|
    ensures r.Some? ==> text[r.value.contentStart - 1] == '`' && text[r.value.contentEnd] == '`'
    ensures r.Some? ==> forall m :: r.value.contentStart <= m < r.value.contentEnd ==> text[m] != '`'
  {
    match MarkerEnd(text, i)
    case None => None
    case Some(s) =>
      match NextBacktick(text, s)
      case None => None
      case Some(k) => Some(Span(i, s, k))
  }

  /** A match starts at `i` exactly when a marker does and a backtick follows it somewhere. */
  lemma MatchAtSome(text: string, i: nat)
    requires i <= |text|
    ensures MatchAt(text, i).Some? <==>
            MarkerEnd(text, i).Some? && NextBacktick(text, MarkerEnd(text, i).value).Some?
  {
  }

  /** The expression tried at each position of `text`, in the form `Scanner` takes; it adds
      nothing to `MatchAt` by itself. */
  function Matcher(text: string): (at: nat -> Option<Span>)
    ensures IsMatcher(|text|, at)
    ensures forall p: nat :: p <= |text| ==> at(p) == MatchAt(text, p)
  {
    (p: nat) => if p <= |text| then MatchAt(text, p) else None
  }

  /** The matches of the expression in `text` from `from` on (`captures_iter`). */
  function Matches(text: string, from: nat): seq<Span>
    requires from <= |text|
  {
    Scan(|text|, Matcher(text), from)
  }

  /** No match of the expression is skipped by the scan. */
  lemma MatchesComplete(text: string, from: nat, p: nat)
    requires from <= p < |text| && MatchAt(text, p).Some?
    ensures exists sp :: sp in Matches(text, from) && sp.markerStart <= p <= sp.contentEnd
  {
    ScanComplete(|text|, Matcher(text), from, p);
  }

  /** Where the expression matches at no position, the scan yields nothing. */
  lemma NoMatchNoSpans(text: string, from: nat)
    requires from <= |text|
    requires forall p :: from <= p < |text| ==> MatchAt(text, p).None?
    ensures Matches(text, from) == []
  {
    ScanNothing(|text|, Matcher(text), from);
  }

  /** `extract_graphql_queries`: the captured text of every match, in order. */
  function ExtractGraphqlQueries(text: string): (r: seq<string>)
    ensures |r| == |Matches(text, 0)|
  {
    var spans := Matches(text, 0);
    seq(|spans|, j requires 0 <= j < |spans| => text[spans[j].contentStart..spans[j].contentEnd])
  }

  /** The `j`-th match of the scan is the match of the expression at its own start. */
  lemma MatchOfSpan(text: string, j: nat)
    requires j < |Matches(text, 0)|
    ensures MatchAt(text, Matches(text, 0)[j].markerStart) == Some(Matches(text, 0)[j])
  {
    var spans := Matches(text, 0);
    assert spans[j] in spans;
    ScanSound(|text|, Matcher(text), 0, spans[j]);
  }

  /** The `j`-th snippet is the match of the expression at its own start: exactly the text between
      an opening marker's backtick and the next backtick, with no backtick in it. */
  lemma SnippetIsCapture(text: string, j: nat)
    requires j < |ExtractGraphqlQueries(text)|
    ensures var sp := Matches(text, 0)[j];
            MatchAt(text, sp.markerStart) == Some(sp) &&
            ExtractGraphqlQueries(text)[j] == text[sp.contentStart..sp.contentEnd] &&
            text[sp.contentStart - 1] == '`' && text[sp.contentEnd] == '`' &&
            MarkerEnd(text, sp.markerStart) == Some(sp.contentStart)
    ensures '`' !in ExtractGraphqlQueries(text)[j]
  {
    MatchOfSpan(text, j);
    var sp := Matches(text, 0)[j];
    NoBacktickSlice(text, sp.contentStart, sp.contentEnd);
  }

  lemma NoBacktickSlice(text: string, lo: nat, hi: nat)
    requires lo <= hi <= |text|
    requires forall m :: lo <= m < hi ==> text[m] != '`'
    ensures '`' !in text[lo..hi]
  {
    assert forall m :: 0 <= m < hi - lo ==> text[lo..hi][m] == text[lo + m];
  }

  /** A text of length n yields at most n / 5 snippets. */
  lemma SnippetCountBound(text: string)
    ensures 5 * |ExtractGraphqlQueries(text)| <= |text|
  {
    ScanCountBound(|text|, Matcher(text), 0);
  }

  /** Text without a backtick yields no snippet. */
  lemma NoBacktickNoSnippet(text: string)
    requires forall m :: 0 <= m < |text| ==> text[m] != '`'
    ensures ExtractGraphqlQueries(text) == []
  {
    assert forall p :: 0 <= p < |text| ==> MatchAt(text, p).None?;
    NoMatchNoSpans(text, 0);
  }

  /** A marker with no later closing backtick ends the scan: no match starts at or after it, so
      every snippet extracted from the text comes from a match that starts before it. */
  lemma UnclosedMarkerYieldsNothing(text: string, i: nat)
    requires i <= |text| && MarkerEnd(text, i).Some?
    requires forall m :: MarkerEnd(text, i).value <= m < |text| ==> text[m] != '`'
    ensures Matches(text, i) == []
    ensures forall j :: 0 <= j < |Matches(text, 0)| ==> Matches(text, 0)[j].markerStart < i
  {
    var s := MarkerEnd(text, i).value;
    forall p | i <= p < |text| ensures MatchAt(text, p).None? {
      if MarkerEnd(text, p).Some? {
        var t := MarkerEnd(text, p).value;
        assert text[t - 1] == '`';
        assert t == s;
      }
    }
    NoMatchNoSpans(text, i);
    forall j | 0 <= j < |Matches(text, 0)| ensures Matches(text, 0)[j].markerStart < i {
      MatchOfSpan(text, j);
    }
  }

  /** A single tag-style snippet: gql`C` yields exactly [C]. */
  lemma TagSnippet(c: string)
    requires forall m :: 0 <= m < |c| ==> c[m] != '`'
    ensures ExtractGraphqlQueries("gql`" + c + "`") == [c]
  {
    var text := "gql`" + c + "`";
    assert text[0..3] == "gql";
    assert text[3] == '`';
    assert SkipWhitespace(text, 3) == 3;
    assert TagMarkerEnd(text, 0) == Some(4);
    assert forall m :: 4 <= m < 4 + |c| ==> text[m] == c[m - 4];
    NextBacktickOver(text, 4, 4 + |c|);
    assert MatchAt(text, 0) == Some(Span(0, 4, 4 + |c|));
    assert Matches(text, |text|) == [];
    assert Matches(text, 0) == [Span(0, 4, 4 + |c|)];
    assert text[4..4 + |c|] == c;
  }

  /** A single call-style snippet: graphql W (`C` with whitespace W yields exactly [C]. */
  lemma CallSnippet(w: string, c: string)
    requires forall m :: 0 <= m < |w| ==> IsWhitespace(w[m])
    requires forall m :: 0 <= m < |c| ==> c[m] != '`'
    ensures ExtractGraphqlQueries("graphql" + w + "(`" + c + "`") == [c]
  {
    var text := "graphql" + w + "(`" + c + "`";
    var s := 9 + |w|;
    assert text[0..7] == "graphql";
    assert forall m :: 7 <= m < 7 + |w| ==> text[m] == w[m - 7];
    assert text[7 + |w|] == '(' && text[8 + |w|] == '`';
    SkipWhitespaceOver(text, 7, 7 + |w|);
    assert CallMarkerEnd(text, 0) == Some(s);
    assert forall m :: s <= m < s + |c| ==> text[m] == c[m - s];
    NextBacktickOver(text, s, s + |c|);
    assert MatchAt(text, 0) == Some(Span(0, s, s + |c|));
    assert Matches(text, |text|) == [];
    assert Matches(text, 0) == [Span(0, s, s + |c|)];
    assert text[s..s + |c|] == c;
  }

  /** Both alternatives of the marker begin with the letter g. */
  lemma MarkerStartsWithG(text: string, i: nat)
    requires i <= |text|
    ensures MarkerEnd(text, i).Some? ==> i < |text| && text[i] == 'g'
  {
    if CallMarkerEnd(text, i).Some? {
      assert text[i..i + 7][0] == text[i];
    } else if TagMarkerEnd(text, i).Some? {
      assert text[i..i + 3][0] == text[i];
    }
  }

  /** The call form needs its parenthesis: the tagged template graphql`{ a }` is not recognised
      (neither alternative matches at any position). */
  lemma GraphqlTagIgnored()
    ensures ExtractGraphqlQueries("graphql`{ a }`") == []
  {
    var text := "graphql`{ a }`";
    assert SkipWhitespace(text, 7) == 7;
    assert CallMarkerEnd(text, 0).None?;
    assert text[0..3][1] == 'r';
    assert TagMarkerEnd(text, 0).None?;
    var rest := "raphql`{ a }`";
    assert text == ['g'] + rest && 'g' !in rest;
    forall p | 0 <= p < |text| ensures MatchAt(text, p).None? {
      MarkerStartsWithG(text, p);
      if p > 0 {
        assert text[p] == rest[p - 1];
      }
    }
    NoMatchNoSpans(text, 0);
  }

  lemma {:induction false} SkipWhitespaceOver(text: string, j: nat, k: nat)
    requires j <= k < |text|
    requires forall m :: j <= m < k ==> IsWhitespace(text[m])
    requires !IsWhitespace(text[k])
    ensures SkipWhitespace(text, j) == k
    decreases k - j
  {
    if j < k {
      SkipWhitespaceOver(text, j + 1, k);
    }
  }

  lemma {:induction false} NextBacktickOver(text: string, j: nat, k: nat)
    requires j <= k < |text|
    requires forall m :: j <= m < k ==> text[m] != '`'
    requires text[k] == '`'
    ensures NextBacktick(text, j) == Some(k)
    decreases k - j
  {
    if j < k {
      NextBacktickOver(text, j + 1, k);
    }
  }
}
