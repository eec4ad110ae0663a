/**
 * Leftmost-first, non-overlapping iteration over the matches of a pattern, as the `regex`
 * crate's `captures_iter` performs it, for any matcher that can be tried at each position.
 */
module Scanner {
  import opened Options

  /** One match of the expression: where the marker starts, and where the capture starts and ends
      (`contentEnd` is the index of the closing backtick). */
  datatype Span = Span(markerStart: nat, contentStart: nat, contentEnd: nat)

  /** A matcher tried at each position of a text of length `n`: a match it reports at `p` starts
      at `p`, and its capture starts at least four characters later and is closed inside the text. */
  ghost predicate IsMatcher(n: nat, at: nat -> Option<Span>)
  {
    forall p: nat :: p < n && at(p).Some? ==>
      at(p).value.markerStart == p && p + 4 <= at(p).value.contentStart <= at(p).value.contentEnd < n
  }

  /** Leftmost-first, non-overlapping iteration from `from`: try a match at each position in turn;
      after a match, resume just past its closing backtick. The spans lie within the text, in
      order and without overlap. */
  function Scan(n: nat, at: nat -> Option<Span>, from: nat): (r: seq<Span>)
    requires from <= n && IsMatcher(n, at)
    ensures forall j :: 0 <= j < |r| ==> from <= r[j].markerStart < r[j].contentStart <= r[j].contentEnd < n
    decreases n - from
  {
    if from == n then []
    else
      match at(from)
      case Some(sp) =>
        var rest := Scan(n, at, sp.contentEnd + 1);
        var r := [sp] + rest;
        assert forall j :: 1 <= j < |r| ==> r[j] == rest[j - 1];
        r
      case None =>
        Scan(n, at, from + 1)
  }

  /** The spans of the scan come in order and do not overlap: each starts after the previous
      one's closing backtick. */
  lemma {:induction false} ScanOrdered(n: nat, at: nat -> Option<Span>, from: nat, j: nat, k: nat)
    requires from <= n && IsMatcher(n, at) && j < k < |Scan(n, at, from)|
    ensures Scan(n, at, from)[j].contentEnd < Scan(n, at, from)[k].markerStart
    decreases n - from
  {
    var r := Scan(n, at, from);
    assert from < n;
    match at(from)
    case Some(first) =>
      var rest := Scan(n, at, first.contentEnd + 1);
      assert r == [first] + rest;
      assert r[k] == rest[k - 1];
      if j > 0 {
        assert r[j] == rest[j - 1];
        ScanOrdered(n, at, first.contentEnd + 1, j - 1, k - 1);
      }
    case None =>
      assert r == Scan(n, at, from + 1);
      ScanOrdered(n, at, from + 1, j, k);
  }

  /** Every span of the scan is the match reported at its own start. */
  lemma {:induction false} ScanSound(n: nat, at: nat -> Option<Span>, from: nat, sp: Span)
    requires from <= n && IsMatcher(n, at) && sp in Scan(n, at, from)
    ensures sp.markerStart < n && at(sp.markerStart) == Some(sp)
    decreases n - from
  {
    assert from < n;
    match at(from)
    case Some(first) =>
      assert Scan(n, at, from) == [first] + Scan(n, at, first.contentEnd + 1);
      if sp != first {
        ScanSound(n, at, first.contentEnd + 1, sp);
      }
    case None =>
      assert Scan(n, at, from) == Scan(n, at, from + 1);
      ScanSound(n, at, from + 1, sp);
  }

  /** Nothing is skipped: every position at or after `from` where a match is reported lies within
      a span of the scan, at its start or inside a range already consumed. Together with the order
      of the spans this is leftmost-first, non-overlapping matching. */
  lemma {:induction false} ScanComplete(n: nat, at: nat -> Option<Span>, from: nat, p: nat)
    requires from <= p < n && IsMatcher(n, at) && at(p).Some?
    ensures exists sp :: sp in Scan(n, at, from) && sp.markerStart <= p <= sp.contentEnd
    decreases n - from
  {
    match at(from)
    case Some(first) =>
      var rest := Scan(n, at, first.contentEnd + 1);
      assert Scan(n, at, from) == [first] + rest;
      if p <= first.contentEnd {
        assert first in Scan(n, at, from);
      } else {
        ScanComplete(n, at, first.contentEnd + 1, p);
        var w :| w in rest && w.markerStart <= p <= w.contentEnd;
        assert w in Scan(n, at, from);
      }
    case None =>
      ScanComplete(n, at, from + 1, p);
  }

  /** Where no match is reported at any position, the scan finds nothing. */
  lemma {:induction false} ScanNothing(n: nat, at: nat -> Option<Span>, from: nat)
    requires from <= n && IsMatcher(n, at)
    requires forall p :: from <= p < n ==> at(p).None?
    ensures Scan(n, at, from) == []
    decreases n - from
  {
    if from < n {
      ScanNothing(n, at, from + 1);
    }
  }

  /** Every match covers at least five positions, so the scan finds at most a fifth as many
      matches as there are positions left. */
  lemma {:induction false} ScanCountBound(n: nat, at: nat -> Option<Span>, from: nat)
    requires from <= n && IsMatcher(n, at)
    ensures 5 * |Scan(n, at, from)| <= n - from
    decreases n - from
  {
    if from < n {
      match at(from)
      case Some(sp) =>
        ScanCountBound(n, at, sp.contentEnd + 1);
      case None =>
        ScanCountBound(n, at, from + 1);
    }
  }
}
