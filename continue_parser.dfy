/**
 * `parseHasMore`: the continuation token of a backlinks response, the value
 * captured by the first match of the pattern made of these pieces, in order:
 * `<query-continue>`, `.*?`, `<backlinks`, ` *`, `blcontinue="`, `([^"]*)`,
 * `"`, ` *`, `/>`, `.*?`, `</query-continue>` (DOTALL, so `.` takes any
 * character), or "" when the pattern does not occur.
 *
 * The search follows `Matcher.find`: start positions are tried left to right,
 * and at a start the lazy `.*?` tries the nearest `<backlinks` element first.
 */
module ContinueParser {
  import opened Wrappers
  import opened Scan

  const SectionOpen: string := "<query-continue>"
  const SectionClose: string := "</query-continue>"

  /** One match of the whole pattern: where it starts and where its element starts. */
  datatype Hit = Hit(start: nat, at: nat)

  /**
   * An element occupies `s[j..e + 2]`: `<backlinks` at `j`, blanks up to `k`,
   * `blcontinue="` at `k`, a quote-free value up to the quote at `q`, blanks up
   * to `e`, and `/>` at `e`.
   */
  ghost predicate BacklinksElement(s: string, j: nat, k: nat, q: nat, e: nat) {
    && StartsAt(s, j, "<backlinks") && Blanks(s, j + 10, k)
    && StartsAt(s, k, "blcontinue=\"") && QuoteFree(s, k + 12, q)
    && StartsAt(s, q, "\"") && Blanks(s, q + 1, e) && StartsAt(s, e, "/>")
  }

  /** The text of such an element. */
  function BacklinksText(n: nat, v: string, m: nat): string {
    "<backlinks" + Spaces(n) + "blcontinue=\"" + v + "\"" + Spaces(m) + "/>"
  }

  // The element pattern `<backlinks *blcontinue="([^"]*)" */>` matched at index `j`,
  // one stage per piece of the pattern.
  function BacklinksAt(s: string, j: nat): (r: Option<Capture>)
    ensures r.Some? ==> j + 25 <= r.value.end <= |s| && '"' !in r.value.value
  {
    if StartsAt(s, j, "<backlinks") then AttributeAt(s, SkipSpaces(s, j + 10)) else None
  }

  /** `blcontinue="` at `k`, then the quoted value. */
  function AttributeAt(s: string, k: nat): (r: Option<Capture>)
    requires k <= |s|
    ensures r.Some? ==> k + 15 <= r.value.end <= |s| && '"' !in r.value.value
  {
    if StartsAt(s, k, "blcontinue=\"") then ValueAt(s, k + 12, NextQuote(s, k + 12)) else None
  }

  /** The value runs from `v` to the quote at `q`, which must exist. */
  function ValueAt(s: string, v: nat, q: nat): (r: Option<Capture>)
    requires v <= q <= |s|
    ensures r.Some? ==> q + 3 <= r.value.end <= |s| && r.value.value == s[v..q]
  {
    if q < |s| then ElementEndAt(s, v, q, SkipSpaces(s, q + 1)) else None
  }

  /** After the closing quote and the blanks, `/>` at `e` ends the element. */
  function ElementEndAt(s: string, v: nat, q: nat, e: nat): (r: Option<Capture>)
    requires v <= q < e <= |s|
    ensures r.Some? ==> r == Some(Capture(s[v..q], e + 2)) && e + 2 <= |s|
  {
    if StartsAt(s, e, "/>") then Some(Capture(s[v..q], e + 2)) else None
  }

  /** The positions the element pattern passes through, when it matches at `j`. */
  lemma BacklinksAtPositions(s: string, j: nat) returns (k: nat, q: nat, e: nat)
    requires BacklinksAt(s, j).Some?
    ensures StartsAt(s, j, "<backlinks") && k == SkipSpaces(s, j + 10)
    ensures StartsAt(s, k, "blcontinue=\"") && q == NextQuote(s, k + 12) && q < |s|
    ensures e == SkipSpaces(s, q + 1) && StartsAt(s, e, "/>")
    ensures BacklinksAt(s, j) == Some(Capture(s[k + 12..q], e + 2))
  {
    k := SkipSpaces(s, j + 10);
    q := NextQuote(s, k + 12);
    e := SkipSpaces(s, q + 1);
  }

  /** The element pattern matches at `j` when its positions line up. */
  lemma BacklinksAtOfPositions(s: string, j: nat, k: nat, q: nat, e: nat)
    requires StartsAt(s, j, "<backlinks") && SkipSpaces(s, j + 10) == k
    requires StartsAt(s, k, "blcontinue=\"") && NextQuote(s, k + 12) == q && q < |s|
    requires SkipSpaces(s, q + 1) == e && StartsAt(s, e, "/>")
    ensures BacklinksAt(s, j) == Some(Capture(s[k + 12..q], e + 2))
  {
  }

  /** Positions the element pattern passes through form an element. */
  lemma ElementOfPositions(s: string, j: nat, k: nat, q: nat, e: nat)
    requires StartsAt(s, j, "<backlinks") && j + 10 <= |s| && k == SkipSpaces(s, j + 10)
    requires StartsAt(s, k, "blcontinue=\"") && q == NextQuote(s, k + 12) && q < |s|
    requires e == SkipSpaces(s, q + 1) && StartsAt(s, e, "/>")
    ensures BacklinksElement(s, j, k, q, e)
  {
    assert s[q..q + 1] == "\"";
  }

  /** The element the pattern matched at `j`, by its positions. */
  lemma MatchedElement(s: string, j: nat) returns (k: nat, q: nat, e: nat)
    requires BacklinksAt(s, j).Some?
    ensures BacklinksElement(s, j, k, q, e)
    ensures BacklinksAt(s, j) == Some(Capture(s[k + 12..q], e + 2))
  {
    k, q, e := BacklinksAtPositions(s, j);
    ElementOfPositions(s, j, k, q, e);
  }

  /** What the pattern matches is an element, and the capture is its value. */
  lemma BacklinksAtSound(s: string, j: nat)
    requires BacklinksAt(s, j).Some?
    ensures exists k: nat, q: nat, e: nat :: BacklinksElement(s, j, k, q, e)
                                             && BacklinksAt(s, j) == Some(Capture(s[k + 12..q], e + 2))
  {
    var k, q, e := MatchedElement(s, j);
  }

  /** Every element is matched, capturing its value. */
  lemma BacklinksAtComplete(s: string, j: nat, k: nat, q: nat, e: nat)
    requires BacklinksElement(s, j, k, q, e)
    ensures BacklinksAt(s, j) == Some(Capture(s[k + 12..q], e + 2))
  {
    assert s[k] == 'b' by {
      assert s[k] == s[k..k + 12][0];
    }
    SkipSpacesOver(s, j + 10, k);
    assert s[q] == '"' by {
      assert s[q] == s[q..q + 1][0];
    }
    NextQuoteOver(s, k + 12, q);
    assert s[e] == '/' by {
      assert s[e] == s[e..e + 2][0];
    }
    SkipSpacesOver(s, q + 1, e);
    BacklinksAtOfPositions(s, j, k, q, e);
  }

  /** The text of an element with a quote-free value, placed at `j`, is such an element. */
  lemma BacklinksTextParts(s: string, j: nat, n: nat, v: string, m: nat)
    requires '"' !in v
    requires StartsAt(s, j, BacklinksText(n, v, m))
    ensures BacklinksElement(s, j, j + 10 + n, j + 22 + n + |v|, j + 23 + n + |v| + m)
    ensures s[j + 22 + n..j + 22 + n + |v|] == v
    ensures |BacklinksText(n, v, m)| == 25 + n + |v| + m
  {
    StartsAtParts7(s, j, "<backlinks", Spaces(n), "blcontinue=\"", v, "\"", Spaces(m), "/>");
    SpacesAt(s, j + 10, n);
    QuoteFreeAt(s, j + 22 + n, v);
    SpacesAt(s, j + 23 + n + |v|, m);
  }

  /** At index `j` the rest of the pattern succeeds: an element, then a closing tag later on. */
  ghost predicate CompletesAt(s: string, j: nat) {
    BacklinksAt(s, j).Some? && OccursFrom(s, BacklinksAt(s, j).value.end, SectionClose)
  }

  /** Decides `CompletesAt`. */
  function Completes(s: string, j: nat): (b: bool)
    ensures b <==> CompletesAt(s, j)
  {
    var c := BacklinksAt(s, j);
    c.Some? && FindsFrom(s, c.value.end, SectionClose)
  }

  /** The pattern matches starting at `i` with its element at `j`. */
  ghost predicate Marker(s: string, i: nat, j: nat) {
    StartsAt(s, i, SectionOpen) && i + 16 <= j && CompletesAt(s, j)
  }

  /** `(i, j)` is the match `find` reports: leftmost start, then nearest element. */
  ghost predicate FirstMarker(s: string, i: nat, j: nat) {
    Marker(s, i, j) && forall i', j' :: Marker(s, i', j') ==> i < i' || (i == i' && j <= j')
  }

  /** The lazy `.*?` before the element: the nearest `j` at or after `from` where the rest succeeds. */
  function NearestElement(s: string, from: nat): (r: Option<nat>)
    requires from <= |s|
    ensures r.Some? ==> from <= r.value && CompletesAt(s, r.value)
    ensures forall k :: from <= k && (r.None? || k < r.value) ==> !CompletesAt(s, k)
    decreases |s| - from
  {
    if Completes(s, from) then Some(from)
    else if from < |s| then NearestElement(s, from + 1)
    else None
  }

  /** `Matcher.find` from index `from`: the match's start and its element's index. */
  function FindMarker(s: string, from: nat): (r: Option<Hit>)
    requires from <= |s|
    ensures r.Some? ==> from <= r.value.start && Marker(s, r.value.start, r.value.at)
    ensures forall i, j :: from <= i && Marker(s, i, j) ==>
              r.Some? && (r.value.start < i || (r.value.start == i && r.value.at <= j))
    decreases |s| - from
  {
    var here := if StartsAt(s, from, SectionOpen) then NearestElement(s, from + 16) else None;
    if here.Some? then Some(Hit(from, here.value))
    else if from < |s| then FindMarker(s, from + 1)
    else None
  }

  /** `parseHasMore`: the first captured `blcontinue` value, or "". */
  function ParseHasMore(s: string): (r: string)
    ensures '"' !in r
  {
    match FindMarker(s, 0)
    case Some(h) => BacklinksAt(s, h.at).value.value
    case None => ""
  }

  /**
   * The token is "" when the pattern occurs nowhere; otherwise it is the value
   * of the match `find` reports first.
   */
  lemma ParseHasMoreFirstMatch(s: string)
    ensures (forall i, j :: !Marker(s, i, j)) ==> ParseHasMore(s) == ""
    ensures (exists i, j :: Marker(s, i, j)) ==>
              exists i, j :: FirstMarker(s, i, j) && ParseHasMore(s) == BacklinksAt(s, j).value.value
  {
    match FindMarker(s, 0)
    case Some(h) =>
      assert FirstMarker(s, h.start, h.at);
    case None =>
  }

  /** There is at most one first match. */
  lemma FirstMarkerUnique(s: string, i: nat, j: nat, i': nat, j': nat)
    requires FirstMarker(s, i, j) && FirstMarker(s, i', j')
    ensures i == i' && j == j'
  {
  }

  /**
   * A response whose continuation section comes first and holds the element
   * right after its opening tag yields that element's value.
   */
  lemma ParseHasMoreOfSection(prefix: string, n: nat, v: string, m: nat, rest: string)
    requires '"' !in v
    requires forall k :: !StartsAt(prefix, k, SectionOpen)
    ensures ParseHasMore(prefix + SectionOpen + BacklinksText(n, v, m) + SectionClose + rest) == v
  {
    var s := prefix + SectionOpen + BacklinksText(n, v, m) + SectionClose + rest;
    SectionLayout(prefix, BacklinksText(n, v, m), rest);
    SectionWithElement(prefix, s, n, v, m);
  }

  /** The same, for a response given by where its pieces lie. */
  lemma SectionWithElement(prefix: string, s: string, n: nat, v: string, m: nat)
    requires '"' !in v
    requires forall k :: !StartsAt(prefix, k, SectionOpen)
    requires StartsAt(s, 0, prefix) && StartsAt(s, |prefix|, SectionOpen)
    requires StartsAt(s, |prefix| + 16, BacklinksText(n, v, m))
    requires StartsAt(s, |prefix| + 16 + |BacklinksText(n, v, m)|, SectionClose)
    ensures ParseHasMore(s) == v
  {
    var e := |prefix| + 16 + |BacklinksText(n, v, m)|;
    TextMatched(s, |prefix| + 16, n, v, m, e);
    FirstSectionWins(prefix, s, e, v);
  }

  /** The text of an element with a quote-free value, placed at `j`, is matched and gives the value. */
  lemma TextMatched(s: string, j: nat, n: nat, v: string, m: nat, e: nat)
    requires '"' !in v
    requires StartsAt(s, j, BacklinksText(n, v, m)) && e == j + |BacklinksText(n, v, m)|
    ensures BacklinksAt(s, j) == Some(Capture(v, e))
  {
    BacklinksTextParts(s, j, n, v, m);
    BacklinksAtComplete(s, j, j + 10 + n, j + 22 + n + |v|, j + 23 + n + |v| + m);
  }

  /** Where the pieces of a response built around one section lie. */
  lemma SectionLayout(prefix: string, t: string, rest: string)
    ensures var s := prefix + SectionOpen + t + SectionClose + rest;
            && StartsAt(s, 0, prefix) && StartsAt(s, |prefix|, SectionOpen)
            && StartsAt(s, |prefix| + 16, t) && StartsAt(s, |prefix| + 16 + |t|, SectionClose)
  {
    var s := prefix + SectionOpen + t + SectionClose + rest;
    StartsAtSelf(s);
    StartsAtConcat(s, 0, prefix + SectionOpen + t + SectionClose, rest);
    StartsAtConcat(s, 0, prefix + SectionOpen + t, SectionClose);
    StartsAtConcat(s, 0, prefix + SectionOpen, t);
    StartsAtConcat(s, 0, prefix, SectionOpen);
  }

  /** With no opening tag before it, the first section's element gives the token. */
  lemma FirstSectionWins(prefix: string, s: string, e: nat, v: string)
    requires forall k :: !StartsAt(prefix, k, SectionOpen)
    requires StartsAt(s, 0, prefix) && StartsAt(s, |prefix|, SectionOpen)
    requires BacklinksAt(s, |prefix| + 16) == Some(Capture(v, e))
    requires StartsAt(s, e, SectionClose)
    ensures ParseHasMore(s) == v
  {
    var i := |prefix|;
    assert OccursFrom(s, e, SectionClose);
    assert Marker(s, i, i + 16);
    var h := FindMarker(s, 0).value;
    if h.start < i {
      NoOpenBefore(prefix, s, h.start);
    }
    assert h == Hit(i, i + 16);
  }

  /** No opening tag starts inside a prefix free of it when an opening tag follows the prefix. */
  lemma NoOpenBefore(prefix: string, s: string, k: nat)
    requires forall x :: !StartsAt(prefix, x, SectionOpen)
    requires StartsAt(s, 0, prefix) && StartsAt(s, |prefix|, SectionOpen)
    requires k < |prefix|
    ensures !StartsAt(s, k, SectionOpen)
  {
    assert s[|prefix|] == s[|prefix|..|prefix| + 16][0] == SectionOpen[0];
    SectionOpenLeads();
    NoStraddle(prefix, s, SectionOpen, k);
  }

  /** `<` occurs in the opening tag only at its start. */
  lemma SectionOpenLeads()
    ensures |SectionOpen| > 0 && forall d :: 0 < d < |SectionOpen| ==> SectionOpen[d] != SectionOpen[0]
  {
  }
}
