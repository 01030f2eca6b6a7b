/**
 * `parseArticleTitles`: the titles captured by successive `find` calls of
 *   <bl pageid=".*?" ns=".*?" title="([^"]*)" (redirect="" )?/>
 * without DOTALL, so each `.` refuses a line terminator.
 *
 * A match at `i` is searched as the matcher backtracks: the lazy pageid run is
 * extended one character at a time, and for each of its ends the lazy ns run
 * is extended one character at a time, until the rest of the pattern fits.
 * `[^"]*` and the optional group are greedy and never need to backtrack.
 */
module TitleParser {
  import opened Wrappers
  import opened Scan

  const ElementOpen: string := "<bl pageid=\""
  const NsAttr: string := "\" ns=\""
  const TitleAttr: string := "\" title=\""
  const TitleClose: string := "\" "
  const RedirectEnd: string := "redirect=\"\" />"
  const PlainEnd: string := "/>"

  /** A `<bl/>` element as the API writes it. */
  datatype Backlink = Backlink(pageid: string, ns: string, title: string, redirect: bool)

  /** The text of an element. */
  function ElementText(b: Backlink): string {
    ElementOpen + b.pageid + NsAttr + b.ns + TitleAttr + b.title + Ending(b)
  }

  /** What follows the title: the closing quote, a blank, and the redirect marker if any. */
  function Ending(b: Backlink): string {
    TitleClose + Closer(b)
  }

  /** How the element closes: with the redirect marker or without. */
  function Closer(b: Backlink): string {
    if b.redirect then RedirectEnd else PlainEnd
  }

  /** The fields of an element can be matched back: no quote in any, no line terminator in the lazy ones. */
  predicate Matchable(b: Backlink) {
    && (forall c :: c in b.pageid ==> c != '"' && !IsLineTerminator(c))
    && (forall c :: c in b.ns ==> c != '"' && !IsLineTerminator(c))
    && '"' !in b.title
  }

  // The tail `" title="([^"]*)" (redirect="" )?/>` at `r`, stage by stage.

  function TailAt(s: string, r: nat): (f: Option<Capture>)
    ensures f.Some? ==> r + 13 <= f.value.end <= |s| && '"' !in f.value.value
  {
    if StartsAt(s, r, TitleAttr) then CloseAt(s, r + 9, NextQuote(s, r + 9)) else None
  }

  /** After the title run `s[t..q]`: the closing quote, a blank, and one of the two endings. */
  function CloseAt(s: string, t: nat, q: nat): (f: Option<Capture>)
    requires t <= q <= |s|
    requires forall m :: t <= m < q ==> s[m] != '"'
    ensures f.Some? ==> f.value.value == s[t..q] && q + 4 <= f.value.end <= |s|
    ensures f.Some? ==> '"' !in f.value.value
  {
    if !StartsAt(s, q, TitleClose) then None
    else if StartsAt(s, q + 2, RedirectEnd) then Some(Capture(s[t..q], q + 16))
    else if StartsAt(s, q + 2, PlainEnd) then Some(Capture(s[t..q], q + 4))
    else None
  }

  /** The shape of a tail: the title run up to the quote at `q`, then an ending that stops at `e`. */
  ghost predicate TailShape(s: string, r: nat, q: nat, e: nat) {
    && StartsAt(s, r, TitleAttr) && QuoteFree(s, r + 9, q) && StartsAt(s, q, TitleClose)
    && ((StartsAt(s, q + 2, RedirectEnd) && e == q + 16) || (!StartsAt(s, q + 2, RedirectEnd) && StartsAt(s, q + 2, PlainEnd) && e == q + 4))
  }

  /** What the tail matches has that shape, and the capture is its title run. */
  lemma TailSound(s: string, r: nat) returns (q: nat, e: nat)
    requires TailAt(s, r).Some?
    ensures TailShape(s, r, q, e) && TailAt(s, r) == Some(Capture(s[r + 9..q], e))
  {
    q := NextQuote(s, r + 9);
    e := TailAt(s, r).value.end;
  }

  /** Every tail of that shape is matched. */
  lemma TailComplete(s: string, r: nat, q: nat, e: nat)
    requires TailShape(s, r, q, e)
    ensures TailAt(s, r) == Some(Capture(s[r + 9..q], e))
  {
    assert s[q] == '"' by {
      assert s[q] == s[q..q + 2][0];
    }
    NextQuoteOver(s, r + 9, q);
  }

  /**
   * `.*?" title="…` from `r`: the nearest `x >= r` reached over non-terminators
   * where the tail matches.
   */
  function LazyNs(s: string, r: nat): (x: Option<nat>)
    requires r <= |s|
    ensures x.Some? ==> r <= x.value <= |s|
    decreases |s| - r
  {
    if TailAt(s, r).Some? then Some(r)
    else if r < |s| && !IsLineTerminator(s[r]) then LazyNs(s, r + 1)
    else None
  }

  /**
   * `.*?" ns=".*?" title="…` from `p`: the nearest `x >= p` reached over
   * non-terminators where `" ns="` occurs and the lazy ns run then succeeds.
   */
  function LazyPageId(s: string, p: nat): (x: Option<nat>)
    requires p <= |s|
    ensures x.Some? ==> p <= x.value <= |s|
    decreases |s| - p
  {
    if NsAt(s, p).Some? then Some(p)
    else if p < |s| && !IsLineTerminator(s[p]) then LazyPageId(s, p + 1)
    else None
  }

  /** The lazy ns run stops at the first place where the tail matches. */
  lemma {:induction false} LazyNsFirst(s: string, r: nat)
    requires r <= |s|
    ensures LazyNs(s, r).Some? ==> LazyNs(s, r).value <= DotEnd(s, r) && TailAt(s, LazyNs(s, r).value).Some?
    ensures forall y :: r <= y <= DotEnd(s, r) && (LazyNs(s, r).None? || y < LazyNs(s, r).value)
                        ==> TailAt(s, y).None?
    decreases |s| - r
  {
    if TailAt(s, r).None? && r < |s| && !IsLineTerminator(s[r]) {
      LazyNsFirst(s, r + 1);
    }
  }

  /** The lazy pageid run stops at the first place where the rest matches. */
  lemma {:induction false} LazyPageIdFirst(s: string, p: nat)
    requires p <= |s|
    ensures LazyPageId(s, p).Some? ==> LazyPageId(s, p).value <= DotEnd(s, p) && NsAt(s, LazyPageId(s, p).value).Some?
    ensures forall y :: p <= y <= DotEnd(s, p) && (LazyPageId(s, p).None? || y < LazyPageId(s, p).value)
                        ==> NsAt(s, y).None?
    decreases |s| - p
  {
    if NsAt(s, p).None? && p < |s| && !IsLineTerminator(s[p]) {
      LazyPageIdFirst(s, p + 1);
    }
  }

  /** `" ns=".*?" title="…` at `p`: where the lazy ns run ends, if the rest matches. */
  function NsAt(s: string, p: nat): (x: Option<nat>)
    ensures x.Some? ==> p + 6 <= x.value <= |s|
  {
    if StartsAt(s, p, NsAttr) then LazyNs(s, p + 6) else None
  }

  /** The whole pattern tried at `i`, as one `find` step tries a start. */
  function TitleAt(s: string, i: nat): (f: Option<Capture>)
    ensures f.Some? ==> i + 31 <= f.value.end <= |s| && '"' !in f.value.value
  {
    if StartsAt(s, i, ElementOpen) then
      match LazyPageId(s, i + 12)
      case Some(p) => (match NsAt(s, p) case Some(r) => TailAt(s, r) case None => None)
      case None => None
    else None
  }

  /**
   * The pattern fits at `i` with the pageid run ending at `p` and the ns run
   * ending at `r`.
   */
  ghost predicate ElementAt(s: string, i: nat, p: nat, r: nat) {
    && StartsAt(s, i, ElementOpen) && Dots(s, i + 12, p)
    && StartsAt(s, p, NsAttr) && Dots(s, p + 6, r) && TailAt(s, r).Some?
  }

  /** The fit the matcher reports: the shortest pageid run, then the shortest ns run. */
  ghost predicate FirstElementAt(s: string, i: nat, p: nat, r: nat) {
    && ElementAt(s, i, p, r)
    && forall p': nat, r': nat :: ElementAt(s, i, p', r') ==> p < p' || (p == p' && r <= r')
  }

  /** The ns run the matcher picks after a pageid run ending at `p`. */
  lemma NsAtFirst(s: string, p: nat)
    ensures NsAt(s, p).None? <==> forall r: nat :: !(StartsAt(s, p, NsAttr) && Dots(s, p + 6, r) && TailAt(s, r).Some?)
    ensures NsAt(s, p).Some? ==> forall r: nat :: StartsAt(s, p, NsAttr) && Dots(s, p + 6, r) && TailAt(s, r).Some? ==> NsAt(s, p).value <= r
  {
    if StartsAt(s, p, NsAttr) {
      LazyNsFirst(s, p + 6);
    }
  }

  /**
   * One `find` step at `i`: the pattern fails exactly when it fits nowhere,
   * and otherwise reports the title of the first fit.
   */
  lemma TitleAtFirst(s: string, i: nat)
    ensures TitleAt(s, i).None? <==> forall p: nat, r: nat :: !ElementAt(s, i, p, r)
    ensures TitleAt(s, i).Some? ==>
              exists p: nat, r: nat :: FirstElementAt(s, i, p, r) && TitleAt(s, i) == TailAt(s, r)
  {
    if StartsAt(s, i, ElementOpen) && LazyPageId(s, i + 12).Some? {
      var p := LazyPageId(s, i + 12).value;
      var r := FirstFit(s, i, p);
    } else {
      NoFit(s, i);
    }
  }

  /** When the lazy pageid run stops at `p`, the matcher reports the first fit. */
  lemma FirstFit(s: string, i: nat, p: nat) returns (r: nat)
    requires StartsAt(s, i, ElementOpen) && LazyPageId(s, i + 12) == Some(p)
    ensures FirstElementAt(s, i, p, r) && TitleAt(s, i) == TailAt(s, r)
  {
    r := FitAt(s, i, p);
    FitIsFirst(s, i, p, r);
  }

  /** The runs the matcher stops at make a fit. */
  lemma FitAt(s: string, i: nat, p: nat) returns (r: nat)
    requires StartsAt(s, i, ElementOpen) && LazyPageId(s, i + 12) == Some(p)
    ensures NsAt(s, p) == Some(r)
    ensures ElementAt(s, i, p, r) && TitleAt(s, i) == TailAt(s, r)
  {
    LazyPageIdFirst(s, i + 12);
    r := NsAt(s, p).value;
    TitleAtOf(s, i, p, r);
    LazyNsFirst(s, p + 6);
    DotsUpTo(s, i + 12, p);
    DotsUpTo(s, p + 6, r);
  }

  /** No fit has a shorter pageid run, or the same one and a shorter ns run. */
  lemma FitIsFirst(s: string, i: nat, p: nat, r: nat)
    requires StartsAt(s, i, ElementOpen) && LazyPageId(s, i + 12) == Some(p) && NsAt(s, p) == Some(r)
    ensures forall p': nat, r': nat :: ElementAt(s, i, p', r') ==> p < p' || (p == p' && r <= r')
  {
    LazyPageIdFirst(s, i + 12);
    forall p': nat, r': nat | ElementAt(s, i, p', r')
      ensures p < p' || (p == p' && r <= r')
    {
      DotsUpTo(s, i + 12, p');
      NsAtFirst(s, p');
    }
  }

  /** When the lazy pageid run finds nothing, nothing fits. */
  lemma NoFit(s: string, i: nat)
    requires !(StartsAt(s, i, ElementOpen) && LazyPageId(s, i + 12).Some?)
    ensures TitleAt(s, i).None? && forall p: nat, r: nat :: !ElementAt(s, i, p, r)
  {
    if StartsAt(s, i, ElementOpen) {
      LazyPageIdFirst(s, i + 12);
      forall p: nat, r: nat
        ensures !ElementAt(s, i, p, r)
      {
        DotsUpTo(s, i + 12, p);
        NsAtFirst(s, p);
      }
    }
  }

  /** `find` from `from`: the leftmost start where the pattern matches. */
  function FindTitle(s: string, from: nat): (i: Option<nat>)
    requires from <= |s|
    ensures i.Some? ==> from <= i.value && TitleAt(s, i.value).Some?
    decreases |s| - from
  {
    if TitleAt(s, from).Some? then Some(from)
    else if from < |s| then FindTitle(s, from + 1)
    else None
  }

  /** `find` skips only starts where the pattern does not match. */
  lemma {:induction false} FindTitleFirst(s: string, from: nat)
    requires from <= |s|
    ensures forall k: nat :: from <= k && (FindTitle(s, from).None? || k < FindTitle(s, from).value)
                             ==> TitleAt(s, k).None?
    decreases |s| - from
  {
    if TitleAt(s, from).None? && from < |s| {
      FindTitleFirst(s, from + 1);
    }
  }

  /**
   * The titles successive `find` calls capture from `from` on: each search
   * resumes where the previous match ended. Every match spans at least 31
   * characters, so there are at most `(|s| - from) / 31` of them.
   */
  function Titles(s: string, from: nat): (ts: seq<string>)
    requires from <= |s|
    ensures forall t :: t in ts ==> '"' !in t
    ensures 31 * |ts| <= |s| - from
    decreases |s| - from
  {
    match FindTitle(s, from)
    case None => []
    case Some(i) =>
      var f := TitleAt(s, i).value;
      [f.value] + Titles(s, f.end)
  }

  /** Collects the titles the way the `while (m.find())` loop does. */
  method ParseArticleTitles(s: string) returns (titles: seq<string>)
    ensures titles == Titles(s, 0)
    ensures forall t :: t in titles ==> '"' !in t
    ensures 31 * |titles| <= |s|
  {
    titles := [];
    var pos := 0;
    var next := FindTitle(s, pos);
    while next.Some?
      invariant pos <= |s|
      invariant next == FindTitle(s, pos)
      invariant titles + Titles(s, pos) == Titles(s, 0)
      decreases |s| - pos
    {
      var f := TitleAt(s, next.value).value;
      titles := titles + [f.value];
      pos := f.end;
      next := FindTitle(s, pos);
    }
  }

  /** No title is collected exactly when no element fits anywhere from `from` on. */
  lemma TitlesEmpty(s: string, from: nat)
    requires from <= |s|
    ensures Titles(s, from) == [] <==> forall i: nat, p: nat, r: nat :: from <= i ==> !ElementAt(s, i, p, r)
  {
    FindTitleFirst(s, from);
    match FindTitle(s, from)
    case Some(i) =>
      TitleAtFirst(s, i);
      var p: nat, r: nat :| FirstElementAt(s, i, p, r);
      assert ElementAt(s, i, p, r);
    case None =>
      forall i: nat, p: nat, r: nat | from <= i
        ensures !ElementAt(s, i, p, r)
      {
        TitleAtFirst(s, i);
      }
  }

  /** The lazy pageid run steps over a character that cannot start `" ns="`. */
  lemma LazyPageIdStep(s: string, x: nat)
    requires x < |s| && s[x] != '"' && !IsLineTerminator(s[x])
    ensures LazyPageId(s, x) == LazyPageId(s, x + 1)
  {
    assert NsAt(s, x).None? by {
      if x + 6 <= |s| {
        assert s[x..x + 6][0] == s[x];
      }
    }
  }

  /** The lazy pageid run passes over characters that cannot start `" ns="`. */
  lemma {:induction false} LazyPageIdOver(s: string, x: nat, y: nat)
    requires x <= y <= |s|
    requires forall m :: x <= m < y ==> s[m] != '"' && !IsLineTerminator(s[m])
    ensures LazyPageId(s, x) == LazyPageId(s, y)
    decreases y - x
  {
    if x < y {
      LazyPageIdStep(s, x);
      LazyPageIdOver(s, x + 1, y);
    }
  }

  /** The lazy ns run steps over a character that cannot start `" title="`. */
  lemma LazyNsStep(s: string, x: nat)
    requires x < |s| && s[x] != '"' && !IsLineTerminator(s[x])
    ensures LazyNs(s, x) == LazyNs(s, x + 1)
  {
    assert TailAt(s, x).None? by {
      if x + 9 <= |s| {
        assert s[x..x + 9][0] == s[x];
      }
    }
  }

  /** The lazy ns run passes over characters that cannot start `" title="`. */
  lemma {:induction false} LazyNsOver(s: string, x: nat, y: nat)
    requires x <= y <= |s|
    requires forall m :: x <= m < y ==> s[m] != '"' && !IsLineTerminator(s[m])
    ensures LazyNs(s, x) == LazyNs(s, y)
    decreases y - x
  {
    if x < y {
      LazyNsStep(s, x);
      LazyNsOver(s, x + 1, y);
    }
  }

  /** Where the pieces of an element's text lie: its runs end at `p`, `r` and `q`. */
  lemma ElementParts(s: string, i: nat, b: Backlink, p: nat, r: nat, q: nat)
    requires StartsAt(s, i, ElementText(b))
    requires p == i + 12 + |b.pageid| && r == p + 6 + |b.ns| && q == r + 9 + |b.title|
    ensures StartsAt(s, i, ElementOpen) && StartsAt(s, i + 12, b.pageid)
    ensures StartsAt(s, p, NsAttr) && StartsAt(s, p + 6, b.ns)
    ensures StartsAt(s, r, TitleAttr) && StartsAt(s, r + 9, b.title)
    ensures StartsAt(s, q, TitleClose) && StartsAt(s, q + 2, Closer(b))
    ensures i + |ElementText(b)| == q + 2 + |Closer(b)|
  {
    StartsAtParts7(s, i, ElementOpen, b.pageid, NsAttr, b.ns, TitleAttr, b.title, Ending(b));
    StartsAtConcat(s, q, TitleClose, Closer(b));
  }

  /** The tail of an element's text matches, capturing its title. */
  lemma TailOfElement(s: string, r: nat, q: nat, e: nat, b: Backlink)
    requires '"' !in b.title && q == r + 9 + |b.title| && e == q + 2 + |Closer(b)|
    requires StartsAt(s, r, TitleAttr) && StartsAt(s, r + 9, b.title)
    requires StartsAt(s, q, TitleClose) && StartsAt(s, q + 2, Closer(b))
    ensures TailAt(s, r) == Some(Capture(b.title, e))
  {
    QuoteFreeAt(s, r + 9, b.title);
    if !b.redirect {
      assert !StartsAt(s, q + 2, RedirectEnd) by {
        assert s[q + 2] == s[q + 2..q + 4][0] == '/';
      }
    }
    TailComplete(s, r, q, e);
    assert s[r + 9..q] == b.title;
  }

  /** A run free of quotes and line terminators, written at `x`. */
  lemma RunAt(s: string, x: nat, v: string)
    requires StartsAt(s, x, v)
    requires forall c :: c in v ==> c != '"' && !IsLineTerminator(c)
    ensures forall m :: x <= m < x + |v| ==> s[m] != '"' && !IsLineTerminator(s[m])
  {
    CharsAt(s, x, v);
    forall m | x <= m < x + |v|
      ensures s[m] != '"' && !IsLineTerminator(s[m])
    {
      assert s[m] == v[m - x] && v[m - x] in v;
    }
  }

  /** A matchable pageid run followed by a fitting rest: the matcher ends the run there. */
  lemma PageIdOfElement(s: string, i: nat, pageid: string, p: nat, r: nat)
    requires forall c :: c in pageid ==> c != '"' && !IsLineTerminator(c)
    requires StartsAt(s, i, ElementOpen) && StartsAt(s, i + 12, pageid) && p == i + 12 + |pageid|
    requires NsAt(s, p) == Some(r)
    ensures TitleAt(s, i) == TailAt(s, r)
  {
    assert LazyPageId(s, p) == Some(p);
    RunAt(s, i + 12, pageid);
    LazyPageIdOver(s, i + 12, p);
    TitleAtOf(s, i, p, r);
  }

  /** How `TitleAt` combines the stages. */
  lemma TitleAtOf(s: string, i: nat, p: nat, r: nat)
    requires StartsAt(s, i, ElementOpen) && LazyPageId(s, i + 12) == Some(p) && NsAt(s, p) == Some(r)
    ensures TitleAt(s, i) == TailAt(s, r)
  {
  }

  /** A matchable ns run followed by a fitting tail: the matcher ends the run there. */
  lemma NsOfElement(s: string, p: nat, ns: string, r: nat)
    requires forall c :: c in ns ==> c != '"' && !IsLineTerminator(c)
    requires StartsAt(s, p, NsAttr) && StartsAt(s, p + 6, ns) && r == p + 6 + |ns|
    requires TailAt(s, r).Some?
    ensures NsAt(s, p) == Some(r)
  {
    assert LazyNs(s, r) == Some(r);
    RunAt(s, p + 6, ns);
    LazyNsOver(s, p + 6, r);
  }

  /** An element written out with matchable fields is matched at its start, capturing its title. */
  lemma ElementRoundTrip(s: string, i: nat, b: Backlink, e: nat)
    requires Matchable(b) && StartsAt(s, i, ElementText(b)) && e == i + |ElementText(b)|
    ensures TitleAt(s, i) == Some(Capture(b.title, e))
  {
    var p := i + 12 + |b.pageid|;
    var r := p + 6 + |b.ns|;
    var q := r + 9 + |b.title|;
    ElementTail(s, i, b, p, r, q, e);
    ElementNs(s, i, b, p, r, q);
    ElementPageId(s, i, b, p, r, q);
  }

  /** The tail of a written-out element. */
  lemma ElementTail(s: string, i: nat, b: Backlink, p: nat, r: nat, q: nat, e: nat)
    requires Matchable(b) && StartsAt(s, i, ElementText(b))
    requires p == i + 12 + |b.pageid| && r == p + 6 + |b.ns| && q == r + 9 + |b.title|
    requires e == i + |ElementText(b)|
    ensures TailAt(s, r) == Some(Capture(b.title, e))
  {
    ElementParts(s, i, b, p, r, q);
    TailOfElement(s, r, q, e, b);
  }

  /** The ns run of a written-out element. */
  lemma ElementNs(s: string, i: nat, b: Backlink, p: nat, r: nat, q: nat)
    requires Matchable(b) && StartsAt(s, i, ElementText(b))
    requires p == i + 12 + |b.pageid| && r == p + 6 + |b.ns| && q == r + 9 + |b.title|
    requires TailAt(s, r).Some?
    ensures NsAt(s, p) == Some(r)
  {
    ElementParts(s, i, b, p, r, q);
    NsOfElement(s, p, b.ns, r);
  }

  /** The pageid run of a written-out element. */
  lemma ElementPageId(s: string, i: nat, b: Backlink, p: nat, r: nat, q: nat)
    requires Matchable(b) && StartsAt(s, i, ElementText(b))
    requires p == i + 12 + |b.pageid| && r == p + 6 + |b.ns| && q == r + 9 + |b.title|
    requires NsAt(s, p) == Some(r)
    ensures TitleAt(s, i) == TailAt(s, r)
  {
    ElementParts(s, i, b, p, r, q);
    PageIdOfElement(s, i, b.pageid, p, r);
  }

  /** A response body made of elements written back to back. */
  function Document(bs: seq<Backlink>): string {
    if bs == [] then "" else ElementText(bs[0]) + Document(bs[1..])
  }

  /** The titles of the elements, in order. */
  function TitlesOf(bs: seq<Backlink>): (ts: seq<string>)
    ensures |ts| == |bs|
  {
    if bs == [] then [] else [bs[0].title] + TitlesOf(bs[1..])
  }

  /**
   * Elements written back to back at `j`, up to `e`, yield their titles in
   * document order, followed by whatever the text from `e` on yields.
   */
  lemma {:induction false} TitlesOfDocument(s: string, j: nat, bs: seq<Backlink>, e: nat)
    requires forall b :: b in bs ==> Matchable(b)
    requires StartsAt(s, j, Document(bs)) && e == j + |Document(bs)|
    ensures Titles(s, j) == TitlesOf(bs) + Titles(s, e)
    decreases |bs|
  {
    if bs != [] {
      var b, rest := bs[0], bs[1..];
      var k := j + |ElementText(b)|;
      DocumentSplit(s, j, bs);
      assert forall c :: c in rest ==> c in bs;
      TitlesOfDocument(s, k, rest, e);
      assert b in bs;
      ElementTitles(s, j, b, k);
      Prepend(Titles(s, j), b.title, Titles(s, k), TitlesOf(rest), Titles(s, e));
    } else {
      assert e == j;
    }
  }

  /** The first element of a written-out body, and the rest after it. */
  lemma DocumentSplit(s: string, j: nat, bs: seq<Backlink>)
    requires bs != [] && StartsAt(s, j, Document(bs))
    ensures StartsAt(s, j, ElementText(bs[0]))
    ensures StartsAt(s, j + |ElementText(bs[0])|, Document(bs[1..]))
    ensures |Document(bs)| == |ElementText(bs[0])| + |Document(bs[1..])|
    ensures TitlesOf(bs) == [bs[0].title] + TitlesOf(bs[1..])
  {
    StartsAtConcat(s, j, ElementText(bs[0]), Document(bs[1..]));
  }

  /** Putting one title in front of a split list. */
  lemma Prepend(all: seq<string>, t: string, tail: seq<string>, front: seq<string>, back: seq<string>)
    requires all == [t] + tail && tail == front + back
    ensures all == ([t] + front) + back
  {
  }

  /** A match at `j` gives one title, and the search resumes right after it. */
  lemma TitlesStep(s: string, j: nat, t: string, k: nat)
    requires j <= |s| && TitleAt(s, j) == Some(Capture(t, k))
    ensures Titles(s, j) == [t] + Titles(s, k)
  {
    assert FindTitle(s, j) == Some(j);
  }

  /** A matchable element at `j` gives its title, and the search resumes at `k`, right after it. */
  lemma ElementTitles(s: string, j: nat, b: Backlink, k: nat)
    requires Matchable(b) && StartsAt(s, j, ElementText(b)) && k == j + |ElementText(b)|
    ensures Titles(s, j) == [b.title] + Titles(s, k)
  {
    ElementRoundTrip(s, j, b, k);
    TitlesStep(s, j, b.title, k);
  }

  /**
   * `find` skips a stretch in which no `<bl pageid="` starts: the titles from
   * `from` are those from `i`.
   */
  lemma {:induction false} TitlesSkip(s: string, from: nat, i: nat)
    requires from <= i <= |s|
    requires forall k :: from <= k < i ==> !StartsAt(s, k, ElementOpen)
    ensures Titles(s, from) == Titles(s, i)
    decreases i - from
  {
    if from < i {
      TitlesSkip(s, from + 1, i);
      TitlesPass(s, from);
    }
  }

  /** `find` passes over a start where `<bl pageid="` does not occur. */
  lemma TitlesPass(s: string, from: nat)
    requires from < |s| && !StartsAt(s, from, ElementOpen)
    ensures Titles(s, from) == Titles(s, from + 1)
  {
    assert FindTitle(s, from) == FindTitle(s, from + 1);
  }

  /** `<` occurs in `<bl pageid="` only at its start. */
  lemma ElementOpenLeads()
    ensures |ElementOpen| > 0 && forall d :: 0 < d < |ElementOpen| ==> ElementOpen[d] != ElementOpen[0]
  {
  }

  /** A text free of `<bl pageid="` that ends the response adds no title. */
  lemma SuffixFree(s: string, e: nat, suffix: string, k: nat)
    requires forall x :: !StartsAt(suffix, x, ElementOpen)
    requires StartsAt(s, e, suffix) && e + |suffix| == |s|
    requires e <= k < |s|
    ensures !StartsAt(s, k, ElementOpen)
  {
    if k + 12 <= |s| {
      var x := k - e;
      assert !StartsAt(suffix, x, ElementOpen);
      assert s[e..|s|] == suffix;
      assert s[k..k + 12] == s[e..|s|][x..x + 12];
    }
  }

  /**
   * Where the pieces of a wrapped body lie: `d` right after the opening
   * wrapper, the closing wrapper right after `d`, and a `<` right after the
   * opening wrapper unless the text ends there.
   */
  lemma WrapperParts(s: string, prefix: string, d: string, suffix: string)
    requires s == prefix + d + suffix
    requires d == [] || d[0] == '<'
    requires suffix == [] || suffix[0] == '<'
    ensures StartsAt(s, 0, prefix) && StartsAt(s, |prefix|, d)
    ensures StartsAt(s, |prefix| + |d|, suffix) && |prefix| + |d| + |suffix| == |s|
    ensures |prefix| < |s| ==> s[|prefix|] == '<'
  {
    StartsAtSelf(s);
    StartsAtConcat(s, 0, prefix + d, suffix);
    StartsAtConcat(s, 0, prefix, d);
    if d != [] {
      assert s[|prefix|] == d[0];
    } else if suffix != [] {
      assert s[|prefix|] == suffix[0];
    }
  }

  /** A written-out body is empty or starts with a tag. */
  lemma DocumentStart(bs: seq<Backlink>)
    ensures Document(bs) == [] || Document(bs)[0] == '<'
  {
    if bs != [] {
      assert Document(bs)[0] == ElementText(bs[0])[0] == ElementOpen[0];
    }
  }

  /** No `<bl pageid="` starts inside the opening wrapper. */
  lemma PrefixFree(s: string, prefix: string)
    requires forall x :: !StartsAt(prefix, x, ElementOpen)
    requires StartsAt(s, 0, prefix) && (|prefix| < |s| ==> s[|prefix|] == '<')
    ensures forall k :: 0 <= k < |prefix| ==> !StartsAt(s, k, ElementOpen)
  {
    forall k | 0 <= k < |prefix|
      ensures !StartsAt(s, k, ElementOpen)
    {
      ElementOpenLeads();
      NoStraddle(prefix, s, ElementOpen, k);
    }
  }

  /** No `<bl pageid="` starts inside the closing wrapper. */
  lemma SuffixFreeAll(s: string, e: nat, suffix: string)
    requires forall x :: !StartsAt(suffix, x, ElementOpen)
    requires StartsAt(s, e, suffix) && e + |suffix| == |s|
    ensures forall k :: e <= k < |s| ==> !StartsAt(s, k, ElementOpen)
  {
    forall k | e <= k < |s|
      ensures !StartsAt(s, k, ElementOpen)
    {
      SuffixFree(s, e, suffix, k);
    }
  }

  /**
   * A response whose elements sit inside a wrapper (such as
   * `<api><query><backlinks>` … `</backlinks></query></api>`) holding no
   * `<bl pageid="`, the closing one starting with a tag, yields exactly the
   * elements' titles.
   */
  lemma ParseArticleTitlesInWrapper(prefix: string, bs: seq<Backlink>, suffix: string)
    requires forall x :: !StartsAt(prefix, x, ElementOpen)
    requires forall x :: !StartsAt(suffix, x, ElementOpen)
    requires suffix == [] || suffix[0] == '<'
    requires forall b :: b in bs ==> Matchable(b)
    ensures Titles(prefix + Document(bs) + suffix, 0) == TitlesOf(bs)
  {
    var s := prefix + Document(bs) + suffix;
    var e := |prefix| + |Document(bs)|;
    DocumentStart(bs);
    WrapperParts(s, prefix, Document(bs), suffix);
    PrefixFree(s, prefix);
    SuffixFreeAll(s, e, suffix);
    TitlesSkip(s, 0, |prefix|);
    TitlesOfDocument(s, |prefix|, bs, e);
    TitlesSkip(s, e, |s|);
    assert FindTitle(s, |s|).None?;
  }

  /** A body made only of matchable elements yields exactly their titles. */
  lemma ParseArticleTitlesOfDocument(bs: seq<Backlink>)
    requires forall b :: b in bs ==> Matchable(b)
    ensures Titles(Document(bs), 0) == TitlesOf(bs)
  {
    var s := Document(bs);
    StartsAtSelf(s);
    TitlesOfDocument(s, 0, bs, |s|);
    assert FindTitle(s, |s|).None?;
  }
}
