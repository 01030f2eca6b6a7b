/**
 * Character-level building blocks of the two fixed regular expressions used
 * by the backlinks parsers: literal matching at a position, the greedy runs
 * ` *` and `[^"]*`, the line terminators that `.` refuses without DOTALL, and
 * the search for a literal anywhere after a position.
 */
module Scan {

  /** What a pattern captured with `([^"]*)`, and the index just after its match. */
  datatype Capture = Capture(value: string, end: nat)

  /** `lit` occurs in `s` starting at index `i`. */
  predicate StartsAt(s: string, i: nat, lit: string) {
    i + |lit| <= |s| && s[i..i + |lit|] == lit
  }

  /** The characters `java.util.regex` treats as line terminators when UNIX_LINES is off. */
  predicate IsLineTerminator(c: char) {
    c == '\n' || c == '\r' || c == '\U{0085}' || c == '\U{2028}' || c == '\U{2029}'
  }

  /** `s[a..b]` could be consumed by `.*` without DOTALL: it holds no line terminator. */
  predicate Dots(s: string, a: nat, b: nat) {
    a <= b <= |s| && forall m :: a <= m < b ==> !IsLineTerminator(s[m])
  }

  /** `s[a..b]` is all blanks. */
  predicate Blanks(s: string, a: nat, b: nat) {
    a <= b <= |s| && forall m :: a <= m < b ==> s[m] == ' '
  }

  /** `s[a..b]` holds no `"`. */
  predicate QuoteFree(s: string, a: nat, b: nat) {
    a <= b <= |s| && forall m :: a <= m < b ==> s[m] != '"'
  }

  /** A run of `n` blanks. */
  function Spaces(n: nat): (r: string)
    ensures |r| == n
    ensures forall k :: 0 <= k < n ==> r[k] == ' '
  {
    if n == 0 then [] else [' '] + Spaces(n - 1)
  }

  /** Where the greedy ` *` starting at `i` stops: the first non-blank at or after `i`, or the end. */
  function SkipSpaces(s: string, i: nat): (k: nat)
    requires i <= |s|
    ensures i <= k <= |s|
    ensures forall m :: i <= m < k ==> s[m] == ' '
    ensures k == |s| || s[k] != ' '
    decreases |s| - i
  {
    if i < |s| && s[i] == ' ' then SkipSpaces(s, i + 1) else i
  }

  /** Where the greedy `[^"]*` starting at `i` stops: the first `"` at or after `i`, or the end. */
  function NextQuote(s: string, i: nat): (k: nat)
    requires i <= |s|
    ensures i <= k <= |s|
    ensures forall m :: i <= m < k ==> s[m] != '"'
    ensures k == |s| || s[k] == '"'
    decreases |s| - i
  {
    if i < |s| && s[i] != '"' then NextQuote(s, i + 1) else i
  }

  /** How far `.*` without DOTALL can reach from `i`: the first line terminator at or after `i`, or the end. */
  function DotEnd(s: string, i: nat): (k: nat)
    requires i <= |s|
    ensures i <= k <= |s|
    ensures forall m :: i <= m < k ==> !IsLineTerminator(s[m])
    ensures k == |s| || IsLineTerminator(s[k])
    decreases |s| - i
  {
    if i < |s| && !IsLineTerminator(s[i]) then DotEnd(s, i + 1) else i
  }

  /** `.*` without DOTALL reaches from `a` exactly to the indices up to `DotEnd`. */
  lemma DotsUpTo(s: string, a: nat, b: nat)
    requires a <= |s|
    ensures Dots(s, a, b) <==> a <= b <= DotEnd(s, a)
  {
  }

  /** `lit` occurs somewhere in `s` at or after index `i`. */
  ghost predicate OccursFrom(s: string, i: nat, lit: string) {
    exists m :: i <= m && StartsAt(s, m, lit)
  }

  /** Decides `OccursFrom`, scanning left to right as `.*?lit` does. */
  function FindsFrom(s: string, i: nat, lit: string): (b: bool)
    ensures b <==> OccursFrom(s, i, lit)
    decreases |s| - i
  {
    if i + |lit| > |s| then
      assert forall m :: i <= m ==> !StartsAt(s, m, lit);
      false
    else if StartsAt(s, i, lit) then true
    else
      var b := FindsFrom(s, i + 1, lit);
      assert forall m :: i <= m ==> (StartsAt(s, m, lit) ==> m == i || i + 1 <= m);
      b
  }

  /** Skipping blanks from `i` lands on `k` when `s[i..k]` is blank and `s[k]` is not. */
  lemma {:induction false} SkipSpacesOver(s: string, i: nat, k: nat)
    requires i <= k < |s|
    requires forall m :: i <= m < k ==> s[m] == ' '
    requires s[k] != ' '
    ensures SkipSpaces(s, i) == k
    decreases k - i
  {
    if i < k {
      SkipSpacesOver(s, i + 1, k);
    }
  }

  /** The greedy `[^"]*` from `i` stops on `k` when `s[i..k]` is quote-free and `s[k]` is a quote. */
  lemma {:induction false} NextQuoteOver(s: string, i: nat, k: nat)
    requires i <= k < |s|
    requires forall m :: i <= m < k ==> s[m] != '"'
    requires s[k] == '"'
    ensures NextQuote(s, i) == k
    decreases k - i
  {
    if i < k {
      NextQuoteOver(s, i + 1, k);
    }
  }

  /** A concatenation occurs at `i` exactly when its two parts occur back to back there. */
  lemma StartsAtConcat(s: string, i: nat, a: string, b: string)
    ensures StartsAt(s, i, a + b) <==> StartsAt(s, i, a) && StartsAt(s, i + |a|, b)
  {
    if StartsAt(s, i, a + b) {
      assert s[i..i + |a|] == s[i..i + |a| + |b|][..|a|] == (a + b)[..|a|] == a;
      assert s[i + |a|..i + |a| + |b|] == s[i..i + |a| + |b|][|a|..] == (a + b)[|a|..] == b;
    }
    if StartsAt(s, i, a) && StartsAt(s, i + |a|, b) {
      assert s[i..i + |a| + |b|] == s[i..i + |a|] + s[i + |a|..i + |a| + |b|];
    }
  }

  /** A whole string occurs at its own start. */
  lemma StartsAtSelf(s: string)
    ensures StartsAt(s, 0, s)
  {
    assert s[0..|s|] == s;
  }

  /** Blanks occurring at `i` cover `n` positions. */
  lemma SpacesAt(s: string, i: nat, n: nat)
    requires StartsAt(s, i, Spaces(n))
    ensures forall x :: i <= x < i + n ==> s[x] == ' '
  {
    forall x | i <= x < i + n
      ensures s[x] == ' '
    {
      assert s[x] == s[i..i + n][x - i];
    }
  }

  /** The characters of a text occurring at `i`, one by one. */
  lemma CharsAt(s: string, i: nat, v: string)
    requires StartsAt(s, i, v)
    ensures forall x :: i <= x < i + |v| ==> s[x] == v[x - i]
  {
    forall x | i <= x < i + |v|
      ensures s[x] == v[x - i]
    {
      assert s[x] == s[i..i + |v|][x - i];
    }
  }

  /** A quote-free text occurring at `i` puts no quote on its positions. */
  lemma QuoteFreeAt(s: string, i: nat, v: string)
    requires StartsAt(s, i, v) && '"' !in v
    ensures forall x :: i <= x < i + |v| ==> s[x] != '"'
  {
    forall x | i <= x < i + |v|
      ensures s[x] != '"'
    {
      assert s[x] == v[x - i];
    }
  }

  /** Splits an occurrence of a seven-part text into occurrences of its parts. */
  lemma StartsAtParts7(s: string, j: nat, a: string, b: string, c: string, d: string,
                       e: string, f: string, g: string)
    requires StartsAt(s, j, a + b + c + d + e + f + g)
    ensures StartsAt(s, j, a)
    ensures StartsAt(s, j + |a|, b)
    ensures StartsAt(s, j + |a| + |b|, c)
    ensures StartsAt(s, j + |a| + |b| + |c|, d)
    ensures StartsAt(s, j + |a| + |b| + |c| + |d|, e)
    ensures StartsAt(s, j + |a| + |b| + |c| + |d| + |e|, f)
    ensures StartsAt(s, j + |a| + |b| + |c| + |d| + |e| + |f|, g)
  {
    StartsAtConcat(s, j, a + b + c + d + e + f, g);
    StartsAtConcat(s, j, a + b + c + d + e, f);
    StartsAtConcat(s, j, a + b + c + d, e);
    StartsAtConcat(s, j, a + b + c, d);
    StartsAtConcat(s, j, a + b, c);
    StartsAtConcat(s, j, a, b);
  }

  /**
   * A literal whose first character occurs nowhere else in it cannot start
   * inside a prefix free of it when the text after the prefix is empty or
   * begins with that character: an occurrence cannot straddle the boundary.
   */
  lemma NoStraddle(prefix: string, s: string, lit: string, k: nat)
    requires |lit| > 0 && forall d :: 0 < d < |lit| ==> lit[d] != lit[0]
    requires forall x :: !StartsAt(prefix, x, lit)
    requires StartsAt(s, 0, prefix) && (|prefix| < |s| ==> s[|prefix|] == lit[0])
    requires k < |prefix|
    ensures !StartsAt(s, k, lit)
  {
    var n := |lit|;
    if k + n <= |prefix| {
      assert !StartsAt(prefix, k, lit);
      assert prefix[k..k + n] == s[0..|prefix|][k..k + n] == s[k..k + n];
    } else if k + n <= |s| {
      var d := |prefix| - k;
      assert s[k..k + n][d] == s[|prefix|];
    }
  }
}
