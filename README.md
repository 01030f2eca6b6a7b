# Backlinks query of the Java MediaWiki bot framework, in Dafny

This project models `BacklinkTitles`, the query object that lists the pages
linking to an article through the MediaWiki API's `list=backlinks`. It covers
the hooks that `BacklinkTitles` gives the paging engine it plugs into:

- **Version dispatch** (`Requests.CreateRequestBuilder`). The wiki version is
  mapped to one of two request creators. MW1_15 and MW1_16 get the 1x15
  creator; every other version gets the 1x17 creator.
- **Request shaping** (`Requests.NewRequestBuilder` and the `Requests.Creator`
  functions). A request is its list of parameters, in the order the builder
  appends them. `encode` and `createNsString` stay symbolic: the model records
  what they were applied to (`Enc(text)`, `EncNs(namespaces)`), not their
  output.
- **The query object** (`Backlinks.BacklinkTitles`). A class with the four
  constructor inputs, the creator picked once at construction, and the stored
  continuation token `nextPageInfo`. It has both constructors, `Clone`, and
  `PrepareCollection`, which picks between the initial and the continuation
  request.
- **`parseHasMore`** (`ContinueParser`). Extracts the continuation token from
  a response, following how `java.util.regex.Matcher.find` handles the fixed
  pattern
  `<query-continue>.*?<backlinks *blcontinue="([^"]*)" */>.*?</query-continue>`
  (DOTALL):
  - start positions are tried from left to right;
  - at a given start, the lazy `.*?` tries the nearest `<backlinks` element
    first;
  - the trailing `.*?` only needs some `</query-continue>` to follow.
- **`parseArticleTitles`** (`TitleParser`). A loop that repeats `find` for
  `<bl pageid=".*?" ns=".*?" title="([^"]*)" (redirect="" )?/>`, without
  DOTALL, so `.` does not match a line terminator. At each start, the matcher
  extends the lazy pageid run one character at a time. For each pageid end, it
  extends the lazy ns run one character at a time, until the rest of the
  pattern fits. Each search resumes where the previous match ended.
- **Character-level pieces** (`Scan`). Matching a literal at a position, the
  greedy runs ` *` and `[^"]*`, how far `.` can reach, and searching for a
  literal.

Three behaviours of the code worth noting:

- The dispatch never fails. No version is rejected; an unknown version gets
  the 1x17 creator.
- The 1x15 continuation request carries only `blcontinue` and does not repeat
  `bltitle`.
- `blnamespace` is sent whenever a namespace array exists, even an empty one.
  Calling the four-argument constructor with no namespaces passes an empty
  array, not null. Within `BacklinkTitles.java` only the two-argument constructor passes
  null; a caller may also pass a null array itself, which `None` covers.

The comment at BacklinkTitles.java:238 says the 1x15 creator serves
"1_11 to (at least) 1_13". The dispatch at 165-178 actually gives it to MW1_15 and MW1_16,
and the model follows the dispatch.

## Model

All source paths are
`src/main/java/net/sourceforge/jwbf/mediawiki/actions/queries/BacklinkTitles.java`.

| member | source | states |
|---|---|---|
| Requests.CreateRequestBuilder | src/main/java/net/sourceforge/jwbf/mediawiki/actions/queries/BacklinkTitles.java:165-178 | the dispatch is total: the 1x15 creator is chosen if and only if the version is MW1_15 or MW1_16, and the 1x17 creator if and only if it is any other version |
| Requests.NewRequestBuilder | src/main/java/net/sourceforge/jwbf/mediawiki/actions/queries/BacklinkTitles.java:201-208 | every request starts with exactly `action=query`, `format=xml`, `list=backlinks`, `bllimit=50`, in this order (the limit is the constant at line 60 written in decimal) |
| Requests.NatToString | src/main/java/net/sourceforge/jwbf/mediawiki/actions/queries/BacklinkTitles.java:206 | `LIMIT + ""` writes a non-negative number as at least one decimal digit, with no leading zero unless the number is 0 |
| Requests.NatToStringRoundTrip | src/main/java/net/sourceforge/jwbf/mediawiki/actions/queries/BacklinkTitles.java:206 | reading the written digits back as a decimal number gives the original number |
| Requests.FilterNameInjective | src/main/java/net/sourceforge/jwbf/mediawiki/actions/queries/BacklinkTitles.java:218 | different redirect filters are sent as different `blfilterredir` texts |
| Requests.FilterName | src/main/java/net/sourceforge/jwbf/mediawiki/actions/queries/BacklinkTitles.java:218 | `redirectFilter.toString()` is one of `all`, `redirects`, `nonredirects` |
| Requests.Creator.NewInitialRequest | src/main/java/net/sourceforge/jwbf/mediawiki/actions/queries/BacklinkTitles.java:215-224 | the first-page request is the common prefix, then `bltitle=encode(articleName)`, then `blfilterredir=encode(filter)`, then `blnamespace=encode(createNsString(ns))` if and only if a namespace array was given; it never carries `blcontinue` |
| Requests.InitialRequestsAgree | src/main/java/net/sourceforge/jwbf/mediawiki/actions/queries/BacklinkTitles.java:243-252 | the first-page request written out for the 1x15 creator (243-252) equals the one written out for the 1x17 creator (215-224), for every input |
| Requests.Creator.NewContinueRequest | src/main/java/net/sourceforge/jwbf/mediawiki/actions/queries/BacklinkTitles.java:229-234 | a continuation request is the common prefix, then `blcontinue=encode(token)`, then `bltitle` for the 1x17 creator only; it never carries `blfilterredir` or `blnamespace`; it carries `bltitle` if and only if the creator is 1x17 |
| Requests.ContinueRequestsDiffer | src/main/java/net/sourceforge/jwbf/mediawiki/actions/queries/BacklinkTitles.java:257-261 | the 1x15 continuation request is the 1x17 one without its final `bltitle` parameter |
| Requests.InitialIsNotContinue | src/main/java/net/sourceforge/jwbf/mediawiki/actions/queries/BacklinkTitles.java:265-272 | no first-page request equals any continuation request, whatever the creators and inputs |
| Backlinks.BacklinkTitles.constructor | src/main/java/net/sourceforge/jwbf/mediawiki/actions/queries/BacklinkTitles.java:85-97 | the query keeps its four inputs, picks the creator for the bot's version, and starts with an empty token |
| Backlinks.BacklinkTitles.ForArticle | src/main/java/net/sourceforge/jwbf/mediawiki/actions/queries/BacklinkTitles.java:99-102 | the two-argument constructor gives the four-argument query with the `all` filter and no namespace array |
| Backlinks.BacklinkTitles.Clone | src/main/java/net/sourceforge/jwbf/mediawiki/actions/queries/BacklinkTitles.java:104-107 | the copy is a new object with the same bot, article, filter and namespaces, so the same creator, and it starts from the first page again |
| Backlinks.BacklinkTitles.PrepareCollection | src/main/java/net/sourceforge/jwbf/mediawiki/actions/queries/BacklinkTitles.java:265-272 | with a non-empty stored token the next request is the creator's continuation request for that token, otherwise its first-page request; it carries `blcontinue` exactly when a token is stored; it always starts with the common prefix |
| Scan.SkipSpaces | src/main/java/net/sourceforge/jwbf/mediawiki/actions/queries/BacklinkTitles.java:121 | the greedy ` *` stops at the first non-blank, having consumed only blanks |
| Scan.NextQuote | src/main/java/net/sourceforge/jwbf/mediawiki/actions/queries/BacklinkTitles.java:121 | the greedy `[^"]*` stops at the first quote, having consumed no quote |
| Scan.SkipSpacesOver | src/main/java/net/sourceforge/jwbf/mediawiki/actions/queries/BacklinkTitles.java:121 | a blank run that ends in a non-blank is exactly what ` *` consumes |
| Scan.NextQuoteOver | src/main/java/net/sourceforge/jwbf/mediawiki/actions/queries/BacklinkTitles.java:121 | a quote-free run that ends in a quote is exactly what `[^"]*` consumes |
| Scan.DotEnd | src/main/java/net/sourceforge/jwbf/mediawiki/actions/queries/BacklinkTitles.java:147 | `.` without DOTALL reaches up to, and not past, the first line terminator |
| Scan.FindsFrom | src/main/java/net/sourceforge/jwbf/mediawiki/actions/queries/BacklinkTitles.java:122 | `.*?</query-continue>` with DOTALL succeeds if and only if the closing tag occurs somewhere after the position |
| Scan.StartsAtConcat | src/main/java/net/sourceforge/jwbf/mediawiki/actions/queries/BacklinkTitles.java:121-122 | a concatenation of pattern pieces matches at a position if and only if its parts match one after the other |
| ContinueParser.BacklinksAt | src/main/java/net/sourceforge/jwbf/mediawiki/actions/queries/BacklinkTitles.java:121 | when the element pattern matches, the capture holds no quote and the element spans at least 25 characters |
| ContinueParser.Completes | src/main/java/net/sourceforge/jwbf/mediawiki/actions/queries/BacklinkTitles.java:121-122 | decides whether, from a position, the element pattern matches and a `</query-continue>` follows it somewhere, which is what the lazy `.*?` needs in order to stop there |
| ContinueParser.BacklinksAtSound | src/main/java/net/sourceforge/jwbf/mediawiki/actions/queries/BacklinkTitles.java:121 | whatever the element pattern matches is a `<backlinks` element: blanks, `blcontinue="`, a quote-free value, `"`, blanks, `/>`; the capture is that value |
| ContinueParser.BacklinksAtComplete | src/main/java/net/sourceforge/jwbf/mediawiki/actions/queries/BacklinkTitles.java:121 | every such element is matched, and the capture is its value |
| ContinueParser.NearestElement | src/main/java/net/sourceforge/jwbf/mediawiki/actions/queries/BacklinkTitles.java:121-122 | the lazy `.*?` after `<query-continue>` stops at the nearest element that completes the match, and no earlier position completes it |
| ContinueParser.FindMarker | src/main/java/net/sourceforge/jwbf/mediawiki/actions/queries/BacklinkTitles.java:124-126 | `find` returns a match whose start and element position come first among all matches (lexicographically) |
| ContinueParser.ParseHasMore | src/main/java/net/sourceforge/jwbf/mediawiki/actions/queries/BacklinkTitles.java:117-132 | the returned token never contains a quote |
| ContinueParser.ParseHasMoreFirstMatch | src/main/java/net/sourceforge/jwbf/mediawiki/actions/queries/BacklinkTitles.java:126-130 | the token is "" when no match exists; otherwise it is the value of the first match |
| ContinueParser.FirstMarkerUnique | src/main/java/net/sourceforge/jwbf/mediawiki/actions/queries/BacklinkTitles.java:126 | there is only one first match |
| ContinueParser.ParseHasMoreOfSection | src/main/java/net/sourceforge/jwbf/mediawiki/actions/queries/BacklinkTitles.java:117-132 | round trip: a response with no earlier `<query-continue>` whose section is exactly one `<backlinks blcontinue="v"/>` element (any blanks, v quote-free) yields exactly v, whatever follows the section |
| ContinueParser.BacklinksTextParts | src/main/java/net/sourceforge/jwbf/mediawiki/actions/queries/BacklinkTitles.java:121 | the written-out element text has the shape the element pattern describes |
| TitleParser.TailAt | src/main/java/net/sourceforge/jwbf/mediawiki/actions/queries/BacklinkTitles.java:147 | the tail `" title="([^"]*)" (redirect="" )?/>` captures a quote-free title and spans at least 13 characters |
| TitleParser.TailSound | src/main/java/net/sourceforge/jwbf/mediawiki/actions/queries/BacklinkTitles.java:147 | what the tail matches is `" title="`, a quote-free run, `" `, and `redirect="" />` if present, else `/>`; the capture is the run |
| TitleParser.TailComplete | src/main/java/net/sourceforge/jwbf/mediawiki/actions/queries/BacklinkTitles.java:147 | every text of that shape is matched by the tail, capturing the run |
| TitleParser.LazyNsFirst | src/main/java/net/sourceforge/jwbf/mediawiki/actions/queries/BacklinkTitles.java:147 | the lazy ns run ends at the first reachable position where the tail fits, and before the first line terminator |
| TitleParser.LazyPageIdFirst | src/main/java/net/sourceforge/jwbf/mediawiki/actions/queries/BacklinkTitles.java:147 | the lazy pageid run ends at the first reachable position where `" ns="` and the rest fit |
| TitleParser.LazyNs | src/main/java/net/sourceforge/jwbf/mediawiki/actions/queries/BacklinkTitles.java:147 | the lazy ns run, when it succeeds, ends inside the text no earlier than it began; where it ends is stated by `TitleParser.LazyNsFirst` |
| TitleParser.LazyPageId | src/main/java/net/sourceforge/jwbf/mediawiki/actions/queries/BacklinkTitles.java:147 | the lazy pageid run, when it succeeds, ends inside the text no earlier than it began; where it ends is stated by `TitleParser.LazyPageIdFirst` |
| TitleParser.NsAt | src/main/java/net/sourceforge/jwbf/mediawiki/actions/queries/BacklinkTitles.java:147 | `" ns="` followed by the lazy ns run, when it succeeds, ends at least 6 characters on and inside the text |
| TitleParser.NsAtFirst | src/main/java/net/sourceforge/jwbf/mediawiki/actions/queries/BacklinkTitles.java:147 | `" ns="` and its lazy run fail if and only if no ns run over non-terminators lets the tail fit; on success they pick the shortest such run |
| TitleParser.TitleAt | src/main/java/net/sourceforge/jwbf/mediawiki/actions/queries/BacklinkTitles.java:146-147 | a match at a start captures a quote-free title and spans at least 31 characters |
| TitleParser.TitleAtFirst | src/main/java/net/sourceforge/jwbf/mediawiki/actions/queries/BacklinkTitles.java:146-151 | the pattern fails at a start if and only if it fits there in no way; otherwise it reports the fit with the shortest pageid run, then the shortest ns run |
| TitleParser.FindTitle | src/main/java/net/sourceforge/jwbf/mediawiki/actions/queries/BacklinkTitles.java:151 | one `m.find()` from a position returns a start no earlier than that position where the pattern matches |
| TitleParser.FindTitleFirst | src/main/java/net/sourceforge/jwbf/mediawiki/actions/queries/BacklinkTitles.java:151 | `find` skips only starts where the pattern does not match |
| TitleParser.Titles | src/main/java/net/sourceforge/jwbf/mediawiki/actions/queries/BacklinkTitles.java:149-154 | the titles collected by repeated `find` calls are quote-free, and there are at most (length − start) / 31 of them |
| TitleParser.ParseArticleTitles | src/main/java/net/sourceforge/jwbf/mediawiki/actions/queries/BacklinkTitles.java:141-157 | the `while (m.find())` loop collects exactly the titles of successive matches, in order; each title is quote-free, and there are at most length / 31 of them |
| TitleParser.TitlesEmpty | src/main/java/net/sourceforge/jwbf/mediawiki/actions/queries/BacklinkTitles.java:141-157 | no title is collected if and only if no element fits anywhere |
| TitleParser.ElementRoundTrip | src/main/java/net/sourceforge/jwbf/mediawiki/actions/queries/BacklinkTitles.java:146-147 | a written-out `<bl/>` element matches at its start when pageid and ns hold no quote and no line terminator and the title holds no quote; the capture is its title and the match covers the whole element |
| TitleParser.TitlesOfDocument | src/main/java/net/sourceforge/jwbf/mediawiki/actions/queries/BacklinkTitles.java:151-154 | matchable elements (pageid and ns free of quotes and line terminators, title free of quotes) written back to back yield their titles in document order, followed by what the rest of the text yields |
| TitleParser.ParseArticleTitlesOfDocument | src/main/java/net/sourceforge/jwbf/mediawiki/actions/queries/BacklinkTitles.java:141-157 | round trip: a body made only of such matchable elements yields exactly their titles, in order |
| TitleParser.TitlesSkip | src/main/java/net/sourceforge/jwbf/mediawiki/actions/queries/BacklinkTitles.java:151 | `find` passes over a stretch where no `<bl pageid="` starts without collecting anything |
| Scan.NoStraddle | src/main/java/net/sourceforge/jwbf/mediawiki/actions/queries/BacklinkTitles.java:121-147 | a literal whose first character occurs nowhere else in it (`<query-continue>` at 121, `<bl pageid="` at 147) never starts inside a prefix free of it when the text after the prefix is empty or begins with that character |
| ContinueParser.NoOpenBefore | src/main/java/net/sourceforge/jwbf/mediawiki/actions/queries/BacklinkTitles.java:121 | no `<query-continue>` starts inside a prefix free of it that an opening `<query-continue>` follows |
| TitleParser.PrefixFree | src/main/java/net/sourceforge/jwbf/mediawiki/actions/queries/BacklinkTitles.java:147 | no `<bl pageid="` starts inside an opening wrapper free of it when what follows the wrapper is empty or starts with `<` |
| TitleParser.SuffixFree | src/main/java/net/sourceforge/jwbf/mediawiki/actions/queries/BacklinkTitles.java:147 | a closing text free of `<bl pageid="` contains no start of that pattern |
| TitleParser.ParseArticleTitlesInWrapper | src/main/java/net/sourceforge/jwbf/mediawiki/actions/queries/BacklinkTitles.java:141-157 | round trip: a response whose matchable elements sit between an opening and a closing wrapper, neither holding `<bl pageid="`, the closing wrapper empty or starting with `<` (such as `<api><query><backlinks>` … `</backlinks></query></api>`), yields exactly their titles, in order; without the `<` condition a `<bl pageid="` could straddle the two wrappers |

## Left out

- The paging engine of the `TitleQuery` superclass is not part of this model: buffering, `hasNext`/`next`, storing the token returned by `parseHasMore`, and fetching. `nextPageInfo` is a public field that stands for the token it stores. Its initial value "" is an assumption, since that class is not shown.
- The bodies of `MediaWiki.encode`, `MWAction.createNsString`, `ApiRequestBuilder` and `RequestBuilder.buildGet` are not part of this model. Encoded values are symbolic, a request is its ordered parameter list, and the URL text of a request is not modelled.
- `RedirectFilter.java` is not part of this model. `Requests.FilterName` assumes that `toString` gives the lower-case constant name, as the constant `RedirectFilter.all` at line 100 and the comment at 53-55 show.
- `MediaWikiBot.getVersion` is modelled as a constant field of the bot, so the constructor and `Clone` (which calls the constructor again) see the same version; `Clone` giving the same creator rests on that choice. Only MW1_15 and MW1_16 are told apart; every other version is `OtherVersion`.
- The logging at line 118 is left out.
- The `assert` statements at 88-89 are left out. Null is not representable, except for the namespace array, which is modelled as `Option`.
- The Java regular-expression engine in general is left out; only the two fixed patterns are modelled. The MULTILINE flag at 122 changes nothing, because neither pattern uses `^` or `$`.
- Strings are sequences of characters, with no UTF-16 surrogate pairs.
- The namespace array is an immutable sequence. The Java object shares the caller's `int[]`, so a caller that changes the array after construction also changes later requests; the model does not capture that aliasing.
- `CloneNotSupportedException` is never thrown and is not modelled.
