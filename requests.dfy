/**
 * Request shaping for the MediaWiki "list=backlinks" query: the mapping from
 * the wiki's reported version to one of two request creators, the parameters
 * every request shares, and the initial and continuation requests.
 *
 * A request (`Get`) is its parameter list in the order the builder appends
 * it. `MediaWiki.encode` and `MWAction.createNsString` are not part of this
 * model; their results are kept symbolic as `Enc(text)` and `EncNs(list)`.
 */
module Requests {
  import opened Wrappers

  /** Versions the dispatch distinguishes; every other reported version is `OtherVersion`. */
  datatype Version = MW1_15 | MW1_16 | OtherVersion(name: string)

  /** Redirect handling: list every page, only redirects, or only non-redirects. */
  datatype RedirectFilter = All | Redirects | NonRedirects

  /** The text `RedirectFilter.toString()` yields: the enum constant's name. */
  function FilterName(f: RedirectFilter): (r: string)
    ensures r in {"all", "redirects", "nonredirects"}
  {
    match f
    case All => "all"
    case Redirects => "redirects"
    case NonRedirects => "nonredirects"
  }

  /** Distinct filters are sent as distinct texts. */
  lemma FilterNameInjective(f: RedirectFilter, g: RedirectFilter)
    requires FilterName(f) == FilterName(g)
    ensures f == g
  {
    match f
    case All => assert FilterName(g)[0] == 'a';
    case Redirects => assert FilterName(g)[0] == 'r';
    case NonRedirects => assert FilterName(g)[0] == 'n';
  }

  /** A parameter value: verbatim text, `encode(text)`, or `encode(createNsString(namespaces))`. */
  datatype Value = Raw(text: string) | Enc(arg: string) | EncNs(namespaces: seq<int>)

  type Param = (string, Value)

  /** A GET request, as its parameters in builder order. */
  type Get = seq<Param>

  /** The `bllimit` constant. */
  const Limit: nat := 50

  /** `g` carries a parameter named `key`. */
  predicate HasKey(g: Get, key: string) {
    exists i :: 0 <= i < |g| && g[i].0 == key
  }

  /** The parameters every backlinks request starts with. */
  function NewRequestBuilder(): (r: Get)
    ensures |r| == 4
    ensures r[0] == ("action", Raw("query")) && r[1] == ("format", Raw("xml"))
    ensures r[2] == ("list", Raw("backlinks")) && r[3] == ("bllimit", Raw("50"))
  {
    assert NatToString(Limit) == NatToString(5) + [Digit(0)];
    assert NatToString(5) == [Digit(5)] && Digit(5) == '5' && Digit(0) == '0';
    assert NatToString(Limit) == ['5', '0'] == "50";
    [("action", Raw("query")), ("format", Raw("xml")),
     ("list", Raw("backlinks")), ("bllimit", Raw(NatToString(Limit)))]
  }

  /** Decimal digits of `n`, as Java's `n + ""` writes a non-negative int: no leading zero. */
  function NatToString(n: nat): (r: string)
    ensures |r| >= 1
    ensures forall k :: 0 <= k < |r| ==> '0' <= r[k] <= '9'
    ensures r[0] == '0' ==> n == 0
  {
    if n < 10 then [Digit(n)] else NatToString(n / 10) + [Digit(n % 10)]
  }

  function Digit(d: nat): (c: char)
    requires d < 10
    ensures '0' <= c <= '9' && c as int - '0' as int == d
  {
    "0123456789"[d]
  }

  /** The number a string of decimal digits denotes, most significant digit first. */
  function DecimalValue(r: string): nat
    requires forall k :: 0 <= k < |r| ==> '0' <= r[k] <= '9'
  {
    if r == [] then 0 else 10 * DecimalValue(r[..|r| - 1]) + (r[|r| - 1] as int - '0' as int)
  }

  /** Reading the written digits back gives the number. */
  lemma {:induction false} NatToStringRoundTrip(n: nat)
    ensures DecimalValue(NatToString(n)) == n
  {
    var r := NatToString(n);
    if n >= 10 {
      NatToStringRoundTrip(n / 10);
      assert r[..|r| - 1] == NatToString(n / 10);
    } else {
      assert r[..|r| - 1] == [];
    }
  }

  /** The two request-creator variants. */
  datatype Creator = Creator1x15 | Creator1x17 {

    /**
     * The first-page request, written out for each variant: the common
     * parameters, `bltitle`, `blfilterredir`, then `blnamespace` when a
     * namespace array was given (even an empty one).
     */
    function NewInitialRequest(articleName: string, filter: RedirectFilter,
                               namespaces: Option<seq<int>>): (r: Get)
      ensures |r| == if namespaces.Some? then 7 else 6
      ensures r[..4] == NewRequestBuilder()
      ensures r[4] == ("bltitle", Enc(articleName))
      ensures r[5] == ("blfilterredir", Enc(FilterName(filter)))
      ensures namespaces.Some? ==> r[6] == ("blnamespace", EncNs(namespaces.value))
      ensures !HasKey(r, "blcontinue")
    {
      match this
      case Creator1x17 =>
        var withFilter := NewRequestBuilder()
          + [("bltitle", Enc(articleName)), ("blfilterredir", Enc(FilterName(filter)))];
        if namespaces.Some? then withFilter + [("blnamespace", EncNs(namespaces.value))]
        else withFilter
      case Creator1x15 =>
        var withFilter := NewRequestBuilder()
          + [("bltitle", Enc(articleName)), ("blfilterredir", Enc(FilterName(filter)))];
        if namespaces.Some? then withFilter + [("blnamespace", EncNs(namespaces.value))]
        else withFilter
    }

    /**
     * A follow-up request for the page `blcontinue` points at. Both variants
     * send the common parameters and `blcontinue`; only 1x17 restates `bltitle`.
     */
    function NewContinueRequest(articleName: string, blcontinue: string): (r: Get)
      ensures |r| == if this == Creator1x17 then 6 else 5
      ensures r[..4] == NewRequestBuilder()
      ensures r[4] == ("blcontinue", Enc(blcontinue))
      ensures this == Creator1x17 ==> r[5] == ("bltitle", Enc(articleName))
      ensures !HasKey(r, "blfilterredir") && !HasKey(r, "blnamespace")
      ensures HasKey(r, "bltitle") <==> this == Creator1x17
    {
      var base := NewRequestBuilder() + [("blcontinue", Enc(blcontinue))];
      match this
      case Creator1x17 => base + [("bltitle", Enc(articleName))]
      case Creator1x15 => base
    }
  }

  /** The creator a query uses for the wiki version it was constructed against. */
  function CreateRequestBuilder(v: Version): (c: Creator)
    ensures c == Creator1x15 <==> v == MW1_15 || v == MW1_16
    ensures c == Creator1x17 <==> v.OtherVersion?
  {
    match v
    case MW1_15 => Creator1x15
    case MW1_16 => Creator1x15
    case OtherVersion(_) => Creator1x17
  }

  /** The two variants' first-page requests agree, whatever the inputs. */
  lemma InitialRequestsAgree(articleName: string, filter: RedirectFilter, namespaces: Option<seq<int>>)
    ensures Creator1x15.NewInitialRequest(articleName, filter, namespaces)
         == Creator1x17.NewInitialRequest(articleName, filter, namespaces)
  {
  }

  /** The 1x17 continuation is the 1x15 one with `bltitle` appended. */
  lemma ContinueRequestsDiffer(articleName: string, blcontinue: string)
    ensures Creator1x17.NewContinueRequest(articleName, blcontinue)
         == Creator1x15.NewContinueRequest(articleName, blcontinue) + [("bltitle", Enc(articleName))]
  {
  }

  /** No first-page request equals a continuation request, whatever the inputs. */
  lemma InitialIsNotContinue(c: Creator, d: Creator, articleName: string, filter: RedirectFilter,
                             namespaces: Option<seq<int>>, other: string, blcontinue: string)
    ensures c.NewInitialRequest(articleName, filter, namespaces) != d.NewContinueRequest(other, blcontinue)
  {
    var r := c.NewInitialRequest(articleName, filter, namespaces);
    var q := d.NewContinueRequest(other, blcontinue);
    assert r[4].0 != q[4].0;
  }
}
