/**
 * The backlinks query object: what it is constructed from, how it is copied,
 * and which request it sends next. The paging engine that drives it (storing
 * the token `parseHasMore` returns, fetching, buffering titles) is not part of
 * this model; `nextPageInfo` stands for the token that engine stores.
 */
module Backlinks {
  import opened Wrappers
  import opened Requests

  /** The bot a query runs against; only the version it reports matters here. */
  class MediaWikiBot {
    const version: Version

    constructor(version: Version)
      ensures this.version == version
    {
      this.version := version;
    }
  }

  class BacklinkTitles {
    const bot: MediaWikiBot
    const articleName: string
    const redirectFilter: RedirectFilter
    /** `None` stands for a null namespace array; `Some([])` for an empty one. */
    const namespaces: Option<seq<int>>
    const requestBuilder: Creator
    /** The continuation token of the page to fetch next; "" before the first page. */
    var nextPageInfo: string

    /** The creator is the one the bot's version selects, fixed for the query's lifetime. */
    ghost predicate Valid() {
      requestBuilder == CreateRequestBuilder(bot.version)
    }

    /** The query for `articleName`, with a redirect filter and optional namespaces. */
    constructor(bot: MediaWikiBot, articleName: string, redirectFilter: RedirectFilter,
                namespaces: Option<seq<int>>)
      ensures this.bot == bot && this.articleName == articleName
      ensures this.redirectFilter == redirectFilter && this.namespaces == namespaces
      ensures requestBuilder == CreateRequestBuilder(bot.version) && Valid()
      ensures nextPageInfo == ""
    {
      this.bot := bot;
      this.articleName := articleName;
      this.redirectFilter := redirectFilter;
      this.namespaces := namespaces;
      this.requestBuilder := CreateRequestBuilder(bot.version);
      this.nextPageInfo := "";
    }

    /** The two-argument form: every page regardless of redirects, no namespace parameter. */
    constructor ForArticle(bot: MediaWikiBot, articleName: string)
      ensures this.bot == bot && this.articleName == articleName
      ensures redirectFilter == All && namespaces == None
      ensures requestBuilder == CreateRequestBuilder(bot.version) && Valid()
      ensures nextPageInfo == ""
    {
      this.bot := bot;
      this.articleName := articleName;
      this.redirectFilter := All;
      this.namespaces := None;
      this.requestBuilder := CreateRequestBuilder(bot.version);
      this.nextPageInfo := "";
    }

    /** A new query from the same four inputs; it starts again from the first page. */
    method Clone() returns (c: BacklinkTitles)
      requires Valid()
      ensures fresh(c) && c.Valid()
      ensures c.bot == bot && c.articleName == articleName
      ensures c.redirectFilter == redirectFilter && c.namespaces == namespaces
      ensures c.requestBuilder == requestBuilder && c.nextPageInfo == ""
    {
      c := new BacklinkTitles(bot, articleName, redirectFilter, namespaces);
    }

    /**
     * The request for the next page: the continuation request when a token is
     * stored, the first-page request otherwise. Only a continuation request
     * carries `blcontinue`.
     */
    method PrepareCollection() returns (g: Get)
      ensures |nextPageInfo| > 0 ==> g == requestBuilder.NewContinueRequest(articleName, nextPageInfo)
      ensures |nextPageInfo| == 0 ==> g == requestBuilder.NewInitialRequest(articleName, redirectFilter, namespaces)
      ensures HasKey(g, "blcontinue") <==> |nextPageInfo| > 0
      ensures g[..4] == NewRequestBuilder()
    {
      if |nextPageInfo| > 0 {
        g := requestBuilder.NewContinueRequest(articleName, nextPageInfo);
        assert g[4].0 == "blcontinue";
      } else {
        g := requestBuilder.NewInitialRequest(articleName, redirectFilter, namespaces);
      }
    }
  }
}
