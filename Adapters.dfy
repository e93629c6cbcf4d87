/**
 * The three source adapters (NewsAPI, HackerNews, Wikipedia). Every HTTP
 * call is replaced by its outcome, given as an input: either the request
 * failed (network error, error status, a body of the wrong shape that makes
 * the handler throw) or a body was received. What remains is the mapping,
 * filtering and fallback logic around those calls.
 */
module Adapters {
  import opened Wrappers
  import opened Text
  import opened Articles

  /** The outcome of one HTTP request. */
  datatype Http<T> = Failed | Received(data: T)

  /** A field that may be absent is present and non-empty: a truthy string. */
  predicate Truthy(value: Option<string>) {
    value.Some? && value.value != ""
  }

  /** `value || fallback` for a field that may be absent: absent and `""` are both falsy. */
  function OrElse(value: Option<string>, fallback: string): string {
    if Truthy(value) then value.value else fallback
  }

  const NoContentText := "No content available."

  // ---------------------------------------------------------------- NewsAPI

  /** One entry of the `articles` array of a NewsAPI answer. */
  datatype NewsItem = NewsItem(title: string, url: string, content: Option<string>, description: Option<string>)

  /** The body of a NewsAPI answer; `articles` may be missing. */
  datatype NewsBody = NewsBody(articles: Option<seq<NewsItem>>)

  function NewsArticle(item: NewsItem): (r: RawArticle)
    ensures r.source == NewsAPI && r.title == item.title && r.url == item.url
    ensures Truthy(item.content) ==> r.content == item.content.value
    ensures !Truthy(item.content) && Truthy(item.description) ==> r.content == item.description.value
    ensures !Truthy(item.content) && !Truthy(item.description) ==> r.content == NoContentText
    ensures r.content != ""
  {
    RawArticle(NewsAPI, item.title, item.url, OrElse(item.content, OrElse(item.description, NoContentText)))
  }

  /**
   * `fetchFromNewsAPI(topic)`: `apiKey` is the configured key (absent or empty
   * means no request is made), `response` the outcome of the search request.
   */
  function FetchFromNewsAPI(apiKey: Option<string>, response: Http<NewsBody>): (r: seq<RawArticle>)
    ensures !Truthy(apiKey) ==> r == []
    ensures response.Failed? || response.data.articles.None? ==> r == []
    ensures Truthy(apiKey) && response.Received? && response.data.articles.Some? ==>
      var items := response.data.articles.value;
      |r| == |items| && forall i :: 0 <= i < |items| ==> r[i] == NewsArticle(items[i])
    ensures forall a :: a in r ==> a.source == NewsAPI && a.content != ""
  {
    if !Truthy(apiKey) then []
    else
      match response
      case Failed => []
      case Received(body) =>
        match body.articles
        case None => []
        case Some(items) => seq(|items|, i requires 0 <= i < |items| => NewsArticle(items[i]))
  }

  // ------------------------------------------------------------- HackerNews

  /** The item a HackerNews item request returns; any field may be missing. */
  datatype HnItem = HnItem(title: Option<string>, url: Option<string>, text: Option<string>)

  /** What `getHackerNewsStory` returns for a usable story. */
  datatype HnStory = HnStory(title: string, url: string, text: string)

  /** `getHackerNewsStory(id)` given the outcome of the item request (a `null` body is `None`). */
  function GetHackerNewsStory(response: Http<Option<HnItem>>): (r: Option<HnStory>)
    ensures r.Some? <==>
      response.Received? && response.data.Some? && Truthy(response.data.value.title) && Truthy(response.data.value.url)
    ensures r.Some? ==>
      var item := response.data.value;
      && r.value.title == item.title.value && r.value.url == item.url.value
      && r.value.text == (if Truthy(item.text) then item.text.value else "")
  {
    match response
    case Failed => None
    case Received(None) => None
    case Received(Some(item)) =>
      if Truthy(item.title) && Truthy(item.url) then Some(HnStory(item.title.value, item.url.value, OrElse(item.text, "")))
      else None
  }

  /** The title of a kept story contains the topic, ignoring case. */
  predicate TopicInTitle(topic: string, title: string) {
    ContainsIgnoringCase(title, topic)
  }

  /** The article one story request contributes: the filter and the map of `fetchFromHackerNews` for one id. */
  function HnResult(topic: string, response: Http<Option<HnItem>>): (r: Option<RawArticle>)
    ensures r.Some? <==>
      GetHackerNewsStory(response).Some? && TopicInTitle(topic, GetHackerNewsStory(response).value.title)
    ensures r.Some? ==>
      var story := GetHackerNewsStory(response).value;
      r.value == RawArticle(HackerNews, story.title, story.url, if story.text != "" then story.text else NoContentText)
    ensures r.Some? ==>
      && r.value.source == HackerNews && TopicInTitle(topic, r.value.title)
      && r.value.title != "" && r.value.url != "" && r.value.content != ""
  {
    match GetHackerNewsStory(response)
    case None => None
    case Some(story) =>
      if TopicInTitle(topic, story.title) then
        Some(RawArticle(HackerNews, story.title, story.url, OrElse(Some(story.text), NoContentText)))
      else None
  }

  /** The kept stories among `ids`, in the order of `ids`; `fetch` gives the outcome of each item request. */
  function HnCollect(topic: string, ids: seq<int>, fetch: int -> Http<Option<HnItem>>): (r: seq<RawArticle>)
    ensures |r| <= |ids|
    ensures forall a :: a in r <==> exists i :: 0 <= i < |ids| && HnResult(topic, fetch(ids[i])) == Some(a)
  {
    if ids == [] then []
    else
      var rest := HnCollect(topic, ids[1..], fetch);
      assert forall i :: 1 <= i < |ids| ==> ids[i] == ids[1..][i - 1];
      match HnResult(topic, fetch(ids[0]))
      case Some(a) => [a] + rest
      case None => rest
  }

  /** Collecting over two runs of ids is collecting over each in turn: the top-stories order is kept. */
  lemma {:induction false} HnCollectAppend(topic: string, xs: seq<int>, ys: seq<int>, fetch: int -> Http<Option<HnItem>>)
    ensures HnCollect(topic, xs + ys, fetch) == HnCollect(topic, xs, fetch) + HnCollect(topic, ys, fetch)
  {
    if xs == [] {
      assert xs + ys == ys;
    } else {
      assert (xs + ys)[0] == xs[0];
      assert (xs + ys)[1..] == xs[1..] + ys;
      HnCollectAppend(topic, xs[1..], ys, fetch);
    }
  }

  /** Only the item requests for the listed ids matter. */
  lemma {:induction false} HnCollectOnlyListed(topic: string, ids: seq<int>, f: int -> Http<Option<HnItem>>, g: int -> Http<Option<HnItem>>)
    requires forall i :: 0 <= i < |ids| ==> f(ids[i]) == g(ids[i])
    ensures HnCollect(topic, ids, f) == HnCollect(topic, ids, g)
  {
    if ids != [] {
      assert forall i :: 0 <= i < |ids[1..]| ==> ids[1..][i] == ids[i + 1];
      HnCollectOnlyListed(topic, ids[1..], f, g);
    }
  }

  const TopStoriesLimit := 30

  /** The ids `fetchFromHackerNews` looks at: the first 30 top stories. */
  function FirstStories(ids: seq<int>): (r: seq<int>)
    ensures |r| <= TopStoriesLimit && r <= ids
    ensures |ids| >= TopStoriesLimit ==> |r| == TopStoriesLimit
    ensures |ids| < TopStoriesLimit ==> r == ids
  {
    if |ids| <= TopStoriesLimit then ids else ids[..TopStoriesLimit]
  }

  /**
   * `fetchFromHackerNews(topic)`: `topStories` is the outcome of the
   * top-stories request, `fetch` that of each item request.
   */
  function FetchFromHackerNews(topic: string, topStories: Http<seq<int>>, fetch: int -> Http<Option<HnItem>>): (r: seq<RawArticle>)
    ensures topStories.Failed? ==> r == []
    ensures |r| <= TopStoriesLimit
    ensures forall a :: a in r ==>
      && a.source == HackerNews && TopicInTitle(topic, a.title)
      && a.title != "" && a.url != "" && a.content != ""
    ensures topStories.Received? ==> forall a :: a in r <==>
      exists i :: 0 <= i < |topStories.data| && i < TopStoriesLimit && HnResult(topic, fetch(topStories.data[i])) == Some(a)
  {
    match topStories
    case Failed => []
    case Received(ids) =>
      var first := FirstStories(ids);
      var r := HnCollect(topic, first, fetch);
      assert forall i :: 0 <= i < |first| ==> first[i] == ids[i];
      r
  }

  /** Item requests for ids past the thirtieth top story never change the result. */
  lemma HackerNewsIgnoresLaterStories(topic: string, ids: seq<int>, f: int -> Http<Option<HnItem>>, g: int -> Http<Option<HnItem>>)
    requires forall i :: 0 <= i < |ids| && i < TopStoriesLimit ==> f(ids[i]) == g(ids[i])
    ensures FetchFromHackerNews(topic, Received(ids), f) == FetchFromHackerNews(topic, Received(ids), g)
  {
    var first := FirstStories(ids);
    assert forall i :: 0 <= i < |first| ==> first[i] == ids[i];
    HnCollectOnlyListed(topic, first, f, g);
  }

  /** The HackerNews results are those of the first 30 ids, taken in top-stories order. */
  lemma HackerNewsKeepsOrder(topic: string, ids: seq<int>, fetch: int -> Http<Option<HnItem>>, k: nat)
    requires k <= |FirstStories(ids)|
    ensures FetchFromHackerNews(topic, Received(ids), fetch)
      == HnCollect(topic, FirstStories(ids)[..k], fetch) + HnCollect(topic, FirstStories(ids)[k..], fetch)
  {
    var first := FirstStories(ids);
    assert first == first[..k] + first[k..];
    HnCollectAppend(topic, first[..k], first[k..], fetch);
  }

  // -------------------------------------------------------------- Wikipedia

  /**
   * `html.replace(/<[^>]*>?/gm, "")`: every `<` starts a match that runs to
   * the next `>` inclusive, or to the end of the text when there is none.
   */
  function StripHtml(s: string): (r: string)
    ensures '<' !in r
    ensures |r| <= |s|
    decreases |s|
  {
    if s == [] then []
    else if s[0] == '<' then StripHtml(SkipTag(s[1..]))
    else [s[0]] + StripHtml(s[1..])
  }

  /** What follows a tag opened by `<`: the text after the first `>`, or nothing. */
  function SkipTag(s: string): (r: string)
    ensures |r| <= |s|
    ensures '>' !in s ==> r == []
    ensures '>' in s ==>
      var k := |s| - |r| - 1;
      0 <= k && s[k] == '>' && '>' !in s[..k] && r == s[k + 1..]
  {
    if s == [] then []
    else if s[0] == '>' then s[1..]
    else SkipTag(s[1..])
  }

  /** Text before the first `<` passes through unchanged. */
  lemma {:induction false} StripHtmlKeepsPlainPrefix(plain: string, rest: string)
    requires '<' !in plain
    ensures StripHtml(plain + rest) == plain + StripHtml(rest)
  {
    if plain == [] {
      assert plain + rest == rest;
    } else {
      var s := plain + rest;
      assert s[0] == plain[0] && plain[0] != '<';
      assert s[1..] == plain[1..] + rest;
      assert '<' !in plain[1..];
      StripHtmlKeepsPlainPrefix(plain[1..], rest);
      calc {
        StripHtml(s);
        [plain[0]] + StripHtml(plain[1..] + rest);
        [plain[0]] + (plain[1..] + StripHtml(rest));
        { assert [plain[0]] + plain[1..] == plain; }
        plain + StripHtml(rest);
      }
    }
  }

  /** A complete tag is removed with everything inside it (an unclosed one with the rest of the text, see SkipTag). */
  lemma StripHtmlDropsTag(tag: string, rest: string)
    requires '>' !in tag
    ensures StripHtml("<" + tag + ">" + rest) == StripHtml(rest)
  {
    var s := "<" + tag + ">" + rest;
    assert s[1..] == tag + ">" + rest;
    SkipTagPast(tag, rest);
  }

  lemma {:induction false} SkipTagPast(tag: string, rest: string)
    requires '>' !in tag
    ensures SkipTag(tag + ">" + rest) == rest
  {
    if tag == [] {
      assert tag + ">" + rest == ">" + rest;
    } else {
      assert (tag + ">" + rest)[1..] == tag[1..] + ">" + rest;
      SkipTagPast(tag[1..], rest);
    }
  }

  /** Text with no `<` is left alone; hence stripping twice is stripping once. */
  lemma {:induction false} StripHtmlIdentity(s: string)
    requires '<' !in s
    ensures StripHtml(s) == s
  {
    StripHtmlKeepsPlainPrefix(s, []);
    assert s + [] == s;
  }

  lemma StripHtmlIdempotent(s: string)
    ensures StripHtml(StripHtml(s)) == StripHtml(s)
  {
    StripHtmlIdentity(StripHtml(s));
  }

  /** One hit of `query.search`; a hit without a snippet makes `stripHtml` throw. */
  datatype WikiHit = WikiHit(title: string, pageid: nat, snippet: Option<string>)

  /** The body of a Wikipedia search answer: `query` may be missing, and so may `query.search`. */
  datatype WikiBody = NoQuery | Query(search: Option<seq<WikiHit>>)

  const WikiUrlPrefix := "https://en.wikipedia.org/?curid="

  function WikiUrl(pageid: nat): (r: string)
    ensures WikiUrlPrefix <= r && AllDigits(r[|WikiUrlPrefix|..])
    ensures |r| > |WikiUrlPrefix| && (r[|WikiUrlPrefix|] == '0' ==> r == WikiUrlPrefix + "0")
  {
    WikiUrlPrefix + DecimalString(pageid)
  }

  /** The page id a Wikipedia article url points at. */
  function PageIdOf(url: string): Option<nat> {
    if WikiUrlPrefix <= url then ParseDecimal(url[|WikiUrlPrefix|..]) else None
  }

  lemma WikiUrlRoundTrip(pageid: nat)
    ensures PageIdOf(WikiUrl(pageid)) == Some(pageid)
  {
    assert WikiUrl(pageid)[|WikiUrlPrefix|..] == DecimalString(pageid);
    DecimalRoundTrip(pageid);
  }

  /** Distinct pages get distinct urls. */
  lemma WikiUrlInjective(a: nat, b: nat)
    requires WikiUrl(a) == WikiUrl(b)
    ensures a == b
  {
    WikiUrlRoundTrip(a);
    WikiUrlRoundTrip(b);
  }

  function WikiArticle(hit: WikiHit): (r: RawArticle)
    requires hit.snippet.Some?
    ensures r.source == Wikipedia && r.title == hit.title
    ensures r.url == WikiUrl(hit.pageid) && PageIdOf(r.url) == Some(hit.pageid)
    ensures r.content == StripHtml(hit.snippet.value) + "..."
    ensures '<' !in r.content
  {
    WikiUrlRoundTrip(hit.pageid);
    RawArticle(Wikipedia, hit.title, WikiUrl(hit.pageid), StripHtml(hit.snippet.value) + "...")
  }

  predicate AllHaveSnippets(hits: seq<WikiHit>) {
    forall i :: 0 <= i < |hits| ==> hits[i].snippet.Some?
  }

  /** `fetchFromWikipedia(topic)` given the outcome of the search request. */
  function FetchFromWikipedia(response: Http<WikiBody>): (r: seq<RawArticle>)
    ensures response.Failed? || response.data.NoQuery? || response.data.search.None? ==> r == []
    ensures response.Received? && response.data.Query? && response.data.search.Some? ==>
      var hits := response.data.search.value;
      && (AllHaveSnippets(hits) ==> |r| == |hits| && forall i :: 0 <= i < |hits| ==> r[i] == WikiArticle(hits[i]))
      && (!AllHaveSnippets(hits) ==> r == [])
    ensures forall a :: a in r ==> a.source == Wikipedia && PageIdOf(a.url).Some? && '<' !in a.content
  {
    match response
    case Failed => []
    case Received(NoQuery) => []
    case Received(Query(None)) => []
    case Received(Query(Some(hits))) =>
      if AllHaveSnippets(hits) then seq(|hits|, i requires 0 <= i < |hits| => WikiArticle(hits[i]))
      else []
  }
}
