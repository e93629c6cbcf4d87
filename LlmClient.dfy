/**
 * `expandTopicWithLLM` and `summarizeArticle`, with the zod schemas they
 * validate against (`expandTopicSchema`, `summarizeArticleSchema`). The chat
 * completion call is replaced by its outcome, given as an input.
 */
module LlmClient {
  import opened Wrappers

  /** A JSON value as `JSON.parse` produces it (numbers kept as integers). */
  datatype Json =
    | JNull
    | JBool(b: bool)
    | JNumber(n: int)
    | JString(s: string)
    | JArray(items: seq<Json>)
    | JObject(fields: map<string, Json>)

  /** The outcome of one chat completion call. */
  datatype Reply =
    | CallFailed        // the client threw (network, quota, ...)
    | NoContent         // no first choice, no message, or empty content
    | Unparsable        // the content is not JSON: `JSON.parse` threw
    | Parsed(json: Json)

  /** `z.array(z.string())`: the strings of an array whose every item is a string. */
  function Strings(items: seq<Json>): (r: Option<seq<string>>)
    ensures r.Some? <==> forall i :: 0 <= i < |items| ==> items[i].JString?
    ensures r.Some? ==> |r.value| == |items| && forall i :: 0 <= i < |items| ==> items[i] == JString(r.value[i])
  {
    if items == [] then Some([])
    else if !items[0].JString? then None
    else
      var rest := Strings(items[1..]);
      assert forall i :: 1 <= i < |items| ==> items[i] == items[1..][i - 1];
      if rest.None? then None else Some([items[0].s] + rest.value)
  }

  /** The JSON array that carries a list of strings. */
  function StringArray(strs: seq<string>): (j: Json)
    ensures j.JArray? && |j.items| == |strs|
  {
    JArray(seq(|strs|, i requires 0 <= i < |strs| => JString(strs[i])))
  }

  lemma StringsRoundTrip(strs: seq<string>)
    ensures Strings(StringArray(strs).items) == Some(strs)
  {
    var r := Strings(StringArray(strs).items);
    assert r.Some?;
    assert r.value == strs;
  }

  /** `z.object({ keywords: z.array(z.string()) })`: the keywords of an accepted value. */
  function ExpandTopicSchema(v: Json): (r: Option<seq<string>>)
    ensures r.Some? <==>
      && v.JObject? && "keywords" in v.fields && v.fields["keywords"].JArray?
      && forall i :: 0 <= i < |v.fields["keywords"].items| ==> v.fields["keywords"].items[i].JString?
    ensures r.Some? ==> Strings(v.fields["keywords"].items) == r
  {
    if v.JObject? && "keywords" in v.fields && v.fields["keywords"].JArray? then
      Strings(v.fields["keywords"].items)
    else None
  }

  /** `SummarizationResult`. */
  datatype Summary = Summary(summary: string, keywords: seq<string>)

  /** `z.object({ summary: z.string(), keywords: z.array(z.string()) })`; unknown keys are dropped. */
  function SummarizeArticleSchema(v: Json): (r: Option<Summary>)
    ensures r.Some? <==>
      && v.JObject? && "summary" in v.fields && v.fields["summary"].JString?
      && "keywords" in v.fields && v.fields["keywords"].JArray?
      && forall i :: 0 <= i < |v.fields["keywords"].items| ==> v.fields["keywords"].items[i].JString?
    ensures r.Some? ==>
      && JString(r.value.summary) == v.fields["summary"]
      && Strings(v.fields["keywords"].items) == Some(r.value.keywords)
  {
    if v.JObject? && "summary" in v.fields && v.fields["summary"].JString?
      && "keywords" in v.fields && v.fields["keywords"].JArray?
    then
      match Strings(v.fields["keywords"].items)
      case Some(kws) => Some(Summary(v.fields["summary"].s, kws))
      case None => None
    else None
  }

  /** The keywords a reply validates to, if it does. */
  function ValidKeywords(reply: Reply): Option<seq<string>> {
    if reply.Parsed? then ExpandTopicSchema(reply.json) else None
  }

  /** `expandTopicWithLLM(topic)` given the outcome of the completion call. */
  function ExpandTopic(topic: string, reply: Reply): (r: seq<string>)
    ensures |r| >= 1 && r[0] == topic
    ensures ValidKeywords(reply).Some? ==> r[1..] == ValidKeywords(reply).value
    ensures ValidKeywords(reply).None? ==> r == [topic]
  {
    match ValidKeywords(reply)
    case Some(keywords) => [topic] + keywords
    case None => [topic]
  }

  /** The reply body `{"keywords": [...]}` carrying the given keywords. */
  function KeywordsReply(keywords: seq<string>): Json {
    JObject(map["keywords" := StringArray(keywords)])
  }

  /** The model's keywords come back after the topic, all of them and in their order. */
  lemma ExpandTopicKeepsKeywords(topic: string, keywords: seq<string>)
    ensures ExpandTopic(topic, Parsed(KeywordsReply(keywords))) == [topic] + keywords
  {
    StringsRoundTrip(keywords);
  }

  /** The topic is prepended without removing it from the keywords. */
  lemma ExpandTopicNoDedup(topic: string, reply: Reply)
    requires ValidKeywords(reply).Some?
    ensures multiset(ExpandTopic(topic, reply))[topic] == 1 + multiset(ValidKeywords(reply).value)[topic]
  {
  }

  const FallbackSummary := Summary("Failed to generate a summary for this article.", [])

  /** `summarizeArticle(title, content)` given the outcome of the completion call. */
  function SummarizeArticle(reply: Reply): (r: Summary)
    ensures reply.Parsed? && SummarizeArticleSchema(reply.json).Some? ==> r == SummarizeArticleSchema(reply.json).value
    ensures !(reply.Parsed? && SummarizeArticleSchema(reply.json).Some?) ==> r == FallbackSummary
  {
    if reply.Parsed? then
      match SummarizeArticleSchema(reply.json)
      case Some(s) => s
      case None => FallbackSummary
    else FallbackSummary
  }

  /** The reply body `{"summary": ..., "keywords": [...]}` carrying a summary. */
  function SummaryReply(s: Summary): Json {
    JObject(map["summary" := JString(s.summary), "keywords" := StringArray(s.keywords)])
  }

  /** A well-formed reply is returned exactly as the model wrote it. */
  lemma SummarizeArticleRoundTrip(s: Summary)
    ensures SummarizeArticle(Parsed(SummaryReply(s))) == s
  {
    StringsRoundTrip(s.keywords);
  }
}
