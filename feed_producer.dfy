/** The per-item steps of the feed (feed-producer.go): turning stored scores
    into feed entries and filling in their titles. */
module FeedProducer {
  import opened Records
  import opened HtmlTitle

  /** scrapeTitle of the feed: the first text token after a title start tag,
      or "" when the stream ends first; it reports no error. */
  method ScrapeTitle(tokens: seq<Token>) returns (title: string)
    ensures title == TitleOrEmpty(tokens)
    ensures FindTitle(tokens).None? ==> title == ""
  {
    var titleIsNext := false;
    var k := 0;
    while true
      invariant 0 <= k <= |tokens|
      invariant Scan(tokens, k, titleIsNext) == FindTitle(tokens)
      decreases |tokens| - k
    {
      var token := At(tokens, k);
      if token.kind == ErrorToken {
        return "";
      } else if token.kind == StartTagToken {
        var isTitle := token.data == "title";
        if isTitle {
          titleIsNext := true;
        }
      } else if titleIsNext && token.kind == TextToken {
        return token.data;
      }
      k := k + 1;
    }
  }

  /** One goroutine of getTitles: a failed fetch drops the entry; an HTML page
      in UTF-8 sets the entry's title to the scraped one; any other content
      type forwards the entry unchanged. */
  method GetTitle(item: FeedEntry, fetch: Fetch) returns (forwarded: Option<FeedEntry>)
    ensures fetch.FetchError? ==> forwarded == None
    ensures fetch.Response? && IsHtmlUtf8(fetch.contentType) ==>
      forwarded == Some(item.(title := TitleOrEmpty(fetch.body)))
    ensures fetch.Response? && !IsHtmlUtf8(fetch.contentType) ==> forwarded == Some(item)
  {
    if fetch.FetchError? {
      return None;
    }
    var entry := item;
    if ToLower(fetch.contentType) == HtmlUtf8 {
      var title := ScrapeTitle(fetch.body);
      entry := entry.(title := title);
    }
    forwarded := Some(entry);
  }

  /** getContentFromDatastore's loop: one entry per stored score the query
      returns, in the query's order, linking to the address, dated by
      LastActive and identified by the record's key. */
  method ContentFromDatastore(results: seq<(string, TweetScore)>) returns (out: seq<FeedEntry>)
    ensures |out| == |results|
    ensures forall i :: 0 <= i < |results| ==>
      out[i].href == results[i].1.address && out[i].created == results[i].1.lastActive
      && out[i].id == results[i].0 && out[i].title == ""
  {
    out := [];
    for n := 0 to |results|
      invariant |out| == n
      invariant forall i :: 0 <= i < n ==>
        out[i].href == results[i].1.address && out[i].created == results[i].1.lastActive
        && out[i].id == results[i].0 && out[i].title == ""
    {
      var (key, score) := results[n];
      var entry := FeedEntry(score.address, score.lastActive, key, "");
      out := out + [entry];
    }
  }
}
