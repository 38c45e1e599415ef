/** The per-item steps of the harvest (map-builder.go): resolving a link and
    scraping its title, and turning link-tweets into records to store. */
module MapBuilder {
  import opened Records
  import opened HtmlTitle
  import opened StoreTweetScore
  import opened Reduce

  /** Why scrapeTitle gave no title. */
  datatype ScrapeError = WrongContentType(contentType: string) | TitleNotFound

  /** scrapeTitle: for an HTML page in UTF-8, the first text token after a
      title start tag; an error for any other content type (no token is read)
      or when the stream ends first. */
  method ScrapeTitle(contentType: string, tokens: seq<Token>) returns (title: string, err: Option<ScrapeError>)
    ensures !IsHtmlUtf8(contentType) ==> title == "" && err == Some(WrongContentType(contentType))
    ensures IsHtmlUtf8(contentType) && FindTitle(tokens).Some? ==> title == FindTitle(tokens).value && err == None
    ensures IsHtmlUtf8(contentType) && FindTitle(tokens).None? ==> title == "" && err == Some(TitleNotFound)
  {
    if ToLower(contentType) != HtmlUtf8 {
      return "", Some(WrongContentType(contentType));
    }
    var titleIsNext := false;
    var k := 0;
    while true
      invariant 0 <= k <= |tokens|
      invariant Scan(tokens, k, titleIsNext) == FindTitle(tokens)
      decreases |tokens| - k
    {
      var token := At(tokens, k);
      if token.kind == ErrorToken {
        return "", Some(TitleNotFound);
      } else if token.kind == StartTagToken {
        var isTitle := token.data == "title";
        if isTitle {
          titleIsNext := true;
        }
      } else if titleIsNext && token.kind == TextToken {
        return token.data, None;
      }
      k := k + 1;
    }
  }

  /** One goroutine of convertAddresses: a failed fetch drops the link-tweet;
      otherwise, when the final URL is not empty, the link-tweet takes that URL
      as its address, the harvest's query and the scraped title ("" when
      scraping fails) and is forwarded; an empty final URL drops it. */
  method ConvertAddress(tweet: LinkTweet, fetch: Fetch, query: string) returns (forwarded: Option<LinkTweet>)
    ensures fetch.FetchError? ==> forwarded == None
    ensures fetch.Response? && fetch.finalUrl == "" ==> forwarded == None
    ensures fetch.Response? && fetch.finalUrl != "" ==>
      forwarded == Some(tweet.(address := fetch.finalUrl, query := query,
                               title := if IsHtmlUtf8(fetch.contentType) then TitleOrEmpty(fetch.body) else ""))
  {
    if fetch.FetchError? {
      return None;
    }
    forwarded := None;
    if fetch.finalUrl != "" {
      var t := tweet;
      t := t.(address := fetch.finalUrl);
      t := t.(query := query);
      var title, err := ScrapeTitle(fetch.contentType, fetch.body);
      t := t.(title := title);
      forwarded := Some(t);
    }
  }

  /** The key WriteLinkTweet puts each record under: an incomplete key of kind
      "LinkTweet" below the fixed parent ("Tweets", "default_tweetstore"). */
  datatype EntityKey = IncompleteKey(kind: string, parentKind: string, parentName: string)

  const LinkTweetKey := IncompleteKey("LinkTweet", "Tweets", "default_tweetstore")

  /** The record stored for one link-tweet. It keeps everything the reduce
      stage and the feed read: the resolved address, the harvest's query, the
      tweet's ID and time, the title, and a score of its favourites plus one. */
  function ToStoreTweet(lt: LinkTweet): (r: StoreTweet)
    ensures GetScore(r) == lt.tweet.favoriteCount + 1
    ensures r.address == lt.address && r.query == lt.query && r.title == lt.title
    ensures r.tweetID == lt.tweet.id && r.createdTime == lt.tweet.createdAt
  {
    StoreTweet(lt.address, lt.tweet.text, lt.tweet.id, lt.tweet.createdAt, lt.tweet.retweetCount,
               lt.tweet.favoriteCount, lt.query, lt.tweet.userName, lt.title)
  }

  /** A stored link-tweet that is the only one for its address reduces to the
      score of its favourites plus one, dated by the tweet, under the harvest's
      query, with the tweet's ID as its only ID. */
  lemma StoredForReduce(lt: LinkTweet)
    ensures Accumulated([ToStoreTweet(lt)], lt.address)
         == TweetScore(lt.address, lt.tweet.favoriteCount + 1, lt.tweet.createdAt, [lt.tweet.id], lt.query, "")
  {
    var st := ToStoreTweet(lt);
    assert [st][..0] == [];
    assert Mentions([st], lt.address) == [st];
    assert TotalScore([st]) == GetScore(st);
  }

  /** WriteLinkTweet's loop: one key and one record per link-tweet received,
      in arrival order. The transaction that puts them is not modelled. */
  method WriteLinkTweet(tweets: seq<LinkTweet>) returns (keys: seq<EntityKey>, values: seq<StoreTweet>)
    ensures |keys| == |values| == |tweets|
    ensures forall i :: 0 <= i < |tweets| ==> keys[i] == LinkTweetKey && values[i] == ToStoreTweet(tweets[i])
  {
    keys, values := [], [];
    for n := 0 to |tweets|
      invariant |keys| == |values| == n
      invariant forall i :: 0 <= i < n ==> keys[i] == LinkTweetKey && values[i] == ToStoreTweet(tweets[i])
    {
      var tweet := tweets[n];
      var key := LinkTweetKey;
      var store := StoreTweet(tweet.address, tweet.tweet.text, tweet.tweet.id, tweet.tweet.createdAt,
                              tweet.tweet.retweetCount, tweet.tweet.favoriteCount, tweet.query,
                              tweet.tweet.userName, tweet.title);
      keys := keys + [key];
      values := values + [store];
    }
  }
}
