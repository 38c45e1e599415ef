/** Accept/forward filtering of raw tweets (filter.go, url_filter.go). The Go
    Filter interface is a function value here; URLFilter is its one
    implementation. */
module Filters {
  import opened Records
  import opened Channels

  /** URLFilter.Filter: a tweet passes when it carries at least one URL
      entity; URLs that only appear in the text do not count. */
  function URLFilter(tweet: Tweet): (accepted: bool)
    ensures accepted <==> tweet.urls != []
  {
    |tweet.urls| > 0
  }

  /** A tweet whose text holds a link but which has no URL entity is rejected. */
  lemma LinkInTextOnlyRejected(tweet: Tweet)
    requires tweet.urls == []
    requires |tweet.text| >= 7 && tweet.text[..7] == "http://"
    ensures !URLFilter(tweet)
  {
  }

  /** FilterTweet: sends the tweet itself on `out` when the filter accepts it,
      and sends nothing otherwise. */
  method FilterTweet(tweet: Tweet, filterer: Tweet -> bool, out: Channel<Tweet>)
    requires !out.closed
    modifies out
    ensures out.items == old(out.items) + (if filterer(tweet) then [tweet] else [])
    ensures !out.closed
  {
    if filterer(tweet) {
      out.Send(tweet);
    }
  }

  /** The filter's own test: a tweet without a link and then one with a URL
      entity go through URLFilter; the first tweet received is the linked one. */
  method URLFilterScenario(noLink: Tweet, withLink: Tweet) returns (received: Tweet, queued: nat)
    requires noLink.urls == [] && withLink.urls != []
    ensures received == withLink && queued == 1
  {
    var out := new Channel<Tweet>();
    FilterTweet(noLink, URLFilter, out);
    FilterTweet(withLink, URLFilter, out);
    received, queued := out.items[0], |out.items|;
  }
}
