/** Records shared by the harvest, reduce and feed stages.

    Timestamps are whole seconds on one clock (the source uses time.Time);
    Go's int and int64 are modelled by unbounded int. */
module Records {

  datatype Option<T> = None | Some(value: T)

  /** The part of a Twitter status (anaconda.Tweet) that the pipeline reads.
      `urls` stands for Entities.Urls, the structured URL entities;
      `createdAt` is the already parsed CreatedAtTime(). */
  datatype Tweet = Tweet(
    id: int,
    text: string,
    createdAt: int,
    favoriteCount: int,
    retweetCount: int,
    userName: string,
    urls: seq<string>)

  /** A tweet together with the address extracted from it (link-tweet.go). */
  datatype LinkTweet = LinkTweet(address: string, tweet: Tweet, query: string, title: string)

  /** A link-tweet as written to the datastore (store-tweet.go). The `user`
      field is the one map-builder.go fills in from the tweet's author. */
  datatype StoreTweet = StoreTweet(
    address: string,
    text: string,
    tweetID: int,
    createdTime: int,
    retweets: int,
    favorites: int,
    query: string,
    user: string,
    title: string)

  /** The aggregated popularity of one address (tweet-score.go). */
  datatype TweetScore = TweetScore(
    address: string,
    score: int,
    lastActive: int,
    tweetIDs: seq<int>,
    query: string,
    title: string)

  /** The zero value of a TweetScore, as `&TweetScore{}` builds it. */
  const EmptyScore := TweetScore("", 0, 0, [], "", "")

  /** One entry of the output feed (the fields of feeds.Item the pipeline sets). */
  datatype FeedEntry = FeedEntry(href: string, created: int, id: string, title: string)
}
