# TweetHarvest link aggregation, modelled in Dafny

TweetHarvest searches Twitter for a keyword. It keeps the tweets that carry
a link and resolves each link to its final address. It scrapes the page
title, stores one record per link-tweet, and later folds the stored tweets
into one popularity score per address, which an RSS feed republishes.

This project models the per-item logic inside that pipeline and proves
properties of it:

- the cut-off of a result page at the watermark, and the pagination loop
  around it, in both revisions of the retriever;
- the URL filter and the forwarding step;
- the multimap of address to tweet IDs;
- the title scraper's token state machine, in both of its variants, with the
  content-type test;
- the per-item resolve and title rules of the harvest and the feed;
- the construction of the stored records;
- the score fold, the decision of what to write back for each address, and
  the watermark;
- the sortable slice of feed items.

Channels are modelled as `Channel` objects whose `items` sequence grows with
every send. A per-item goroutine becomes a method that returns the item it
forwards, or `None`. Datastore reads, Twitter responses and HTTP fetches are
parameters. Timestamps are integers (seconds), and "now" is a parameter.

Modules: `Records` (shared records), `Channels`, `StoreTweetScore`
(store-tweet.go), `Reduce` (reduce.go), `TweetMaps` (tweetmap.go), `Filters`
(filter.go, url_filter.go), `Retriever` (tweet-retreiver.go), `RetrieverV1`
(TweetRetriever.go), `FeedItems` (feed-items.go), `HtmlTitle` (the title
scan and content-type test that both scrapers share), `MapBuilder`
(map-builder.go) and `FeedProducer` (feed-producer.go).

## Behaviour as written

The model follows the code. In these places the code does not do what its
comments and names suggest, and lemmas exhibit the code's behaviour:

- When a record already exists for an address, the reduce step overwrites it
  rather than adding to it, although the comment at reduce.go:118 says it
  increments the score. The new record holds only the new score, time and
  IDs, and its address and query are empty (`Reduce.PriorRecordDiscarded`,
  `Reduce.SecondRunOverwrites`).
- An address's LastActive is the time of the last tweet folded in, not the
  maximum over its tweets (`Reduce.LastActiveNotMaximum`).
- The retriever reads exactly one page, because `cont` is overwritten with
  false, so `GetNext` is never called (`Retriever.TweetRetriever.GetTweets`,
  `RetrieverV1.GetTweets`).
- `FeedItems.Less` compares an item's score with itself and is always false.

Two more points the model settles, which are not at odds with any comment:

- Tweet IDs are appended as they arrive, so a tweet folded twice is listed
  and scored twice (`Reduce.TweetIDsKeepDuplicates`,
  `TweetMaps.AddTwiceKeepsDuplicate`).
- map-builder.go:186 sets a `User` field that the `StoreTweet` struct in
  store-tweet.go does not declare. The model gives `StoreTweet` a `user`
  field so that the record keeps the author's name, as map-builder.go intends.

## Model

| member | source | states |
|---|---|---|
| StoreTweetScore.GetScore | store-tweet.go:19-21 | a tweet's score is its favourite count plus one, so at least 1 when favourites are not negative |
| StoreTweetScore.ScoreDependsOnlyOnFavorites | store-tweet.go:20 | two stored tweets with the same favourite count score the same, whatever their other fields |
| StoreTweetScore.ScoreStrictlyIncreasing | store-tweet.go:20 | more favourites give a strictly higher score |
| Reduce.CalculateNewScores | reduce.go:52-88 | one accumulator is sent per distinct input address and none for other addresses; each equals the fold of the tweets for that address (`Accumulated`) |
| Reduce.SendAll | reduce.go:82-87 | ranging over the score map sends every accumulator exactly once, with distinct addresses |
| Reduce.FoldStep | reduce.go:64-79 | one more tweet creates its address's accumulator if missing and adds its score, time and ID to it; other addresses keep theirs |
| Reduce.MentionsExact | reduce.go:64-68 | the tweets folded into an address are exactly the input tweets carrying that address |
| Reduce.TotalScoreBounds | reduce.go:76 | a sum of Favorites+1 over non-negative favourite counts is at least the number of tweets |
| Reduce.ScoreAtLeastMentionCount | reduce.go:76 | an address's score is at least the number of tweets that mention it, and at least 1 |
| Reduce.LastActiveIsLastMention | reduce.go:77 | LastActive is the CreatedTime of the last input tweet with that address |
| Reduce.LastActiveNotMaximum | reduce.go:77 | an older tweet that comes later sets LastActive below the address's newest time |
| Reduce.TweetIDsKeepDuplicates | reduce.go:76-78 | a tweet seen twice contributes its ID twice and its score twice |
| Reduce.Fresh | reduce.go:68-73 | the accumulator made for a new address starts at score 0 with no IDs, and after that tweet's update equals the fold of that tweet alone |
| Reduce.Step | reduce.go:76-78 | one tweet's update keeps Address and Query, appends the tweet's ID, raises the score when favourites are not negative, and sets LastActive to the tweet's time whether or not it is newer |
| Reduce.QueryFromFirstMention | reduce.go:68-73 | for every input, an accumulator's Query is that of the first input tweet carrying its address |
| Reduce.UpdateDataStoreScore | reduce.go:104-124 | with no prior record, the new score is written under a new key with an empty title; otherwise only Score, LastActive and TweetIDs are written, with empty Address and Query, under the key Next returned: the found record's key, the key of a record that failed to load, or the nil key when the fetch failed |
| Reduce.Put | reduce.go:127 | a put under a new key adds a record, under an existing key replaces it, under the nil key changes nothing; other records are untouched |
| Reduce.PriorRecordDiscarded | reduce.go:117-124 | the record written over an existing one does not depend on the existing record |
| Reduce.SecondRunOverwrites | reduce.go:106-127 | a second run over an address replaces the first run's score 2 with 5 instead of adding, and blanks the address and query |
| Reduce.LatestActive | reduce.go:133-137 | the result is the largest LastActive of the stored scores and is one of them |
| Reduce.LastProcessedTweet | reduce.go:131-146 | the watermark is the newest LastActive of any stored score, or one day before now when none is stored |
| Reduce.WatermarkIgnoresQuery | reduce.go:133 | changing every stored score's query does not change the watermark |
| TweetMaps.TweetMap.Add | tweetmap.go:7-13 | after Add, the address's list is the old list (empty if absent) with the ID appended; no other key changes |
| TweetMaps.AddAppends | tweetmap.go:8-12 | Add makes the list one longer, puts the ID last and keeps the earlier IDs |
| TweetMaps.AddToEmptyKey | tweetmap.go:12 | adding to an absent or empty key gives the one-element list |
| TweetMaps.AddLeavesOtherKeys | tweetmap.go:7-13 | the other keys and their lists are unchanged |
| TweetMaps.AddTwiceKeepsDuplicate | tweetmap.go:9 | the same ID added twice is listed twice |
| TweetMaps.AddScenario | tweetmap_test.go:5-22 | two adds under one key and one under another give lists of lengths 2 and 1 |
| Filters.URLFilter | url_filter.go:10-12 | a tweet passes exactly when it has a URL entity |
| Filters.LinkInTextOnlyRejected | url_filter.go:11 | a tweet with a link in its text but no URL entity is rejected |
| Filters.FilterTweet | filter.go:12-16 | the tweet itself is sent on the channel when the filter accepts it; nothing is sent otherwise |
| Filters.URLFilterScenario | url_filter_test.go:27-41 | filtering a no-link tweet and then a linked one leaves exactly the linked one on the channel |
| Retriever.NewerPrefix | tweet-retreiver.go:60-67 | the emitted tweets are a prefix of the page, all strictly after the cutoff, and stop only at the end of the page or at a tweet at or before the cutoff |
| Retriever.NewerPrefixUpTo | tweet-retreiver.go:60-67 | that prefix is exactly the tweets before the first one at or before the cutoff |
| Retriever.StopsAtFirstOld | tweet-retreiver.go:64-65 | nothing from the first tweet at or before the cutoff onwards is emitted, even newer tweets |
| Retriever.EarlyStopBoundary | tweet-retreiver.go:60-67 | tweets dated t5 > t4 > t3 > t2 > t1 with cutoff t3 emit exactly t5, t4 |
| Retriever.TweetRetriever.AddIfNewerThan | tweet-retreiver.go:56-69 | sends the newer prefix of the page on `out`, and returns true exactly when the whole page passed |
| Retriever.TweetRetriever.GetTweets | tweet-retreiver.go:20-54 | a search error sends nothing and leaves `out` open; otherwise only the first page is processed, GetNext is never called, and `out` is closed |
| RetrieverV1.AddIfNewerThan | TweetRetriever.go:56-70 | sends the newer prefix of the page on `output`, and returns true exactly when the whole page passed |
| RetrieverV1.GetTweets | TweetRetriever.go:19-54 | a search error sends nothing; otherwise only the first page is processed, GetNext is never called, and `out` is closed |
| FeedItems.Len | feed-items.go:7-9 | the number of items in the slice |
| FeedItems.Less | feed-items.go:12-14 | never true, since it compares s[i].Score with itself; only i must be in range |
| FeedItems.LessIgnoresScores | feed-items.go:13 | items with different scores are not ordered either way |
| FeedItems.Swap | feed-items.go:16-18 | the slice afterwards is the old one with positions i and j exchanged |
| FeedItems.SwappedPositions | feed-items.go:17 | the items at i and j trade places; the length and every other position are unchanged |
| FeedItems.SwappedIsPermutation | feed-items.go:17 | swapping keeps the multiset of items |
| FeedItems.SwappedInvolution | feed-items.go:17 | Swap(i, i) changes nothing, and the same swap twice restores the slice |
| HtmlTitle.Scan | map-builder.go:134-152 | the token loop's title is the text of a later text token, and without the flag set a title start tag must still come |
| HtmlTitle.ScanFindsTitle | map-builder.go:134-152 | the token loop, started in the state reached so far, finds exactly the first text token after a title start tag, before any error token |
| HtmlTitle.FindTitleCorrect | map-builder.go:133-153 | the scan yields t exactly when the first text token after a title start tag, with no error token before it, holds t |
| HtmlTitle.TextBeforeTitleIgnored | map-builder.go:148 | text before the title start tag is skipped |
| HtmlTitle.FlagNeverCleared | map-builder.go:134-147 | in `<title></title><p>x`, "x" is the title |
| HtmlTitle.NoTitleWithoutText | map-builder.go:138-140 | a stream with no text token has no title |
| HtmlTitle.IsHtmlUtf8 | map-builder.go:127 | a header passes exactly when it has the length of "text/html; charset=utf-8" and each character is that string's character or its capital |
| HtmlTitle.ContentTypeExamples | map-builder.go:127 | the content-type test ignores case but not spacing or parameters |
| MapBuilder.ScrapeTitle | map-builder.go:124-154 | a content type other than "text/html; charset=utf-8" (any case) gives "" and an error; otherwise the scanned title, or "" and an error when the stream ends first |
| MapBuilder.ConvertAddress | map-builder.go:95-116 | a fetch error or an empty final URL drops the link-tweet; otherwise it is forwarded with the final URL, the harvest's query and the scraped title, or "" when scraping fails |
| MapBuilder.ToStoreTweet | map-builder.go:179-188 | the stored record copies every field of the link-tweet (address, text, ID, time, retweets, favourites, query, user name, title); its score is favourites plus one |
| MapBuilder.StoredForReduce | map-builder.go:179-188 | a stored link-tweet alone reduces to favourites plus one, dated by the tweet, under the harvest's query, with its ID as the only ID |
| MapBuilder.WriteLinkTweet | map-builder.go:157-198 | one key and one record per link-tweet, in arrival order; every key is an incomplete LinkTweet key under the tweet store |
| FeedProducer.ScrapeTitle | feed-producer.go:118-141 | the scanned title, or "" with no error when the stream ends first |
| FeedProducer.GetTitle | feed-producer.go:93-110 | a fetch error drops the entry; an HTML UTF-8 page sets its title to the scraped one; any other content type forwards it unchanged |
| FeedProducer.ContentFromDatastore | feed-producer.go:62-79 | one entry per stored score in query order, linking to Address, dated LastActive, identified by the key, with no title |

## Left out

- The goroutine, channel and WaitGroup topology and every ServeHTTP handler.
  Their point is concurrency and HTTP. The per-item steps are modelled one at
  a time, and the order in which concurrent goroutines deliver items is not.
- Datastore queries, keys and transactions are inputs. This covers
  GetAllNewTweets, the lookup in updateDataStoreScore, the seven-day feed
  query and the PutMulti transaction. data-access.go is not part of this model.
- Reduce.UpdateDataStoreScore: the App Engine iterator is not part of this
  model. Its behaviour is assumed as follows. A record that fails to load
  comes with its key, and that key is overwritten. A failed fetch comes with a
  nil key, and `Reduce.Put` assumes the datastore rejects a put under it, so
  nothing is written.
- Twitter API calls and credentials. The search response and the pages
  GetNext would return are the `pages` parameter.
- Extracting the raw URL from tweet text (the xurls library, link-tweet.go,
  harvest.go). The library's behaviour is not available.
- The HTML tokenizer. Its output is a `Token` sequence, and the end of the
  sequence stands for the ErrorToken it returns at EOF.
- RSS feed assembly, the HTML template description, getQuery, tweet-score.go,
  feed-item.go, process.go and init.go. These are rendering, I/O, plain field
  copies and route registration.
- time.Time. Timestamps are integers, and CreatedAtTime is taken as already
  parsed. The source ignores its parse error, which would give the zero time.
- Reduce.LastProcessedTweet: "one day" is 86400 seconds, which is what
  AddDate(0, 0, -1) gives in UTC. Any datastore error is treated like an empty
  store, as the source does.
- StoreTweetScore.GetScore: integers are unbounded, so the 64-bit overflow of
  Favorites+1, and of the score sum in Reduce, is not modelled.
- FeedProducer.ContentFromDatastore: covers successful reads only. After an
  error other than Done, the source logs it and still sends an entry. A
  failed fetch repeats on every later Next, so that loop would go on sending
  entries without end. None of this is modelled.
- MapBuilder.WriteLinkTweet: the `key == nil` check is left out, because
  NewIncompleteKey never returns nil. The transaction that writes the batch
  is left out too.
- Sorting FeedItems with sort.Sort. No code in the modelled files sorts them.
