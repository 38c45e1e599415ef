/** Fetching the tweets newer than the watermark (tweet-retreiver.go). A page
    of search results is a sequence of tweets, newest first; the output
    channel is the retriever's `out` field. */
module Retriever {
  import opened Records
  import opened Channels

  /** The longest prefix of `statuses` whose tweets are all strictly newer
      than `cutoff`. */
  function NewerPrefix(statuses: seq<Tweet>, cutoff: int): (r: seq<Tweet>)
    ensures |r| <= |statuses| && r == statuses[..|r|]
    ensures forall i :: 0 <= i < |r| ==> r[i].createdAt > cutoff
    ensures |r| < |statuses| ==> statuses[|r|].createdAt <= cutoff
  {
    if statuses == [] || statuses[0].createdAt <= cutoff then []
    else [statuses[0]] + NewerPrefix(statuses[1..], cutoff)
  }

  /** The prefix is pinned down by where the first tweet at or before the
      cutoff sits: the `n` tweets before it, or all of them when there is none. */
  lemma {:induction false} NewerPrefixUpTo(statuses: seq<Tweet>, cutoff: int, n: nat)
    requires n <= |statuses|
    requires forall i :: 0 <= i < n ==> statuses[i].createdAt > cutoff
    requires n < |statuses| ==> statuses[n].createdAt <= cutoff
    ensures NewerPrefix(statuses, cutoff) == statuses[..n]
  {
    if n > 0 {
      NewerPrefixUpTo(statuses[1..], cutoff, n - 1);
      assert statuses[..n] == [statuses[0]] + statuses[1..][..n - 1];
    }
  }

  /** Nothing at or after the first tweet that is not newer than the cutoff is
      emitted, even tweets that are newer again. */
  lemma {:induction false} StopsAtFirstOld(statuses: seq<Tweet>, cutoff: int, j: nat)
    requires j < |statuses| && statuses[j].createdAt <= cutoff
    ensures |NewerPrefix(statuses, cutoff)| <= j
  {
    if j > 0 && statuses[0].createdAt > cutoff {
      StopsAtFirstOld(statuses[1..], cutoff, j - 1);
    }
  }

  /** Posts dated t5 > t4 > t3 > t2 > t1 with cutoff t3 give exactly t5, t4. */
  lemma EarlyStopBoundary(t5: Tweet, t4: Tweet, t3: Tweet, t2: Tweet, t1: Tweet)
    requires t5.createdAt > t4.createdAt > t3.createdAt > t2.createdAt > t1.createdAt
    ensures NewerPrefix([t5, t4, t3, t2, t1], t3.createdAt) == [t5, t4]
  {
    NewerPrefixUpTo([t5, t4, t3, t2, t1], t3.createdAt, 2);
  }

  /** One search response: its statuses, or the error GetSearch/GetNext gave. */
  datatype SearchResult = SearchOk(statuses: seq<Tweet>) | SearchError

  function Statuses(r: SearchResult): seq<Tweet>
  {
    if r.SearchOk? then r.statuses else []
  }

  /** What result.GetNext(api) returns after `calls` earlier GetNext calls:
      the next page, or an error once there are no more pages. */
  function NextPage(pages: seq<SearchResult>, calls: int): SearchResult
  {
    if 0 <= calls && calls + 1 < |pages| then pages[calls + 1] else SearchError
  }

  class TweetRetriever {
    const out: Channel<Tweet>

    constructor (out: Channel<Tweet>)
      ensures this.out == out
    {
      this.out := out;
    }

    /** Sends the statuses in page order until the first one that is not
      strictly newer than `cutoff`, and says whether it got through the page. */
    method AddIfNewerThan(cutoff: int, statuses: seq<Tweet>) returns (cont: bool)
      requires !out.closed
      modifies out
      ensures out.items == old(out.items) + NewerPrefix(statuses, cutoff)
      ensures cont <==> NewerPrefix(statuses, cutoff) == statuses
      ensures !out.closed
    {
      cont := true;
      var i := 0;
      while i < |statuses|
        invariant 0 <= i <= |statuses|
        invariant forall k :: 0 <= k < i ==> statuses[k].createdAt > cutoff
        invariant out.items == old(out.items) + statuses[..i]
        invariant !out.closed
      {
        var tweet := statuses[i];
        if tweet.createdAt > cutoff {
          out.Send(tweet);
        } else {
          cont := false;
          break;
        }
        assert statuses[..i + 1] == statuses[..i] + [tweet];
        i := i + 1;
      }
      NewerPrefixUpTo(statuses, cutoff, i);
      assert statuses[..|statuses|] == statuses;
    }

    /** Runs the search and the pagination loop. `pages[0]` is what the first
      search returns and `pages[k]` what the k-th GetNext (NextPage) would
      return. The loop overwrites `cont` with false, so only the first page is
      ever read and GetNext is never called; `nextCalls` counts the GetNext
      calls. On a search error nothing is sent and the channel stays open. */
    method GetTweets(cutoff: int, pages: seq<SearchResult>) returns (nextCalls: nat)
      requires |pages| > 0
      requires !out.closed
      modifies out
      ensures nextCalls == 0
      ensures pages[0].SearchError? ==> out.items == old(out.items) && !out.closed
      ensures pages[0].SearchOk? ==>
        out.items == old(out.items) + NewerPrefix(pages[0].statuses, cutoff) && out.closed
    {
      nextCalls := 0;
      if pages[0].SearchError? {
        return;
      }
      var result := pages[0];
      var calls := 0;
      var cont := true;
      while cont
        invariant calls == 0 && result == pages[0]
        invariant cont ==> out.items == old(out.items) && !out.closed
        invariant !cont ==> out.items == old(out.items) + NewerPrefix(pages[0].statuses, cutoff) && !out.closed
        decreases if cont then 1 else 0
      {
        cont := AddIfNewerThan(cutoff, Statuses(result));
        cont := false;
        if cont {
          result := NextPage(pages, calls);
          calls := calls + 1;
        }
      }
      nextCalls := calls;
      out.Close();
    }
  }
}
