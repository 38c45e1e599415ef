/** The older revision of the retriever (TweetRetriever.go): the same cut-off
    and pagination loop, with the output channel passed in as an argument
    instead of held in a field. */
module RetrieverV1 {
  import opened Records
  import opened Channels
  import opened Retriever

  /** Sends on `output` the statuses that are strictly newer than `cutoff`, in
      page order, stopping at the first one that is not; says whether it got
      through the whole page. */
  method AddIfNewerThan(cutoff: int, statuses: seq<Tweet>, output: Channel<Tweet>) returns (cont: bool)
    requires !output.closed
    modifies output
    ensures output.items == old(output.items) + NewerPrefix(statuses, cutoff)
    ensures cont <==> NewerPrefix(statuses, cutoff) == statuses
    ensures !output.closed
  {
    cont := true;
    var i := 0;
    while i < |statuses|
      invariant 0 <= i <= |statuses|
      invariant forall k :: 0 <= k < i ==> statuses[k].createdAt > cutoff
      invariant output.items == old(output.items) + statuses[..i]
      invariant !output.closed
    {
      var tweet := statuses[i];
      if tweet.createdAt > cutoff {
        output.Send(tweet);
      } else {
        cont := false;
        break;
      }
      assert statuses[..i + 1] == statuses[..i] + [tweet];
      i := i + 1;
    }
    NewerPrefixUpTo(statuses, cutoff, i);
    assert statuses[..|statuses|] == statuses;
  }

  /** The search and its pagination loop; `pages` as for Retriever. Only the
      first page is read, because `cont` is overwritten with false, and `out`
      is closed after it; on a search error nothing is sent and `out` stays
      open. */
  method GetTweets(cutoff: int, pages: seq<SearchResult>, out: Channel<Tweet>) returns (nextCalls: nat)
    requires |pages| > 0
    requires !out.closed
    modifies out
    ensures nextCalls == 0
    ensures pages[0].SearchError? ==> out.items == old(out.items) && !out.closed
    ensures pages[0].SearchOk? ==>
      out.items == old(out.items) + NewerPrefix(pages[0].statuses, cutoff) && out.closed
  {
    nextCalls := 0;
    if pages[0].SearchError? {
      return;
    }
    var result := pages[0];
    var calls := 0;
    var cont := true;
    while cont
      invariant calls == 0 && result == pages[0]
      invariant cont ==> out.items == old(out.items) && !out.closed
      invariant !cont ==> out.items == old(out.items) + NewerPrefix(pages[0].statuses, cutoff) && !out.closed
      decreases if cont then 1 else 0
    {
      cont := AddIfNewerThan(cutoff, Statuses(result), out);
      cont := false;
      if cont {
        result := NextPage(pages, calls);
        calls := calls + 1;
      }
    }
    nextCalls := calls;
    out.Close();
  }
}
