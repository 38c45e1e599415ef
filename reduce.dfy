/** The reduce stage (reduce.go): fold the stored link-tweets into one score
    per address, decide what to write back for each address, and compute the
    watermark of the last processed tweet. */
module Reduce {
  import opened Records
  import opened StoreTweetScore

  // ---------------------------------------------------------------------------
  // Specification of the fold in calculateNewScores
  // ---------------------------------------------------------------------------

  /** The distinct addresses the input tweets mention. */
  function Addresses(tweets: seq<StoreTweet>): set<string>
  {
    set i | 0 <= i < |tweets| :: tweets[i].address
  }

  /** The tweets that mention `a`, in input order. */
  function Mentions(tweets: seq<StoreTweet>, a: string): seq<StoreTweet>
  {
    if tweets == [] then []
    else
      var t := tweets[|tweets| - 1];
      var earlier := Mentions(tweets[..|tweets| - 1], a);
      if t.address == a then earlier + [t] else earlier
  }

  /** The sum of the scores of `ms`. */
  function TotalScore(ms: seq<StoreTweet>): int
  {
    if ms == [] then 0 else TotalScore(ms[..|ms| - 1]) + GetScore(ms[|ms| - 1])
  }

  /** The tweet IDs of `ms`, in order. */
  function IdsOf(ms: seq<StoreTweet>): seq<int>
  {
    seq(|ms|, i requires 0 <= i < |ms| => ms[i].tweetID)
  }

  /** The accumulator that the fold holds for address `a` once it has seen all
      of `tweets`: Address and Query come from the first tweet for `a`, the
      score adds up, LastActive is the last tweet's, IDs are appended. For an
      address no tweet mentions it is the zero accumulator, which the fold
      never creates. */
  function Accumulated(tweets: seq<StoreTweet>, a: string): TweetScore
  {
    var ms := Mentions(tweets, a);
    if ms == [] then TweetScore(a, 0, 0, [], "", "")
    else TweetScore(a, TotalScore(ms), ms[|ms| - 1].createdTime, IdsOf(ms), ms[0].query, "")
  }

  /** The accumulator calculateNewScores creates for the first tweet of an
      address: the zero of the fold, which after that tweet's step is the fold
      of that tweet alone. */
  function Fresh(t: StoreTweet): (r: TweetScore)
    ensures r.score == 0 && r.tweetIDs == []
    ensures Step(r, t) == Accumulated([t], t.address)
  {
    assert [t][..0] == [];
    assert Mentions([t], t.address) == [t];
    assert TotalScore([t]) == GetScore(t);

    TweetScore(t.address, 0, 0, [], t.query, "")
  }

  /** How one tweet updates the accumulator of its address: Address, Query
      and Title stay, the IDs grow by the tweet's, a tweet with non-negative
      favourites raises the score, and LastActive becomes the tweet's time
      whether or not it is newer. */
  function Step(acc: TweetScore, t: StoreTweet): (r: TweetScore)
    ensures r.address == acc.address && r.query == acc.query && r.title == acc.title
    ensures |r.tweetIDs| == |acc.tweetIDs| + 1 && r.tweetIDs[..|acc.tweetIDs|] == acc.tweetIDs
    ensures r.tweetIDs[|acc.tweetIDs|] == t.tweetID
    ensures t.favorites >= 0 ==> r.score > acc.score
    ensures r.lastActive == t.createdTime
  {
    acc.(score := acc.score + GetScore(t), lastActive := t.createdTime, tweetIDs := acc.tweetIDs + [t.tweetID])
  }

  // ---------------------------------------------------------------------------
  // calculateNewScores
  // ---------------------------------------------------------------------------

  /** Folds the tweets into a map from address to accumulator, then sends every
      accumulator once on the output. */
  method CalculateNewScores(tweets: seq<StoreTweet>) returns (out: seq<TweetScore>)
    ensures |out| == |Addresses(tweets)|
    ensures forall i :: 0 <= i < |out| ==>
      out[i].address in Addresses(tweets) && out[i] == Accumulated(tweets, out[i].address)
    ensures forall i, j :: 0 <= i < j < |out| ==> out[i].address != out[j].address
    ensures ScoredAddresses(out) == Addresses(tweets)
  {
    var score: map<string, TweetScore> := map[];
    for n := 0 to |tweets|
      invariant score.Keys == Addresses(tweets[..n])
      invariant forall a :: a in score ==> score[a] == Accumulated(tweets[..n], a)
    {
      var data := tweets[n];
      FoldStep(tweets, n);
      if data.address !in score {
        score := score[data.address := Fresh(data)];
      }
      score := score[data.address := Step(score[data.address], data)];
    }
    assert tweets[..|tweets|] == tweets;
    out := SendAll(score);
  }

  /** The range over the score map that sends each accumulator on the channel:
      every value exactly once, in an order the model leaves open (Go ranges
      over a map in an unspecified order). */
  method SendAll(score: map<string, TweetScore>) returns (out: seq<TweetScore>)
    requires forall a :: a in score ==> score[a].address == a
    ensures |out| == |score.Keys|
    ensures forall i :: 0 <= i < |out| ==> out[i].address in score && out[i] == score[out[i].address]
    ensures forall i, j :: 0 <= i < j < |out| ==> out[i].address != out[j].address
    ensures ScoredAddresses(out) == score.Keys
  {
    out := [];
    var rest := score.Keys;
    ghost var sent: set<string> := {};
    while rest != {}
      invariant sent == score.Keys - rest && rest <= score.Keys
      invariant |out| + |rest| == |score.Keys|
      invariant forall i :: 0 <= i < |out| ==> out[i].address in sent && out[i] == score[out[i].address]
      invariant forall i, j :: 0 <= i < j < |out| ==> out[i].address != out[j].address
      invariant ScoredAddresses(out) == sent
      decreases |rest|
    {
      var a :| a in rest;
      ghost var before := out;
      out := out + [score[a]];
      rest := rest - {a};
      sent := sent + {a};
      assert out[|before|].address == a;
      assert forall i :: 0 <= i < |before| ==> out[i] == before[i];
      ScoredAddressesSnoc(before, score[a]);
    }
  }

  /** The addresses of a sequence of scores. */
  function ScoredAddresses(scores: seq<TweetScore>): set<string>
  {
    set i | 0 <= i < |scores| :: scores[i].address
  }

  lemma ScoredAddressesSnoc(scores: seq<TweetScore>, s: TweetScore)
    ensures ScoredAddresses(scores + [s]) == ScoredAddresses(scores) + {s.address}
  {
    var p := scores + [s];
    forall x | x in ScoredAddresses(p) ensures x in ScoredAddresses(scores) + {s.address} {
      var i :| 0 <= i < |p| && p[i].address == x;
      if i < |scores| { assert scores[i] == p[i]; }
    }
    forall x | x in ScoredAddresses(scores) ensures x in ScoredAddresses(p) {
      var i :| 0 <= i < |scores| && scores[i].address == x;
      assert p[i] == scores[i];
    }
    assert p[|scores|].address in ScoredAddresses(p);
  }

  lemma AddressesSnoc(tweets: seq<StoreTweet>, n: nat)
    requires n < |tweets|
    ensures Addresses(tweets[..n + 1]) == Addresses(tweets[..n]) + {tweets[n].address}
  {
    var p := tweets[..n + 1];
    forall x | x in Addresses(p) ensures x in Addresses(tweets[..n]) + {tweets[n].address} {
      var i :| 0 <= i < |p| && p[i].address == x;
      if i < n { assert tweets[..n][i] == p[i]; }
    }
    forall x | x in Addresses(tweets[..n]) ensures x in Addresses(p) {
      var i :| 0 <= i < n && tweets[..n][i].address == x;
      assert p[i] == tweets[..n][i];
    }
    assert p[n].address in Addresses(p);
  }

  /** An address has mentions exactly when some input tweet carries it. */
  lemma {:induction false} MentionedIff(tweets: seq<StoreTweet>, a: string)
    ensures Mentions(tweets, a) != [] <==> a in Addresses(tweets)
  {
    if tweets != [] {
      var n := |tweets| - 1;
      MentionedIff(tweets[..n], a);
      AddressesSnoc(tweets, n);
      assert tweets[..n + 1] == tweets;
    }
  }

  /** One more tweet leaves the accumulators of the other addresses alone. */
  lemma FoldStepOther(tweets: seq<StoreTweet>, n: nat, a: string)
    requires n < |tweets| && a != tweets[n].address
    ensures Accumulated(tweets[..n + 1], a) == Accumulated(tweets[..n], a)
  {
    assert tweets[..n + 1][..n] == tweets[..n];
  }

  /** One more tweet steps the accumulator of its own address, starting from
      a fresh one when the address is new. */
  lemma FoldStepOwn(tweets: seq<StoreTweet>, n: nat)
    requires n < |tweets|
    ensures Accumulated(tweets[..n + 1], tweets[n].address)
         == Step(if tweets[n].address in Addresses(tweets[..n]) then Accumulated(tweets[..n], tweets[n].address)
                 else Fresh(tweets[n]), tweets[n])
  {
    var p := tweets[..n + 1];
    assert p[..n] == tweets[..n];
    var t := tweets[n];
    var ms := Mentions(tweets[..n], t.address);
    var ms' := ms + [t];
    assert Mentions(p, t.address) == ms';
    assert ms'[..|ms|] == ms;
    assert TotalScore(ms') == TotalScore(ms) + GetScore(t);
    assert IdsOf(ms') == IdsOf(ms) + [t.tweetID];
    MentionedIff(tweets[..n], t.address);
    if ms != [] {
      assert ms'[0] == ms[0];
    }
  }

  /** One step of the fold: how the specification changes when one more tweet
      is taken into account. */
  lemma FoldStep(tweets: seq<StoreTweet>, n: nat)
    requires n < |tweets|
    ensures Addresses(tweets[..n + 1]) == Addresses(tweets[..n]) + {tweets[n].address}
    ensures forall a :: a != tweets[n].address ==> Accumulated(tweets[..n + 1], a) == Accumulated(tweets[..n], a)
    ensures Accumulated(tweets[..n + 1], tweets[n].address)
         == Step(if tweets[n].address in Addresses(tweets[..n]) then Accumulated(tweets[..n], tweets[n].address)
                 else Fresh(tweets[n]), tweets[n])
  {
    AddressesSnoc(tweets, n);
    forall a | a != tweets[n].address ensures Accumulated(tweets[..n + 1], a) == Accumulated(tweets[..n], a) {
      FoldStepOther(tweets, n, a);
    }
    FoldStepOwn(tweets, n);
  }

  // ---------------------------------------------------------------------------
  // Properties of the fold
  // ---------------------------------------------------------------------------

  /** Mentions(tweets, a) holds exactly the input tweets that mention `a`:
      every one of them and nothing else. */
  lemma {:induction false} MentionsExact(tweets: seq<StoreTweet>, a: string)
    ensures forall t :: t in Mentions(tweets, a) ==> t in tweets && t.address == a
    ensures forall i :: 0 <= i < |tweets| && tweets[i].address == a ==> tweets[i] in Mentions(tweets, a)
  {
    if tweets != [] {
      var n := |tweets| - 1;
      var init := tweets[..n];
      MentionsExact(init, a);
      forall i | 0 <= i < |tweets| && tweets[i].address == a ensures tweets[i] in Mentions(tweets, a) {
        if i < n { assert init[i] == tweets[i]; }
      }
    }
  }

  /** The score of an address is the sum of Favorites+1 over its tweets, so it
      is at least the number of tweets that mention it when no favourite count
      is negative. */
  lemma {:induction false} TotalScoreBounds(ms: seq<StoreTweet>)
    requires forall i :: 0 <= i < |ms| ==> ms[i].favorites >= 0
    ensures TotalScore(ms) >= |ms|
  {
    if ms != [] {
      TotalScoreBounds(ms[..|ms| - 1]);
    }
  }

  /** The accumulated score of every address is at least the number of tweets
      that mention it, and hence at least one. */
  lemma ScoreAtLeastMentionCount(tweets: seq<StoreTweet>, a: string)
    requires a in Addresses(tweets)
    requires forall i :: 0 <= i < |tweets| ==> tweets[i].favorites >= 0
    ensures Accumulated(tweets, a).score >= |Mentions(tweets, a)| >= 1
  {
    MentionsExact(tweets, a);
    MentionedIff(tweets, a);
    var ms := Mentions(tweets, a);
    forall i | 0 <= i < |ms| ensures ms[i].favorites >= 0 {
      assert ms[i] in ms;
    }
    TotalScoreBounds(ms);
  }

  /** LastActive is the CreatedTime of the last input tweet that mentions the
      address, whatever the times of the earlier ones. */
  lemma {:induction false} LastActiveIsLastMention(tweets: seq<StoreTweet>, a: string)
    requires a in Addresses(tweets)
    ensures exists j :: (0 <= j < |tweets| && tweets[j].address == a
                         && Accumulated(tweets, a).lastActive == tweets[j].createdTime
                         && forall k :: j < k < |tweets| ==> tweets[k].address != a)
  {
    var n := |tweets| - 1;
    MentionedIff(tweets, a);
    if tweets[n].address == a {
      assert Accumulated(tweets, a).lastActive == tweets[n].createdTime;
    } else {
      var init := tweets[..n];
      var i :| 0 <= i < |tweets| && tweets[i].address == a;
      assert i < n && init[i].address == a;
      LastActiveIsLastMention(init, a);
      MentionedIff(init, a);
      var j :| 0 <= j < |init| && init[j].address == a
        && Accumulated(init, a).lastActive == init[j].createdTime
        && (forall k :: j < k < |init| ==> init[k].address != a);
      assert tweets[j] == init[j];
      forall k | j < k < |tweets| ensures tweets[k].address != a {
        if k < n { assert tweets[k] == init[k]; }
      }
    }
  }

  /** LastActive need not be the newest time of the address: the fold keeps the
      last one it sees, so an older tweet that comes later wins. */
  lemma LastActiveNotMaximum()
    ensures var older := StoreTweet("x", "", 2, 100, 0, 0, "q", "", "");
            var newer := StoreTweet("x", "", 1, 200, 0, 0, "q", "", "");
            var tweets := [newer, older];
            Accumulated(tweets, "x").lastActive == 100 < newer.createdTime
  {
    var older := StoreTweet("x", "", 2, 100, 0, 0, "q", "", "");
    var newer := StoreTweet("x", "", 1, 200, 0, 0, "q", "", "");
    var tweets := [newer, older];
    assert tweets[..1] == [newer];
    assert [newer][..0] == [];
    assert Mentions([newer], "x") == [newer];
    assert Mentions(tweets, "x") == [newer, older];
  }

  /** TweetIDs lists the IDs of the mentioning tweets, one per tweet, so an ID
      that occurs twice is kept twice. */
  lemma TweetIDsKeepDuplicates(t: StoreTweet)
    ensures Accumulated([t, t], t.address).tweetIDs == [t.tweetID, t.tweetID]
    ensures Accumulated([t, t], t.address).score == 2 * GetScore(t)
  {
    var tweets := [t, t];
    assert tweets[..1] == [t];
    assert [t][..0] == [];
    assert Mentions([t], t.address) == [t];
    assert Mentions(tweets, t.address) == [t, t];
    assert TotalScore([t]) == GetScore(t);
  }

  /** A tweet that does not start the mentions of `a` leaves its Query alone. */
  lemma QueryKeptAfterFirst(tweets: seq<StoreTweet>, a: string)
    requires |tweets| > 0 && Mentions(tweets[..|tweets| - 1], a) != []
    ensures Accumulated(tweets, a).query == Accumulated(tweets[..|tweets| - 1], a).query
  {
    var init := Mentions(tweets[..|tweets| - 1], a);
    assert Mentions(tweets, a)[0] == init[0];
  }

  /** The first tweet that mentions `a` sets its Query. */
  lemma QuerySetByFirst(tweets: seq<StoreTweet>, a: string)
    requires |tweets| > 0 && Mentions(tweets[..|tweets| - 1], a) == []
    requires tweets[|tweets| - 1].address == a
    ensures Accumulated(tweets, a).query == tweets[|tweets| - 1].query
  {
    assert Mentions(tweets, a) == [tweets[|tweets| - 1]];
  }

  /** Query of an accumulator comes from the first input tweet that mentions
      its address, whatever the queries of the later ones. */
  lemma {:induction false} QueryFromFirstMention(tweets: seq<StoreTweet>, a: string)
    requires a in Addresses(tweets)
    ensures exists j :: (0 <= j < |tweets| && tweets[j].address == a
                         && Accumulated(tweets, a).query == tweets[j].query
                         && forall k :: 0 <= k < j ==> tweets[k].address != a)
  {
    var n := |tweets| - 1;
    var init := tweets[..n];
    MentionedIff(init, a);
    if a in Addresses(init) {
      QueryFromFirstMention(init, a);
      var j :| 0 <= j < |init| && init[j].address == a
        && Accumulated(init, a).query == init[j].query
        && (forall k :: 0 <= k < j ==> init[k].address != a);
      QueryKeptAfterFirst(tweets, a);
      assert tweets[j] == init[j];
      forall k | 0 <= k < j ensures tweets[k].address != a {
        assert tweets[k] == init[k];
      }
      assert 0 <= j < |tweets| && tweets[j].address == a && Accumulated(tweets, a).query == tweets[j].query;
    } else {
      var i :| 0 <= i < |tweets| && tweets[i].address == a;
      forall k | 0 <= k < n ensures tweets[k].address != a {
        assert tweets[k] == init[k];
        assert init[k].address in Addresses(init);
      }
      assert i == n;
      QuerySetByFirst(tweets, a);
      assert 0 <= n < |tweets| && tweets[n].address == a && Accumulated(tweets, a).query == tweets[n].query;
    }
  }

  // ---------------------------------------------------------------------------
  // updateDataStoreScore
  // ---------------------------------------------------------------------------

  /** What the first Next of the query for the address returned: no record
      (Done), a record with its key, the key of a record that could not be
      loaded into a TweetScore together with that error, or a failure to fetch
      the result, which comes with a nil key. */
  datatype Lookup = Done | Found(key: nat, prior: TweetScore) | LoadError(key: nat) | LookupError

  /** The key the record is put under: a newly allocated one, the key Next
      returned, or the nil key. */
  datatype Target = NewKey | ExistingKey(key: nat) | NilKey

  datatype Write = Write(target: Target, record: TweetScore)

  /** The record updateDataStoreScore puts for a new score, given the lookup. */
  function UpdateDataStoreScore(score: TweetScore, lookup: Lookup): (w: Write)
    ensures lookup.Done? ==> w.target == NewKey && w.record == score.(title := "")
    ensures lookup.Found? || lookup.LoadError? ==> w.target == ExistingKey(lookup.key)
    ensures lookup.LookupError? ==> w.target == NilKey
    ensures !lookup.Done? ==>
      w.record == EmptyScore.(score := score.score, lastActive := score.lastActive, tweetIDs := score.tweetIDs)
  {
    match lookup
    case Done =>
      Write(NewKey, EmptyScore.(address := score.address, lastActive := score.lastActive,
                                score := score.score, tweetIDs := score.tweetIDs, query := score.query))
    case Found(key, _) =>
      Write(ExistingKey(key), TweetScore("", score.score, score.lastActive, score.tweetIDs, "", ""))
    case LoadError(key) =>
      Write(ExistingKey(key), TweetScore("", score.score, score.lastActive, score.tweetIDs, "", ""))
    case LookupError =>
      Write(NilKey, TweetScore("", score.score, score.lastActive, score.tweetIDs, "", ""))
  }

  /** The score records of the datastore, by key; `nextKey` is larger than
      every key in use and stands for the key the datastore allocates. */
  datatype ScoreStore = ScoreStore(records: map<nat, TweetScore>, nextKey: nat)
  {
    ghost predicate Valid() {
      forall k :: k in records ==> k < nextKey
    }
  }

  /** datastore.Put of one write. A nil key is rejected by the datastore, so
      nothing changes. */
  function Put(store: ScoreStore, w: Write): (s: ScoreStore)
    requires store.Valid()
    ensures s.Valid()
    ensures w.target.NilKey? ==> s == store
    ensures w.target.NewKey? ==>
      (s.records.Keys == store.records.Keys + {store.nextKey}
       && store.nextKey !in store.records && s.records[store.nextKey] == w.record)
    ensures w.target.ExistingKey? ==>
      (s.records.Keys == store.records.Keys + {w.target.key} && s.records[w.target.key] == w.record)
    ensures forall k :: k in store.records && (w.target.ExistingKey? ==> k != w.target.key) ==>
      k in s.records && s.records[k] == store.records[k]
  {
    match w.target
    case NewKey => ScoreStore(store.records[store.nextKey := w.record], store.nextKey + 1)
    case ExistingKey(k) =>
      ScoreStore(store.records[k := w.record], if k < store.nextKey then store.nextKey else k + 1)
    case NilKey => store
  }

  /** When a record exists, the prior score and IDs are discarded: the written
      record is the same whatever the prior record held. */
  lemma PriorRecordDiscarded(score: TweetScore, key: nat, p1: TweetScore, p2: TweetScore)
    ensures UpdateDataStoreScore(score, Found(key, p1)) == UpdateDataStoreScore(score, Found(key, p2))
  {
  }

  /** Two runs over the same address do not add up: after a first run writes a
      score of 2 and a second run brings a score of 5, the record holds 5, with
      an empty address and query. */
  lemma SecondRunOverwrites(store: ScoreStore)
    requires store.Valid()
    ensures
      var run1 := TweetScore("x", 2, 10, [1], "q", "");
      var run2 := TweetScore("x", 5, 20, [2], "q", "");
      var s1 := Put(store, UpdateDataStoreScore(run1, Done));
      var k := store.nextKey;
      var s2 := Put(s1, UpdateDataStoreScore(run2, Found(k, s1.records[k])));
      s2.records[k].score == 5 && s2.records[k].tweetIDs == [2]
      && s2.records[k].address == "" && s2.records[k].query == ""
  {
  }

  // ---------------------------------------------------------------------------
  // getLastProcessedTweet
  // ---------------------------------------------------------------------------

  /** The default look-back when no score is stored: one day, in seconds. */
  const OneDay := 86400

  /** The newest LastActive among the stored scores. */
  function LatestActive(stored: seq<TweetScore>): (r: int)
    requires |stored| > 0
    ensures forall i :: 0 <= i < |stored| ==> stored[i].lastActive <= r
    ensures exists i :: 0 <= i < |stored| && stored[i].lastActive == r
  {
    if |stored| == 1 then stored[0].lastActive
    else
      var rest := LatestActive(stored[1..]);
      assert forall i :: 1 <= i < |stored| ==> stored[i] == stored[1..][i - 1];
      if stored[0].lastActive < rest then rest else stored[0].lastActive
  }

  /** The watermark: the newest LastActive of any stored score, of any query,
      or one day before `now` when there is none. */
  function LastProcessedTweet(stored: seq<TweetScore>, now: int): (r: int)
    ensures stored == [] ==> r == now - OneDay
    ensures stored != [] ==>
      (forall i :: 0 <= i < |stored| ==> stored[i].lastActive <= r)
      && exists i :: 0 <= i < |stored| && stored[i].lastActive == r
  {
    if stored == [] then now - OneDay else LatestActive(stored)
  }

  /** The watermark ignores the query: relabelling every stored score with
      another query leaves it unchanged. */
  lemma {:induction false} WatermarkIgnoresQuery(stored: seq<TweetScore>, q: string, now: int)
    ensures LastProcessedTweet(stored, now)
         == LastProcessedTweet(seq(|stored|, i requires 0 <= i < |stored| => stored[i].(query := q)), now)
  {
    var relabelled := seq(|stored|, i requires 0 <= i < |stored| => stored[i].(query := q));
    if stored != [] {
      var r := LastProcessedTweet(stored, now);
      var r' := LastProcessedTweet(relabelled, now);
      var i :| 0 <= i < |stored| && stored[i].lastActive == r;
      var j :| 0 <= j < |relabelled| && relabelled[j].lastActive == r';
      assert relabelled[i].lastActive == r;
      assert stored[j].lastActive == r';
    }
  }
}
