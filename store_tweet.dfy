/** The score one stored link-tweet contributes to its address (store-tweet.go). */
module StoreTweetScore {
  import opened Records

  /** Every tweet counts once, and each favourite adds one more. */
  function GetScore(st: StoreTweet): (r: int)
    ensures r - 1 == st.favorites
    ensures st.favorites >= 0 ==> r >= 1
  {
    st.favorites + 1
  }

  /** The score reads nothing but the favourite count. */
  lemma ScoreDependsOnlyOnFavorites(a: StoreTweet, b: StoreTweet)
    requires a.favorites == b.favorites
    ensures GetScore(a) == GetScore(b)
  {
  }

  /** More favourites always mean a strictly higher score. */
  lemma ScoreStrictlyIncreasing(a: StoreTweet, b: StoreTweet)
    requires a.favorites < b.favorites
    ensures GetScore(a) < GetScore(b)
  {
  }
}
