/** The sortable slice of feed items (feed-items.go): sort.Interface's Len,
    Less and Swap over an array. */
module FeedItems {
  import opened Records

  /** A feed item: its description, the embedded TweetScore and its key
      (feed-item.go). */
  datatype FeedItem = FeedItem(description: string, score: TweetScore, key: string)

  /** The slice after exchanging positions i and j. */
  function Swapped(s: seq<FeedItem>, i: nat, j: nat): seq<FeedItem>
    requires i < |s| && j < |s|
  {
    s[i := s[j]][j := s[i]]
  }

  /** Len: the number of items. */
  function Len(s: array<FeedItem>): (n: nat)
    ensures n == s.Length
  {
    s.Length
  }

  /** Less, as written: it compares s[i].Score with itself, so it never holds.
      Only s[i] is read, so only i has to be in range. */
  function Less(s: array<FeedItem>, i: int, j: int): (r: bool)
    requires 0 <= i < s.Length
    reads s
    ensures !r
  {
    s[i].score.score < s[i].score.score
  }

  /** Since no item is less than another, Less is not the intended order by
      score: items whose scores differ compare as equal both ways. */
  lemma LessIgnoresScores(s: array<FeedItem>, i: int, j: int)
    requires 0 <= i < s.Length && 0 <= j < s.Length
    requires s[i].score.score < s[j].score.score
    ensures !Less(s, i, j) && !Less(s, j, i)
  {
  }

  /** Swap exchanges the items at i and j in place. */
  method Swap(s: array<FeedItem>, i: int, j: int)
    requires 0 <= i < s.Length && 0 <= j < s.Length
    modifies s
    ensures s[..] == Swapped(old(s[..]), i, j)
  {
    s[i], s[j] := s[j], s[i];
  }

  /** Swapping moves the two items and leaves every other position alone. */
  lemma SwappedPositions(s: seq<FeedItem>, i: nat, j: nat)
    requires i < |s| && j < |s|
    ensures |Swapped(s, i, j)| == |s|
    ensures Swapped(s, i, j)[i] == s[j] && Swapped(s, i, j)[j] == s[i]
    ensures forall k :: 0 <= k < |s| && k != i && k != j ==> Swapped(s, i, j)[k] == s[k]
  {
  }

  /** Swapping keeps the same items: it is a permutation. */
  lemma SwappedIsPermutation(s: seq<FeedItem>, i: nat, j: nat)
    requires i < |s| && j < |s|
    ensures multiset(Swapped(s, i, j)) == multiset(s)
  {
  }

  /** Swap(i, i) changes nothing and swapping twice restores the slice. */
  lemma SwappedInvolution(s: seq<FeedItem>, i: nat, j: nat)
    requires i < |s| && j < |s|
    ensures Swapped(s, i, i) == s
    ensures Swapped(Swapped(s, i, j), i, j) == s
  {
  }
}
