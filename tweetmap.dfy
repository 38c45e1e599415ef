/** The multimap from web address to the IDs of the tweets that mention it
    (tweetmap.go). */
module TweetMaps {

  /** The IDs recorded for `address`; a missing key reads as the empty list,
      as a nil slice does in Go. */
  function IdsAt(m: map<string, seq<int>>, address: string): seq<int>
  {
    if address in m then m[address] else []
  }

  /** The map after recording `id` for `address`: the ID goes at the end of
      that address's list. */
  function Added(m: map<string, seq<int>>, address: string, id: int): map<string, seq<int>>
  {
    m[address := IdsAt(m, address) + [id]]
  }

  class TweetMap {
    var entries: map<string, seq<int>>

    constructor ()
      ensures entries == map[]
    {
      entries := map[];
    }

    /** Appends to a non-empty list, and otherwise starts a fresh one-element list. */
    method Add(address: string, tweetID: int)
      modifies this
      ensures entries == Added(old(entries), address, tweetID)
    {
      if address in entries && |entries[address]| > 0 {
        entries := entries[address := entries[address] + [tweetID]];
        return;
      }
      assert IdsAt(entries, address) + [tweetID] == [tweetID];
      entries := entries[address := [tweetID]];
    }
  }

  /** Add grows the list at the address by exactly one, puts the ID last and
      keeps the earlier IDs in place. */
  lemma AddAppends(m: map<string, seq<int>>, address: string, id: int)
    ensures |IdsAt(Added(m, address, id), address)| == |IdsAt(m, address)| + 1
    ensures IdsAt(Added(m, address, id), address)[|IdsAt(m, address)|] == id
    ensures IdsAt(Added(m, address, id), address)[..|IdsAt(m, address)|] == IdsAt(m, address)
  {
  }

  /** Adding to an absent or empty key gives the one-element list. */
  lemma AddToEmptyKey(m: map<string, seq<int>>, address: string, id: int)
    requires IdsAt(m, address) == []
    ensures Added(m, address, id)[address] == [id]
  {
  }

  /** No other key changes. */
  lemma AddLeavesOtherKeys(m: map<string, seq<int>>, address: string, id: int, other: string)
    requires other != address
    ensures other in Added(m, address, id) <==> other in m
    ensures IdsAt(Added(m, address, id), other) == IdsAt(m, other)
  {
  }

  /** Duplicates are kept: the same ID added twice is listed twice. */
  lemma AddTwiceKeepsDuplicate(m: map<string, seq<int>>, address: string, id: int)
    ensures IdsAt(Added(Added(m, address, id), address, id), address) == IdsAt(m, address) + [id, id]
  {
  }

  /** The sequence of the map's own test: two IDs under one address and one
      under another give lists of lengths 2 and 1. */
  method AddScenario() returns (test: nat, url: nat)
    ensures test == 2 && url == 1
  {
    var tweetMap := new TweetMap();
    tweetMap.Add("test", 1);
    assert |tweetMap.entries["test"]| == 1;
    tweetMap.Add("test", 2);
    tweetMap.Add("url", 3);
    test, url := |tweetMap.entries["test"]|, |tweetMap.entries["url"]|;
  }
}
