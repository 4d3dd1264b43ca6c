/** Client sequences of store operations and what the operations' contracts let a caller conclude. */
module Scenarios {
  import opened Wrappers
  import opened DeckBuilder
  import opened PlayerStore

  /** Hello right after reset sees the empty hand and a full deck, whatever was stored before. */
  method ResetThenHello(initial: Option<Document>, user: string, catalog: seq<CatalogEntry>)
    returns (hand: seq<Card>, deckSize: nat)
    ensures hand == [] && deckSize == TotalCount(catalog)
  {
    var store := new Store(initial);
    var _, _ := store.ResetPlayerData(user, catalog);
    ExpandLength(catalog);
    hand, deckSize := store.GetHandForPlayer(user, catalog);
  }

  /**
    After a reset, six draws (each at an index inside the deck it draws from)
    fill the hand and shrink the deck by six; a seventh draw changes nothing.
   */
  method DrawUntilFull(initial: Option<Document>, user: string, catalog: seq<CatalogEntry>, picks: seq<nat>, last: nat)
    returns (hand: seq<Card>, deckSize: nat, extra: Reply)
    requires TotalCount(catalog) >= MAX_HAND_SIZE
    requires |picks| == MAX_HAND_SIZE
    requires forall k :: 0 <= k < |picks| ==> picks[k] < TotalCount(catalog) - k
    ensures |hand| == MAX_HAND_SIZE && deckSize == TotalCount(catalog) - MAX_HAND_SIZE
    ensures extra == Ok(hand, deckSize)
  {
    var store := new Store(initial);
    var _, _ := store.ResetPlayerData(user, catalog);
    ExpandLength(catalog);
    var n := 0;
    hand, deckSize := [], TotalCount(catalog);
    while n < MAX_HAND_SIZE
      invariant n <= MAX_HAND_SIZE
      invariant store.file.Some? && user in store.file.value
      invariant store.file.value[user].hand == Some(hand)
      invariant |hand| == n && deckSize == TotalCount(catalog) - n
      invariant |store.file.value[user].deck| == deckSize
    {
      var deck := store.file.value[user].deck;
      DrawMoves(deck, hand, picks[n]);
      var r := store.DrawCardForPlayer(user, picks[n]);
      hand, deckSize := r.hand, r.deckSize;
      n := n + 1;
    }
    extra := store.DrawCardForPlayer(user, last);
  }

  /** Reset, draw and discard for a three-card catalog: the discarded card leaves the deck as it was. */
  method AliceScenario() returns (afterReset: nat, drawn: Reply, discarded: Reply)
    ensures afterReset == 3
    ensures drawn.Ok? && |drawn.hand| == 1 && drawn.deckSize == 2
    ensures discarded == Ok([], 2)
  {
    var catalog := [CatalogEntry(1, "Photo", "Send a photo", 1.0, 2), CatalogEntry(2, "Radar", "Ask a distance", 2.0, 1)];
    assert catalog[..1][..0] == [] && catalog[..1] == [catalog[0]];
    assert TotalCount(catalog) == 3;
    ExpandLength(catalog);
    var store := new Store(None);
    var hand;
    hand, afterReset := store.ResetPlayerData("alice", catalog);
    drawn := store.DrawCardForPlayer("alice", 0);
    discarded := store.DiscardCardForPlayer("alice", drawn.hand[0].id);
    assert discarded.hand == Discard(drawn.hand, drawn.hand[0].id);
  }
}
