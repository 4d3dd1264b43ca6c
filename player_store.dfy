/**
  The player store: a document that maps each username to a record holding a
  deck and a hand, and the four operations that read it, change one record and
  write it back when it changed (reset, hello, draw, discard).
 */
module PlayerStore {
  import opened Wrappers
  import opened DeckBuilder

  /** The largest hand a draw builds up to. */
  const MAX_HAND_SIZE: nat := 6

  /** A player's record; a stored record may lack its `hand` field. */
  datatype Player = Player(deck: seq<Card>, hand: Option<seq<Card>>)

  /** The whole persisted state, keyed by (lower-cased) username. */
  type Document = map<string, Player>

  /** What draw and discard answer. */
  datatype Reply =
    | Ok(hand: seq<Card>, deckSize: nat)
    /** The document does not parse, or the username is not in it. */
    | NotFound
    /** The record has no `hand` field: the source raises a KeyError here. */
    | MissingHand

  /** A deck and a hand, as a draw leaves them. */
  datatype Piles = Piles(deck: seq<Card>, hand: seq<Card>)

  // ---------------------------------------------------------------------------
  // Records

  /** The record reset gives a player, and hello gives a new one. */
  function FreshRecord(deck: seq<Card>): Player {
    Player(deck, Some([]))
  }

  /** How reset and hello read the stored document: one that does not parse is empty. */
  function Loaded(file: Option<Document>): Document {
    file.GetOr(map[])
  }

  /** The record of `user`, when the document parses and holds one. */
  function Lookup(file: Option<Document>, user: string): Option<Player> {
    if file.Some? && user in file.value then Some(file.value[user]) else None
  }

  /** Hello's repair of an existing record: a missing hand becomes empty, an empty deck is rebuilt. */
  function Healed(p: Player, rebuilt: seq<Card>): Player {
    Player(if |p.deck| == 0 then rebuilt else p.deck, Some(p.hand.GetOr([])))
  }

  /** The record hello leaves for `user` in `players`. */
  function HelloRecord(players: Document, user: string, rebuilt: seq<Card>): (r: Player)
    ensures r.hand.Some?
    ensures user in players && players[user].hand.Some? ==> r.hand == players[user].hand
    ensures user in players && |players[user].deck| != 0 ==> r.deck == players[user].deck
    ensures |r.deck| == 0 ==> |rebuilt| == 0
    ensures user !in players ==> r == FreshRecord(rebuilt)
    ensures user in players && players[user].hand.None? ==> r.hand == Some([])
    ensures user in players && |players[user].deck| == 0 ==> r.deck == rebuilt
  {
    if user in players then Healed(players[user], rebuilt) else FreshRecord(rebuilt)
  }

  // ---------------------------------------------------------------------------
  // Draw

  /** A draw moves a card only when the deck is not empty and the hand is not at the cap. */
  predicate CanDraw(deck: seq<Card>, hand: seq<Card>) {
    |deck| != 0 && |hand| != MAX_HAND_SIZE
  }

  /** `s` without its element at `i`, as Python's `list.pop(i)` leaves it. */
  function RemoveAt(s: seq<Card>, i: nat): (r: seq<Card>)
    requires i < |s|
    ensures |r| == |s| - 1
    ensures forall j :: 0 <= j < i ==> r[j] == s[j]
    ensures forall j :: i <= j < |r| ==> r[j] == s[j + 1]
    ensures multiset(r) + multiset{s[i]} == multiset(s)
  {
    assert s == s[..i] + [s[i]] + s[i + 1..];
    s[..i] + s[i + 1..]
  }

  /** The deck and hand after drawing the card at index `i`, or both unchanged when no draw is possible. */
  function Draw(deck: seq<Card>, hand: seq<Card>, i: nat): (r: Piles)
    requires CanDraw(deck, hand) ==> i < |deck|
    ensures multiset(r.deck) + multiset(r.hand) == multiset(deck) + multiset(hand)
    ensures |r.hand| == |hand| + (if CanDraw(deck, hand) then 1 else 0)
    ensures !CanDraw(deck, hand) ==> r == Piles(deck, hand)
  {
    if CanDraw(deck, hand) then Piles(RemoveAt(deck, i), hand + [deck[i]]) else Piles(deck, hand)
  }

  /** A draw appends the chosen card to the hand, takes it out of the deck and loses no card. */
  lemma DrawMoves(deck: seq<Card>, hand: seq<Card>, i: nat)
    requires CanDraw(deck, hand) && i < |deck|
    ensures |Draw(deck, hand, i).hand| == |hand| + 1
    ensures |Draw(deck, hand, i).deck| == |deck| - 1
    ensures Draw(deck, hand, i).deck == RemoveAt(deck, i)
    ensures Draw(deck, hand, i).hand[..|hand|] == hand
    ensures Draw(deck, hand, i).hand[|hand|] == deck[i]
    ensures multiset(Draw(deck, hand, i).deck) + multiset(Draw(deck, hand, i).hand) == multiset(deck) + multiset(hand)
  {
  }

  /** A hand that respects the cap still does after a draw. */
  lemma DrawKeepsCap(deck: seq<Card>, hand: seq<Card>, i: nat)
    requires CanDraw(deck, hand) ==> i < |deck|
    requires |hand| <= MAX_HAND_SIZE
    ensures |Draw(deck, hand, i).hand| <= MAX_HAND_SIZE
  {
  }

  // ---------------------------------------------------------------------------
  // Discard

  /** The index of the first card of `hand` whose id is `id`, or `|hand|` when there is none. */
  function FindFirst(hand: seq<Card>, id: int): (k: nat)
    ensures k <= |hand|
    ensures k < |hand| ==> hand[k].id == id
    ensures forall j :: 0 <= j < k ==> hand[j].id != id
  {
    if hand == [] then 0
    else if hand[0].id == id then 0
    else 1 + FindFirst(hand[1..], id)
  }

  /** The hand without its first card whose id is `id`; unchanged when there is none. */
  function Discard(hand: seq<Card>, id: int): (r: seq<Card>)
    ensures multiset(r) <= multiset(hand)
    ensures |r| == if FindFirst(hand, id) < |hand| then |hand| - 1 else |hand|
  {
    var k := FindFirst(hand, id);
    if k < |hand| then RemoveAt(hand, k) else hand
  }

  /** How many cards of `hand` have id `id`. */
  function CountId(hand: seq<Card>, id: int): nat {
    if hand == [] then 0 else (if hand[0].id == id then 1 else 0) + CountId(hand[1..], id)
  }

  /** The first match, and only it, is removed. */
  lemma DiscardFirstMatch(hand: seq<Card>, id: int, k: nat)
    requires k < |hand| && hand[k].id == id
    requires forall j :: 0 <= j < k ==> hand[j].id != id
    ensures Discard(hand, id) == hand[..k] + hand[k + 1..]
  {
  }

  /** With no match, the hand is unchanged. */
  lemma DiscardNoMatch(hand: seq<Card>, id: int)
    requires forall j :: 0 <= j < |hand| ==> hand[j].id != id
    ensures Discard(hand, id) == hand
  {
  }

  /** Discarding in a hand whose first card does not match keeps that card in front. */
  lemma DiscardCons(hand: seq<Card>, id: int)
    requires hand != [] && hand[0].id != id
    ensures Discard(hand, id) == [hand[0]] + Discard(hand[1..], id)
  {
  }

  /** Counting over a hand with one more card in front. */
  lemma CountCons(c: Card, rest: seq<Card>, id: int)
    ensures CountId([c] + rest, id) == (if c.id == id then 1 else 0) + CountId(rest, id)
  {
  }

  /** A hand holds a card with id `id` exactly when the search for one succeeds. */
  lemma {:induction false} CountPositiveIffFound(hand: seq<Card>, id: int)
    ensures CountId(hand, id) > 0 <==> FindFirst(hand, id) < |hand|
  {
    if hand != [] && hand[0].id != id {
      CountPositiveIffFound(hand[1..], id);
    }
  }

  /**
    Discard removes exactly one card with id `id` when the hand holds any, even
    among duplicates, and leaves the count of every other id unchanged.
   */
  lemma {:induction false} DiscardCount(hand: seq<Card>, id: int, other: int)
    ensures CountId(Discard(hand, id), other) ==
            if other == id && CountId(hand, id) > 0 then CountId(hand, other) - 1 else CountId(hand, other)
  {
    if hand != [] {
      if hand[0].id == id {
        assert Discard(hand, id) == hand[1..];
      } else {
        DiscardCount(hand[1..], id, other);
        DiscardCons(hand, id);
        CountCons(hand[0], Discard(hand[1..], id), other);
      }
    }
  }

  // ---------------------------------------------------------------------------
  // Document-wide facts

  /** Every stored hand respects the cap. */
  predicate Capped(players: Document) {
    forall u :: u in players && players[u].hand.Some? ==> |players[u].hand.value| <= MAX_HAND_SIZE
  }

  /** `after` differs from `before` at most in the record of `user`. */
  predicate OnlyTouches(before: Document, after: Document, user: string) {
    && (forall u :: u in after && u != user ==> u in before)
    && (forall u :: u in before && u != user ==> u in after && after[u] == before[u])
  }

  // ---------------------------------------------------------------------------
  // The store

  /** The document on disk and the number of times it has been written. */
  class Store {
    /** The stored document; None when its text does not parse. */
    var file: Option<Document>
    /** How many times the document has been written. */
    var writes: nat

    constructor (file: Option<Document>)
      ensures this.file == file && writes == 0
    {
      this.file := file;
      writes := 0;
    }

    /** Writes `players` back unless it equals what is stored. */
    method Save(players: Document)
      modifies this
      ensures file == Some(players)
      ensures writes == old(writes) + if old(file) == Some(players) then 0 else 1
    {
      if file != Some(players) {
        file := Some(players);
        writes := writes + 1;
      }
    }

    /** Overwrites the record of `user` with a fresh deck and an empty hand. */
    method ResetPlayerData(user: string, catalog: seq<CatalogEntry>) returns (hand: seq<Card>, deckSize: nat)
      modifies this
      ensures file == Some(Loaded(old(file))[user := FreshRecord(Expand(catalog))])
      ensures OnlyTouches(Loaded(old(file)), file.value, user)
      ensures writes == old(writes) + if old(file) == file then 0 else 1
      ensures hand == [] && deckSize == TotalCount(catalog)
      ensures Capped(Loaded(old(file))) ==> Capped(file.value)
    {
      var players := Loaded(file);
      var deck := BuildDeck(catalog);
      players := players[user := Player(deck, Some([]))];
      Save(players);
      hand, deckSize := players[user].hand.value, |players[user].deck|;
    }

    /** Returns the hand of `user`, repairing the record or creating it first. */
    method GetHandForPlayer(user: string, catalog: seq<CatalogEntry>) returns (hand: seq<Card>, deckSize: nat)
      modifies this
      ensures file == Some(Loaded(old(file))[user := HelloRecord(Loaded(old(file)), user, Expand(catalog))])
      ensures OnlyTouches(Loaded(old(file)), file.value, user)
      ensures writes == old(writes) + if old(file) == file then 0 else 1
      ensures user in Loaded(old(file)) ==>
                var p := Loaded(old(file))[user];
                && hand == p.hand.GetOr([])
                && deckSize == if |p.deck| == 0 then TotalCount(catalog) else |p.deck|
      ensures user !in Loaded(old(file)) ==> hand == [] && deckSize == TotalCount(catalog)
      ensures Capped(Loaded(old(file))) ==> Capped(file.value)
    {
      var players := Loaded(file);
      var player: Player;
      if user in players {
        player := players[user];
        if player.hand.None? {
          player := player.(hand := Some([]));
        }
        if |player.deck| == 0 {
          var deck := BuildDeck(catalog);
          player := player.(deck := deck);
        }
        players := players[user := player];
      } else {
        var deck := BuildDeck(catalog);
        player := Player(deck, Some([]));
        players := players[user := player];
      }
      Save(players);
      hand, deckSize := players[user].hand.value, |players[user].deck|;
    }

    /**
      Moves the card at index `pick` (the random choice) from the deck of `user`
      to the end of the hand, unless the deck is empty or the hand is full.
     */
    method DrawCardForPlayer(user: string, pick: nat) returns (r: Reply)
      requires Lookup(file, user).Some? && Lookup(file, user).value.hand.Some? &&
               CanDraw(Lookup(file, user).value.deck, Lookup(file, user).value.hand.value) ==>
                 pick < |Lookup(file, user).value.deck|
      modifies this
      ensures Lookup(old(file), user).None? ==> r == NotFound
      ensures Lookup(old(file), user).Some? && Lookup(old(file), user).value.hand.None? ==> r == MissingHand
      ensures Lookup(old(file), user).Some? && Lookup(old(file), user).value.hand.Some? ==>
                var p := Lookup(old(file), user).value;
                var after := Draw(p.deck, p.hand.value, pick);
                && r == Ok(after.hand, |after.deck|)
                && if CanDraw(p.deck, p.hand.value)
                   then file == Some(old(file).value[user := Player(after.deck, Some(after.hand))])
                        && writes == old(writes) + 1
                   else file == old(file) && writes == old(writes)
      ensures !r.Ok? ==> file == old(file) && writes == old(writes)
      ensures old(file).Some? ==> file.Some? && OnlyTouches(old(file).value, file.value, user)
      ensures old(file).Some? && Capped(old(file).value) ==> Capped(file.value)
    {
      var loaded := file;
      if loaded.None? {
        return NotFound;
      }
      var players := loaded.value;
      if user !in players {
        return NotFound;
      }
      var player := players[user];
      if player.hand.None? {
        return MissingHand;
      }
      var deck, hand := player.deck, player.hand.value;
      if |deck| == 0 {
        return Ok(hand, |deck|);
      }
      if |hand| == MAX_HAND_SIZE {
        return Ok(hand, |deck|);
      }
      var card := deck[pick];
      deck := RemoveAt(deck, pick);
      hand := hand + [card];
      assert players[user].hand != Some(hand);
      players := players[user := Player(deck, Some(hand))];
      Save(players);
      r := Ok(hand, |deck|);
    }

    /** Removes the first card with id `cardId` from the hand of `user`. */
    method DiscardCardForPlayer(user: string, cardId: int) returns (r: Reply)
      modifies this
      ensures Lookup(old(file), user).None? ==> r == NotFound
      ensures Lookup(old(file), user).Some? && Lookup(old(file), user).value.hand.None? ==> r == MissingHand
      ensures Lookup(old(file), user).Some? && Lookup(old(file), user).value.hand.Some? ==>
                var p := Lookup(old(file), user).value;
                var kept := Discard(p.hand.value, cardId);
                && r == Ok(kept, |p.deck|)
                && file == Some(old(file).value[user := Player(p.deck, Some(kept))])
                && writes == old(writes) + if |kept| == |p.hand.value| then 0 else 1
      ensures !r.Ok? ==> file == old(file) && writes == old(writes)
      ensures old(file).Some? ==> file.Some? && OnlyTouches(old(file).value, file.value, user)
      ensures old(file).Some? && Capped(old(file).value) ==> Capped(file.value)
    {
      var loaded := file;
      if loaded.None? {
        return NotFound;
      }
      var players := loaded.value;
      if user !in players {
        return NotFound;
      }
      if players[user].hand.None? {
        return MissingHand;
      }
      var hand := players[user].hand.value;
      ghost var held := hand;
      var i := 0;
      while i < |hand|
        invariant i <= |hand| && hand == held
        invariant forall j :: 0 <= j < i ==> hand[j].id != cardId
      {
        if hand[i].id == cardId {
          hand := hand[..i] + hand[i + 1..];
          DiscardFirstMatch(held, cardId, i);
          break;
        }
        i := i + 1;
      }
      assert hand == Discard(held, cardId);
      var updated := players[user := players[user].(hand := Some(hand))];
      if |hand| == |held| {
        assert updated[user] == players[user];
        assert updated == players;
      } else {
        assert updated[user] != players[user];
      }
      players := updated;
      Save(players);
      r := Ok(hand, |players[user].deck|);
    }
  }
}
