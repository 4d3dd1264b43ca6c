# Player store of the hide-and-seek card deck backend

This project models the player store of the deck backend in Dafny. The store is a
single document that maps each lower-cased username to a record with a `deck` and
a `hand` of cards. Each operation reads the whole document, changes one record
in memory, and writes the document back if it changed:

- **reset** gives a player a fresh deck and an empty hand;
- **hello** returns a player's hand. It first gives a missing hand the value `[]`,
  rebuilds an empty deck, and creates an unknown player;
- **draw** moves one card, chosen by a random index, from the deck to the end of
  the hand. It does nothing when the deck is empty or the hand holds
  `MAX_HAND_SIZE` (6) cards;
- **discard** removes the first card in the hand whose id matches.

A fresh deck comes from the card catalog. Each catalog entry contributes `count`
copies of itself with the `count` field dropped.

Files:

- `wrappers.dfy`: `Option`, used for a field that may be absent and for a document
  that does not parse.
- `deck_builder.dfy` (module `DeckBuilder`): cards, catalog entries, the
  specification `Expand` of a fresh deck, and the method `BuildDeck` that builds
  it with the source's two nested loops.
- `player_store.dfy` (module `PlayerStore`): player records, pure specifications
  of a draw (`Draw`) and a discard (`Discard`) with their lemmas, and the class
  `Store`. Its field `file` is the stored document; `None` means the stored text
  does not parse. Its field `writes` counts how many times the document was
  written. Its methods are the four operations and keep the source's loops and
  in-place updates.
- `scenarios.dfy` (module `Scenarios`): client sequences of operations. These are
  reset then hello, six draws up to the cap, and a reset/draw/discard run on a
  three-card catalog.

Abstractions:

- The card catalog (`cards.json`) is a parameter `catalog: seq<CatalogEntry>`.
- The random index of a draw is a parameter `pick`. The method requires it to be
  inside the deck whenever a draw will happen, as `random.randint(0, len - 1)`
  guarantees.
- Reading `players.json` and parsing it is the field `file`. Writing it is `Save`.
  `Save` writes when the new document differs from the stored value, and the
  stored value afterwards is always the new document.
- A record's hand may be missing from the stored JSON, so it is an
  `Option<seq<Card>>`.

Two places where the code differs from what its messages suggest (api.py:64
reports an "invalid hand or deck"), and the model follows the code:

- A draw or discard on a record without a `hand` field raises a `KeyError` at
  modules/player.py:110-115 and 145. The model returns `MissingHand` for this and
  does not write.
- The draw guard is `len(hand) == 6`, not `>= 6`, and the model keeps that test.
  No operation can make a hand longer than 6 from a document whose hands are
  already at most 6. Reset, hello, draw and discard each preserve `Capped`.

## Model

| member | source | states |
|---|---|---|
| DeckBuilder.Expand | modules/player.py:15-30 | the deck a catalog expands to; every card in it is the trimmed card of some catalog entry |
| DeckBuilder.BuildDeck | modules/player.py:15-30 | the deck built by the nested loops is exactly `Expand(catalog)`, and its length is the sum of the catalog's copy counts |
| DeckBuilder.Repeat | modules/player.py:28-29 | the inner loop's contribution has `n` elements, each the trimmed card |
| DeckBuilder.ExpandLength | modules/player.py:15-30 | a fresh deck holds `TotalCount(catalog)` cards, where a negative count contributes none |
| DeckBuilder.ExpandAppend | modules/player.py:19-29 | the deck for two catalogs placed one after the other is the two decks placed one after the other |
| DeckBuilder.ExpandSegment | modules/player.py:19-29 | entry k fills exactly the `Copies(catalog[k])` consecutive positions starting at the total count of the entries before it, each with its trimmed card, so copies appear in catalog order |
| PlayerStore.RemoveAt | modules/player.py:118 | `pop(i)` leaves one element fewer, keeps the elements before `i`, shifts those after it, and loses only `s[i]` from the multiset |
| PlayerStore.Draw | modules/player.py:110-118 | the guard and the pop/append. When the deck is empty or the hand holds 6 cards, deck and hand are returned unchanged. In every case deck plus hand is the same multiset afterwards, and the hand grows by one card exactly when a draw happens |
| PlayerStore.DrawMoves | modules/player.py:114-118 | a possible draw makes the hand one longer. The new deck is `RemoveAt(deck, i)`, the old deck with element `i` popped. The old hand is a prefix of the new one, the new last card is `deck[i]`, and the multiset of deck plus hand is preserved |
| PlayerStore.DrawKeepsCap | modules/player.py:114-118 | a hand of at most `MAX_HAND_SIZE` cards still has at most that many after a draw |
| PlayerStore.FindFirst | modules/player.py:146-149 | the index found holds a card with the id, no earlier card has it, and the index is `|hand|` exactly when no card matches |
| PlayerStore.Discard | modules/player.py:145-149 | the first-match delete never adds a card, and it removes one card exactly when the scan finds a match |
| PlayerStore.DiscardFirstMatch | modules/player.py:145-149 | when k is the first index with a matching id, discard removes position k and nothing else |
| PlayerStore.DiscardNoMatch | modules/player.py:145-149 | with no matching id the hand is unchanged |
| PlayerStore.CountPositiveIffFound | modules/player.py:146-147 | the hand holds a card with the id if and only if the scan finds one |
| PlayerStore.DiscardCount | modules/player.py:145-149 | discard lowers the number of cards with that id by exactly one when there is any, even with duplicates. The counts of all other ids are unchanged |
| PlayerStore.HelloRecord | modules/player.py:68-82 | the record hello leaves, built with `Healed` for an existing user. An unknown user gets exactly `{deck: rebuilt, hand: []}`. For an existing user a missing hand becomes `[]` and a present hand is kept, and an empty deck becomes the rebuilt deck while a non-empty deck is kept |
| PlayerStore.Store.Save | modules/player.py:48-52 | afterwards the stored document is the new one. A write is counted only when the new document differs from what was stored |
| PlayerStore.Store.ResetPlayerData | modules/player.py:33-54 | a document that does not parse counts as empty. The user's record becomes `{deck: Expand(catalog), hand: []}` and no other record changes. The method returns `([], TotalCount(catalog))` and preserves the hand cap |
| PlayerStore.Store.GetHandForPlayer | modules/player.py:57-90 | an existing record keeps a present hand and gets `[]` for a missing one. Its deck is rebuilt if and only if it is empty. An unknown user gets a fresh record. No other record changes, and the returned pair is the stored record's hand and deck size |
| PlayerStore.Store.DrawCardForPlayer | modules/player.py:93-127 | returns NotFound without writing when the document does not parse or the user is absent, and MissingHand without writing when the hand field is missing. An empty deck or a full hand returns the record unchanged with no write. Otherwise the record becomes `Draw(deck, hand, pick)`, exactly one write happens, and only that record changes |
| PlayerStore.Store.DiscardCardForPlayer | modules/player.py:130-158 | the NotFound and MissingHand cases are as for draw. Otherwise the hand becomes `Discard(hand, cardId)` and the deck is unchanged, with its size returned. A write happens if and only if a card was removed, and only that record changes |
| Scenarios.ResetThenHello | modules/player.py:33-90 | hello right after reset returns an empty hand and the catalog's total copy count, whatever was stored before |
| Scenarios.DrawUntilFull | modules/player.py:93-127 | after a reset, six in-range draws leave a 6-card hand and a deck 6 shorter, and a seventh draw returns them unchanged |
| Scenarios.AliceScenario | modules/player.py:33-158 | with a catalog of three copies, reset gives deck size 3. A draw gives a one-card hand and deck size 2, and discarding that card gives an empty hand with deck size 2 |

## Left out

- File I/O on `players.json` and `cards.json`, and JSON parsing and serialisation. These are replaced by the field `file`, the method `Save` and the `catalog` parameter.
- PlayerStore.Store.Save: the source writes when the serialised text differs from the text it read. The model writes when the document value differs. A text that parses to the same document but uses different formatting is rewritten by the source and not by the model.
- Stored JSON whose shape is not a map of records (a top-level list, a record without `deck`, a card without `id`). The typed `Player` and `Card` cannot represent such documents, so operations on them are not modelled. Reset leaves other users' malformed records as they are, and hello, draw and discard never read other users' records. For the user's own malformed record the source raises at modules/player.py:74, 110, 147 or 158; at 158 it raises after the conditional write at 154-156, so a removed card is already saved.
- A catalog file that is missing or malformed. The source crashes; the catalog is a well-typed parameter here.
- The distribution of `random.randint`. Only the range of the index is modelled.
- The `print` logging, and concurrent requests (lost updates between read and write are not modelled).
- `cost` is a JSON number and is modelled as a `real`. The distinction between int and float that Python keeps is not modelled.
- `build_deck` appends the same dictionary object `count` times. No operation mutates a card, so this aliasing cannot be observed and is not modelled.
- The HTTP routes in `api.py` (lower-casing the username, wrapping the reply) and the browser front end in `frontend/app.js` are not part of this model.
