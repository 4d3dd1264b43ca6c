/**
  The deck builder: a fresh deck holds, for every entry of the card catalog,
  `count` copies of that entry with the `count` field dropped, in catalog order.
 */
module DeckBuilder {

  /** A card as it is stored in a deck or a hand. */
  datatype Card = Card(id: int, title: string, description: string, cost: real)

  /** A card template of the catalog: a card plus the number of copies per deck. */
  datatype CatalogEntry = CatalogEntry(id: int, title: string, description: string, cost: real, count: int)

  /** The card an entry puts in a deck: the entry without its `count`. */
  function Trim(e: CatalogEntry): Card {
    Card(e.id, e.title, e.description, e.cost)
  }

  /** How many copies an entry contributes; iterating a negative count does nothing. */
  function Copies(e: CatalogEntry): nat {
    if e.count > 0 then e.count else 0
  }

  /** `n` copies of `c`. */
  function Repeat(c: Card, n: nat): (r: seq<Card>)
    ensures |r| == n
    ensures forall j :: 0 <= j < n ==> r[j] == c
  {
    if n == 0 then [] else Repeat(c, n - 1) + [c]
  }

  /**
    The deck a catalog expands to, built from the last entry backwards: every
    card in it is the trimmed card of some catalog entry.
   */
  function Expand(catalog: seq<CatalogEntry>): (r: seq<Card>)
    ensures forall c :: c in r ==> exists e :: e in catalog && c == Trim(e)
  {
    if catalog == [] then []
    else
      var last := catalog[|catalog| - 1];
      Expand(catalog[..|catalog| - 1]) + Repeat(Trim(last), Copies(last))
  }

  /** The number of copies a catalog asks for, over all its entries. */
  function TotalCount(catalog: seq<CatalogEntry>): nat
  {
    if catalog == [] then 0
    else TotalCount(catalog[..|catalog| - 1]) + Copies(catalog[|catalog| - 1])
  }

  /** Where the copies of entry `k` start in the expanded deck. */
  function Offset(catalog: seq<CatalogEntry>, k: nat): nat
    requires k <= |catalog|
  {
    TotalCount(catalog[..k])
  }

  /** A fresh deck holds as many cards as the catalog's counts add up to. */
  lemma {:induction false} ExpandLength(catalog: seq<CatalogEntry>)
    ensures |Expand(catalog)| == TotalCount(catalog)
  {
    if catalog != [] {
      ExpandLength(catalog[..|catalog| - 1]);
    }
  }

  /** Expanding a catalog split in two gives the two parts' decks one after the other. */
  lemma {:induction false} ExpandAppend(a: seq<CatalogEntry>, b: seq<CatalogEntry>)
    ensures Expand(a + b) == Expand(a) + Expand(b)
  {
    if b == [] {
      assert a + b == a;
    } else {
      assert (a + b)[..|a + b| - 1] == a + b[..|b| - 1];
      ExpandAppend(a, b[..|b| - 1]);
    }
  }

  /**
    Entry `k` owns the `Copies(catalog[k])` consecutive positions starting at
    `Offset(catalog, k)`, each holding its trimmed card, and the next entry's
    copies start right after them: the deck is the catalog's entries in order.
   */
  lemma ExpandSegment(catalog: seq<CatalogEntry>, k: nat)
    requires k < |catalog|
    ensures Offset(catalog, k + 1) == Offset(catalog, k) + Copies(catalog[k])
    ensures Offset(catalog, k + 1) <= |Expand(catalog)|
    ensures forall j :: Offset(catalog, k) <= j < Offset(catalog, k + 1) ==> Expand(catalog)[j] == Trim(catalog[k])
  {
    var front, rest := catalog[..k + 1], catalog[k + 1..];
    assert front[..k] == catalog[..k];
    assert catalog == front + rest;
    ExpandAppend(front, rest);
    ExpandLength(catalog[..k]);
    ExpandLength(front);
  }

  /** The deck built from a catalog: Python's nested `for` loops with `append`. */
  method BuildDeck(catalog: seq<CatalogEntry>) returns (deck: seq<Card>)
    ensures deck == Expand(catalog)
    ensures |deck| == TotalCount(catalog)
  {
    deck := [];
    for k := 0 to |catalog|
      invariant deck == Expand(catalog[..k])
    {
      var card := Trim(catalog[k]);
      for j := 0 to Copies(catalog[k])
        invariant deck == Expand(catalog[..k]) + Repeat(card, j)
      {
        deck := deck + [card];
      }
      assert catalog[..k + 1][..k] == catalog[..k];
    }
    assert catalog[..|catalog|] == catalog;
    ExpandLength(catalog);
  }
}
