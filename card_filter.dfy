/** The client-side filter over the `.card` elements, fed by the `#filter`
    and `#search` inputs. */
module CardFilter {
  import opened Dom
  import opened Text

  /** A card: its textContent and its style.display. */
  datatype Card = Card(text: string, display: string)

  /** `(q || "").trim().toLowerCase()`: a missing value counts as "". */
  function NormalizedQuery(q: Option<string>): string {
    match q
    case None => ""
    case Some(v) => ToLower(Trim(v))
  }

  /** The per-card test of applyFilter. */
  predicate Matches(q: Option<string>, text: string) {
    var s := NormalizedQuery(q);
    s == "" || Includes(ToLower(text), s)
  }

  /** The display value applyFilter writes: "" shows the card, "none" hides it. */
  function DisplayFor(q: Option<string>, text: string): string {
    if Matches(q, text) then "" else "none"
  }

  /** Every card after applyFilter(q): same text, display decided by the query. */
  function Filtered(cards: seq<Card>, q: Option<string>): seq<Card> {
    seq(|cards|, i requires 0 <= i < |cards| => cards[i].(display := DisplayFor(q, cards[i].text)))
  }

  /** A card is shown exactly when the trimmed, lower-cased query occurs in its
      lower-cased text; the empty query occurs everywhere, so the explicit
      `s === ""` test in the source never changes the outcome. */
  lemma {:induction false} MatchesIff(q: Option<string>, text: string)
    ensures Matches(q, text) <==> NormalizedQuery(q) == "" || exists i :: OccursAt(ToLower(text), NormalizedQuery(q), i)
    ensures Matches(q, text) <==> exists i :: OccursAt(ToLower(text), NormalizedQuery(q), i)
  {
    IncludesIff(ToLower(text), NormalizedQuery(q));
    assert OccursAt(ToLower(text), "", 0);
  }

  /** A missing, empty or white-space-only query shows every card. */
  lemma BlankQueryShowsAll(q: Option<string>, cards: seq<Card>)
    requires q.Some? ==> forall k :: 0 <= k < |q.value| ==> IsSpace(q.value[k])
    ensures forall i :: 0 <= i < |cards| ==> Filtered(cards, q)[i].display == ""
  {
    if q.Some? {
      TrimEmptyIffAllSpace(q.value);
    }
  }

  /** Letter case in the query or in the card text does not matter: a query
      typed in capitals shows the same cards as its lower-case form. */
  lemma MatchIgnoresCase(q: string, text: string)
    ensures Matches(Some(ToLower(q)), text) == Matches(Some(q), text)
    ensures Matches(Some(q), ToLower(text)) == Matches(Some(q), text)
    ensures Matches(Some(ToLower(q)), ToLower(text)) == Matches(Some(q), text)
  {
    TrimLowerCommute(q);
    ToLowerIdempotent(Trim(q));
    ToLowerIdempotent(text);
  }

  /** Applying the same query twice gives the same display state as once. */
  lemma FilterIdempotent(cards: seq<Card>, q: Option<string>)
    ensures Filtered(Filtered(cards, q), q) == Filtered(cards, q)
  {
  }

  /** The grid of cards; applyFilter rewrites each card's display in place. */
  class CardGrid {
    var cards: seq<Card>

    constructor (cards0: seq<Card>)
      ensures cards == cards0
    {
      cards := cards0;
    }

    method ApplyFilter(q: Option<string>)
      modifies this
      ensures cards == Filtered(old(cards), q)
    {
      var s := NormalizedQuery(q);
      var i := 0;
      while i < |cards|
        invariant 0 <= i <= |cards| == |old(cards)|
        invariant forall k :: 0 <= k < i ==> cards[k] == old(cards[k]).(display := DisplayFor(q, old(cards[k]).text))
        invariant forall k :: i <= k < |cards| ==> cards[k] == old(cards[k])
      {
        var text := ToLower(cards[i].text);
        var shown := s == "" || Includes(text, s);
        cards := cards[i := cards[i].(display := if shown then "" else "none")];
        i := i + 1;
      }
    }
  }
}
