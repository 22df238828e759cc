/** The property filter: a click on a filter button makes it the only active button and
    then shows or hides every property card by its category. Only the final `display`
    of a card is modelled, not the opacity and scale transitions leading to it. */
module PropertyFilter {
  import opened Selection

  /** An attribute as `getAttribute` returns it: `None` stands for `null`. */
  datatype Attr = None | Some(value: string)

  /** The token that shows every card. */
  const AllToken: string := "all"

  datatype Display = Shown | Hidden

  /** A property card: its `data-category` and its final `display`. */
  datatype Card = Card(category: Attr, display: Display)

  /** The filter buttons (each carrying its `data-filter`) and the cards, in page order. */
  datatype Page = Page(buttons: seq<Element<Attr>>, cards: seq<Card>)

  /** Whether the filter `filter` shows a card of category `category`. */
  predicate Matches(filter: Attr, category: Attr)
    ensures category == filter ==> Matches(filter, category)
    ensures filter != Some(AllToken) && Matches(filter, category) ==> category == filter
  {
    filter == Some(AllToken) || category == filter
  }

  /** The second pass of the click handler, card by card. */
  function ShowMatching(filter: Attr, cards: seq<Card>): (r: seq<Card>)
    ensures |r| == |cards|
    ensures forall j :: 0 <= j < |r| ==> r[j].category == cards[j].category
    ensures forall j :: 0 <= j < |r| ==>
      (r[j].display == Shown <==> filter == Some(AllToken) || cards[j].category == filter)
  {
    if cards == [] then []
    else
      var shown := if Matches(filter, cards[0].category) then Shown else Hidden;
      [cards[0].(display := shown)] + ShowMatching(filter, cards[1..])
  }

  /** The cards agree with the filter `filter`. */
  predicate Agrees(filter: Attr, cards: seq<Card>) {
    forall j :: 0 <= j < |cards| ==> (cards[j].display == Shown <==> Matches(filter, cards[j].category))
  }

  /** One button is active and the cards show exactly what its token selects. */
  predicate Consistent(p: Page) {
    exists i | 0 <= i < |p.buttons| :: OnlyActive(p.buttons, i) && Agrees(p.buttons[i].data, p.cards)
  }

  /** A click on filter button `i`. */
  function ClickFilter(p: Page, i: nat): (r: Page)
    requires i < |p.buttons|
    ensures |r.buttons| == |p.buttons|
    ensures forall j :: 0 <= j < |r.buttons| ==> r.buttons[j].data == p.buttons[j].data
    ensures OnlyActive(r.buttons, i)
    ensures |r.cards| == |p.cards|
    ensures forall j :: 0 <= j < |r.cards| ==> r.cards[j].category == p.cards[j].category
    ensures Consistent(r)
  {
    var filter := p.buttons[i].data;
    var r := Page(Activate(p.buttons, i), ShowMatching(filter, p.cards));
    assert OnlyActive(r.buttons, i) && Agrees(r.buttons[i].data, r.cards);
    r
  }

  /** The token "all" shows every card, whatever its category and earlier display. */
  lemma AllShowsEverything(cards: seq<Card>)
    ensures forall j :: 0 <= j < |cards| ==> ShowMatching(Some(AllToken), cards)[j].display == Shown
  {
  }

  /** A card stays hidden under a specific token exactly when its category differs. */
  lemma HiddenIffOtherCategory(filter: string, cards: seq<Card>, j: nat)
    requires filter != AllToken && j < |cards|
    ensures ShowMatching(Some(filter), cards)[j].display == Hidden <==> cards[j].category != Some(filter)
  {
  }

  /** Earlier filter clicks leave no trace on the cards: the latest token alone decides. */
  lemma LatestFilterDecides(f: Attr, g: Attr, cards: seq<Card>)
    ensures ShowMatching(f, ShowMatching(g, cards)) == ShowMatching(f, cards)
  {
  }

  /** Clicking the same filter button twice is the same as clicking it once, and any
      click sequence ends where its last click alone would. */
  lemma LastFilterClickWins(p: Page, i: nat, k: nat)
    requires i < |p.buttons| && k < |p.buttons|
    ensures ClickFilter(ClickFilter(p, k), i) == ClickFilter(p, i)
  {
  }

  /** A page without `data-filter` on its button and without `data-category` on a card
      shows that card: `null` equals `null`. */
  lemma MissingAttributesMatch()
    ensures Matches(None, None)
    ensures !Matches(None, Some(AllToken))
  {
  }
}
