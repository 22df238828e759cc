/** The filter's delayed hide, for one card. A click whose token does not select the card
    starts a 300 ms timer that sets `display: none`; a click that selects it sets
    `display: block` at once. Nothing cancels a pending hide timer, so a hide scheduled by
    one click can land after a later click has shown the card again. `Elapse` stands for
    300 ms or more passing without a click: every pending hide timer fires. The short
    opacity timer of the show branch does not touch `display` and is not modelled. */
module FilterTimers {
  import opened PropertyFilter

  /** A card's `display` and the number of hide timers still pending on it. */
  datatype TimedCard = TimedCard(category: Attr, display: Display, pendingHides: nat)

  datatype Event = Click(filter: Attr) | Elapse

  /** Every pending hide timer fires. */
  function Fire(c: TimedCard): (r: TimedCard)
    ensures r.pendingHides == 0 && r.category == c.category
    ensures r.display == Shown <==> c.display == Shown && c.pendingHides == 0
  {
    if c.pendingHides > 0 then c.(display := Hidden, pendingHides := 0) else c
  }

  /** The click handler as the page has it: showing leaves earlier hide timers pending. */
  function ClickAsWritten(filter: Attr, c: TimedCard): (r: TimedCard)
    ensures r.category == c.category
    ensures Matches(filter, c.category) ==> r.display == Shown && r.pendingHides == c.pendingHides
    ensures !Matches(filter, c.category) ==> r.display == c.display && r.pendingHides == c.pendingHides + 1
  {
    if Matches(filter, c.category) then c.(display := Shown)
    else c.(pendingHides := c.pendingHides + 1)
  }

  /** The corrected handler: showing a card cancels the hide timers pending on it. */
  function ClickCorrected(filter: Attr, c: TimedCard): (r: TimedCard)
    ensures r.category == c.category
    ensures Matches(filter, c.category) ==> r.display == Shown && r.pendingHides == 0
    ensures !Matches(filter, c.category) ==> r.display == c.display && r.pendingHides == c.pendingHides + 1
    ensures !Matches(filter, c.category) ==> r == ClickAsWritten(filter, c)
  {
    if Matches(filter, c.category) then c.(display := Shown, pendingHides := 0)
    else c.(pendingHides := c.pendingHides + 1)
  }

  function Step(corrected: bool, c: TimedCard, e: Event): TimedCard {
    match e
    case Click(filter) => if corrected then ClickCorrected(filter, c) else ClickAsWritten(filter, c)
    case Elapse => Fire(c)
  }

  function Run(corrected: bool, c: TimedCard, es: seq<Event>): TimedCard
    decreases |es|
  {
    if es == [] then c else Run(corrected, Step(corrected, c, es[0]), es[1..])
  }

  /** Filter clicks at least 300 ms apart settle as the final-display model says: once the
      timers have run, the card is shown exactly when the token selects it. */
  lemma SpacedClickSettles(c: TimedCard, filter: Attr)
    requires c.pendingHides == 0
    ensures var r := Run(false, c, [Click(filter), Elapse]);
      r.pendingHides == 0 && (r.display == Shown <==> Matches(filter, c.category))
  {
    RunTwo(false, c, Click(filter), Elapse);
  }

  /** As written: `villa` then, within 300 ms, `all`, leaves an apartment card hidden
      once the timers have run, although `all` selects every card. */
  lemma StaleHideTimerHidesCard()
    ensures var c := TimedCard(Some("apartment"), Shown, 0);
      var r := Run(false, c, [Click(Some("villa")), Click(Some(AllToken)), Elapse]);
      Matches(Some(AllToken), c.category) && r.display == Hidden
  {
    var c := TimedCard(Some("apartment"), Shown, 0);
    RunThree(false, c, Click(Some("villa")), Click(Some(AllToken)), Elapse);
  }

  /** The corrected card agrees with the token `last` of the latest click, up to
      hide timers that have not fired yet. */
  predicate Tracks(c: TimedCard, last: Attr) {
    if Matches(last, c.category) then c.display == Shown && c.pendingHides == 0
    else c.display == Hidden || c.pendingHides > 0
  }

  /** The token of the latest click in `es`, if any. */
  function LastFilter(es: seq<Event>, before: Attr): Attr
    decreases |es|
  {
    if es == [] then before
    else LastFilter(es[1..], if es[0].Click? then es[0].filter else before)
  }

  lemma {:induction false} CorrectedTracksLastFilter(c: TimedCard, last: Attr, es: seq<Event>)
    requires Tracks(c, last)
    ensures Tracks(Run(true, c, es), LastFilter(es, last))
    decreases |es|
  {
    if es != [] {
      var next := Step(true, c, es[0]);
      assert Tracks(next, if es[0].Click? then es[0].filter else last);
      CorrectedTracksLastFilter(next, if es[0].Click? then es[0].filter else last, es[1..]);
    }
  }

  /** Corrected: whatever the clicks and their timing, once the timers have run the card
      is shown exactly when the latest token selects it. */
  lemma CorrectedSettlesOnLastFilter(c: TimedCard, es: seq<Event>, filter: Attr)
    ensures var r := Run(true, c, es + [Click(filter), Elapse]);
      r.display == Shown <==> Matches(filter, c.category)
  {
    var mid := Run(true, c, es);
    RunAppend(true, c, es, [Click(filter), Elapse]);
    RunCategory(true, c, es);
    var next := ClickCorrected(filter, mid);
    assert Tracks(next, filter);
    CorrectedTracksLastFilter(next, filter, [Elapse]);
  }

  lemma {:induction false} RunAppend(corrected: bool, c: TimedCard, a: seq<Event>, b: seq<Event>)
    ensures Run(corrected, c, a + b) == Run(corrected, Run(corrected, c, a), b)
    decreases |a|
  {
    if a != [] {
      assert (a + b)[0] == a[0] && (a + b)[1..] == a[1..] + b;
      assert Run(corrected, c, a + b) == Run(corrected, Step(corrected, c, a[0]), a[1..] + b);
      RunAppend(corrected, Step(corrected, c, a[0]), a[1..], b);
    } else {
      assert a + b == b;
    }
  }

  lemma {:induction false} RunCategory(corrected: bool, c: TimedCard, es: seq<Event>)
    ensures Run(corrected, c, es).category == c.category
    decreases |es|
  {
    if es != [] {
      RunCategory(corrected, Step(corrected, c, es[0]), es[1..]);
    }
  }

  /** The corrected handler still fixes the race above. */
  lemma CorrectedShowsCardUnderAll()
    ensures var c := TimedCard(Some("apartment"), Shown, 0);
      Run(true, c, [Click(Some("villa")), Click(Some(AllToken)), Elapse]).display == Shown
  {
    var c := TimedCard(Some("apartment"), Shown, 0);
    RunThree(true, c, Click(Some("villa")), Click(Some(AllToken)), Elapse);
  }

  lemma RunTwo(corrected: bool, c: TimedCard, e1: Event, e2: Event)
    ensures Run(corrected, c, [e1, e2]) == Step(corrected, Step(corrected, c, e1), e2)
  {
    var s1 := Step(corrected, c, e1);
    assert [e1, e2][1..] == [e2] && [e2][1..] == [];
    assert Run(corrected, s1, [e2]) == Run(corrected, Step(corrected, s1, e2), []);
  }

  lemma RunThree(corrected: bool, c: TimedCard, e1: Event, e2: Event, e3: Event)
    ensures Run(corrected, c, [e1, e2, e3]) == Step(corrected, Step(corrected, Step(corrected, c, e1), e2), e3)
  {
    assert [e1, e2, e3][1..] == [e2, e3];
    RunTwo(corrected, Step(corrected, c, e1), e2, e3);
  }
}
