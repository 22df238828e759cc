/** The stats counters' one-shot guard: the intersection observer's callback starts the
    counter animation on the first intersecting entry and never again. The animation
    itself (frame-by-frame floating-point increments) is not part of this model. */
module StatsCounter {

  /** The `counterAnimated` flag and how many times `animateCounters` has run. */
  datatype Observer = Observer(counterAnimated: bool, animations: nat)

  const Initial: Observer := Observer(false, 0)

  /** The guard holds when the animation has run once if the flag is set, and never if not. */
  predicate Guarded(o: Observer) {
    o.animations == if o.counterAnimated then 1 else 0
  }

  /** The callback's body for one entry, given whether that entry is intersecting. */
  function OnEntry(o: Observer, isIntersecting: bool): (r: Observer)
    ensures Guarded(o) ==> Guarded(r)
    ensures o.counterAnimated ==> r == o
    ensures r.animations <= o.animations + 1
  {
    if isIntersecting && !o.counterAnimated then Observer(true, o.animations + 1) else o
  }

  /** One call of the callback: its entries in order. */
  function OnEntries(o: Observer, entries: seq<bool>): (r: Observer)
    ensures r.counterAnimated <==> o.counterAnimated || true in entries
    ensures r.animations == o.animations + if !o.counterAnimated && true in entries then 1 else 0
    decreases |entries|
  {
    if entries == [] then o
    else
      assert entries == [entries[0]] + entries[1..];
      OnEntries(OnEntry(o, entries[0]), entries[1..])
  }

  /** Successive calls of the callback. */
  function Observe(o: Observer, calls: seq<seq<bool>>): (r: Observer)
    ensures o.counterAnimated ==> r.counterAnimated
    ensures r.animations >= o.animations
    decreases |calls|
  {
    if calls == [] then o else Observe(OnEntries(o, calls[0]), calls[1..])
  }

  /** Some entry of some call was intersecting. */
  predicate EverIntersecting(calls: seq<seq<bool>>) {
    exists k :: 0 <= k < |calls| && true in calls[k]
  }

  /** Over any sequence of callbacks the animation runs at most once, and it runs
      exactly when some entry was intersecting; the flag records whether it has. */
  lemma {:induction false} AtMostOnce(o: Observer, calls: seq<seq<bool>>)
    requires Guarded(o)
    ensures Guarded(Observe(o, calls))
    ensures Observe(o, calls).counterAnimated <==> o.counterAnimated || EverIntersecting(calls)
    decreases |calls|
  {
    if calls != [] {
      AtMostOnce(OnEntries(o, calls[0]), calls[1..]);
      assert forall k :: 1 <= k < |calls| ==> calls[k] == calls[1..][k - 1];
    }
  }

  /** From the page as loaded. */
  lemma AtMostOnceFromLoad(calls: seq<seq<bool>>)
    ensures Observe(Initial, calls).animations <= 1
    ensures Observe(Initial, calls).animations == 1 <==> EverIntersecting(calls)
  {
    AtMostOnce(Initial, calls);
  }

  /** Once the flag is set nothing changes any more. */
  lemma {:induction false} AnimatedStays(o: Observer, calls: seq<seq<bool>>)
    requires o.counterAnimated
    ensures Observe(o, calls) == o
    decreases |calls|
  {
    if calls != [] {
      AnimatedStays(OnEntries(o, calls[0]), calls[1..]);
    }
  }

  /** Within one callback, the animation starts on the first intersecting entry: the
      entries before it do nothing, and that entry starts it. */
  lemma FirstIntersectingEntryStarts(o: Observer, entries: seq<bool>, j: nat)
    requires !o.counterAnimated && j < |entries| && entries[j]
    requires true !in entries[..j]
    ensures OnEntries(o, entries[..j]) == o
    ensures OnEntries(o, entries[..j + 1]) == Observer(true, o.animations + 1)
  {
  }
}
