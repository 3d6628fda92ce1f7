/**
 The intermittent optimizer: the cheapest (or most expensive) slices of the
 timeline, not necessarily adjacent, adding up to the requested duration.
 The exact branch walks the window's slots in price order, optionally first
 trying only the slots within a tolerance band in start order; the flexible
 branch accepts any total between a minimum and a maximum duration and stops
 early once the minimum is met and the next slot is too dear.
 */
module Intermittent {
  import opened Wrappers
  import opened Timeline
  import opened Sorting
  import opened IntervalWalk

  /** Why a run raises instead of returning: indexing the first slot of an
      empty list, or dividing by a reference price of zero. */
  datatype Fault = EmptyReferenceList | ZeroReferencePrice

  /** A run returns nothing, a list of intervals (possibly empty), or raises. */
  datatype Outcome = NoResult | Found(intervals: seq<Interval>) | Crash(fault: Fault)

  // ---------------------------------------------------------------------------
  // Filters
  // ---------------------------------------------------------------------------

  /** The two filters the optimizer applies to slot lists. */
  datatype Criterion =
    | WithinWindow(earliestStart: int, latestEnd: int)
    | WithinTolerance(mode: Mode, reference: real, tolerance: real)

  predicate Holds(c: Criterion, s: Slot) {
    match c
    case WithinWindow(earliestStart, latestEnd) => OverlapsWindow(s, earliestStart, latestEnd)
    case WithinTolerance(mode, reference, tolerance) => WithinBand(mode, reference, tolerance, s.price)
  }

  /** The slots satisfying `c`, in their original order. */
  function Filter(c: Criterion, slots: seq<Slot>): (r: seq<Slot>)
    ensures multiset(r) <= multiset(slots)
    ensures forall s :: s in r <==> s in slots && Holds(c, s)
  {
    if |slots| == 0 then []
    else
      var rest := Filter(c, slots[1..]);
      assert slots == [slots[0]] + slots[1..];
      if Holds(c, slots[0]) then [slots[0]] + rest else rest
  }

  /** Filtering distributes over concatenation: the kept slots stay in their
      original order. */
  lemma {:induction false} FilterConcat(c: Criterion, a: seq<Slot>, b: seq<Slot>)
    ensures Filter(c, a + b) == Filter(c, a) + Filter(c, b)
  {
    if |a| == 0 {
      assert a + b == b;
    } else {
      assert (a + b)[0] == a[0] && (a + b)[1..] == a[1..] + b;
      FilterConcat(c, a[1..], b);
    }
  }

  /** A single slot is kept exactly when it satisfies the criterion; with
      FilterConcat this determines the filter of every list. */
  lemma FilterSingle(c: Criterion, s: Slot)
    ensures Filter(c, [s]) == if Holds(c, s) then [s] else []
  {
  }

  /** The filter keeps every slot satisfying the criterion as often as it
      occurs, and no other slot. */
  lemma {:induction false} FilterCount(c: Criterion, slots: seq<Slot>, x: Slot)
    ensures multiset(Filter(c, slots))[x] == if Holds(c, x) then multiset(slots)[x] else 0
  {
    if |slots| > 0 {
      FilterCount(c, slots[1..], x);
      assert multiset(slots) == multiset{slots[0]} + multiset(slots[1..]) by {
        assert slots == [slots[0]] + slots[1..];
      }
    }
  }

  /** The window's slots in stable price order, cheapest (or dearest) first. */
  function PriceOrder(slots: seq<Slot>, earliestStart: int, latestEnd: int, mode: Mode): seq<Slot> {
    StableSort(ByPrice(mode), Filter(WithinWindow(earliestStart, latestEnd), slots))
  }

  /** Filtering commutes with taking a key class. */
  lemma {:induction false} FilterKeyClass(c: Criterion, order: Order, s: seq<Slot>, y: Slot)
    ensures KeyClass(order, Filter(c, s), y) == Filter(c, KeyClass(order, s, y))
  {
    if |s| > 0 {
      var rest := Filter(c, s[1..]);
      var tail := KeyClass(order, s[1..], y);
      FilterKeyClass(c, order, s[1..], y);
      if Holds(c, s[0]) {
        KeyClassCons(order, s[0], rest, y);
      }
      if SameKey(order, s[0], y) {
        assert ([s[0]] + tail)[0] == s[0] && ([s[0]] + tail)[1..] == tail;
      } else {
        assert KeyClass(order, s, y) == tail;
      }
    }
  }

  /** Window slots of equal price keep their timeline order in the price
      order: the stable sort breaks ties by position in the timeline. */
  lemma PriceOrderKeepsTimelineTies(slots: seq<Slot>, earliestStart: int, latestEnd: int, mode: Mode, y: Slot)
    ensures KeyClass(ByPrice(mode), PriceOrder(slots, earliestStart, latestEnd, mode), y)
         == Filter(WithinWindow(earliestStart, latestEnd), KeyClass(ByPrice(mode), slots, y))
  {
    StableSortKeepsKeyClass(ByPrice(mode), Filter(WithinWindow(earliestStart, latestEnd), slots), y);
    FilterKeyClass(WithinWindow(earliestStart, latestEnd), ByPrice(mode), slots, y);
  }

  /** The head of the price order carries the extreme price of the window. */
  lemma PriceOrderHeadIsExtreme(slots: seq<Slot>, earliestStart: int, latestEnd: int, mode: Mode, s: Slot)
    requires |PriceOrder(slots, earliestStart, latestEnd, mode)| > 0
    requires s in slots && OverlapsWindow(s, earliestStart, latestEnd)
    ensures PriceOrder(slots, earliestStart, latestEnd, mode)[0] in slots
    ensures !Better(mode, s.price, PriceOrder(slots, earliestStart, latestEnd, mode)[0].price)
  {
    var window := Filter(WithinWindow(earliestStart, latestEnd), slots);
    var order := PriceOrder(slots, earliestStart, latestEnd, mode);
    assert s in window;
    assert s in multiset(order);
    SortedHeadFirst(ByPrice(mode), order, s);
    assert order[0] in multiset(window);
  }

  /** The slice lies inside slot `s` clipped to the window and is priced at
      the slot's rate. */
  ghost predicate SliceWithin(s: Slot, earliestStart: int, latestEnd: int, iv: Interval) {
    && OverlapsWindow(s, earliestStart, latestEnd)
    && ClipStart(s, earliestStart) <= iv.start && iv.end <= ClipEnd(s, latestEnd)
    && iv.price == CostOf(s.price, Length(iv))
  }

  /** The slice comes from some window slot of the timeline. */
  ghost predicate FromSomeSlot(slots: seq<Slot>, earliestStart: int, latestEnd: int, iv: Interval) {
    exists s :: s in slots && SliceWithin(s, earliestStart, latestEnd, iv)
  }

  /** Every slice comes from a window slot of the timeline. */
  ghost predicate FromWindow(slots: seq<Slot>, earliestStart: int, latestEnd: int, ivs: seq<Interval>) {
    forall i :: 0 <= i < |ivs| ==> FromSomeSlot(slots, earliestStart, latestEnd, ivs[i])
  }

  lemma GreedyFromWindow(slots: seq<Slot>, walked: seq<Slot>, earliestStart: int, latestEnd: int, cap: int, ivs: seq<Interval>)
    requires Greedy(walked, earliestStart, latestEnd, cap, ivs)
    requires forall s :: s in walked ==> s in slots && OverlapsWindow(s, earliestStart, latestEnd)
    ensures FromWindow(slots, earliestStart, latestEnd, ivs)
  {
    forall i | 0 <= i < |ivs|
      ensures FromSomeSlot(slots, earliestStart, latestEnd, ivs[i])
    {
      assert GreedyStep(walked, earliestStart, latestEnd, cap, ivs, i);
      assert walked[i] in walked;
      assert SliceWithin(walked[i], earliestStart, latestEnd, ivs[i]);
    }
  }

  /** Elements of a list taken from the window are window slots. */
  lemma FromWindowSlots(slots: seq<Slot>, earliestStart: int, latestEnd: int, walked: seq<Slot>)
    requires multiset(walked) <= multiset(Filter(WithinWindow(earliestStart, latestEnd), slots))
    ensures forall s :: s in walked ==> s in slots && OverlapsWindow(s, earliestStart, latestEnd)
  {
    forall s | s in walked ensures s in slots && OverlapsWindow(s, earliestStart, latestEnd) {
      assert s in multiset(walked);
    }
  }

  // ---------------------------------------------------------------------------
  // Exact duration
  // ---------------------------------------------------------------------------

  /** The slots within the tolerance band around the head of `byPrice`, in
      stable start order. */
  function BandOrder(byPrice: seq<Slot>, mode: Mode, tolerance: real): seq<Slot>
    requires |byPrice| > 0
  {
    StableSort(ByStart, Filter(WithinTolerance(mode, byPrice[0].price, tolerance), byPrice))
  }

  /** The exact-duration optimizer. No result without a timeline covering
      `latestEnd`; with a positive tolerance an empty window raises, the
      in-band slots are walked in start order first and kept if they reach
      the duration; otherwise the window is walked in price order. The total
      never exceeds the duration and is not checked against it. */
  function CalcIntervalsExact(slots: seq<Slot>, earliestStart: int, latestEnd: int, duration: int, mode: Mode, tolerance: real): (r: Outcome)
    requires duration > 0
    ensures r.NoResult? <==> |slots| == 0 || Last(slots).end < latestEnd
    ensures r.Crash? <==> |slots| > 0 && Last(slots).end >= latestEnd && tolerance > 0.0
                          && |Filter(WithinWindow(earliestStart, latestEnd), slots)| == 0
    ensures r.Crash? ==> r.fault == EmptyReferenceList
    ensures r.Found? ==> TotalLength(r.intervals) <= duration && FromWindow(slots, earliestStart, latestEnd, r.intervals)
    ensures r.Found? && tolerance <= 0.0 ==> Greedy(PriceOrder(slots, earliestStart, latestEnd, mode), earliestStart, latestEnd, duration, r.intervals)
    ensures r.Found? && tolerance <= 0.0 && |r.intervals| < |PriceOrder(slots, earliestStart, latestEnd, mode)| ==>
      TotalLength(r.intervals) == duration
  {
    if |slots| == 0 then NoResult
    else if Last(slots).end < latestEnd then NoResult
    else
      var byPrice := PriceOrder(slots, earliestStart, latestEnd, mode);
      FromWindowSlots(slots, earliestStart, latestEnd, byPrice);
      var strict := SelectIntervals(byPrice, earliestStart, latestEnd, duration);
      GreedyFromWindow(slots, byPrice, earliestStart, latestEnd, duration, strict);
      if tolerance > 0.0 then
        if |byPrice| == 0 then Crash(EmptyReferenceList)
        else
          var band := BandOrder(byPrice, mode, tolerance);
          FromWindowSlots(slots, earliestStart, latestEnd, band);
          var attempt := SelectIntervals(band, earliestStart, latestEnd, duration);
          GreedyFromWindow(slots, band, earliestStart, latestEnd, duration, attempt);
          if TotalLength(attempt) >= duration then Found(attempt) else Found(strict)
      else Found(strict)
  }

  /** On a well-formed timeline and a non-empty window, the exact optimizer
      without tolerance takes the duration, or every second the window's
      slots offer when that is less. */
  lemma ExactTotal(slots: seq<Slot>, earliestStart: int, latestEnd: int, duration: int, mode: Mode, tolerance: real)
    requires duration > 0 && tolerance <= 0.0
    requires WellFormed(slots) && earliestStart < latestEnd
    ensures var r := CalcIntervalsExact(slots, earliestStart, latestEnd, duration, mode, tolerance);
      r.Found? ==> TotalLength(r.intervals) == Min(duration, TotalClip(PriceOrder(slots, earliestStart, latestEnd, mode), earliestStart, latestEnd))
  {
    var byPrice := PriceOrder(slots, earliestStart, latestEnd, mode);
    FromWindowSlots(slots, earliestStart, latestEnd, byPrice);
    forall i | 0 <= i < |byPrice| ensures ClipLength(byPrice[i], earliestStart, latestEnd) >= 0 {
      assert byPrice[i] in byPrice;
      var k :| 0 <= k < |slots| && slots[k] == byPrice[i];
      OverlapKeepsPart(byPrice[i], earliestStart, latestEnd);
    }
    SelectTotal(byPrice, earliestStart, latestEnd, duration);
  }

  /** With a positive tolerance the result is either the in-band walk, which
      then takes exactly the duration, or, when that walk falls short, the
      result without tolerance. */
  lemma ExactToleranceOrFallback(slots: seq<Slot>, earliestStart: int, latestEnd: int, duration: int, mode: Mode, tolerance: real)
    requires duration > 0 && tolerance > 0.0
    requires CalcIntervalsExact(slots, earliestStart, latestEnd, duration, mode, tolerance).Found?
    ensures |PriceOrder(slots, earliestStart, latestEnd, mode)| > 0
    ensures var r := CalcIntervalsExact(slots, earliestStart, latestEnd, duration, mode, tolerance);
      var attempt := SelectIntervals(BandOrder(PriceOrder(slots, earliestStart, latestEnd, mode), mode, tolerance), earliestStart, latestEnd, duration);
      || (TotalLength(attempt) == duration && r.intervals == attempt)
      || (TotalLength(attempt) < duration && r == CalcIntervalsExact(slots, earliestStart, latestEnd, duration, mode, 0.0))
  {
  }

  /** The in-band walk only uses window slots whose price lies within the
      band around the window's extreme price. */
  lemma BandSlots(slots: seq<Slot>, earliestStart: int, latestEnd: int, mode: Mode, tolerance: real)
    requires |PriceOrder(slots, earliestStart, latestEnd, mode)| > 0
    ensures var byPrice := PriceOrder(slots, earliestStart, latestEnd, mode);
      forall s :: s in BandOrder(byPrice, mode, tolerance) ==>
        (s in slots && OverlapsWindow(s, earliestStart, latestEnd) && WithinBand(mode, byPrice[0].price, tolerance, s.price))
    ensures multiset(BandOrder(PriceOrder(slots, earliestStart, latestEnd, mode), mode, tolerance))
         <= multiset(Filter(WithinWindow(earliestStart, latestEnd), slots))
    ensures var byPrice := PriceOrder(slots, earliestStart, latestEnd, mode);
      forall s :: s in slots && OverlapsWindow(s, earliestStart, latestEnd) && WithinBand(mode, byPrice[0].price, tolerance, s.price) ==>
        s in BandOrder(byPrice, mode, tolerance)
  {
    var byPrice := PriceOrder(slots, earliestStart, latestEnd, mode);
    var kept := Filter(WithinTolerance(mode, byPrice[0].price, tolerance), byPrice);
    var band := BandOrder(byPrice, mode, tolerance);
    var window := Filter(WithinWindow(earliestStart, latestEnd), slots);
    assert multiset(band) <= multiset(window) by {
      assert multiset(band) == multiset(kept);
      assert multiset(byPrice) == multiset(window);
    }
    FromWindowSlots(slots, earliestStart, latestEnd, band);
    forall s | s in band ensures WithinBand(mode, byPrice[0].price, tolerance, s.price) {
      assert s in multiset(band);
      assert s in kept;
    }
    BandKeepsInBandSlots(slots, earliestStart, latestEnd, mode, tolerance);
  }

  /** Every window slot within the band is walked by the in-band walk. */
  lemma BandKeepsInBandSlots(slots: seq<Slot>, earliestStart: int, latestEnd: int, mode: Mode, tolerance: real)
    requires |PriceOrder(slots, earliestStart, latestEnd, mode)| > 0
    ensures var byPrice := PriceOrder(slots, earliestStart, latestEnd, mode);
      forall s :: s in slots && OverlapsWindow(s, earliestStart, latestEnd) && WithinBand(mode, byPrice[0].price, tolerance, s.price) ==>
        s in BandOrder(byPrice, mode, tolerance)
  {
    var byPrice := PriceOrder(slots, earliestStart, latestEnd, mode);
    var kept := Filter(WithinTolerance(mode, byPrice[0].price, tolerance), byPrice);
    var window := Filter(WithinWindow(earliestStart, latestEnd), slots);
    forall s | s in slots && OverlapsWindow(s, earliestStart, latestEnd) && WithinBand(mode, byPrice[0].price, tolerance, s.price)
      ensures s in BandOrder(byPrice, mode, tolerance)
    {
      assert s in multiset(byPrice) by {
        assert s in window;
        assert multiset(byPrice) == multiset(window);
      }
      assert s in kept;
      assert s in multiset(BandOrder(byPrice, mode, tolerance));
    }
  }

  /** On a well-formed timeline the in-band walk's slices come in
      chronological order: earlier slots are preferred. */
  lemma BandWalkChronological(slots: seq<Slot>, earliestStart: int, latestEnd: int, duration: int, mode: Mode, tolerance: real)
    requires duration > 0 && WellFormed(slots)
    requires |PriceOrder(slots, earliestStart, latestEnd, mode)| > 0
    ensures var ivs := SelectIntervals(BandOrder(PriceOrder(slots, earliestStart, latestEnd, mode), mode, tolerance), earliestStart, latestEnd, duration);
      forall i, j :: 0 <= i < j < |ivs| ==> ivs[i].end <= ivs[j].start
  {
    var byPrice := PriceOrder(slots, earliestStart, latestEnd, mode);
    var band := BandOrder(byPrice, mode, tolerance);
    var window := Filter(WithinWindow(earliestStart, latestEnd), slots);
    BandSlots(slots, earliestStart, latestEnd, mode, tolerance);
    WellFormedIsDisjoint(slots);
    SubMultisetKeepsDisjoint(slots, window);
    SubMultisetKeepsDisjoint(window, band);
    forall i | 0 <= i < |band| ensures band[i].start < band[i].end {
      assert band[i] in band;
      var k :| 0 <= k < |slots| && slots[k] == band[i];
    }
    forall i, j | 0 <= i < j < |band| ensures band[i].start <= band[j].start {
      assert Le(ByStart, band[i], band[j]);
    }
    GreedyChronological(band, earliestStart, latestEnd, duration, SelectIntervals(band, earliestStart, latestEnd, duration));
  }

  /** The strict walk over slots taken from a well-formed timeline (with
      multiplicity, as filtering and sorting do) yields no overlapping
      slices. */
  lemma SelectDisjoint(slots: seq<Slot>, walked: seq<Slot>, earliestStart: int, latestEnd: int, duration: int)
    requires duration > 0 && WellFormed(slots)
    requires multiset(walked) <= multiset(slots)
    ensures NoOverlap(SelectIntervals(walked, earliestStart, latestEnd, duration))
  {
    WellFormedIsDisjoint(slots);
    SubMultisetKeepsDisjoint(slots, walked);
    GreedyDisjoint(walked, earliestStart, latestEnd, duration, SelectIntervals(walked, earliestStart, latestEnd, duration));
  }

  /** On a well-formed timeline the exact optimizer's slices never overlap. */
  lemma ExactDisjoint(slots: seq<Slot>, earliestStart: int, latestEnd: int, duration: int, mode: Mode, tolerance: real)
    requires duration > 0 && WellFormed(slots)
    requires CalcIntervalsExact(slots, earliestStart, latestEnd, duration, mode, tolerance).Found?
    ensures NoOverlap(CalcIntervalsExact(slots, earliestStart, latestEnd, duration, mode, tolerance).intervals)
  {
    var byPrice := PriceOrder(slots, earliestStart, latestEnd, mode);
    SelectDisjoint(slots, byPrice, earliestStart, latestEnd, duration);
    if tolerance > 0.0 && |byPrice| > 0 {
      var band := BandOrder(byPrice, mode, tolerance);
      assert multiset(band) <= multiset(slots);
      SelectDisjoint(slots, band, earliestStart, latestEnd, duration);
    }
  }

  // ---------------------------------------------------------------------------
  // Flexible duration
  // ---------------------------------------------------------------------------

  /** The reference price of the flexible walk after choosing `ivs` from
      `walked`: set to the rate of the slot whose slice first brings the
      total to `minDuration`, then kept. */
  function RefPrice(walked: seq<Slot>, ivs: seq<Interval>, minDuration: int): Option<real>
    requires |ivs| <= |walked|
  {
    if |ivs| == 0 then None
    else
      var prev := RefPrice(walked, ivs[..|ivs| - 1], minDuration);
      if prev.Some? then prev
      else if TotalLength(ivs) >= minDuration then Some(walked[|ivs| - 1].price)
      else None
  }

  /** The reference price is unset exactly while every partial total stayed
      below the minimum; once set it is the rate of the first slot whose
      slice brought the total to the minimum. */
  lemma {:induction false} RefPriceIsFirstToReachMin(walked: seq<Slot>, ivs: seq<Interval>, minDuration: int)
    requires |ivs| <= |walked|
    ensures RefPrice(walked, ivs, minDuration).None? <==> forall k :: 0 < k <= |ivs| ==> TotalLength(ivs[..k]) < minDuration
    ensures RefPrice(walked, ivs, minDuration).Some? ==>
      exists j :: 0 <= j < |ivs| && RefPrice(walked, ivs, minDuration).value == walked[j].price
        && TotalLength(ivs[..j + 1]) >= minDuration
        && (forall k :: 0 < k <= j ==> TotalLength(ivs[..k]) < minDuration)
  {
    if |ivs| > 0 {
      var init := ivs[..|ivs| - 1];
      RefPriceIsFirstToReachMin(walked, init, minDuration);
      assert forall k :: 0 < k <= |init| ==> init[..k] == ivs[..k];
      assert ivs[..|ivs|] == ivs;
      if RefPrice(walked, init, minDuration).Some? {
        var j :| 0 <= j < |init| && RefPrice(walked, init, minDuration).value == walked[j].price
          && TotalLength(init[..j + 1]) >= minDuration
          && (forall k :: 0 < k <= j ==> TotalLength(init[..k]) < minDuration);
        assert init[..j + 1] == ivs[..j + 1];
      }
    }
  }

  /** Once set, the reference price never changes as the walk goes on. */
  lemma {:induction false} RefPriceFixedOnce(walked: seq<Slot>, ivs: seq<Interval>, minDuration: int, k: int)
    requires 0 <= k <= |ivs| <= |walked|
    requires RefPrice(walked, ivs[..k], minDuration).Some?
    ensures RefPrice(walked, ivs, minDuration) == RefPrice(walked, ivs[..k], minDuration)
    decreases |ivs| - k
  {
    if k < |ivs| {
      var init := ivs[..|ivs| - 1];
      assert init[..k] == ivs[..k];
      RefPriceFixedOnce(walked, init, minDuration, k);
    } else {
      assert ivs[..k] == ivs;
    }
  }

  /** Before slot `i` the ratio test is armed: the minimum is met, the
      duration is flexible, and a reference price is set. */
  ghost predicate Armed(walked: seq<Slot>, chosen: seq<Interval>, minDuration: int, maxDuration: int) {
    && |chosen| <= |walked|
    && TotalLength(chosen) >= minDuration && minDuration < maxDuration
    && RefPrice(walked, chosen, minDuration).Some?
  }

  /** Slot `s` fails the ratio test against the reference `reference`. */
  predicate TooDear(s: Slot, reference: real, tolerance: real)
    requires reference != 0.0
  {
    s.price / reference > 1.0 + tolerance / 100.0
  }

  /** The i-th accepted slice passed the ratio test, if it was armed. */
  ghost predicate RatioPassedAt(walked: seq<Slot>, ivs: seq<Interval>, minDuration: int, maxDuration: int, tolerance: real, i: int) {
    && 0 <= i < |ivs| <= |walked|
    && (Armed(walked, ivs[..i], minDuration, maxDuration) ==>
          && RefPrice(walked, ivs[..i], minDuration).value != 0.0
          && !TooDear(walked[i], RefPrice(walked, ivs[..i], minDuration).value, tolerance))
  }

  /** Every accepted slice passed the ratio test wherever it was armed. */
  ghost predicate PassedRatio(walked: seq<Slot>, ivs: seq<Interval>, minDuration: int, maxDuration: int, tolerance: real) {
    && |ivs| <= |walked|
    && forall i :: 0 <= i < |ivs| ==> RatioPassedAt(walked, ivs, minDuration, maxDuration, tolerance, i)
  }

  /** The walk ended early because the next slot failed the armed ratio test. */
  ghost predicate RatioExit(walked: seq<Slot>, ivs: seq<Interval>, minDuration: int, maxDuration: int, tolerance: real) {
    && |ivs| < |walked|
    && Armed(walked, ivs, minDuration, maxDuration)
    && RefPrice(walked, ivs, minDuration).value != 0.0
    && TooDear(walked[|ivs|], RefPrice(walked, ivs, minDuration).value, tolerance)
  }

  lemma PassedRatioAppend(walked: seq<Slot>, acc: seq<Interval>, iv: Interval, minDuration: int, maxDuration: int, tolerance: real)
    requires |acc| < |walked| && PassedRatio(walked, acc, minDuration, maxDuration, tolerance)
    requires Armed(walked, acc, minDuration, maxDuration) ==>
      RefPrice(walked, acc, minDuration).value != 0.0 && !TooDear(walked[|acc|], RefPrice(walked, acc, minDuration).value, tolerance)
    ensures PassedRatio(walked, acc + [iv], minDuration, maxDuration, tolerance)
  {
    var r := acc + [iv];
    forall i | 0 <= i < |r|
      ensures RatioPassedAt(walked, r, minDuration, maxDuration, tolerance, i)
    {
      PrefixOfAppend(acc, iv, i);
      if i < |acc| {
        assert RatioPassedAt(walked, acc, minDuration, maxDuration, tolerance, i);
      } else {
        assert r[..i] == acc;
      }
    }
  }

  /** Appending a slice sets the reference price exactly when the total
      first reaches the minimum. */
  lemma RefPriceAppend(walked: seq<Slot>, chosen: seq<Interval>, iv: Interval, minDuration: int)
    requires |chosen| < |walked|
    ensures RefPrice(walked, chosen + [iv], minDuration)
         == if TotalLength(chosen + [iv]) >= minDuration && RefPrice(walked, chosen, minDuration).None?
            then Some(walked[|chosen|].price) else RefPrice(walked, chosen, minDuration)
  {
    assert (chosen + [iv])[..|chosen|] == chosen;
  }

  /** A reference price that is set is the rate of a walked slot. */
  lemma RefPriceIsWalkedRate(walked: seq<Slot>, ivs: seq<Interval>, minDuration: int)
    requires |ivs| <= |walked| && RefPrice(walked, ivs, minDuration).Some?
    ensures exists j :: 0 <= j < |walked| && walked[j].price == RefPrice(walked, ivs, minDuration).value
  {
    RefPriceIsFirstToReachMin(walked, ivs, minDuration);
  }

  /** The flexible walk from `chosen` on, with `active` the length chosen so
      far and `reference` the reference price: before each slot the armed
      ratio test may end it (or divide by a zero reference); otherwise the
      slot's slice is taken, the reference is set when the total first
      reaches the minimum, and the walk ends once the total reaches the
      maximum. */
  function FlexWalk(walked: seq<Slot>, earliestStart: int, latestEnd: int, maxDuration: int, minDuration: int, tolerance: real,
                    chosen: seq<Interval>, active: int, reference: Option<real>): (r: Outcome)
    requires |chosen| <= |walked|
    requires active == TotalLength(chosen) && active < maxDuration
    ensures !r.NoResult?
    ensures r.Crash? ==> r.fault == ZeroReferencePrice
    ensures r.Found? ==> TotalLength(r.intervals) <= maxDuration
    decreases |walked| - |chosen|
  {
    if |chosen| == |walked| then Found(chosen)
    else
      var s := walked[|chosen|];
      var armed := active >= minDuration && minDuration < maxDuration && reference.Some?;
      if armed && reference.value == 0.0 then Crash(ZeroReferencePrice)
      else if armed && TooDear(s, reference.value, tolerance) then Found(chosen)
      else
        var iv := TakeSlice(chosen, s, earliestStart, latestEnd, active, maxDuration, |chosen|);
        TakeSliceIsSlice(chosen, s, earliestStart, latestEnd, active, maxDuration, |chosen|);
        var next := chosen + [iv];
        var nextActive := active + Length(iv);
        var nextReference := if nextActive >= minDuration && reference.None? then Some(s.price) else reference;
        TotalLengthAppend(chosen, iv);
        if nextActive >= maxDuration then Found(next)
        else FlexWalk(walked, earliestStart, latestEnd, maxDuration, minDuration, tolerance, next, nextActive, nextReference)
  }

  /** The armed ratio test passes slot `walked[|chosen|]`. */
  predicate Passes(walked: seq<Slot>, maxDuration: int, minDuration: int, tolerance: real, chosen: seq<Interval>, active: int, reference: Option<real>)
    requires |chosen| < |walked|
  {
    !(active >= minDuration && minDuration < maxDuration && reference.Some?
      && (reference.value == 0.0 || TooDear(walked[|chosen|], reference.value, tolerance)))
  }

  /** One step of the flexible walk when the ratio test lets the next slot
      through: its slice extends the total, and below the maximum the walk
      goes on from the extended prefix. */
  lemma FlexWalkStep(walked: seq<Slot>, earliestStart: int, latestEnd: int, maxDuration: int, minDuration: int, tolerance: real,
                     chosen: seq<Interval>, active: int, reference: Option<real>) returns (iv: Interval)
    requires |chosen| < |walked|
    requires active == TotalLength(chosen) && active < maxDuration
    requires Passes(walked, maxDuration, minDuration, tolerance, chosen, active, reference)
    ensures iv == TakeSlice(chosen, walked[|chosen|], earliestStart, latestEnd, active, maxDuration, |chosen|)
    ensures TotalLength(chosen + [iv]) == active + Length(iv)
    ensures var r := FlexWalk(walked, earliestStart, latestEnd, maxDuration, minDuration, tolerance, chosen, active, reference);
      if active + Length(iv) >= maxDuration then r == Found(chosen + [iv])
      else r == FlexWalk(walked, earliestStart, latestEnd, maxDuration, minDuration, tolerance, chosen + [iv], active + Length(iv),
                         if active + Length(iv) >= minDuration && reference.None? then Some(walked[|chosen|].price) else reference)
  {
    iv := TakeSlice(chosen, walked[|chosen|], earliestStart, latestEnd, active, maxDuration, |chosen|);
    TakeSliceIsSlice(chosen, walked[|chosen|], earliestStart, latestEnd, active, maxDuration, |chosen|);
    TotalLengthAppend(chosen, iv);
  }

  /** The flexible walk crashes only on a zero reference price, which is
      the rate of a walked slot. */
  lemma {:induction false} FlexWalkCrash(walked: seq<Slot>, earliestStart: int, latestEnd: int, maxDuration: int, minDuration: int, tolerance: real,
                                         chosen: seq<Interval>, active: int, reference: Option<real>)
    requires |chosen| <= |walked|
    requires active == TotalLength(chosen) && active < maxDuration
    requires reference == RefPrice(walked, chosen, minDuration)
    ensures FlexWalk(walked, earliestStart, latestEnd, maxDuration, minDuration, tolerance, chosen, active, reference).Crash? ==>
      exists j :: 0 <= j < |walked| && walked[j].price == 0.0
    decreases |walked| - |chosen|
  {
    if |chosen| < |walked| {
      if Passes(walked, maxDuration, minDuration, tolerance, chosen, active, reference) {
        var iv := FlexWalkStep(walked, earliestStart, latestEnd, maxDuration, minDuration, tolerance, chosen, active, reference);
        var nextActive := active + Length(iv);
        var nextReference := if nextActive >= minDuration && reference.None? then Some(walked[|chosen|].price) else reference;
        RefPriceAppend(walked, chosen, iv, minDuration);
        if nextActive < maxDuration {
          FlexWalkCrash(walked, earliestStart, latestEnd, maxDuration, minDuration, tolerance, chosen + [iv], nextActive, nextReference);
        }
      } else if reference.Some? && reference.value == 0.0 {
        RefPriceIsWalkedRate(walked, chosen, minDuration);
      }
    }
  }

  /** The flexible walk's result is a greedy prefix of the walked slots. */
  lemma {:induction false} FlexWalkGreedy(walked: seq<Slot>, earliestStart: int, latestEnd: int, maxDuration: int, minDuration: int, tolerance: real,
                                          chosen: seq<Interval>, active: int, reference: Option<real>)
    requires |chosen| <= |walked|
    requires active == TotalLength(chosen) && active < maxDuration
    requires Greedy(walked, earliestStart, latestEnd, maxDuration, chosen)
    ensures var r := FlexWalk(walked, earliestStart, latestEnd, maxDuration, minDuration, tolerance, chosen, active, reference);
      r.Found? ==> Greedy(walked, earliestStart, latestEnd, maxDuration, r.intervals)
    decreases |walked| - |chosen|
  {
    if |chosen| < |walked| && Passes(walked, maxDuration, minDuration, tolerance, chosen, active, reference) {
      var iv := FlexWalkStep(walked, earliestStart, latestEnd, maxDuration, minDuration, tolerance, chosen, active, reference);
      var nextActive := active + Length(iv);
      var nextReference := if nextActive >= minDuration && reference.None? then Some(walked[|chosen|].price) else reference;
      TakeSliceIsSlice(chosen, walked[|chosen|], earliestStart, latestEnd, active, maxDuration, |chosen|);
      GreedyAppend(walked, earliestStart, latestEnd, maxDuration, chosen, iv);
      if nextActive < maxDuration {
        FlexWalkGreedy(walked, earliestStart, latestEnd, maxDuration, minDuration, tolerance, chosen + [iv], nextActive, nextReference);
      }
    }
  }

  /** Every slice the flexible walk accepts passed the armed ratio test. */
  lemma {:induction false} FlexWalkPassed(walked: seq<Slot>, earliestStart: int, latestEnd: int, maxDuration: int, minDuration: int, tolerance: real,
                                          chosen: seq<Interval>, active: int, reference: Option<real>)
    requires |chosen| <= |walked|
    requires active == TotalLength(chosen) && active < maxDuration
    requires reference == RefPrice(walked, chosen, minDuration)
    requires PassedRatio(walked, chosen, minDuration, maxDuration, tolerance)
    ensures var r := FlexWalk(walked, earliestStart, latestEnd, maxDuration, minDuration, tolerance, chosen, active, reference);
      r.Found? ==> PassedRatio(walked, r.intervals, minDuration, maxDuration, tolerance)
    decreases |walked| - |chosen|
  {
    if |chosen| < |walked| && Passes(walked, maxDuration, minDuration, tolerance, chosen, active, reference) {
      var iv := FlexWalkStep(walked, earliestStart, latestEnd, maxDuration, minDuration, tolerance, chosen, active, reference);
      var nextActive := active + Length(iv);
      var nextReference := if nextActive >= minDuration && reference.None? then Some(walked[|chosen|].price) else reference;
      RefPriceAppend(walked, chosen, iv, minDuration);
      PassedRatioAppend(walked, chosen, iv, minDuration, maxDuration, tolerance);
      if nextActive < maxDuration {
        FlexWalkPassed(walked, earliestStart, latestEnd, maxDuration, minDuration, tolerance, chosen + [iv], nextActive, nextReference);
      }
    }
  }

  /** The flexible walk stops short of the walked list only at the maximum or
      at the first slot that fails the armed ratio test. */
  lemma {:induction false} FlexWalkExit(walked: seq<Slot>, earliestStart: int, latestEnd: int, maxDuration: int, minDuration: int, tolerance: real,
                                        chosen: seq<Interval>, active: int, reference: Option<real>)
    requires |chosen| <= |walked|
    requires active == TotalLength(chosen) && active < maxDuration
    requires reference == RefPrice(walked, chosen, minDuration)
    ensures var r := FlexWalk(walked, earliestStart, latestEnd, maxDuration, minDuration, tolerance, chosen, active, reference);
      r.Found? && |r.intervals| < |walked| ==>
        TotalLength(r.intervals) == maxDuration || RatioExit(walked, r.intervals, minDuration, maxDuration, tolerance)
    decreases |walked| - |chosen|
  {
    if |chosen| < |walked| && Passes(walked, maxDuration, minDuration, tolerance, chosen, active, reference) {
      var iv := FlexWalkStep(walked, earliestStart, latestEnd, maxDuration, minDuration, tolerance, chosen, active, reference);
      var nextActive := active + Length(iv);
      var nextReference := if nextActive >= minDuration && reference.None? then Some(walked[|chosen|].price) else reference;
      RefPriceAppend(walked, chosen, iv, minDuration);
      if nextActive < maxDuration {
        FlexWalkExit(walked, earliestStart, latestEnd, maxDuration, minDuration, tolerance, chosen + [iv], nextActive, nextReference);
      }
    }
  }

  /** The slots the flexible walk considers: the window, restricted (with a
      positive tolerance) to the band around the window's extreme price,
      sorted by (price, start), descending when most expensive. */
  function FlexOrder(slots: seq<Slot>, earliestStart: int, latestEnd: int, mode: Mode, tolerance: real): (r: seq<Slot>)
    ensures Sorted(ByPriceThenStart(mode), r)
    ensures multiset(r) <= multiset(Filter(WithinWindow(earliestStart, latestEnd), slots))
    ensures |PriceOrder(slots, earliestStart, latestEnd, mode)| > 0 && tolerance > 0.0 ==>
      forall s :: s in r ==> WithinBand(mode, PriceOrder(slots, earliestStart, latestEnd, mode)[0].price, tolerance, s.price)
    ensures |PriceOrder(slots, earliestStart, latestEnd, mode)| > 0 && tolerance > 0.0 ==>
      forall s :: (s in slots && OverlapsWindow(s, earliestStart, latestEnd)
                   && WithinBand(mode, PriceOrder(slots, earliestStart, latestEnd, mode)[0].price, tolerance, s.price)) ==> s in r
    ensures |PriceOrder(slots, earliestStart, latestEnd, mode)| > 0 && tolerance <= 0.0 ==>
      multiset(r) == multiset(Filter(WithinWindow(earliestStart, latestEnd), slots))
  {
    var window := Filter(WithinWindow(earliestStart, latestEnd), slots);
    if |window| == 0 then []
    else
      var reference := PriceOrder(slots, earliestStart, latestEnd, mode)[0].price;
      var kept := if tolerance > 0.0 then Filter(WithinTolerance(mode, reference, tolerance), window) else window;
      var r := StableSort(ByPriceThenStart(mode), kept);
      assert forall s :: s in r ==> s in kept by {
        forall s | s in r ensures s in kept {
          assert s in multiset(r);
        }
      }
      assert forall s :: s in slots && OverlapsWindow(s, earliestStart, latestEnd) && (tolerance <= 0.0 || WithinBand(mode, reference, tolerance, s.price)) ==> s in r by {
        forall s | s in slots && OverlapsWindow(s, earliestStart, latestEnd) && (tolerance <= 0.0 || WithinBand(mode, reference, tolerance, s.price))
          ensures s in r
        {
          assert s in window;
          assert s in kept;
          assert s in multiset(kept);
        }
      }
      r
  }

  /** The flexible optimizer: no result without a timeline covering
      `latestEnd`, with an empty window or an empty band, or when the walk
      ends below the minimum; otherwise the walk's outcome, whose slices
      total between the minimum and the maximum. */
  function CalcIntervalsFlexible(slots: seq<Slot>, earliestStart: int, latestEnd: int, duration: int, minDuration: int, mode: Mode, tolerance: real): (r: Outcome)
    requires 0 < minDuration <= duration
    ensures var w := FlexWalk(FlexOrder(slots, earliestStart, latestEnd, mode, tolerance), earliestStart, latestEnd, duration, minDuration, tolerance, [], 0, None);
      r.NoResult? <==> |slots| == 0 || Last(slots).end < latestEnd || |FlexOrder(slots, earliestStart, latestEnd, mode, tolerance)| == 0
                       || (w.Found? && TotalLength(w.intervals) < minDuration)
    ensures !r.NoResult? ==>
      r == FlexWalk(FlexOrder(slots, earliestStart, latestEnd, mode, tolerance), earliestStart, latestEnd, duration, minDuration, tolerance, [], 0, None)
    ensures r.Found? ==> minDuration <= TotalLength(r.intervals) <= duration
    ensures r.Crash? ==>
      r.fault == ZeroReferencePrice && exists s :: s in slots && OverlapsWindow(s, earliestStart, latestEnd) && s.price == 0.0
  {
    if |slots| == 0 then NoResult
    else if Last(slots).end < latestEnd then NoResult
    else
      var walked := FlexOrder(slots, earliestStart, latestEnd, mode, tolerance);
      if |walked| == 0 then NoResult
      else
        var w := FlexWalk(walked, earliestStart, latestEnd, duration, minDuration, tolerance, [], 0, None);
        if w.Found? then
          if TotalLength(w.intervals) < minDuration then NoResult else w
        else
          FlexWalkCrash(walked, earliestStart, latestEnd, duration, minDuration, tolerance, [], 0, None);
          var j :| 0 <= j < |walked| && walked[j].price == 0.0;
          assert walked[j] in walked;
          FromWindowSlots(slots, earliestStart, latestEnd, walked);
          w
  }

  /** The flexible optimizer's slices are a greedy prefix of its walk over
      the window's slots, each inside the window; every one of them passed
      the armed ratio test, and the walk stopped short of the walked slots
      only at the maximum or at the first slot that failed the test. */
  lemma FlexibleFollowsWalk(slots: seq<Slot>, earliestStart: int, latestEnd: int, duration: int, minDuration: int, mode: Mode, tolerance: real)
    requires 0 < minDuration <= duration
    ensures var r := CalcIntervalsFlexible(slots, earliestStart, latestEnd, duration, minDuration, mode, tolerance);
      r.Found? ==> Greedy(FlexOrder(slots, earliestStart, latestEnd, mode, tolerance), earliestStart, latestEnd, duration, r.intervals)
    ensures var r := CalcIntervalsFlexible(slots, earliestStart, latestEnd, duration, minDuration, mode, tolerance);
      r.Found? ==> FromWindow(slots, earliestStart, latestEnd, r.intervals)
    ensures var r := CalcIntervalsFlexible(slots, earliestStart, latestEnd, duration, minDuration, mode, tolerance);
      r.Found? ==> PassedRatio(FlexOrder(slots, earliestStart, latestEnd, mode, tolerance), r.intervals, minDuration, duration, tolerance)
    ensures var r := CalcIntervalsFlexible(slots, earliestStart, latestEnd, duration, minDuration, mode, tolerance);
      r.Found? && |r.intervals| < |FlexOrder(slots, earliestStart, latestEnd, mode, tolerance)| ==>
        TotalLength(r.intervals) == duration || RatioExit(FlexOrder(slots, earliestStart, latestEnd, mode, tolerance), r.intervals, minDuration, duration, tolerance)
  {
    var walked := FlexOrder(slots, earliestStart, latestEnd, mode, tolerance);
    var r := CalcIntervalsFlexible(slots, earliestStart, latestEnd, duration, minDuration, mode, tolerance);
    if r.Found? {
      FromWindowSlots(slots, earliestStart, latestEnd, walked);
      FlexWalkGreedy(walked, earliestStart, latestEnd, duration, minDuration, tolerance, [], 0, None);
      FlexWalkPassed(walked, earliestStart, latestEnd, duration, minDuration, tolerance, [], 0, None);
      FlexWalkExit(walked, earliestStart, latestEnd, duration, minDuration, tolerance, [], 0, None);
      GreedyFromWindow(slots, walked, earliestStart, latestEnd, duration, r.intervals);
    }
  }

  /** On a well-formed timeline the flexible optimizer's slices never overlap. */
  lemma FlexibleDisjoint(slots: seq<Slot>, earliestStart: int, latestEnd: int, duration: int, minDuration: int, mode: Mode, tolerance: real)
    requires 0 < minDuration <= duration && WellFormed(slots)
    requires CalcIntervalsFlexible(slots, earliestStart, latestEnd, duration, minDuration, mode, tolerance).Found?
    ensures NoOverlap(CalcIntervalsFlexible(slots, earliestStart, latestEnd, duration, minDuration, mode, tolerance).intervals)
  {
    var window := Filter(WithinWindow(earliestStart, latestEnd), slots);
    var walked := FlexOrder(slots, earliestStart, latestEnd, mode, tolerance);
    WellFormedIsDisjoint(slots);
    SubMultisetKeepsDisjoint(slots, window);
    SubMultisetKeepsDisjoint(window, walked);
    FlexibleFollowsWalk(slots, earliestStart, latestEnd, duration, minDuration, mode, tolerance);
    GreedyDisjoint(walked, earliestStart, latestEnd, duration, CalcIntervalsFlexible(slots, earliestStart, latestEnd, duration, minDuration, mode, tolerance).intervals);
  }
}
