/**
 The greedy walk of the intermittent optimizer: slots are taken in the order
 given, each clipped to the search window, until the accumulated length
 reaches a cap; the slot that crosses the cap contributes only the missing
 part, aligned to the end of its clipped span when that joins an interval
 already chosen on that side only, and to the start otherwise.
 */
module IntervalWalk {
  import opened Timeline

  /** One chosen slice: [start, end), its absolute price, and the position of
      its source slot in the list being walked. */
  datatype Interval = Interval(start: int, end: int, price: real, rank: int)

  function Length(iv: Interval): int {
    iv.end - iv.start
  }

  /** The sum of the slices' lengths. */
  function TotalLength(ivs: seq<Interval>): int {
    if |ivs| == 0 then 0 else TotalLength(ivs[..|ivs| - 1]) + Length(ivs[|ivs| - 1])
  }

  /** The sum of the slots' lengths once clipped to the window. */
  function TotalClip(slots: seq<Slot>, earliestStart: int, latestEnd: int): int {
    if |slots| == 0 then 0
    else TotalClip(slots[..|slots| - 1], earliestStart, latestEnd) + ClipLength(slots[|slots| - 1], earliestStart, latestEnd)
  }

  function Min(a: int, b: int): int {
    if a <= b then a else b
  }

  /** Some chosen interval starts at `t` (scanning from the back). */
  predicate StartsAt(chosen: seq<Interval>, t: int) {
    |chosen| > 0 && (chosen[|chosen| - 1].start == t || StartsAt(chosen[..|chosen| - 1], t))
  }

  /** Some chosen interval ends at `t` (scanning from the back). */
  predicate EndsAt(chosen: seq<Interval>, t: int) {
    |chosen| > 0 && (chosen[|chosen| - 1].end == t || EndsAt(chosen[..|chosen| - 1], t))
  }

  /** The scans find exactly the instants at which some chosen interval
      starts or ends. */
  lemma {:induction false} StartsEndsAtMeans(chosen: seq<Interval>, t: int)
    ensures StartsAt(chosen, t) <==> exists i :: 0 <= i < |chosen| && chosen[i].start == t
    ensures EndsAt(chosen, t) <==> exists i :: 0 <= i < |chosen| && chosen[i].end == t
  {
    if |chosen| > 0 {
      var init := chosen[..|chosen| - 1];
      StartsEndsAtMeans(init, t);
      assert forall i :: 0 <= i < |init| ==> init[i] == chosen[i];
    }
  }

  /** Two intervals share no instant. */
  predicate IntervalsDisjoint(a: Interval, b: Interval) {
    a.end <= b.start || b.end <= a.start
  }

  /** No two slices at different positions share an instant. */
  ghost predicate NoOverlap(ivs: seq<Interval>) {
    forall i, j :: 0 <= i < |ivs| && 0 <= j < |ivs| && i != j ==> IntervalsDisjoint(ivs[i], ivs[j])
  }

  /** A span of time. */
  datatype Span = Span(start: int, end: int)

  /** The part of slot `s` the walk takes when `active` seconds of `cap` are
      already chosen: the whole clipped span if it fits, otherwise the
      missing `cap - active` seconds, placed at the clipped end exactly when
      some chosen interval starts there and none ends at the clipped start. */
  function Cut(chosen: seq<Interval>, s: Slot, earliestStart: int, latestEnd: int, active: int, cap: int): Span {
    var cs := ClipStart(s, earliestStart);
    var ce := ClipEnd(s, latestEnd);
    if active + (ce - cs) > cap then
      var part := cap - active;
      if StartsAt(chosen, ce) && !EndsAt(chosen, cs) then Span(ce - part, ce) else Span(cs, cs + part)
    else Span(cs, ce)
  }

  /** Below the cap, the cut lies inside the clipped span and is anchored to
      one of its ends; it is as long as the clipped span or the rest of the
      cap, whichever is shorter; and a partial cut is end-aligned exactly when
      some chosen interval starts at the clipped end and none ends at the
      clipped start. */
  lemma CutSpan(chosen: seq<Interval>, s: Slot, earliestStart: int, latestEnd: int, active: int, cap: int)
    requires active <= cap
    ensures var r := Cut(chosen, s, earliestStart, latestEnd, active, cap);
      && ClipStart(s, earliestStart) <= r.start && r.end <= ClipEnd(s, latestEnd)
      && (r.start == ClipStart(s, earliestStart) || r.end == ClipEnd(s, latestEnd))
      && r.end - r.start == Min(ClipLength(s, earliestStart, latestEnd), cap - active)
      && (ClipLength(s, earliestStart, latestEnd) > cap - active ==>
            (r.end == ClipEnd(s, latestEnd) <==> StartsAt(chosen, ClipEnd(s, latestEnd)) && !EndsAt(chosen, ClipStart(s, earliestStart))))
  {
  }

  /** `iv` is what the walk takes from slot `s` at position `rank`, after
      `chosen`: inside the clipped span and anchored to one of its ends, as
      long as the clipped span or the rest of the cap, priced at the slot's
      rate, and end-aligned (for a partial slice) exactly when it joins a
      chosen interval on the end side and none on the start side. */
  ghost predicate SliceOf(chosen: seq<Interval>, iv: Interval, s: Slot, earliestStart: int, latestEnd: int, cap: int, rank: int) {
    && iv.rank == rank
    && ClipStart(s, earliestStart) <= iv.start && iv.end <= ClipEnd(s, latestEnd)
    && (iv.start == ClipStart(s, earliestStart) || iv.end == ClipEnd(s, latestEnd))
    && Length(iv) == Min(ClipLength(s, earliestStart, latestEnd), cap - TotalLength(chosen))
    && iv.price == CostOf(s.price, Length(iv))
    && (ClipLength(s, earliestStart, latestEnd) > cap - TotalLength(chosen) ==>
          (iv.end == ClipEnd(s, latestEnd) <==> StartsAt(chosen, ClipEnd(s, latestEnd)) && !EndsAt(chosen, ClipStart(s, earliestStart))))
  }

  /** The i-th slice of `ivs` is taken from the i-th walked slot, and the
      cap was not yet reached before it. */
  ghost predicate GreedyStep(walked: seq<Slot>, earliestStart: int, latestEnd: int, cap: int, ivs: seq<Interval>, i: int) {
    && 0 <= i < |ivs| && i < |walked|
    && TotalLength(ivs[..i]) < cap
    && SliceOf(ivs[..i], ivs[i], walked[i], earliestStart, latestEnd, cap, i)
  }

  /** `ivs` is a greedy prefix of the walk over `walked`. */
  ghost predicate Greedy(walked: seq<Slot>, earliestStart: int, latestEnd: int, cap: int, ivs: seq<Interval>) {
    && |ivs| <= |walked|
    && forall i :: 0 <= i < |ivs| ==> GreedyStep(walked, earliestStart, latestEnd, cap, ivs, i)
  }

  /** The slice the walk takes from `s` at position `rank`. */
  function TakeSlice(chosen: seq<Interval>, s: Slot, earliestStart: int, latestEnd: int, active: int, cap: int, rank: int): Interval {
    var span := Cut(chosen, s, earliestStart, latestEnd, active, cap);
    Interval(span.start, span.end, CostOf(s.price, span.end - span.start), rank)
  }

  /** With `active` the length of `chosen`, below the cap, the slice taken is
      the one SliceOf describes. */
  lemma TakeSliceIsSlice(chosen: seq<Interval>, s: Slot, earliestStart: int, latestEnd: int, active: int, cap: int, rank: int)
    requires active == TotalLength(chosen) && active <= cap
    ensures SliceOf(chosen, TakeSlice(chosen, s, earliestStart, latestEnd, active, cap, rank), s, earliestStart, latestEnd, cap, rank)
  {
    CutSpan(chosen, s, earliestStart, latestEnd, active, cap);
  }

  lemma PrefixOfAppend(acc: seq<Interval>, iv: Interval, i: int)
    requires 0 <= i <= |acc|
    ensures (acc + [iv])[..i] == acc[..i]
  {
  }

  lemma TotalLengthAppend(acc: seq<Interval>, iv: Interval)
    ensures TotalLength(acc + [iv]) == TotalLength(acc) + Length(iv)
  {
    assert (acc + [iv])[..|acc|] == acc;
  }

  /** Appending the next slice, taken below the cap, keeps a greedy prefix. */
  lemma GreedyAppend(walked: seq<Slot>, earliestStart: int, latestEnd: int, cap: int, acc: seq<Interval>, iv: Interval)
    requires Greedy(walked, earliestStart, latestEnd, cap, acc)
    requires |acc| < |walked| && TotalLength(acc) < cap
    requires SliceOf(acc, iv, walked[|acc|], earliestStart, latestEnd, cap, |acc|)
    ensures Greedy(walked, earliestStart, latestEnd, cap, acc + [iv])
  {
    var r := acc + [iv];
    forall i | 0 <= i < |r|
      ensures GreedyStep(walked, earliestStart, latestEnd, cap, r, i)
    {
      PrefixOfAppend(acc, iv, i);
      if i < |acc| {
        assert GreedyStep(walked, earliestStart, latestEnd, cap, acc, i);
        assert r[i] == acc[i];
      } else {
        assert r[..i] == acc;
      }
    }
  }

  /** The walk from `chosen` on, with `active` the length chosen so far. */
  function SelectFrom(walked: seq<Slot>, earliestStart: int, latestEnd: int, cap: int, chosen: seq<Interval>, active: int): (r: seq<Interval>)
    requires active == TotalLength(chosen) && active < cap
    requires Greedy(walked, earliestStart, latestEnd, cap, chosen)
    ensures |chosen| <= |r| && r[..|chosen|] == chosen
    ensures Greedy(walked, earliestStart, latestEnd, cap, r)
    ensures TotalLength(r) <= cap
    ensures |r| < |walked| ==> TotalLength(r) == cap
    decreases |walked| - |chosen|
  {
    if |chosen| == |walked| then chosen
    else
      var iv := TakeSlice(chosen, walked[|chosen|], earliestStart, latestEnd, active, cap, |chosen|);
      TakeSliceIsSlice(chosen, walked[|chosen|], earliestStart, latestEnd, active, cap, |chosen|);
      var next := chosen + [iv];
      var nextActive := active + (iv.end - iv.start);
      TotalLengthAppend(chosen, iv);
      GreedyAppend(walked, earliestStart, latestEnd, cap, chosen, iv);
      if nextActive == cap then next
      else
        var r := SelectFrom(walked, earliestStart, latestEnd, cap, next, nextActive);
        assert r[..|chosen|] == r[..|next|][..|chosen|];
        r
  }

  /** The greedy walk over `walked` up to `duration` seconds: a greedy
      prefix whose total never exceeds the duration and which stops early
      only when the duration is reached exactly. */
  function SelectIntervals(walked: seq<Slot>, earliestStart: int, latestEnd: int, duration: int): (r: seq<Interval>)
    requires duration > 0
    ensures Greedy(walked, earliestStart, latestEnd, duration, r)
    ensures TotalLength(r) <= duration
    ensures |r| < |walked| ==> TotalLength(r) == duration
  {
    SelectFrom(walked, earliestStart, latestEnd, duration, [], 0)
  }

  lemma TotalClipAppend(slots: seq<Slot>, earliestStart: int, latestEnd: int, k: int)
    requires 0 <= k < |slots|
    ensures TotalClip(slots[..k + 1], earliestStart, latestEnd) == TotalClip(slots[..k], earliestStart, latestEnd) + ClipLength(slots[k], earliestStart, latestEnd)
  {
    assert slots[..k + 1][..k] == slots[..k];
  }

  /** With no slot clipped to a negative length, the total clip never shrinks
      as the prefix grows. */
  lemma {:induction false} TotalClipMonotone(slots: seq<Slot>, earliestStart: int, latestEnd: int, k: int)
    requires 0 <= k <= |slots|
    requires forall i :: 0 <= i < |slots| ==> ClipLength(slots[i], earliestStart, latestEnd) >= 0
    ensures TotalClip(slots[..k], earliestStart, latestEnd) <= TotalClip(slots, earliestStart, latestEnd)
    decreases |slots| - k
  {
    if k < |slots| {
      TotalClipAppend(slots, earliestStart, latestEnd, k);
      TotalClipMonotone(slots, earliestStart, latestEnd, k + 1);
      if k + 1 == |slots| {
        assert slots[..k + 1] == slots;
      }
    } else {
      assert slots[..k] == slots;
    }
  }

  /** Along a greedy prefix each partial total is the clipped total of the
      walked prefix, capped. */
  lemma {:induction false} GreedyPrefixTotal(walked: seq<Slot>, earliestStart: int, latestEnd: int, cap: int, ivs: seq<Interval>, k: int)
    requires Greedy(walked, earliestStart, latestEnd, cap, ivs)
    requires forall i :: 0 <= i < |walked| ==> ClipLength(walked[i], earliestStart, latestEnd) >= 0
    requires 0 <= k <= |ivs| && cap > 0
    ensures TotalLength(ivs[..k]) == Min(cap, TotalClip(walked[..k], earliestStart, latestEnd))
  {
    if k > 0 {
      GreedyPrefixTotal(walked, earliestStart, latestEnd, cap, ivs, k - 1);
      assert ivs[..k] == ivs[..k - 1] + [ivs[k - 1]];
      TotalLengthAppend(ivs[..k - 1], ivs[k - 1]);
      TotalClipAppend(walked, earliestStart, latestEnd, k - 1);
      assert GreedyStep(walked, earliestStart, latestEnd, cap, ivs, k - 1);
    }
  }

  /** The walk takes exactly the duration, or everything the clipped slots
      offer when that is less. */
  lemma SelectTotal(walked: seq<Slot>, earliestStart: int, latestEnd: int, duration: int)
    requires duration > 0
    requires forall i :: 0 <= i < |walked| ==> ClipLength(walked[i], earliestStart, latestEnd) >= 0
    ensures TotalLength(SelectIntervals(walked, earliestStart, latestEnd, duration)) == Min(duration, TotalClip(walked, earliestStart, latestEnd))
  {
    var r := SelectIntervals(walked, earliestStart, latestEnd, duration);
    GreedyPrefixTotal(walked, earliestStart, latestEnd, duration, r, |r|);
    assert r[..|r|] == r;
    TotalClipMonotone(walked, earliestStart, latestEnd, |r|);
    if |r| == |walked| {
      assert walked[..|r|] == walked;
    }
  }

  /** Slices of duplicate-free, pairwise disjoint slots are pairwise disjoint. */
  lemma GreedyDisjoint(walked: seq<Slot>, earliestStart: int, latestEnd: int, cap: int, ivs: seq<Interval>)
    requires Greedy(walked, earliestStart, latestEnd, cap, ivs)
    requires PairwiseDisjoint(walked)
    ensures NoOverlap(ivs)
  {
    forall i, j | 0 <= i < |ivs| && 0 <= j < |ivs| && i != j
      ensures IntervalsDisjoint(ivs[i], ivs[j])
    {
      assert GreedyStep(walked, earliestStart, latestEnd, cap, ivs, i);
      assert GreedyStep(walked, earliestStart, latestEnd, cap, ivs, j);
      assert Disjoint(walked[i], walked[j]);
    }
  }

  /** Walking non-empty, disjoint slots in start order yields slices in
      chronological order. */
  lemma GreedyChronological(walked: seq<Slot>, earliestStart: int, latestEnd: int, cap: int, ivs: seq<Interval>)
    requires Greedy(walked, earliestStart, latestEnd, cap, ivs)
    requires PairwiseDisjoint(walked)
    requires forall i :: 0 <= i < |walked| ==> walked[i].start < walked[i].end
    requires forall i, j :: 0 <= i < j < |walked| ==> walked[i].start <= walked[j].start
    ensures forall i, j :: 0 <= i < j < |ivs| ==> ivs[i].end <= ivs[j].start
  {
    forall i, j | 0 <= i < j < |ivs| ensures ivs[i].end <= ivs[j].start {
      assert GreedyStep(walked, earliestStart, latestEnd, cap, ivs, i);
      assert GreedyStep(walked, earliestStart, latestEnd, cap, ivs, j);
      assert Disjoint(walked[i], walked[j]);
    }
  }

  /** Each slice records the position of its source slot in the walked list,
      so the ranks strictly increase along a greedy prefix. */
  lemma GreedyRanks(walked: seq<Slot>, earliestStart: int, latestEnd: int, cap: int, ivs: seq<Interval>)
    requires Greedy(walked, earliestStart, latestEnd, cap, ivs)
    ensures forall i :: 0 <= i < |ivs| ==> ivs[i].rank == i
    ensures forall i, j :: 0 <= i < j < |ivs| ==> ivs[i].rank < ivs[j].rank
  {
    forall i | 0 <= i < |ivs| ensures ivs[i].rank == i {
      assert GreedyStep(walked, earliestStart, latestEnd, cap, ivs, i);
    }
  }

  /** `now` lies in one of the intervals (half-open). */
  method IsNowInIntervals(now: int, intervals: seq<Interval>) returns (b: bool)
    ensures b <==> exists i :: 0 <= i < |intervals| && intervals[i].start <= now < intervals[i].end
  {
    var k := 0;
    while k < |intervals|
      invariant 0 <= k <= |intervals|
      invariant forall i :: 0 <= i < k ==> !(intervals[i].start <= now < intervals[i].end)
    {
      if intervals[k].start <= now < intervals[k].end {
        return true;
      }
      k := k + 1;
    }
    return false;
  }
}
