/**
 The contiguous optimizer: one block of exactly `duration` seconds inside
 [earliestStart, latestEnd] whose integrated price is the lowest (or the
 highest), optionally relaxed to the earliest block within a tolerance band.
 */
module Contiguous {
  import opened Wrappers
  import opened Timeline

  /** The chosen block: [start, end), its total price and its price per hour. */
  datatype Block = Block(start: int, end: int, intervalPrice: real, pricePerHour: real)

  // ---------------------------------------------------------------------------
  // Interval pricer
  // ---------------------------------------------------------------------------

  /** The first slot of the timeline that covers `t`, if any. */
  function FindSlot(slots: seq<Slot>, t: int): (r: Option<Slot>)
    ensures r.Some? ==> r.value in slots && Covers(r.value, t)
    ensures r.None? <==> !CoveredAt(slots, t)
  {
    if |slots| == 0 then None
    else if Covers(slots[0], t) then Some(slots[0])
    else
      var r := FindSlot(slots[1..], t);
      assert CoveredAt(slots, t) ==> CoveredAt(slots[1..], t) by {
        if CoveredAt(slots, t) {
          var i :| 0 <= i < |slots| && Covers(slots[i], t);
          assert slots[1..][i - 1] == slots[i];
        }
      }
      assert r.Some? ==> r.value in slots by {
        if r.Some? {
          assert slots == [slots[0]] + slots[1..];
        }
      }
      r
  }

  /** The slot found is the first slot of the timeline that covers `t`. */
  lemma {:induction false} FindSlotIsFirst(slots: seq<Slot>, t: int)
    requires FindSlot(slots, t).Some?
    ensures exists i :: 0 <= i < |slots| && slots[i] == FindSlot(slots, t).value && forall k :: 0 <= k < i ==> !Covers(slots[k], t)
  {
    if !Covers(slots[0], t) {
      var rest := slots[1..];
      FindSlotIsFirst(rest, t);
      var i :| 0 <= i < |rest| && rest[i] == FindSlot(rest, t).value && forall k :: 0 <= k < i ==> !Covers(rest[k], t);
      forall k | 0 <= k < i + 1 ensures !Covers(slots[k], t) {
        if k > 0 { assert slots[k] == rest[k - 1]; }
      }
      assert slots[i + 1] == FindSlot(slots, t).value;
    }
  }

  /** Every instant of [lo, hi) is covered by the slot `s` of the timeline. */
  lemma SlotCoversRange(slots: seq<Slot>, s: Slot, lo: int, hi: int)
    requires s in slots && s.start <= lo && hi <= s.end
    ensures forall u :: lo <= u < hi ==> CoveredAt(slots, u)
  {
    var k :| 0 <= k < |slots| && slots[k] == s;
    forall u | lo <= u < hi ensures CoveredAt(slots, u) {
      assert Covers(slots[k], u);
    }
  }

  /** The price of running from `t` up to `stop`: walk to the slot covering
      the current instant, charge the part of it before `stop`, continue from
      that slot's end; fail on an instant no slot covers. */
  function PriceFrom(slots: seq<Slot>, t: int, stop: int): (r: Option<real>)
    ensures r.None? <==> exists u :: t <= u < stop && !CoveredAt(slots, u)
    decreases stop - t
  {
    if t >= stop then Some(0.0)
    else
      match FindSlot(slots, t)
      case None => None
      case Some(mp) =>
        var segment := if mp.end > stop then stop - t else mp.end - t;
        SlotCoversRange(slots, mp, t, mp.end);
        match PriceFrom(slots, mp.end, stop)
        case None => None
        case Some(rest) => Some(CostOf(mp.price, segment) + rest)
  }

  /** The price of the block [start, start + duration), or None when some
      instant of it lies in a gap of the timeline. */
  function IntervalPrice(slots: seq<Slot>, start: int, duration: int): (r: Option<real>)
    ensures r.None? <==> exists u :: start <= u < start + duration && !CoveredAt(slots, u)
  {
    PriceFrom(slots, start, start + duration)
  }

  /** Seconds the slot shares with [a, b). */
  function Overlap(s: Slot, a: int, b: int): int {
    var lo := if s.start < a then a else s.start;
    var hi := if s.end < b then s.end else b;
    if lo < hi then hi - lo else 0
  }

  /** Reference definition of the price of [a, b): every slot charged for the
      seconds it shares with [a, b). */
  ghost function Cost(slots: seq<Slot>, a: int, b: int): real {
    if |slots| == 0 then 0.0
    else CostOf(slots[0].price, Overlap(slots[0], a, b)) + Cost(slots[1..], a, b)
  }

  lemma {:induction false} CostSplit(slots: seq<Slot>, a: int, m: int, b: int)
    requires a <= m <= b
    ensures Cost(slots, a, b) == Cost(slots, a, m) + Cost(slots, m, b)
  {
    if |slots| > 0 {
      var s := slots[0];
      assert Overlap(s, a, b) == Overlap(s, a, m) + Overlap(s, m, b);
      assert CostOf(s.price, Overlap(s, a, b)) == CostOf(s.price, Overlap(s, a, m)) + CostOf(s.price, Overlap(s, m, b)) by {
        var x, y := Overlap(s, a, m) as real, Overlap(s, m, b) as real;
        assert s.price * (x + y) == s.price * x + s.price * y;
      }
      CostSplit(slots[1..], a, m, b);
    }
  }

  lemma {:induction false} CostEmpty(slots: seq<Slot>, a: int, b: int)
    requires b <= a
    ensures Cost(slots, a, b) == 0.0
  {
    if |slots| > 0 {
      CostEmpty(slots[1..], a, b);
    }
  }

  /** Inside one slot of a pairwise disjoint timeline only that slot is charged. */
  lemma {:induction false} CostInsideSlot(slots: seq<Slot>, k: int, a: int, b: int)
    requires PairwiseDisjoint(slots)
    requires 0 <= k < |slots| && slots[k].start <= a <= b <= slots[k].end
    ensures Cost(slots, a, b) == CostOf(slots[k].price, b - a)
    decreases |slots|
  {
    var tail := slots[1..];
    assert PairwiseDisjoint(tail) by {
      forall i, j | 0 <= i < |tail| && 0 <= j < |tail| && i != j ensures Disjoint(tail[i], tail[j]) {
        assert tail[i] == slots[i + 1] && tail[j] == slots[j + 1];
      }
    }
    if k == 0 {
      assert Overlap(slots[0], a, b) == b - a;
      CostOutside(tail, slots[0], a, b);
    } else {
      assert Disjoint(slots[0], slots[k]);
      assert Overlap(slots[0], a, b) == 0;
      assert tail[k - 1] == slots[k];
      CostInsideSlot(tail, k - 1, a, b);
    }
  }

  /** Slots disjoint from a slot `s` containing [a, b) are charged nothing. */
  lemma {:induction false} CostOutside(slots: seq<Slot>, s: Slot, a: int, b: int)
    requires s.start <= a <= b <= s.end
    requires forall i :: 0 <= i < |slots| ==> Disjoint(slots[i], s)
    ensures Cost(slots, a, b) == 0.0
  {
    if |slots| > 0 {
      assert Disjoint(slots[0], s);
      assert Overlap(slots[0], a, b) == 0;
      assert forall i :: 0 <= i < |slots[1..]| ==> Disjoint(slots[1..][i], s) by {
        forall i | 0 <= i < |slots[1..]| ensures Disjoint(slots[1..][i], s) {
          assert slots[1..][i] == slots[i + 1];
        }
      }
      CostOutside(slots[1..], s, a, b);
    }
  }

  /** The walk charges what the reference definition charges. */
  lemma {:induction false} PriceFromIsCost(slots: seq<Slot>, t: int, stop: int)
    requires PairwiseDisjoint(slots)
    requires PriceFrom(slots, t, stop).Some?
    ensures PriceFrom(slots, t, stop).value == Cost(slots, t, stop)
    decreases stop - t
  {
    if t >= stop {
      CostEmpty(slots, t, stop);
    } else {
      var mp := FindSlot(slots, t).value;
      var k :| 0 <= k < |slots| && slots[k] == mp;
      var e := if mp.end > stop then stop else mp.end;
      CostSplit(slots, t, e, stop);
      CostInsideSlot(slots, k, t, e);
      if mp.end >= stop {
        CostEmpty(slots, e, stop);
        CostEmpty(slots, mp.end, stop);
      } else {
        PriceFromIsCost(slots, mp.end, stop);
      }
    }
  }

  /** The pricer returns exactly the integral of the price over the block when
      every instant is covered, and None exactly when some instant is not. */
  lemma IntervalPriceIsIntegral(slots: seq<Slot>, start: int, duration: int)
    requires WellFormed(slots)
    ensures IntervalPrice(slots, start, duration).Some? ==> IntervalPrice(slots, start, duration).value == Cost(slots, start, start + duration)
    ensures IntervalPrice(slots, start, duration).Some? <==> forall u :: start <= u < start + duration ==> CoveredAt(slots, u)
  {
    WellFormedIsDisjoint(slots);
    if IntervalPrice(slots, start, duration).Some? {
      PriceFromIsCost(slots, start, start + duration);
    }
  }

  // ---------------------------------------------------------------------------
  // Candidate start times
  // ---------------------------------------------------------------------------

  ghost predicate StrictlyAscending(xs: seq<int>) {
    forall i, j :: 0 <= i < j < |xs| ==> xs[i] < xs[j]
  }

  /** Adds `x` to an ascending, duplicate-free list: the model of adding to a
      set that is sorted at the end. */
  function AddSorted(xs: seq<int>, x: int): (r: seq<int>)
    requires StrictlyAscending(xs)
    ensures StrictlyAscending(r)
    ensures forall y :: y in r <==> y in xs || y == x
  {
    if |xs| == 0 then [x]
    else if x == xs[0] then xs
    else if x < xs[0] then [x] + xs
    else
      var rest := AddSorted(xs[1..], x);
      assert forall y :: y in xs <==> y == xs[0] || y in xs[1..] by {
        assert xs == [xs[0]] + xs[1..];
      }
      var r := [xs[0]] + rest;
      assert StrictlyAscending(r) by {
        forall i, j | 0 <= i < j < |r| ensures r[i] < r[j] {
          if i == 0 {
            assert r[j] in rest;
            if r[j] != x {
              var k :| 0 <= k < |xs[1..]| && xs[1..][k] == r[j];
              assert xs[k + 1] == r[j];
            }
          } else {
            assert r[i] == rest[i - 1] && r[j] == rest[j - 1];
          }
        }
      }
      r
  }

  /** Which start a slot contributes for its "segment start": the code as
      written adds the window start `earliestStart` there; the evidently
      intended generator adds the slot's own start. */
  datatype Generator = AsWritten | Intended

  function SegmentStart(gen: Generator, md: Slot, earliestStart: int): int {
    match gen
    case AsWritten => earliestStart
    case Intended => md.start
  }

  /** What one slot adds in the generator loop: its "segment start" when the
      slot starts in the window with room for the block, and `end - duration`
      when the slot ends in the window late enough. */
  predicate SlotCandidate(gen: Generator, md: Slot, earliestStart: int, latestEnd: int, duration: int, x: int) {
    || (md.start >= earliestStart && md.start + duration <= latestEnd && x == SegmentStart(gen, md, earliestStart))
    || (md.end <= latestEnd && earliestStart <= md.end - duration && x == md.end - duration)
  }

  /** The loop over the timeline, adding each slot's candidates in order. */
  function AddSlotCandidates(gen: Generator, acc: seq<int>, slots: seq<Slot>, earliestStart: int, latestEnd: int, duration: int): (r: seq<int>)
    requires StrictlyAscending(acc)
    ensures StrictlyAscending(r)
    ensures forall x :: x in r <==> x in acc || exists i :: 0 <= i < |slots| && SlotCandidate(gen, slots[i], earliestStart, latestEnd, duration, x)
    decreases |slots|
  {
    if |slots| == 0 then acc
    else
      var md := slots[0];
      var a1 := if md.start >= earliestStart && md.start + duration <= latestEnd then AddSorted(acc, SegmentStart(gen, md, earliestStart)) else acc;
      var e := md.end - duration;
      var a2 := if md.end <= latestEnd && earliestStart <= e then AddSorted(a1, e) else a1;
      var r := AddSlotCandidates(gen, a2, slots[1..], earliestStart, latestEnd, duration);
      assert forall x :: x in r <==> x in acc || exists i :: 0 <= i < |slots| && SlotCandidate(gen, slots[i], earliestStart, latestEnd, duration, x) by {
        forall x ensures x in r <==> x in acc || exists i :: 0 <= i < |slots| && SlotCandidate(gen, slots[i], earliestStart, latestEnd, duration, x) {
          if exists i :: 0 <= i < |slots[1..]| && SlotCandidate(gen, slots[1..][i], earliestStart, latestEnd, duration, x) {
            var i :| 0 <= i < |slots[1..]| && SlotCandidate(gen, slots[1..][i], earliestStart, latestEnd, duration, x);
            assert slots[1..][i] == slots[i + 1];
          }
          if exists i :: 0 <= i < |slots| && SlotCandidate(gen, slots[i], earliestStart, latestEnd, duration, x) {
            var i :| 0 <= i < |slots| && SlotCandidate(gen, slots[i], earliestStart, latestEnd, duration, x);
            if i > 0 {
              assert slots[1..][i - 1] == slots[i];
            }
          }
        }
      }
      r
  }

  /** The candidate families: the window start if the block fits, (for the
      intended generator) the start of any slot starting in the window with
      room for the block, the end of any slot ending inside the window minus
      the duration, and the latest possible start. */
  ghost predicate IsCandidate(gen: Generator, slots: seq<Slot>, earliestStart: int, latestEnd: int, duration: int, x: int) {
    || (x == earliestStart && earliestStart + duration <= latestEnd)
    || (gen == Intended && exists i :: 0 <= i < |slots| && earliestStart <= slots[i].start && slots[i].start + duration <= latestEnd && x == slots[i].start)
    || (exists i :: 0 <= i < |slots| && slots[i].end <= latestEnd && earliestStart <= x && x == slots[i].end - duration)
    || (x == latestEnd - duration && earliestStart <= x)
  }

  /** The candidate start times in ascending order without duplicates. Exactly
      the candidate families appear, and every candidate block lies inside the
      window. */
  function StartTimes(gen: Generator, slots: seq<Slot>, earliestStart: int, latestEnd: int, duration: int): (r: seq<int>)
    ensures StrictlyAscending(r)
    ensures forall x :: x in r <==> IsCandidate(gen, slots, earliestStart, latestEnd, duration, x)
    ensures forall x :: x in r ==> earliestStart <= x && x + duration <= latestEnd
  {
    var a0 := if earliestStart + duration <= latestEnd then AddSorted([], earliestStart) else [];
    var a1 := AddSlotCandidates(gen, a0, slots, earliestStart, latestEnd, duration);
    var latest := latestEnd - duration;
    var r := if earliestStart <= latest then AddSorted(a1, latest) else a1;
    assert forall x :: x in r <==> IsCandidate(gen, slots, earliestStart, latestEnd, duration, x) by {
      forall x ensures x in r <==> IsCandidate(gen, slots, earliestStart, latestEnd, duration, x) {
        if exists i :: 0 <= i < |slots| && SlotCandidate(gen, slots[i], earliestStart, latestEnd, duration, x) {
          var i :| 0 <= i < |slots| && SlotCandidate(gen, slots[i], earliestStart, latestEnd, duration, x);
          assert IsCandidate(gen, slots, earliestStart, latestEnd, duration, x);
        }
        if gen == Intended && exists i :: 0 <= i < |slots| && earliestStart <= slots[i].start && slots[i].start + duration <= latestEnd && x == slots[i].start {
          var i :| 0 <= i < |slots| && earliestStart <= slots[i].start && slots[i].start + duration <= latestEnd && x == slots[i].start;
          assert SlotCandidate(gen, slots[i], earliestStart, latestEnd, duration, x);
        }
        if exists i :: 0 <= i < |slots| && slots[i].end <= latestEnd && earliestStart <= x && x == slots[i].end - duration {
          var i :| 0 <= i < |slots| && slots[i].end <= latestEnd && earliestStart <= x && x == slots[i].end - duration;
          assert SlotCandidate(gen, slots[i], earliestStart, latestEnd, duration, x);
        }
      }
    }
    r
  }

  /** `sorted(set(xs))`: the ascending, duplicate-free list of the values of `xs`. */
  function SortedDistinct(xs: seq<int>): (r: seq<int>)
    ensures StrictlyAscending(r)
    ensures forall y :: y in r <==> y in xs
  {
    if |xs| == 0 then []
    else
      assert forall y :: y in xs <==> y in xs[..|xs| - 1] || y == xs[|xs| - 1] by {
        assert xs == xs[..|xs| - 1] + [xs[|xs| - 1]];
      }
      AddSorted(SortedDistinct(xs[..|xs| - 1]), xs[|xs| - 1])
  }

  /** Adding a value above every element appends it. */
  lemma {:induction false} AddSortedAbove(xs: seq<int>, x: int)
    requires StrictlyAscending(xs)
    requires forall i :: 0 <= i < |xs| ==> xs[i] < x
    ensures AddSorted(xs, x) == xs + [x]
  {
    if |xs| > 0 {
      assert StrictlyAscending(xs[1..]) by {
        forall i, j | 0 <= i < j < |xs[1..]| ensures xs[1..][i] < xs[1..][j] {
          assert xs[1..][i] == xs[i + 1] && xs[1..][j] == xs[j + 1];
        }
      }
      assert forall i :: 0 <= i < |xs[1..]| ==> xs[1..][i] < x by {
        forall i | 0 <= i < |xs[1..]| ensures xs[1..][i] < x {
          assert xs[1..][i] == xs[i + 1];
        }
      }
      AddSortedAbove(xs[1..], x);
      assert xs == [xs[0]] + xs[1..];
    }
  }

  /** Sorting the generator's output again, as the entry point does, changes nothing. */
  lemma {:induction false} ResortIsIdentity(xs: seq<int>)
    requires StrictlyAscending(xs)
    ensures SortedDistinct(xs) == xs
  {
    if |xs| > 0 {
      var init := xs[..|xs| - 1];
      assert StrictlyAscending(init);
      ResortIsIdentity(init);
      AddSortedAbove(init, xs[|xs| - 1]);
      assert init + [xs[|xs| - 1]] == xs;
    }
  }

  // ---------------------------------------------------------------------------
  // Extreme-price search with tolerance
  // ---------------------------------------------------------------------------

  /** Price per hour of a block of `duration` seconds that costs `price`. */
  function PerHour(price: real, duration: int): real
    requires duration > 0
  {
    price * (SecondsPerHour as real) / (duration as real)
  }

  /** Dividing by the same positive duration keeps every price comparison. */
  lemma PerHourKeepsOrder(mode: Mode, a: real, b: real, duration: int)
    requires duration > 0
    ensures Better(mode, a, b) <==> Better(mode, PerHour(a, duration), PerHour(b, duration))
  {
    var f := (SecondsPerHour as real) / (duration as real);
    assert f > 0.0;
    assert PerHour(a, duration) == a * f && PerHour(b, duration) == b * f;
    if a < b { assert a * f < b * f; }
    if b < a { assert b * f < a * f; }
  }

  /** The block starting at `start`, as the search reports it. */
  function MakeBlock(start: int, price: real, duration: int): Block
    requires duration > 0
  {
    Block(start, start + duration, price, PerHour(price, duration))
  }

  /** The block is [start, start + duration), priced by the pricer, with its
      price per hour derived from its total price. */
  ghost predicate Consistent(slots: seq<Slot>, duration: int, b: Block) {
    && duration > 0
    && b.end == b.start + duration
    && IntervalPrice(slots, b.start, duration) == Some(b.intervalPrice)
    && b.pricePerHour == PerHour(b.intervalPrice, duration)
  }

  /** A candidate position and its price, as the strict search carries them. */
  datatype Pick = Pick(index: nat, price: real)

  /** The pricer's answer for every candidate start, in candidate order. */
  function CandidatePrices(slots: seq<Slot>, starts: seq<int>, duration: int): (r: seq<Option<real>>)
    ensures |r| == |starts|
    ensures forall j :: 0 <= j < |starts| ==> r[j] == IntervalPrice(slots, starts[j], duration)
  {
    seq(|starts|, j requires 0 <= j < |starts| => IntervalPrice(slots, starts[j], duration))
  }

  /** The strict search over the first `n` candidate prices: a candidate
      replaces the current best only when it is strictly better, so ties keep
      the earlier one. */
  function StrictSearch(prices: seq<Option<real>>, mode: Mode, n: nat): (r: Option<Pick>)
    requires n <= |prices|
    ensures r.None? <==> forall j :: 0 <= j < n ==> prices[j].None?
    ensures r.Some? ==> r.value.index < n && prices[r.value.index] == Some(r.value.price)
  {
    if n == 0 then None
    else
      var prev := StrictSearch(prices, mode, n - 1);
      match prices[n - 1]
      case None => prev
      case Some(p) =>
        if prev.None? || Better(mode, p, prev.value.price) then Some(Pick(n - 1, p)) else prev
  }

  /** No priced candidate among the first `n` beats the strict search's pick. */
  lemma {:induction false} StrictSearchIsExtreme(prices: seq<Option<real>>, mode: Mode, n: nat)
    requires n <= |prices|
    ensures var r := StrictSearch(prices, mode, n);
      r.Some? ==> forall j :: 0 <= j < n && prices[j].Some? ==> !Better(mode, prices[j].value, r.value.price)
  {
    if n > 0 {
      StrictSearchIsExtreme(prices, mode, n - 1);
    }
  }

  /** Every priced candidate before the pick is strictly worse: ties keep
      the earlier candidate. */
  lemma {:induction false} StrictSearchFirstOfTies(prices: seq<Option<real>>, mode: Mode, n: nat)
    requires n <= |prices|
    ensures var r := StrictSearch(prices, mode, n);
      r.Some? ==> forall j :: 0 <= j < r.value.index && prices[j].Some? ==> Better(mode, r.value.price, prices[j].value)
  {
    if n > 0 {
      StrictSearchFirstOfTies(prices, mode, n - 1);
      StrictSearchIsExtreme(prices, mode, n - 1);
    }
  }

  /** `b` is the block the strict search must return: its start is the first
      priceable candidate that no priceable candidate beats. */
  ghost predicate IsStrictOptimum(slots: seq<Slot>, starts: seq<int>, duration: int, mode: Mode, b: Block) {
    && Consistent(slots, duration, b)
    && (forall j :: 0 <= j < |starts| && IntervalPrice(slots, starts[j], duration).Some? ==>
          !Better(mode, IntervalPrice(slots, starts[j], duration).value, b.intervalPrice))
    && exists k :: 0 <= k < |starts| && starts[k] == b.start
         && (forall j :: 0 <= j < k && IntervalPrice(slots, starts[j], duration).Some? ==>
               Better(mode, b.intervalPrice, IntervalPrice(slots, starts[j], duration).value))
  }

  /** The optimum without tolerance, or None when no candidate is priceable. */
  function StrictOptimum(slots: seq<Slot>, starts: seq<int>, duration: int, mode: Mode): (r: Option<Block>)
    requires duration > 0
    ensures r.None? <==> forall j :: 0 <= j < |starts| ==> IntervalPrice(slots, starts[j], duration).None?
    ensures r.Some? ==> IsStrictOptimum(slots, starts, duration, mode, r.value)
  {
    var prices := CandidatePrices(slots, starts, duration);
    StrictSearchIsExtreme(prices, mode, |prices|);
    StrictSearchFirstOfTies(prices, mode, |prices|);
    match StrictSearch(prices, mode, |prices|)
    case None => None
    case Some(best) => Some(MakeBlock(starts[best.index], best.price, duration))
  }

  /** The candidate is priceable and its price per hour lies in the band
      around `reference`. */
  predicate InBand(slots: seq<Slot>, start: int, duration: int, mode: Mode, reference: real, tolerance: real)
    requires duration > 0
  {
    match IntervalPrice(slots, start, duration)
    case None => false
    case Some(p) => WithinBand(mode, reference, tolerance, PerHour(p, duration))
  }

  /** Whether each candidate lies in the band, in candidate order. */
  function BandFlags(slots: seq<Slot>, starts: seq<int>, duration: int, mode: Mode, reference: real, tolerance: real): (r: seq<bool>)
    requires duration > 0
    ensures |r| == |starts|
    ensures forall j :: 0 <= j < |starts| ==> r[j] == InBand(slots, starts[j], duration, mode, reference, tolerance)
  {
    seq(|starts|, j requires 0 <= j < |starts| => InBand(slots, starts[j], duration, mode, reference, tolerance))
  }

  /** Among the first `n` flagged candidates, the one with the earliest start
      (the first of equal starts, as a stable sort by start keeps them). */
  function EarliestInBand(starts: seq<int>, inBand: seq<bool>, n: nat): (r: Option<nat>)
    requires n <= |starts| && |inBand| == |starts|
    ensures r.None? <==> forall j :: 0 <= j < n ==> !inBand[j]
    ensures r.Some? ==> r.value < n && inBand[r.value]
  {
    if n == 0 then None
    else
      var prev := EarliestInBand(starts, inBand, n - 1);
      if inBand[n - 1] && (prev.None? || starts[n - 1] < starts[prev.value])
      then Some(n - 1)
      else prev
  }

  /** No flagged candidate among the first `n` starts earlier than the pick,
      and every flagged one before the pick starts strictly later. */
  lemma {:induction false} EarliestInBandIsEarliest(starts: seq<int>, inBand: seq<bool>, n: nat)
    requires n <= |starts| && |inBand| == |starts|
    ensures var r := EarliestInBand(starts, inBand, n);
      r.Some? ==> forall j :: 0 <= j < n && inBand[j] ==> starts[r.value] <= starts[j]
    ensures var r := EarliestInBand(starts, inBand, n);
      r.Some? ==> forall j :: 0 <= j < r.value && inBand[j] ==> starts[r.value] < starts[j]
  {
    if n > 0 {
      EarliestInBandIsEarliest(starts, inBand, n - 1);
    }
  }

  /** The extreme-price search. Without tolerance it returns the strict
      optimum. With a tolerance it returns the earliest-starting candidate
      whose price per hour lies in the band around the optimum's, falling
      back to the optimum when none does. */
  function FindExtreme(slots: seq<Slot>, starts: seq<int>, duration: int, mode: Mode, tolerance: real): (r: Option<Block>)
    requires duration > 0
    ensures r.None? <==> forall j :: 0 <= j < |starts| ==> IntervalPrice(slots, starts[j], duration).None?
    ensures r.Some? ==> r.value.start in starts && Consistent(slots, duration, r.value)
    ensures r.Some? && tolerance == 0.0 ==> IsStrictOptimum(slots, starts, duration, mode, r.value)
    ensures r.Some? && tolerance != 0.0 ==>
      var opt := StrictOptimum(slots, starts, duration, mode).value;
      if exists j :: 0 <= j < |starts| && InBand(slots, starts[j], duration, mode, opt.pricePerHour, tolerance)
      then
        && InBand(slots, r.value.start, duration, mode, opt.pricePerHour, tolerance)
        && forall j :: 0 <= j < |starts| && InBand(slots, starts[j], duration, mode, opt.pricePerHour, tolerance) ==> r.value.start <= starts[j]
      else r.value == opt
  {
    match StrictOptimum(slots, starts, duration, mode)
    case None => None
    case Some(opt) =>
      if tolerance == 0.0 then Some(opt)
      else
        var inBand := BandFlags(slots, starts, duration, mode, opt.pricePerHour, tolerance);
        EarliestInBandIsEarliest(starts, inBand, |starts|);
        match EarliestInBand(starts, inBand, |starts|)
        case None => Some(opt)
        case Some(i) =>
          var p := IntervalPrice(slots, starts[i], duration).value;
          Some(MakeBlock(starts[i], p, duration))
  }

  /** When the optimum's price per hour is not negative it lies in its own
      band, so the fallback cannot happen and the tolerance never delays the
      start beyond the strict optimum's. */
  lemma ToleranceNeverLater(slots: seq<Slot>, starts: seq<int>, duration: int, mode: Mode, tolerance: real)
    requires duration > 0 && tolerance >= 0.0
    requires StrictOptimum(slots, starts, duration, mode).Some?
    requires StrictOptimum(slots, starts, duration, mode).value.pricePerHour >= 0.0
    ensures FindExtreme(slots, starts, duration, mode, tolerance).Some?
    ensures FindExtreme(slots, starts, duration, mode, tolerance).value.start <= StrictOptimum(slots, starts, duration, mode).value.start
    ensures InBand(slots, FindExtreme(slots, starts, duration, mode, tolerance).value.start, duration, mode,
                   StrictOptimum(slots, starts, duration, mode).value.pricePerHour, tolerance)
  {
    var opt := StrictOptimum(slots, starts, duration, mode).value;
    ReferenceInOwnBand(mode, opt.pricePerHour, tolerance);
    var k :| 0 <= k < |starts| && starts[k] == opt.start;
    assert InBand(slots, starts[k], duration, mode, opt.pricePerHour, tolerance);
  }

  /** With a negative optimum and a positive tolerance no candidate lies in
      the band (it sits on the optimum's far side), so the search falls back
      to the strict optimum. */
  lemma NegativeOptimumFallsBack(slots: seq<Slot>, starts: seq<int>, duration: int, mode: Mode, tolerance: real)
    requires duration > 0 && tolerance > 0.0
    requires StrictOptimum(slots, starts, duration, mode).Some?
    requires StrictOptimum(slots, starts, duration, mode).value.pricePerHour < 0.0
    ensures forall j :: 0 <= j < |starts| ==>
      !InBand(slots, starts[j], duration, mode, StrictOptimum(slots, starts, duration, mode).value.pricePerHour, tolerance)
    ensures FindExtreme(slots, starts, duration, mode, tolerance) == StrictOptimum(slots, starts, duration, mode)
  {
    var opt := StrictOptimum(slots, starts, duration, mode).value;
    forall j | 0 <= j < |starts|
      ensures !InBand(slots, starts[j], duration, mode, opt.pricePerHour, tolerance)
    {
      if IntervalPrice(slots, starts[j], duration).Some? {
        var p := IntervalPrice(slots, starts[j], duration).value;
        PerHourKeepsOrder(mode, p, opt.intervalPrice, duration);
        NegativeReferenceOutsideBand(mode, opt.pricePerHour, tolerance, PerHour(p, duration));
      }
    }
  }

  // ---------------------------------------------------------------------------
  // Entry point
  // ---------------------------------------------------------------------------

  /** The contiguous optimizer: no result when the timeline is empty or ends
      before `latestEnd`; otherwise the extreme-price search over the
      candidate start times. */
  function CalcIntervalForContiguous(gen: Generator, slots: seq<Slot>, earliestStart: int, latestEnd: int, duration: int, mode: Mode, tolerance: real): (r: Option<Block>)
    requires duration > 0
    ensures |slots| == 0 || Last(slots).end < latestEnd ==> r.None?
    ensures r.Some? ==> earliestStart <= r.value.start && r.value.end <= latestEnd
    ensures r.Some? ==> IsCandidate(gen, slots, earliestStart, latestEnd, duration, r.value.start) && Consistent(slots, duration, r.value)
    ensures |slots| > 0 && Last(slots).end >= latestEnd ==>
      (r.None? <==> forall x :: IsCandidate(gen, slots, earliestStart, latestEnd, duration, x) ==> IntervalPrice(slots, x, duration).None?)
  {
    if |slots| == 0 then None
    else if Last(slots).end < latestEnd then None
    else
      var starts := SortedDistinct(StartTimes(gen, slots, earliestStart, latestEnd, duration));
      var r := FindExtreme(slots, starts, duration, mode, tolerance);
      assert (forall j :: 0 <= j < |starts| ==> IntervalPrice(slots, starts[j], duration).None?) <==>
             (forall x :: IsCandidate(gen, slots, earliestStart, latestEnd, duration, x) ==> IntervalPrice(slots, x, duration).None?) by {
        if forall j :: 0 <= j < |starts| ==> IntervalPrice(slots, starts[j], duration).None? {
          forall x | IsCandidate(gen, slots, earliestStart, latestEnd, duration, x) ensures IntervalPrice(slots, x, duration).None? {
            assert x in starts;
            var j :| 0 <= j < |starts| && starts[j] == x;
          }
        }
      }
      r
  }

  /** Over an ascending candidate list, the strict optimum is strictly better
      than every priceable candidate that starts before it. */
  lemma StrictOptimumBeatsEarlier(slots: seq<Slot>, starts: seq<int>, duration: int, mode: Mode, b: Block, j: int)
    requires StrictlyAscending(starts) && IsStrictOptimum(slots, starts, duration, mode, b)
    requires 0 <= j < |starts| && starts[j] < b.start && IntervalPrice(slots, starts[j], duration).Some?
    ensures Better(mode, b.intervalPrice, IntervalPrice(slots, starts[j], duration).value)
  {
    var k :| 0 <= k < |starts| && starts[k] == b.start
         && (forall i :: 0 <= i < k && IntervalPrice(slots, starts[i], duration).Some? ==>
               Better(mode, b.intervalPrice, IntervalPrice(slots, starts[i], duration).value));
    assert j < k;
  }

  /** Without tolerance the entry point returns a cheapest (or most
      expensive) candidate block, and among equally priced candidates the
      one that starts first. */
  lemma ContiguousStrictOptimum(gen: Generator, slots: seq<Slot>, earliestStart: int, latestEnd: int, duration: int, mode: Mode, x: int)
    requires duration > 0
    requires CalcIntervalForContiguous(gen, slots, earliestStart, latestEnd, duration, mode, 0.0).Some?
    requires IsCandidate(gen, slots, earliestStart, latestEnd, duration, x) && IntervalPrice(slots, x, duration).Some?
    ensures var b := CalcIntervalForContiguous(gen, slots, earliestStart, latestEnd, duration, mode, 0.0).value;
      && !Better(mode, IntervalPrice(slots, x, duration).value, b.intervalPrice)
      && (x < b.start ==> Better(mode, b.intervalPrice, IntervalPrice(slots, x, duration).value))
  {
    var starts := SortedDistinct(StartTimes(gen, slots, earliestStart, latestEnd, duration));
    var r := FindExtreme(slots, starts, duration, mode, 0.0);
    assert CalcIntervalForContiguous(gen, slots, earliestStart, latestEnd, duration, mode, 0.0) == r;
    var b := r.value;
    assert IsStrictOptimum(slots, starts, duration, mode, b);
    assert x in starts;
    var j :| 0 <= j < |starts| && starts[j] == x;
    if x < b.start {
      StrictOptimumBeatsEarlier(slots, starts, duration, mode, b, j);
    }
  }

  // ---------------------------------------------------------------------------
  // The segment-start candidate
  // ---------------------------------------------------------------------------

  /** The timeline of the counterexample: 20, then 5, then 10 per hour, one
      hour each. */
  function BugTimeline(): seq<Slot> {
    [Slot(0, 3600, 20.0), Slot(3600, 7200, 5.0), Slot(7200, 10800, 10.0)]
  }

  /** As written, the candidates for a 90-minute block in [0, 10800) on the
      counterexample are 0, 1800 and 5400 only: the slot start 3600 is missing. */
  lemma BugCandidates(x: int)
    ensures IsCandidate(AsWritten, BugTimeline(), 0, 10800, 5400, x) <==> x == 0 || x == 1800 || x == 5400
  {
    var slots := BugTimeline();
    if x == 1800 {
      assert slots[1].end <= 10800 && 1800 == slots[1].end - 5400;
    }
  }

  /** The slots covering the instants the counterexample's blocks visit. */
  lemma BugSlots()
    ensures FindSlot(BugTimeline(), 0) == Some(BugTimeline()[0])
    ensures FindSlot(BugTimeline(), 1800) == Some(BugTimeline()[0])
    ensures FindSlot(BugTimeline(), 3600) == Some(BugTimeline()[1])
    ensures FindSlot(BugTimeline(), 5400) == Some(BugTimeline()[1])
    ensures FindSlot(BugTimeline(), 7200) == Some(BugTimeline()[2])
  {
    var slots := BugTimeline();
    assert slots[1..][1..] == [slots[2]];
  }

  /** The block at 0 costs one hour at 20 and half an hour at 5. */
  lemma BugPriceAt0()
    ensures IntervalPrice(BugTimeline(), 0, 5400) == Some(22.5)
  {
    var slots := BugTimeline();
    BugSlots();
    assert PriceFrom(slots, 7200, 5400) == Some(0.0);
    assert PriceFrom(slots, 3600, 5400) == Some(2.5);
  }

  /** The block at 1800 costs half an hour at 20 and one hour at 5. */
  lemma BugPriceAt1800()
    ensures IntervalPrice(BugTimeline(), 1800, 5400) == Some(15.0)
  {
    var slots := BugTimeline();
    BugSlots();
    assert PriceFrom(slots, 7200, 7200) == Some(0.0);
    assert PriceFrom(slots, 3600, 7200) == Some(5.0);
  }

  /** The block at 5400 costs half an hour at 5 and one hour at 10. */
  lemma BugPriceAt5400()
    ensures IntervalPrice(BugTimeline(), 5400, 5400) == Some(12.5)
  {
    var slots := BugTimeline();
    BugSlots();
    assert PriceFrom(slots, 10800, 10800) == Some(0.0);
    assert PriceFrom(slots, 7200, 10800) == Some(10.0);
  }

  /** The block at 3600 costs one hour at 5 and half an hour at 10. */
  lemma BugPriceAt3600()
    ensures IntervalPrice(BugTimeline(), 3600, 5400) == Some(10.0)
  {
    var slots := BugTimeline();
    BugSlots();
    assert PriceFrom(slots, 10800, 9000) == Some(0.0);
    assert PriceFrom(slots, 7200, 9000) == Some(5.0);
  }

  /** The four 90-minute blocks' prices on the counterexample. */
  lemma BugPrices()
    ensures IntervalPrice(BugTimeline(), 0, 5400) == Some(22.5)
    ensures IntervalPrice(BugTimeline(), 1800, 5400) == Some(15.0)
    ensures IntervalPrice(BugTimeline(), 5400, 5400) == Some(12.5)
    ensures IntervalPrice(BugTimeline(), 3600, 5400) == Some(10.0)
  {
    BugPriceAt0();
    BugPriceAt1800();
    BugPriceAt5400();
    BugPriceAt3600();
  }

  /** As written, the cheapest 90-minute block found on the counterexample
      costs 12.5, although the block at the slot start 3600 costs 10. */
  lemma WindowStartBugExample()
    ensures IntervalPrice(BugTimeline(), 3600, 5400) == Some(10.0)
    ensures CalcIntervalForContiguous(AsWritten, BugTimeline(), 0, 10800, 5400, Cheapest, 0.0).Some?
    ensures CalcIntervalForContiguous(AsWritten, BugTimeline(), 0, 10800, 5400, Cheapest, 0.0).value.intervalPrice == 12.5
  {
    var slots := BugTimeline();
    BugPrices();
    BugCandidates(5400);
    var r := CalcIntervalForContiguous(AsWritten, slots, 0, 10800, 5400, Cheapest, 0.0);
    assert r.Some?;
    ContiguousStrictOptimum(AsWritten, slots, 0, 10800, 5400, Cheapest, 5400);
    BugCandidates(r.value.start);
  }

  /** The intended generator offers every start the written one does, so
      without tolerance its block is never worse. */
  lemma IntendedNeverWorse(slots: seq<Slot>, earliestStart: int, latestEnd: int, duration: int, mode: Mode)
    requires duration > 0
    requires CalcIntervalForContiguous(AsWritten, slots, earliestStart, latestEnd, duration, mode, 0.0).Some?
    ensures CalcIntervalForContiguous(Intended, slots, earliestStart, latestEnd, duration, mode, 0.0).Some?
    ensures !Better(mode, CalcIntervalForContiguous(AsWritten, slots, earliestStart, latestEnd, duration, mode, 0.0).value.intervalPrice,
                    CalcIntervalForContiguous(Intended, slots, earliestStart, latestEnd, duration, mode, 0.0).value.intervalPrice)
  {
    var b := CalcIntervalForContiguous(AsWritten, slots, earliestStart, latestEnd, duration, mode, 0.0).value;
    assert IsCandidate(Intended, slots, earliestStart, latestEnd, duration, b.start);
    ContiguousStrictOptimum(Intended, slots, earliestStart, latestEnd, duration, mode, b.start);
  }

  /** With the intended generator, no block starting where a slot starts
      inside the window beats the block found (without tolerance). */
  lemma IntendedCoversSlotStarts(slots: seq<Slot>, earliestStart: int, latestEnd: int, duration: int, mode: Mode, i: int)
    requires duration > 0
    requires CalcIntervalForContiguous(Intended, slots, earliestStart, latestEnd, duration, mode, 0.0).Some?
    requires 0 <= i < |slots| && earliestStart <= slots[i].start && slots[i].start + duration <= latestEnd
    requires IntervalPrice(slots, slots[i].start, duration).Some?
    ensures !Better(mode, IntervalPrice(slots, slots[i].start, duration).value,
                    CalcIntervalForContiguous(Intended, slots, earliestStart, latestEnd, duration, mode, 0.0).value.intervalPrice)
  {
    ContiguousStrictOptimum(Intended, slots, earliestStart, latestEnd, duration, mode, slots[i].start);
  }

  /** A slot start inside the window whose block beats the written
      generator's result bounds the intended generator's result, which is then
      strictly cheaper than the written one's. */
  lemma SlotStartBeatsWritten(slots: seq<Slot>, earliestStart: int, latestEnd: int, duration: int, i: int, q: real)
    requires duration > 0
    requires CalcIntervalForContiguous(AsWritten, slots, earliestStart, latestEnd, duration, Cheapest, 0.0).Some?
    requires 0 <= i < |slots| && earliestStart <= slots[i].start && slots[i].start + duration <= latestEnd
    requires IntervalPrice(slots, slots[i].start, duration) == Some(q)
    requires q < CalcIntervalForContiguous(AsWritten, slots, earliestStart, latestEnd, duration, Cheapest, 0.0).value.intervalPrice
    ensures CalcIntervalForContiguous(Intended, slots, earliestStart, latestEnd, duration, Cheapest, 0.0).Some?
    ensures CalcIntervalForContiguous(Intended, slots, earliestStart, latestEnd, duration, Cheapest, 0.0).value.intervalPrice <= q
    ensures CalcIntervalForContiguous(Intended, slots, earliestStart, latestEnd, duration, Cheapest, 0.0).value.intervalPrice
          < CalcIntervalForContiguous(AsWritten, slots, earliestStart, latestEnd, duration, Cheapest, 0.0).value.intervalPrice
  {
    IntendedNeverWorse(slots, earliestStart, latestEnd, duration, Cheapest);
    IntendedCoversSlotStarts(slots, earliestStart, latestEnd, duration, Cheapest, i);
  }

  /** On the counterexample the intended generator finds a block costing at
      most 10, below the 12.5 of the written one. */
  lemma WindowStartBugFixed()
    ensures CalcIntervalForContiguous(Intended, BugTimeline(), 0, 10800, 5400, Cheapest, 0.0).Some?
    ensures CalcIntervalForContiguous(Intended, BugTimeline(), 0, 10800, 5400, Cheapest, 0.0).value.intervalPrice <= 10.0
  {
    WindowStartBugExample();
    SlotStartBeatsWritten(BugTimeline(), 0, 10800, 5400, 1, 10.0);
  }
}
