/**
 The price timeline shared by both optimizers: slots with a per-hour price over
 a half-open span of integer seconds, the selection mode, clipping of a slot to
 the search window, and the tolerance band around a reference price.
 */
module Timeline {

  /** Timestamps and durations are whole seconds; prices are per hour. */
  const SecondsPerHour: int := 3600

  /** One row of the price timeline: `price` per hour over [start, end). */
  datatype Slot = Slot(start: int, end: int, price: real)

  /** Whether the optimizer looks for the cheapest or the most expensive time. */
  datatype Mode = Cheapest | MostExpensive

  /** Price `a` is strictly preferable to price `b` in `mode`. */
  predicate Better(mode: Mode, a: real, b: real) {
    match mode
    case Cheapest => a < b
    case MostExpensive => a > b
  }

  /** The absolute cost of `seconds` at `rate` per hour. */
  function CostOf(rate: real, seconds: int): real {
    rate * (seconds as real) / (SecondsPerHour as real)
  }

  /** The instant `t` lies in the slot's half-open span. */
  predicate Covers(s: Slot, t: int) {
    s.start <= t < s.end
  }

  /** Some slot of the timeline covers the instant `t`. */
  ghost predicate CoveredAt(slots: seq<Slot>, t: int) {
    exists i :: 0 <= i < |slots| && Covers(slots[i], t)
  }

  /** Two slots share no instant. */
  predicate Disjoint(a: Slot, b: Slot) {
    a.end <= b.start || b.end <= a.start
  }

  /** The timeline invariant: every slot is non-empty, and the slots are
      ordered by start and do not overlap (gaps are allowed). */
  ghost predicate WellFormed(slots: seq<Slot>) {
    && (forall i :: 0 <= i < |slots| ==> slots[i].start < slots[i].end)
    && (forall i, j :: 0 <= i < j < |slots| ==> slots[i].end <= slots[j].start)
  }

  /** Slots at different positions share no instant (in any order). */
  ghost predicate PairwiseDisjoint(slots: seq<Slot>) {
    forall i, j :: 0 <= i < |slots| && 0 <= j < |slots| && i != j ==> Disjoint(slots[i], slots[j])
  }

  /** No value occurs at two positions. */
  ghost predicate NoDup<T>(s: seq<T>) {
    forall i, j :: 0 <= i < j < |s| ==> s[i] != s[j]
  }

  function Last(slots: seq<Slot>): Slot
    requires |slots| > 0
  {
    slots[|slots| - 1]
  }

  /** Start of the slot clipped to a window opening at `earliestStart`. */
  function ClipStart(s: Slot, earliestStart: int): int {
    if s.start < earliestStart then earliestStart else s.start
  }

  /** End of the slot clipped to a window closing at `latestEnd`. */
  function ClipEnd(s: Slot, latestEnd: int): int {
    if s.end > latestEnd then latestEnd else s.end
  }

  /** Seconds of the slot that lie in the window. */
  function ClipLength(s: Slot, earliestStart: int, latestEnd: int): int {
    ClipEnd(s, latestEnd) - ClipStart(s, earliestStart)
  }

  /** The window filter of the intermittent optimizer: the slot overlaps
      (earliestStart, latestEnd) at all. */
  predicate OverlapsWindow(s: Slot, earliestStart: int, latestEnd: int) {
    earliestStart < s.end && latestEnd > s.start
  }

  /** `x` lies in the tolerance band of `tolerance` percent around
      `reference`: at most reference*(1+t/100) when cheapest, at least
      reference*(1-t/100) when most expensive. */
  predicate WithinBand(mode: Mode, reference: real, tolerance: real, x: real) {
    match mode
    case Cheapest => x <= reference * (1.0 + tolerance / 100.0)
    case MostExpensive => x >= reference * (1.0 - tolerance / 100.0)
  }

  /** A well-formed timeline has no slot twice and no two overlapping slots. */
  lemma WellFormedIsDisjoint(slots: seq<Slot>)
    requires WellFormed(slots)
    ensures PairwiseDisjoint(slots)
    ensures NoDup(slots)
  {
    forall i, j | 0 <= i < |slots| && 0 <= j < |slots| && i != j
      ensures Disjoint(slots[i], slots[j])
    {
      if i < j {
        assert slots[i].end <= slots[j].start;
      } else {
        assert slots[j].end <= slots[i].start;
      }
    }
  }

  /** A non-empty slot that overlaps a non-empty window keeps a non-empty part. */
  lemma OverlapKeepsPart(s: Slot, earliestStart: int, latestEnd: int)
    requires s.start < s.end && earliestStart < latestEnd
    requires OverlapsWindow(s, earliestStart, latestEnd)
    ensures 0 < ClipLength(s, earliestStart, latestEnd) <= s.end - s.start
    ensures earliestStart <= ClipStart(s, earliestStart) && ClipEnd(s, latestEnd) <= latestEnd
  {
  }

  /** A reference price that is not negative lies in its own band whenever
      the tolerance is not negative. */
  lemma ReferenceInOwnBand(mode: Mode, reference: real, tolerance: real)
    requires reference >= 0.0 && tolerance >= 0.0
    ensures WithinBand(mode, reference, tolerance, reference)
  {
    assert reference * (tolerance / 100.0) >= 0.0;
  }

  /** With a negative reference and a positive tolerance the band excludes
      the reference and everything on its far side. */
  lemma NegativeReferenceOutsideBand(mode: Mode, reference: real, tolerance: real, x: real)
    requires reference < 0.0 && tolerance > 0.0
    requires !Better(mode, x, reference)
    ensures !WithinBand(mode, reference, tolerance, x)
  {
    assert reference * (tolerance / 100.0) < 0.0;
  }

  /** Counting form of NoDup: no value occurs more than once. */
  lemma NoDupCount<T>(s: seq<T>, x: T)
    requires NoDup(s)
    ensures multiset(s)[x] <= 1
  {
    if |s| > 0 {
      assert s == [s[0]] + s[1..];
      assert NoDup(s[1..]) by {
        forall i, j | 0 <= i < j < |s[1..]| ensures s[1..][i] != s[1..][j] {
          assert s[1..][i] == s[i + 1] && s[1..][j] == s[j + 1];
        }
      }
      NoDupCount(s[1..], x);
      if x == s[0] {
        assert x !in s[1..] by {
          forall k | 0 <= k < |s[1..]| ensures s[1..][k] != x {
            assert s[1..][k] == s[k + 1];
          }
        }
      }
    }
  }

  /** A value at two positions occurs at least twice. */
  lemma DupCount<T>(s: seq<T>, i: int, j: int)
    requires 0 <= i < j < |s| && s[i] == s[j]
    ensures multiset(s)[s[i]] >= 2
  {
    assert s == s[..j] + [s[j]] + s[j + 1..];
    assert s[i] in s[..j];
    assert multiset(s[..j])[s[i]] >= 1;
  }

  /** Taking elements of a duplicate-free, pairwise disjoint list (with
      multiplicity) keeps both properties; this covers filtering and sorting. */
  lemma SubMultisetKeepsDisjoint(a: seq<Slot>, b: seq<Slot>)
    requires NoDup(a) && PairwiseDisjoint(a)
    requires multiset(b) <= multiset(a)
    ensures NoDup(b) && PairwiseDisjoint(b)
  {
    forall i, j | 0 <= i < j < |b| ensures b[i] != b[j] {
      if b[i] == b[j] {
        DupCount(b, i, j);
        NoDupCount(a, b[i]);
        assert false;
      }
    }
    forall i, j | 0 <= i < |b| && 0 <= j < |b| && i != j
      ensures Disjoint(b[i], b[j])
    {
      assert b[i] != b[j] by {
        if i < j { assert b[i] != b[j]; } else { assert b[j] != b[i]; }
      }
      assert b[i] in multiset(a) && b[j] in multiset(a) by {
        assert b[i] in multiset(b) && b[j] in multiset(b);
      }
      var i' :| 0 <= i' < |a| && a[i'] == b[i];
      var j' :| 0 <= j' < |a| && a[j'] == b[j];
      assert i' != j';
    }
  }
}
