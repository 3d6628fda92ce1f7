# EPEX spot sensor schedulers in Dafny

This project models the two schedulers of the EPEX spot sensor integration
and proves their properties. Both schedulers decide when a load should run,
given a forecast of price slots.

- **Contiguous optimizer** (`contiguous_interval.py`). It looks for one block
  of exactly `duration` seconds inside `[earliest_start, latest_end]`.
  - It prices each candidate start by walking the timeline slot by slot.
  - It keeps the cheapest (or most expensive) candidate. Ties go to the
    earliest candidate.
  - With a price tolerance it returns instead the earliest-starting
    candidate whose price per hour lies in the band around the optimum's.
    When no candidate does, it falls back to the optimum.
- **Intermittent optimizer** (`intermittent_interval.py`). It picks slices
  of the timeline, not necessarily adjacent, by a greedy walk.
  - The walk clips every slot to the window. The slot that crosses the
    target contributes only the missing seconds, aligned by adjacency to
    the slices already chosen.
  - The *exact* branch walks the window's slots in stable price order. With
    a positive tolerance it first tries only the in-band slots, in start
    order.
  - The *flexible* branch sorts by `(price, start)` and walks up to a
    maximum. Once the minimum is met, it stops at the first slot whose
    price ratio to a reference exceeds the band.

Modules, one concept each:

| file | module | contents |
|---|---|---|
| `wrappers.dfy` | `Wrappers` | `Option` |
| `timeline.dfy` | `Timeline` | `Slot`, `Mode`, the well-formed timeline, window clipping, the tolerance band |
| `sorting.dfy` | `Sorting` | the stable sorts, specified as sorted, stable permutations (stable means every key class keeps its order) |
| `contiguous.dfy` | `Contiguous` | pricer, candidate generator, strict and tolerant search, entry point, and the finding below |
| `walk.dfy` | `IntervalWalk` | the `Interval` record, the partial-slice cut and its alignment, `_select_intervals_from_slots`, `is_now_in_intervals` |
| `intermittent.dfy` | `Intermittent` | filters, the exact and flexible branches of `calc_intervals_for_intermittent` |

**Modelling choices:**

- **Time and prices.** Timestamps and durations are integer seconds. Prices
  are exact `real`s. A slot is `Slot(start, end, price)`, with price per
  hour over `[start, end)`.
- **Exceptions.** A Python exception becomes a value:
  - the intermittent optimizer returns
    `Outcome = NoResult | Found(intervals) | Crash(fault)`;
  - `Crash(EmptyReferenceList)` is the `IndexError` of `marketdata[0]` on an
    empty window with a positive tolerance;
  - `Crash(ZeroReferencePrice)` is the `ZeroDivisionError` of the flexible
    ratio test when the reference price is 0.
- **The candidate generator** has a parameter `gen: Generator`:
  - `AsWritten` is the code as written, which adds `earliest_start` in the
    segment-start branch;
  - `Intended` adds the slot's own start instead;
  - see "## Findings".
- **Sorts.** Python's stable `sort(key=..., reverse=True)` keeps equal keys
  in input order. The descending orders are therefore modelled as stable
  sorts by the reversed key. For the `(price, start)` key this also
  reverses the start tie-break, so among equal prices the flexible walk
  takes the latest start first.
- **Intermittent preconditions.** The intermittent entry points require
  only what makes them total: `duration > 0`, and in the flexible branch
  `0 < min_duration <= duration`. The second condition comes from the
  options validation (`config_flow.py:199-204`).
- **Timeline well-formedness** is a premise only of the lemmas that need it
  (disjointness, chronology, the price integral). A well-formed timeline has
  non-empty slots, ordered by start, with no overlap.

## Model

| member | source | states |
|---|---|---|
| Contiguous.FindSlot | custom_components/epex_spot_sensor/contiguous_interval.py:10-15 | the slot found is a timeline slot covering the instant; None exactly when no slot covers it |
| Contiguous.FindSlotIsFirst | custom_components/epex_spot_sensor/contiguous_interval.py:11-13 | the slot found is the first slot of the timeline that covers the instant |
| Contiguous.PriceFrom | custom_components/epex_spot_sensor/contiguous_interval.py:18-42 | the walk from slot to slot terminates and fails exactly when some instant of the remaining range lies in no slot |
| Contiguous.PriceFromIsCost | custom_components/epex_spot_sensor/contiguous_interval.py:23-40 | on a timeline without overlapping slots, the walked sum equals the reference integral: every slot charged price × overlap seconds / 3600 |
| Contiguous.IntervalPriceIsIntegral | custom_components/epex_spot_sensor/contiguous_interval.py:18-42 | on a well-formed timeline the block price exists exactly when every instant of the block is covered, and then equals the integral |
| Contiguous.AddSorted | custom_components/epex_spot_sensor/contiguous_interval.py:49-71 | adding to the sorted set keeps it strictly ascending and adds exactly the new value |
| Contiguous.AddSlotCandidates | custom_components/epex_spot_sensor/contiguous_interval.py:56-64 | the loop adds exactly the segment-start and segment-end candidates of every slot |
| Contiguous.StartTimes | custom_components/epex_spot_sensor/contiguous_interval.py:45-71 | the candidates are strictly ascending, are exactly the window start, the segment candidates and the latest start, and every candidate block lies in the window |
| Contiguous.SortedDistinct | custom_components/epex_spot_sensor/contiguous_interval.py:207 | the result is strictly ascending with exactly the values of its input |
| Contiguous.ResortIsIdentity | custom_components/epex_spot_sensor/contiguous_interval.py:207 | sorting the generator's output again changes nothing |
| Contiguous.StrictSearch | custom_components/epex_spot_sensor/contiguous_interval.py:110-122 | no result exactly when no candidate is priced; otherwise a priced candidate and its price |
| Contiguous.StrictSearchIsExtreme | custom_components/epex_spot_sensor/contiguous_interval.py:110-119 | no priced candidate is strictly better than the pick |
| Contiguous.StrictSearchFirstOfTies | custom_components/epex_spot_sensor/contiguous_interval.py:115-119 | every priced candidate before the pick is strictly worse, so ties keep the earlier candidate |
| Contiguous.StrictOptimum | custom_components/epex_spot_sensor/contiguous_interval.py:110-130 | the block is [start, start + duration), priced by the pricer, with price per hour = price × 3600 / duration, unbeaten, and the first unbeaten candidate |
| Contiguous.PerHourKeepsOrder | custom_components/epex_spot_sensor/contiguous_interval.py:160 | converting to price per hour keeps every comparison between candidates |
| Contiguous.EarliestInBand | custom_components/epex_spot_sensor/contiguous_interval.py:154-170 | no result exactly when no candidate is in the band; otherwise an in-band candidate |
| Contiguous.EarliestInBandIsEarliest | custom_components/epex_spot_sensor/contiguous_interval.py:181-183 | the pick starts no later than any in-band candidate and strictly before every in-band candidate listed before it |
| Contiguous.FindExtreme | custom_components/epex_spot_sensor/contiguous_interval.py:121-183 | none exactly when nothing is priced; tolerance 0 gives the strict optimum; otherwise the earliest in-band candidate, or the optimum when none is in band |
| Timeline.ReferenceInOwnBand | custom_components/epex_spot_sensor/contiguous_interval.py:139-151 | a non-negative reference lies in its own band for a non-negative tolerance |
| Contiguous.ToleranceNeverLater | custom_components/epex_spot_sensor/contiguous_interval.py:137-183 | with a non-negative optimum the fallback cannot happen: the tolerant result is in band and starts no later than the optimum |
| Contiguous.NegativeOptimumFallsBack | custom_components/epex_spot_sensor/contiguous_interval.py:172-179 | with a negative optimum and positive tolerance no candidate is in band and the optimum is returned |
| Contiguous.CalcIntervalForContiguous | custom_components/epex_spot_sensor/contiguous_interval.py:186-211 | none on an empty or short timeline, or exactly when no candidate is priced; a result is a candidate block inside the window, priced consistently |
| Contiguous.StrictOptimumBeatsEarlier | custom_components/epex_spot_sensor/contiguous_interval.py:110-119 | over ascending candidates the optimum is strictly better than every earlier-starting priced candidate |
| Contiguous.ContiguousStrictOptimum | custom_components/epex_spot_sensor/contiguous_interval.py:186-211 | without tolerance no priced candidate beats the result, and every earlier-starting one is strictly worse |
| Contiguous.BugCandidates | custom_components/epex_spot_sensor/contiguous_interval.py:56-59 | on the counterexample the candidates are exactly 0, 1800 and 5400 |
| Contiguous.BugPrices | custom_components/epex_spot_sensor/contiguous_interval.py:18-42 | the counterexample's four 90-minute blocks cost 22.5, 15, 12.5 and 10 |
| Contiguous.WindowStartBugExample | custom_components/epex_spot_sensor/contiguous_interval.py:59 | as written, the cheapest block found costs 12.5 although the block at the slot start costs 10 |
| Contiguous.IntendedNeverWorse | custom_components/epex_spot_sensor/contiguous_interval.py:57-59 | the intended generator's block is never worse than the written one's |
| Contiguous.IntendedCoversSlotStarts | custom_components/epex_spot_sensor/contiguous_interval.py:57-59 | with the intended generator no block at a slot start inside the window beats the result |
| Contiguous.SlotStartBeatsWritten | custom_components/epex_spot_sensor/contiguous_interval.py:57-59 | a slot-start block cheaper than the written result bounds the intended result, which is then strictly cheaper |
| Contiguous.WindowStartBugFixed | custom_components/epex_spot_sensor/contiguous_interval.py:57-59 | on the counterexample the intended generator finds a block costing at most 10 |
| Sorting.StableSort | custom_components/epex_spot_sensor/intermittent_interval.py:69 | the result is a sorted permutation of the input |
| Sorting.StableSortKeepsKeyClass | custom_components/epex_spot_sensor/intermittent_interval.py:158 | the sort is stable: the elements of every key class keep their relative order |
| Intermittent.Filter | custom_components/epex_spot_sensor/intermittent_interval.py:62-66 | the result keeps exactly the slots satisfying the criterion, with no multiplicity added |
| Intermittent.FilterConcat | custom_components/epex_spot_sensor/intermittent_interval.py:62-66 | filtering distributes over concatenation, so the kept slots stay in timeline order |
| Intermittent.FilterSingle | custom_components/epex_spot_sensor/intermittent_interval.py:62-66 | a single slot is kept exactly when it satisfies the criterion |
| Intermittent.FilterCount | custom_components/epex_spot_sensor/intermittent_interval.py:62-66 | every slot satisfying the criterion is kept as often as it occurs, and no other slot |
| Intermittent.FilterKeyClass | custom_components/epex_spot_sensor/intermittent_interval.py:62-69 | filtering commutes with taking the slots of one price |
| Intermittent.PriceOrderKeepsTimelineTies | custom_components/epex_spot_sensor/intermittent_interval.py:62-69 | window slots of equal price appear in the price order in their timeline order |
| Intermittent.PriceOrderHeadIsExtreme | custom_components/epex_spot_sensor/intermittent_interval.py:69-74 | the head of the price order is a timeline slot no window slot beats |
| IntervalWalk.StartsEndsAtMeans | custom_components/epex_spot_sensor/intermittent_interval.py:250-261 | the adjacency scans find exactly the instants where a chosen interval starts or ends |
| IntervalWalk.CutSpan | custom_components/epex_spot_sensor/intermittent_interval.py:239-272 | the cut lies in the clipped span, anchored to one end, as long as the span or the rest of the cap, and end-aligned exactly when it joins a chosen interval on the end side only |
| IntervalWalk.TakeSliceIsSlice | custom_components/epex_spot_sensor/intermittent_interval.py:239-290 | the slice taken is the cut, priced at the slot's rate for its length, ranked by position |
| IntervalWalk.SelectFrom | custom_components/epex_spot_sensor/intermittent_interval.py:238-297 | the walk extends its prefix greedily, never exceeds the cap, and stops early only at the cap exactly |
| IntervalWalk.SelectIntervals | custom_components/epex_spot_sensor/intermittent_interval.py:233-297 | a greedy prefix of the walked slots whose total never exceeds the duration and which ends early only at the duration |
| IntervalWalk.GreedyPrefixTotal | custom_components/epex_spot_sensor/intermittent_interval.py:244-292 | each partial total is the clipped total of the walked prefix, capped |
| IntervalWalk.SelectTotal | custom_components/epex_spot_sensor/intermittent_interval.py:246-295 | the walk takes exactly the duration, or all the clipped slots offer when that is less |
| IntervalWalk.GreedyDisjoint | custom_components/epex_spot_sensor/intermittent_interval.py:239-290 | slices of pairwise disjoint slots are pairwise disjoint |
| IntervalWalk.GreedyChronological | custom_components/epex_spot_sensor/intermittent_interval.py:238-290 | walking disjoint slots in start order gives slices in chronological order |
| IntervalWalk.GreedyRanks | custom_components/epex_spot_sensor/intermittent_interval.py:238-289 | each slice's rank is its source slot's position, so ranks strictly increase |
| IntervalWalk.IsNowInIntervals | custom_components/epex_spot_sensor/intermittent_interval.py:300-305 | true exactly when some interval contains the instant, half-open |
| Intermittent.GreedyFromWindow | custom_components/epex_spot_sensor/intermittent_interval.py:239-281 | every slice lies inside a window slot of the timeline clipped to the window and is priced at its rate |
| Intermittent.CalcIntervalsExact | custom_components/epex_spot_sensor/intermittent_interval.py:53-112 | none exactly on an empty or short timeline; crash exactly on an empty window with positive tolerance; slices from the window totalling at most the duration; without tolerance a greedy prefix of the price-order walk that stops short of the walked slots only on reaching the duration exactly |
| Intermittent.ExactTotal | custom_components/epex_spot_sensor/intermittent_interval.py:62-112 | on a well-formed timeline with `earliest_start < latest_end`, the result without tolerance totals exactly the duration, or all the window's clipped slots offer when that is less |
| Intermittent.ExactToleranceOrFallback | custom_components/epex_spot_sensor/intermittent_interval.py:72-112 | with tolerance the result is the in-band walk taking exactly the duration, or, when that walk falls short, the tolerance-0 result |
| Intermittent.BandSlots | custom_components/epex_spot_sensor/intermittent_interval.py:72-85 | the in-band walk uses exactly the window slots in the band around the head of the price order: no other slot, and every such slot |
| Intermittent.BandKeepsInBandSlots | custom_components/epex_spot_sensor/intermittent_interval.py:72-82 | every window slot within the band around the head of the price order is walked by the in-band walk |
| Intermittent.BandWalkChronological | custom_components/epex_spot_sensor/intermittent_interval.py:84-90 | on a well-formed timeline the in-band walk's slices are chronological |
| Intermittent.ExactDisjoint | custom_components/epex_spot_sensor/intermittent_interval.py:62-112 | on a well-formed timeline the exact result's slices never overlap |
| Intermittent.RefPriceIsFirstToReachMin | custom_components/epex_spot_sensor/intermittent_interval.py:214-218 | the reference is unset while every partial total is below the minimum, and then is the rate of the first slot to reach it |
| Intermittent.RefPriceFixedOnce | custom_components/epex_spot_sensor/intermittent_interval.py:216-218 | once set, the reference never changes |
| Intermittent.FlexWalk | custom_components/epex_spot_sensor/intermittent_interval.py:161-221 | the walk always returns or crashes on a zero reference, and its total never exceeds the maximum |
| Intermittent.FlexWalkStep | custom_components/epex_spot_sensor/intermittent_interval.py:165-221 | a slot passing the ratio test contributes its slice, and below the maximum the walk continues with the reference set on first reaching the minimum |
| Intermittent.FlexWalkCrash | custom_components/epex_spot_sensor/intermittent_interval.py:196-201 | the walk crashes only when some walked slot has price 0 |
| Intermittent.FlexWalkGreedy | custom_components/epex_spot_sensor/intermittent_interval.py:165-214 | the accepted slices are a greedy prefix of the walked slots |
| Intermittent.FlexWalkPassed | custom_components/epex_spot_sensor/intermittent_interval.py:196-212 | every accepted slice passed the armed ratio test |
| Intermittent.FlexWalkExit | custom_components/epex_spot_sensor/intermittent_interval.py:196-221 | the walk stops short only at the maximum or at the first slot failing the armed ratio test |
| Intermittent.FlexOrder | custom_components/epex_spot_sensor/intermittent_interval.py:133-158 | the walked slots are sorted by (price, start), come from the window; with a positive tolerance they are exactly the window slots in the band around the extreme price; otherwise they are the whole window |
| Intermittent.CalcIntervalsFlexible | custom_components/epex_spot_sensor/intermittent_interval.py:113-230 | none exactly on an empty or short timeline, an empty window or band, or a walk below the minimum; a result totals between minimum and maximum; a crash needs a zero-priced window slot |
| Intermittent.FlexibleFollowsWalk | custom_components/epex_spot_sensor/intermittent_interval.py:161-221 | the result is a greedy prefix of the sorted slots, inside the window, each slice passed the ratio test, and it stops short only at the maximum or the ratio exit |
| Intermittent.FlexibleDisjoint | custom_components/epex_spot_sensor/intermittent_interval.py:165-212 | on a well-formed timeline the flexible result's slices never overlap |

## Left out

- Logging: the warnings about the fallback and about an empty band have no effect on the results.
- `Interval.__repr__` and the unused `cmp` closures: the first is presentation only, the second is never called.
- Home Assistant wiring is left out, because it is I/O and configuration outside the schedulers:
  - the binary sensor, resolving local times across midnight and fetching market data;
  - `config_flow.py`, apart from the flexible-mode precondition taken from it;
  - `const.py`, whose modes become the `Mode` datatype.
- A flexible contiguous mode: `calc_interval_for_contiguous` has no minimum-duration parameter.
- Floating point: prices are exact reals, so threshold products and divisions are not rounded.
- `datetime` and `timedelta` arithmetic: it is replaced by integer seconds.
- Contiguous.CalcIntervalForContiguous: requires `duration > 0`. With a zero duration the source divides by zero when it computes the price per hour, and the model does not represent that crash.
- Intermittent.CalcIntervalsExact: requires `duration > 0`. With a zero duration the source returns one empty slice, and the model's walk needs a positive target.
- Intermittent.CalcIntervalsFlexible: requires `0 < min_duration <= duration`, which is the options validation. Other pairs are not modelled.
- Lemmas that depend on the slot order (`BandWalkChronological`, `ExactDisjoint`, `FlexibleDisjoint`, `IntervalPriceIsIntegral`) assume a well-formed timeline. The optimizers themselves are defined on any timeline.
- Contiguous.WindowStartBugFixed: states that the intended block costs at most 10. It does not state the exact value, which would need the whole intended search evaluated.

## Findings

| source | as written | input that shows it | evidently intended | confidence | as-written member | corrected member |
|---|---|---|---|---|---|---|
| custom_components/epex_spot_sensor/contiguous_interval.py:59 | the segment-start branch adds `earliest_start`, so a slot start inside the window is never a candidate | slots [0,3600) at 20, [3600,7200) at 5, [7200,10800) at 10 per hour; window [0,10800); 90 minutes; cheapest: candidates are 0, 1800 and 5400, the best costs 12.5, while the block at 3600 costs 10 | add `md.start_time`, so every slot start inside the window is a candidate | not executed | Contiguous.WindowStartBugExample | Contiguous.WindowStartBugFixed |
