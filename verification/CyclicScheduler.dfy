/** Cyclic requests: timers re-armed on an absolute grid kept in wrapping 32-bit ticks.
  *
  * `now` is the true number of ticks since boot, without bound; the runtime only ever sees it modulo
  * 2^32. The conversion of nanoseconds to ticks is an input.
  */
module CyclicScheduler {
  import opened MachineIntegers

  const EMPTY_REQUEST_SIZE: nat := 32

  type Ticks = Uint32

  datatype CyclicRequest = CyclicRequest(timerId: nat, nextWakeup: Ticks, interval: Ticks, queueId: nat, requestSize: nat)

  /** What the calls ask of the kernel: a request sent to a queue, or a timer armed. */
  datatype Effect = Sent(queueId: nat, size: nat) | Armed(timerId: nat, delta: Ticks, request: nat)

  /** The delay after which a timer is armed when its last wakeup was due at `wakeup` and it is `now`. */
  function Delay(wakeup: Ticks, interval: Ticks, now: nat): Ticks {
    ((wakeup + interval) % TWO_32 - now % TWO_32) % TWO_32
  }

  function Rearmed(r: CyclicRequest): CyclicRequest {
    r.(nextWakeup := (r.nextWakeup + r.interval) % TWO_32)
  }

  class Scheduler {
    const requests: array<CyclicRequest>
    var count: nat
    var effects: seq<Effect>

    ghost predicate Valid()
      reads this
    {
      count <= requests.Length
    }

    constructor (maxRequests: nat)
      ensures Valid() && count == 0 && effects == [] && requests.Length == maxRequests && fresh(requests)
    {
      requests := new CyclicRequest[maxRequests](_ => CyclicRequest(0, 0, 0, 0, 0));
      count, effects := 0, [];
    }

    method ScheduleNextTick(index: nat, now: nat)
      requires Valid() && index < requests.Length
      modifies requests, this`effects
      ensures requests[..] == old(requests[..])[index := Rearmed(old(requests[index]))]
      ensures effects == old(effects) +
                [Armed(old(requests[index]).timerId, Delay(old(requests[index]).nextWakeup, old(requests[index]).interval, now), index)]
    {
      var r := requests[index];
      requests[index] := r.(nextWakeup := (r.nextWakeup + r.interval) % TWO_32);
      var delta := (requests[index].nextWakeup - now % TWO_32) % TWO_32;
      effects := effects + [Armed(r.timerId, delta, index)];
    }

    method TimerCallback(index: nat, now: nat)
      requires Valid() && index < count
      modifies requests, this`effects
      ensures requests[..] == old(requests[..])[index := Rearmed(old(requests[index]))]
      ensures effects == old(effects) + CallbackEffects(old(requests[index]), index, now)
    {
      effects := effects + [Sent(requests[index].queueId, requests[index].requestSize)];
      ScheduleNextTick(index, now);
      assert effects == old(effects) + CallbackEffects(old(requests[index]), index, now);
    }

    /** A run of expiries, as the kernel delivers them. */
    method ServeExpiries(firings: seq<Firing>)
      requires Valid() && InRange(firings, count)
      modifies requests, this`effects
      ensures requests[..count] == RequestsAfter(old(requests[..count]), firings)
      ensures effects == old(effects) + EffectsOf(old(requests[..count]), firings)
    {
      for k := 0 to |firings|
        invariant old(effects) + EffectsOf(old(requests[..count]), firings) == effects + EffectsOf(requests[..count], firings[k..])
        invariant RequestsAfter(old(requests[..count]), firings) == RequestsAfter(requests[..count], firings[k..])
      {
        ghost var before, entries := effects, requests[..count];
        TimerCallback(firings[k].request, firings[k].now);
        assert requests[..count] == entries[firings[k].request := Rearmed(entries[firings[k].request])];
        FirstEffects(before, entries, firings[k..]);
        assert firings[k..][1..] == firings[k + 1..];
      }
    }

    /** `timer` is the outcome of creating the timer. */
    method CreateCyclicRequest(interval: Ticks, offset: Ticks, queueId: nat, requestSize: nat, timer: TimerResult, now: nat)
      returns (ok: bool)
      requires Valid() && requestSize <= EMPTY_REQUEST_SIZE
      modifies this, requests
      ensures Valid() && ok == (old(count) < requests.Length && timer.Created?)
      ensures !ok ==> count == old(count) && effects == old(effects)
      ensures ok ==> var r := CyclicRequest(timer.id, offset, interval, queueId, requestSize);
                && count == old(count) + 1
                && requests[..] == old(requests[..])[old(count) := Rearmed(r)]
                && effects == old(effects) + [Armed(timer.id, Delay(offset, interval, now), old(count))]
      ensures forall i :: 0 <= i < old(count) ==> requests[i] == old(requests[i])
    {
      if count >= requests.Length { return false; }
      if timer.Failed? { return false; }
      requests[count] := CyclicRequest(timer.id, offset, interval, queueId, requestSize);
      ScheduleNextTick(count, now);
      count := count + 1;
      return true;
    }
  }

  datatype TimerResult = Created(id: nat) | Failed

  /** The callback of request i runs at true time `now`. */
  datatype Firing = Firing(request: nat, now: nat)

  predicate InRange(firings: seq<Firing>, count: nat) {
    forall k :: 0 <= k < |firings| ==> firings[k].request < count
  }

  function CallbackEffects(r: CyclicRequest, index: nat, now: nat): seq<Effect> {
    [Sent(r.queueId, r.requestSize), Armed(r.timerId, Delay(r.nextWakeup, r.interval, now), index)]
  }

  /** What a run of callbacks asks of the kernel, and the entries it leaves. */
  function EffectsOf(requests: seq<CyclicRequest>, firings: seq<Firing>): seq<Effect>
    requires InRange(firings, |requests|)
    decreases |firings|
  {
    if firings == [] then [] else
      var f := firings[0];
      CallbackEffects(requests[f.request], f.request, f.now)
        + EffectsOf(requests[f.request := Rearmed(requests[f.request])], firings[1..])
  }

  function RequestsAfter(requests: seq<CyclicRequest>, firings: seq<Firing>): seq<CyclicRequest>
    requires InRange(firings, |requests|)
    decreases |firings|
  {
    if firings == [] then requests else
      var i := firings[0].request;
      RequestsAfter(requests[i := Rearmed(requests[i])], firings[1..])
  }

  lemma {:induction false} FirstEffects(before: seq<Effect>, requests: seq<CyclicRequest>, firings: seq<Firing>)
    requires firings != [] && InRange(firings, |requests|)
    ensures var f := firings[0];
            var requests' := requests[f.request := Rearmed(requests[f.request])];
            && before + EffectsOf(requests, firings) ==
               before + CallbackEffects(requests[f.request], f.request, f.now) + EffectsOf(requests', firings[1..])
            && RequestsAfter(requests, firings) == RequestsAfter(requests', firings[1..])
  {
  }

  // ----- One re-arming -----

  lemma WakeupWraps(target: nat, interval: nat)
    ensures (target % TWO_32 + interval) % TWO_32 == (target + interval) % TWO_32
  {
  }

  lemma DifferenceWraps(a: nat, b: nat)
    ensures (a % TWO_32 - b % TWO_32) % TWO_32 == (a - b) % TWO_32
  {
  }

  /** The wrapping arithmetic computes the distance from now to the next instant, modulo 2^32. */
  lemma DelayIsDistance(due: nat, interval: Ticks, now: nat)
    ensures Delay(due % TWO_32, interval, now) == (due + interval - now) % TWO_32
  {
    WakeupWraps(due, interval);
    DifferenceWraps(due + interval, now);
  }

  /** With the wakeup due at the true instant `due`, the timer is armed for exactly the next grid instant if and
    * only if that instant is not past and less than 2^32 ticks ahead. */
  lemma RearmTargetIff(due: nat, interval: Ticks, now: nat)
    ensures now + Delay(due % TWO_32, interval, now) == due + interval <==> now <= due + interval < now + TWO_32
  {
    DelayIsDistance(due, interval, now);
  }

  /** A callback no earlier than due and less than one interval late re-arms after 1 to `interval` ticks. */
  lemma RearmOnTime(due: nat, interval: Ticks, now: nat)
    requires due <= now < due + interval
    ensures 0 < Delay(due % TWO_32, interval, now) <= interval
    ensures now + Delay(due % TWO_32, interval, now) == due + interval
  {
    DelayIsDistance(due, interval, now);
  }

  /** One whole interval late the delay is zero; later than that, the release slips by 2^32 ticks. */
  lemma RearmLate(due: nat, interval: Ticks, now: nat)
    requires due + interval <= now <= due + interval + TWO_32
    ensures now == due + interval ==> Delay(due % TWO_32, interval, now) == 0
    ensures due + interval < now < due + interval + TWO_32 ==>
              now + Delay(due % TWO_32, interval, now) == due + interval + TWO_32
  {
    DelayIsDistance(due, interval, now);
  }

  // ----- Runs -----

  /** Instant number k of a grid. */
  function GridInstant(offset: nat, interval: nat, k: nat): nat {
    offset + k * interval
  }

  predicate EntryOnGrid(r: CyclicRequest, offset: nat, runs: nat, target: nat) {
    target == GridInstant(offset, r.interval, runs + 1) && r.nextWakeup == target % TWO_32
  }

  /** A set of armed requests over true time: entry i was created at offset[i], has run runs[i] times, and its timer
    * expires at target[i]. */
  datatype Timeline = Timeline(requests: seq<CyclicRequest>, offset: seq<nat>, runs: seq<nat>, target: seq<nat>) {
    predicate Shaped() {
      |offset| == |requests| && |runs| == |requests| && |target| == |requests|
    }

    /** Request i's grid instant number k. */
    function Instant(i: nat, k: nat): nat
      requires Shaped() && i < |requests|
    {
      GridInstant(offset[i], requests[i].interval, k)
    }

    /** Every timer is set for its next grid instant, and the stored wakeup is that instant in 32 bits. */
    predicate OnGrid() {
      Shaped() && forall i :: 0 <= i < |requests| ==> EntryOnGrid(requests[i], offset[i], runs[i], target[i])
    }
  }

  function Fire(t: Timeline, f: Firing): Timeline
    requires t.Shaped() && f.request < |t.requests|
  {
    var i := f.request;
    var r := t.requests[i];
    t.(requests := t.requests[i := Rearmed(r)], runs := t.runs[i := t.runs[i] + 1],
       target := t.target[i := f.now + Delay(r.nextWakeup, r.interval, f.now)])
  }

  /** The firing is no earlier than its timer, and less than one interval late. */
  predicate Punctual(t: Timeline, f: Firing) {
    && t.Shaped() && f.request < |t.requests|
    && t.target[f.request] <= f.now < t.target[f.request] + t.requests[f.request].interval
  }

  predicate AllPunctual(t: Timeline, firings: seq<Firing>)
    decreases |firings|
  {
    firings == [] || (Punctual(t, firings[0]) && AllPunctual(Fire(t, firings[0]), firings[1..]))
  }

  function FireAll(t: Timeline, firings: seq<Firing>): Timeline
    requires AllPunctual(t, firings)
    decreases |firings|
  {
    if firings == [] then t else FireAll(Fire(t, firings[0]), firings[1..])
  }

  function Firings(firings: seq<Firing>, i: nat): nat
    decreases |firings|
  {
    if firings == [] then 0 else (if firings[0].request == i then 1 else 0) + Firings(firings[1..], i)
  }

  lemma NextInstant(offset: nat, k: nat, interval: nat)
    ensures GridInstant(offset, interval, k) + interval == GridInstant(offset, interval, k + 1)
  {
  }

  lemma EntryFires(r: CyclicRequest, offset: nat, runs: nat, target: nat, now: nat)
    requires EntryOnGrid(r, offset, runs, target) && target <= now < target + r.interval
    ensures EntryOnGrid(Rearmed(r), offset, runs + 1, now + Delay(r.nextWakeup, r.interval, now))
    ensures GridInstant(offset, r.interval, runs + 1) <= now < GridInstant(offset, r.interval, runs + 2)
  {
    NextInstant(offset, runs + 1, r.interval);
    assert now + Delay(r.nextWakeup, r.interval, now) == target + r.interval by { RearmOnTime(target, r.interval, now); }
    WakeupWraps(target, r.interval);
  }

  /** A punctual firing serves its grid instant, the next one of its request, within that instant's own interval. */
  lemma FireServesInstant(t: Timeline, f: Firing)
    requires t.OnGrid() && Punctual(t, f)
    ensures var i := f.request; t.Instant(i, t.runs[i] + 1) <= f.now < t.Instant(i, t.runs[i] + 2)
    ensures Fire(t, f).OnGrid()
  {
    var i := f.request;
    EntryFires(t.requests[i], t.offset[i], t.runs[i], t.target[i], f.now);
  }

  /** Creation puts a new request on the grid: its first release is due one interval after its offset, provided that
    * instant is not past and less than 2^32 ticks ahead. */
  lemma CreatedOnGrid(t: Timeline, r: CyclicRequest, now: nat)
    requires t.OnGrid() && now <= r.nextWakeup + r.interval < now + TWO_32
    ensures Timeline(t.requests + [Rearmed(r)], t.offset + [r.nextWakeup], t.runs + [0],
                     t.target + [now + Delay(r.nextWakeup, r.interval, now)]).OnGrid()
  {
    CreatedEntry(r, now);
    Joins(t, Rearmed(r), r.nextWakeup, now + Delay(r.nextWakeup, r.interval, now));
  }

  lemma CreatedEntry(r: CyclicRequest, now: nat)
    requires now <= r.nextWakeup + r.interval < now + TWO_32
    ensures EntryOnGrid(Rearmed(r), r.nextWakeup, 0, now + Delay(r.nextWakeup, r.interval, now))
  {
    assert now + Delay(r.nextWakeup, r.interval, now) == r.nextWakeup + r.interval by {
      InRangeTicks(r.nextWakeup);
      RearmTargetIff(r.nextWakeup, r.interval, now);
    }
    FirstInstant(r.nextWakeup, r.interval);
  }

  lemma InRangeTicks(n: Ticks)
    ensures n % TWO_32 == n
  {
  }

  lemma FirstInstant(offset: nat, interval: nat)
    ensures GridInstant(offset, interval, 1) == offset + interval
  {
  }

  lemma Joins(t: Timeline, r: CyclicRequest, offset: nat, target: nat)
    requires t.OnGrid() && EntryOnGrid(r, offset, 0, target)
    ensures Timeline(t.requests + [r], t.offset + [offset], t.runs + [0], t.target + [target]).OnGrid()
  {
  }

  /** Drift-free release: in every run of punctual callbacks, over all requests and through every 32-bit wrap, each
    * callback re-arms for exactly the next grid instant, and request i has run once per firing. */
  lemma {:induction false} DriftFree(t: Timeline, firings: seq<Firing>, i: nat)
    requires t.OnGrid() && AllPunctual(t, firings) && i < |t.requests|
    ensures var t' := FireAll(t, firings);
            && t'.OnGrid() && |t'.requests| == |t.requests|
            && t'.offset == t.offset && t'.requests[i].interval == t.requests[i].interval
            && t'.runs[i] == t.runs[i] + Firings(firings, i)
            && t'.target[i] == t.offset[i] + (t.runs[i] + Firings(firings, i) + 1) * t.requests[i].interval
    decreases |firings|
  {
    if firings != [] {
      FireServesInstant(t, firings[0]);
      DriftFree(Fire(t, firings[0]), firings[1..], i);
    }
  }

  // ----- One request sent per grid instant -----

  /** The number of the grid instant that firing k serves: runs so far, counting from one. */
  function Served(t: Timeline, firings: seq<Firing>, k: nat): nat
    requires t.Shaped() && k < |firings| && firings[k].request < |t.requests|
  {
    t.runs[firings[k].request] + Firings(firings[..k], firings[k].request) + 1
  }

  lemma {:induction false} PunctualInRange(t: Timeline, firings: seq<Firing>)
    requires AllPunctual(t, firings)
    ensures firings != [] ==> t.Shaped()
    ensures InRange(firings, |t.requests|)
    decreases |firings|
  {
    if firings != [] {
      PunctualInRange(Fire(t, firings[0]), firings[1..]);
      assert firings == [firings[0]] + firings[1..];
    }
  }

  lemma {:induction false} ServedLater(t: Timeline, firings: seq<Firing>, k: nat)
    requires AllPunctual(t, firings) && 0 < k < |firings| && firings[k].request < |t.requests|
    ensures Served(Fire(t, firings[0]), firings[1..], k - 1) == Served(t, firings, k)
  {
    assert firings[..k][1..] == firings[1..][..k - 1];
  }

  /** Firing k sends its request once, within the interval of the instant it serves, and re-arms its timer for exactly
    * the instant after it. */
  predicate Serves(t: Timeline, firings: seq<Firing>, effects: seq<Effect>, k: nat)
    requires t.Shaped() && InRange(firings, |t.requests|) && k < |firings|
  {
    var i, n := firings[k].request, Served(t, firings, k);
    && t.Instant(i, n) <= firings[k].now < t.Instant(i, n + 1)
    && 2 * k + 1 < |effects|
    && effects[2 * k] == Sent(t.requests[i].queueId, t.requests[i].requestSize)
    && effects[2 * k + 1].Armed?
    && effects[2 * k + 1].timerId == t.requests[i].timerId && effects[2 * k + 1].request == i
    && firings[k].now + effects[2 * k + 1].delta == t.Instant(i, n + 1)
  }

  lemma {:induction false} FirstServes(t: Timeline, firings: seq<Firing>)
    requires t.OnGrid() && AllPunctual(t, firings) && firings != [] && InRange(firings, |t.requests|)
    ensures Serves(t, firings, EffectsOf(t.requests, firings), 0)
  {
    var f := firings[0];
    var i := f.request;
    var r := t.requests[i];
    FireServesInstant(t, f);
    RearmOnTime(t.target[i], r.interval, f.now);
    NextInstant(t.offset[i], t.runs[i] + 1, r.interval);
    assert EffectsOf(t.requests, firings)[..2] == CallbackEffects(r, i, f.now);
  }

  /** In a punctual run every firing serves its own grid instant, and nothing else is sent. */
  lemma {:induction false} EveryFiringServes(t: Timeline, firings: seq<Firing>, k: nat)
    requires t.OnGrid() && AllPunctual(t, firings) && InRange(firings, |t.requests|) && k < |firings|
    ensures var effects := EffectsOf(t.requests, firings);
            |effects| == 2 * |firings| && Serves(t, firings, effects, k)
    decreases |firings|
  {
    var t' := Fire(t, firings[0]);
    FireServesInstant(t, firings[0]);
    EffectsCount(t.requests, firings);
    if k == 0 {
      FirstServes(t, firings);
    } else {
      EveryFiringServes(t', firings[1..], k - 1);
      ServesLater(t, firings, k);
    }
  }

  lemma {:induction false} EffectsCount(requests: seq<CyclicRequest>, firings: seq<Firing>)
    requires InRange(firings, |requests|)
    ensures |EffectsOf(requests, firings)| == 2 * |firings|
    decreases |firings|
  {
    if firings != [] {
      var i := firings[0].request;
      EffectsCount(requests[i := Rearmed(requests[i])], firings[1..]);
    }
  }

  lemma {:induction false} ServesLater(t: Timeline, firings: seq<Firing>, k: nat)
    requires AllPunctual(t, firings) && InRange(firings, |t.requests|) && 0 < k < |firings|
    requires Serves(Fire(t, firings[0]), firings[1..], EffectsOf(Fire(t, firings[0]).requests, firings[1..]), k - 1)
    ensures Serves(t, firings, EffectsOf(t.requests, firings), k)
  {
    var rest := EffectsOf(Fire(t, firings[0]).requests, firings[1..]);
    var effects := EffectsOf(t.requests, firings);
    ServedLater(t, firings, k);
    assert effects[2 * k] == rest[2 * (k - 1)] && effects[2 * k + 1] == rest[2 * (k - 1) + 1];
  }

  lemma {:induction false} FiringsGrow(firings: seq<Firing>, i: nat, j: nat, k: nat)
    requires j < k <= |firings| && firings[j].request == i
    ensures Firings(firings[..j], i) < Firings(firings[..k], i)
    decreases |firings|
  {
    assert firings[..k][1..] == firings[1..][..k - 1];
    if j > 0 {
      assert firings[..j][1..] == firings[1..][..j - 1];
      FiringsGrow(firings[1..], i, j - 1, k - 1);
    }
  }

  /** The firing of request i with n firings of it before. */
  lemma {:induction false} FiringFound(firings: seq<Firing>, i: nat, n: nat) returns (k: nat)
    requires n < Firings(firings, i)
    ensures k < |firings| && firings[k].request == i && Firings(firings[..k], i) == n
    decreases |firings|
  {
    var first := firings[0].request == i;
    if first && n == 0 {
      k := 0;
    } else {
      k := FiringFound(firings[1..], i, if first then n - 1 else n);
      k := k + 1;
      assert firings[..k][1..] == firings[1..][..k - 1];
    }
  }

  lemma InstantsApart(offset: nat, interval: nat, m: nat, n: nat, now: nat)
    requires GridInstant(offset, interval, m) <= now < GridInstant(offset, interval, m + 1)
    requires GridInstant(offset, interval, n) <= now < GridInstant(offset, interval, n + 1)
    ensures m == n
  {
    if m < n { MulMonotone(interval, m + 1, n); }
    if n < m { MulMonotone(interval, n + 1, m); }
  }

  /** In a punctual run each grid instant of request i up to its last run is served by exactly one firing, which sends
    * the request once. */
  lemma {:induction false} EachInstantServedOnce(t: Timeline, firings: seq<Firing>, i: nat, n: nat) returns (k: nat)
    requires t.OnGrid() && AllPunctual(t, firings) && InRange(firings, |t.requests|) && i < |t.requests|
    requires t.runs[i] < n <= t.runs[i] + Firings(firings, i)
    ensures k < |firings| && firings[k].request == i && Served(t, firings, k) == n
    ensures Serves(t, firings, EffectsOf(t.requests, firings), k)
    ensures forall j ::
              0 <= j < |firings| && firings[j].request == i && t.Instant(i, n) <= firings[j].now < t.Instant(i, n + 1)
              ==> j == k
  {
    k := FiringFound(firings, i, n - t.runs[i] - 1);
    EveryFiringServes(t, firings, k);
    forall j | 0 <= j < |firings| && firings[j].request == i && t.Instant(i, n) <= firings[j].now < t.Instant(i, n + 1)
      ensures j == k {
      EveryFiringServes(t, firings, j);
      InstantsApart(t.offset[i], t.requests[i].interval, Served(t, firings, j), n, firings[j].now);
      if j < k { FiringsGrow(firings, i, j, k); }
      if k < j { FiringsGrow(firings, i, k, j); }
    }
  }
}
