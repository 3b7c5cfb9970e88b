/** The elapsed-time clock: one reader retrying against the timer interrupt.
  *
  * The hardware runs between any two accesses of the reader. It counts (Tick), or wraps and takes
  * its interrupt, as one step (Wrap); another task that calls the clock in between clears the one
  * shared flag (ForeignReset). A schedule lists, access by access, what happens before each.
  */
module ElapsedClock {
  import opened MachineIntegers
  import opened FixedPoint

  datatype TimerEvent = Tick | Wrap | ForeignReset

  type Schedule = seq<seq<TimerEvent>>

  /** The true number of reloads, without bound, the counter register, and the modified flag. */
  datatype TimerState = TimerState(reloads: nat, counter: nat, modified: bool)

  function Apply(s: TimerState, e: TimerEvent): TimerState {
    match e
    case Tick => if s.counter < TICKS_PER_RELOAD then s.(counter := s.counter + 1) else s
    case Wrap => TimerState(s.reloads + 1, 0, true)
    case ForeignReset => s.(modified := false)
  }

  function Run(s: TimerState, events: seq<TimerEvent>): TimerState {
    if events == [] then s else Apply(Run(s, events[..|events| - 1]), events[|events| - 1])
  }

  function Elapsed(s: TimerState): nat {
    TotalTicks(s.reloads, s.counter)
  }

  function Wraps(events: seq<TimerEvent>): nat {
    if events == [] then 0 else Wraps(events[..|events| - 1]) + if events[|events| - 1].Wrap? then 1 else 0
  }

  function Gap(schedule: Schedule, i: nat): seq<TimerEvent> {
    if i < |schedule| then schedule[i] else []
  }

  /** Between its reset and its check the reader is alone: another task's call falls only before a pass. */
  predicate SingleReader(schedule: Schedule) {
    forall i :: 0 <= i < |schedule| && i % 4 != 0 ==> ForeignReset !in schedule[i]
  }

  /** The last event that touches the flag is a wrap. */
  predicate Raised(events: seq<TimerEvent>) {
    exists k :: 0 <= k < |events| && events[k].Wrap? && forall j :: k < j < |events| ==> events[j].Tick?
  }

  /** What happens between the reset and the check of the pass that begins at i. */
  function Watched(schedule: Schedule, i: nat): seq<TimerEvent> {
    Gap(schedule, i + 1) + Gap(schedule, i + 2) + Gap(schedule, i + 3)
  }

  /** Where the first pass begins, from i on, that leaves its check with the flag down. */
  function AcceptedAt(schedule: Schedule, i: nat): nat
    decreases |schedule| - i
  {
    if i < |schedule| && Raised(Watched(schedule, i)) then AcceptedAt(schedule, i + 4) else i
  }

  /** How many wraps the accepted pass saw between its load of the reload count and its read of the counter. */
  function HiddenWraps(schedule: Schedule): nat {
    Wraps(Gap(schedule, AcceptedAt(schedule, 0) + 2))
  }

  predicate NoHiddenWrap(schedule: Schedule) {
    HiddenWraps(schedule) == 0
  }

  /** One pass of the loop: the state when reloads is loaded, when the counter is read, and at the check. */
  datatype Attempt = Attempt(loaded: TimerState, read: TimerState, checked: TimerState)

  function TryOnce(s: TimerState, schedule: Schedule, i: nat): Attempt {
    var reset := Run(s, Gap(schedule, i)).(modified := false);
    var loaded := Run(reset, Gap(schedule, i + 1));
    var read := Run(loaded, Gap(schedule, i + 2));
    Attempt(loaded, read, Run(read, Gap(schedule, i + 3)))
  }

  /** A whole call: its accepted pass, where that pass begins in the schedule, and the number of passes. */
  datatype Reading = Reading(last: Attempt, start: nat, passes: nat)

  function Read(s: TimerState, schedule: Schedule, i: nat): Reading
    decreases |schedule| - i
  {
    var a := TryOnce(s, schedule, i);
    if a.checked.modified && i < |schedule| then
      var r := Read(a.checked, schedule, i + 4);
      r.(passes := r.passes + 1)
    else
      Reading(a, i, 1)
  }

  /** The nanoseconds a reading yields: the loaded 32-bit reload count with the counter value read. */
  function Nanoseconds(r: Reading, q: nat): Uint64 {
    Reference(TotalTicks(r.last.loaded.reloads % TWO_32, r.last.read.counter), q)
  }

  class Clock {
    var reloadsCounter: Uint32
    var reloadsModified: bool
    var nsPerTickQ32: Uint64
    var nsPerTickQ32High: Uint64
    var nsPerTickQ32Low: Uint64
    var counter: nat
    ghost var reloads: nat

    ghost predicate Valid()
      reads this
    {
      && reloadsCounter == reloads % TWO_32
      && counter <= TICKS_PER_RELOAD
      && nsPerTickQ32High == nsPerTickQ32 / TWO_32
      && nsPerTickQ32Low == nsPerTickQ32 % TWO_32
    }

    ghost function State(): TimerState
      reads this
    {
      TimerState(reloads, counter, reloadsModified)
    }

    /** Hal_Init: the timer starts at zero, the factor comes from the master clock. */
    constructor (mainClockFrequency: nat)
      requires mainClockFrequency / CLOCK_SELECTION_PRESCALER > 0
      ensures Valid() && State() == TimerState(0, 0, false)
      ensures nsPerTickQ32 == Factor(mainClockFrequency / 8)
    {
      var prescaled := mainClockFrequency / CLOCK_SELECTION_PRESCALER;
      FactorIsUint64(prescaled);
      var q: Uint64 := Factor(prescaled);
      nsPerTickQ32, nsPerTickQ32High, nsPerTickQ32Low := q, q / TWO_32, q % TWO_32;
      reloadsCounter, reloads, counter, reloadsModified := 0, 0, 0, false;
    }

    method SetNsPerTickQ32(value: Uint64)
      requires Valid()
      modifies this`nsPerTickQ32, this`nsPerTickQ32High, this`nsPerTickQ32Low
      ensures Valid() && nsPerTickQ32 == value
    {
      nsPerTickQ32 := value;
      nsPerTickQ32High := value / TWO_32;
      nsPerTickQ32Low := value % TWO_32;
    }

    method TimerIrqHandler()
      requires Valid()
      modifies this`reloadsCounter, this`reloadsModified, this`reloads
      ensures Valid() && reloads == old(reloads) + 1 && reloadsModified
    {
      reloadsCounter := (reloadsCounter + 1) % TWO_32;
      reloadsModified := true;
      reloads := reloads + 1;
    }

    /** What happens between two accesses of the reader. */
    method Advance(events: seq<TimerEvent>)
      requires Valid()
      modifies this`reloadsCounter, this`reloadsModified, this`reloads, this`counter
      ensures Valid() && State() == Run(old(State()), events)
    {
      for k := 0 to |events|
        invariant Valid() && State() == Run(old(State()), events[..k])
      {
        assert events[..k + 1][..k] == events[..k];
        match events[k]
        case Tick => if counter < TICKS_PER_RELOAD { counter := counter + 1; }
        case Wrap => counter := 0; TimerIrqHandler();
        case ForeignReset => reloadsModified := false;
      }
      assert events[..|events|] == events;
    }

    /** `passes` counts the passes of the loop. */
    method GetElapsedTimeInNs(schedule: Schedule) returns (ns: Uint64, ghost passes: nat)
      requires Valid()
      modifies this`reloadsCounter, this`reloadsModified, this`reloads, this`counter
      ensures Valid()
      ensures var r := Read(old(State()), schedule, 0);
              State() == r.last.checked && ns == Nanoseconds(r, nsPerTickQ32) && passes == r.passes
    {
      var reloads32: Uint32, ticks := 0, 0;
      var again, i := true, 0;
      ghost var whole := Read(State(), schedule, 0);
      passes := 0;
      while again
        invariant Valid()
        invariant again ==> var rest := Read(State(), schedule, i); whole == rest.(passes := passes + rest.passes)
        invariant !again ==> && whole.last.checked == State() && passes == whole.passes
                             && reloads32 == whole.last.loaded.reloads % TWO_32
                             && ticks == whole.last.read.counter <= TICKS_PER_RELOAD
        decreases again, |schedule| + 4 - i
      {
        Advance(Gap(schedule, i));
        reloadsModified := false;
        Advance(Gap(schedule, i + 1));
        reloads32 := reloadsCounter;
        Advance(Gap(schedule, i + 2));
        ticks := counter;
        Advance(Gap(schedule, i + 3));
        again := reloadsModified;
        i, passes := i + 4, passes + 1;
      }
      ns := Scale(reloads32, ticks, nsPerTickQ32, nsPerTickQ32High, nsPerTickQ32Low);
    }
  }

  lemma FactorIsUint64(frequency: nat)
    requires frequency > 0
    ensures Factor(frequency) < TWO_64
  {
  }

  // ----- Runs of the hardware -----

  lemma {:induction false} RunConcat(s: TimerState, a: seq<TimerEvent>, b: seq<TimerEvent>)
    ensures Run(s, a + b) == Run(Run(s, a), b)
  {
    if b == [] {
      assert a + b == a;
    } else {
      assert (a + b)[..|a + b| - 1] == a + b[..|b| - 1];
      RunConcat(s, a, b[..|b| - 1]);
    }
  }

  lemma {:induction false} RunCounts(s: TimerState, events: seq<TimerEvent>)
    requires s.counter <= TICKS_PER_RELOAD
    ensures var t := Run(s, events);
            && t.counter <= TICKS_PER_RELOAD
            && t.reloads == s.reloads + Wraps(events)
            && Elapsed(s) <= Elapsed(t)
  {
    if events != [] { RunCounts(s, events[..|events| - 1]); }
  }

  /** One more event. */
  lemma RaisedStep(front: seq<TimerEvent>, last: TimerEvent)
    ensures Raised(front + [last]) <==> last.Wrap? || (last.Tick? && Raised(front))
  {
    var events := front + [last];
    if k :| 0 <= k < |front| && front[k].Wrap? && forall j :: k < j < |front| ==> front[j].Tick? {
      assert last.Tick? ==> events[k].Wrap? && forall j :: k < j < |events| ==> events[j].Tick?;
    }
    if k :| 0 <= k < |events| && events[k].Wrap? && forall j :: k < j < |events| ==> events[j].Tick? {
      assert k < |front| ==> events[|front|].Tick? && front[k].Wrap?;
      assert forall j :: k < j < |front| ==> front[j] == events[j];
    }
    if last.Wrap? { assert events[|front|].Wrap?; }
  }

  /** From a lowered flag, the last event that touches it decides. */
  lemma {:induction false} RunRaises(s: TimerState, events: seq<TimerEvent>)
    requires !s.modified
    ensures Run(s, events).modified <==> Raised(events)
  {
    if events != [] {
      var front := events[..|events| - 1];
      RunRaises(s, front);
      assert events == front + [events[|events| - 1]];
      RaisedStep(front, events[|events| - 1]);
    }
  }

  lemma {:induction false} WrapsConcat(a: seq<TimerEvent>, b: seq<TimerEvent>)
    ensures Wraps(a + b) == Wraps(a) + Wraps(b)
  {
    if b == [] {
      assert a + b == a;
    } else {
      assert (a + b)[..|a + b| - 1] == a + b[..|b| - 1];
      WrapsConcat(a, b[..|b| - 1]);
    }
  }

  /** Only wraps raise the flag, and only resets hide them. */
  lemma {:induction false} RaisedByWrap(events: seq<TimerEvent>)
    ensures Raised(events) ==> Wraps(events) > 0
    ensures ForeignReset !in events && Wraps(events) > 0 ==> Raised(events)
  {
    if events != [] {
      var front := events[..|events| - 1];
      RaisedByWrap(front);
      assert events == front + [events[|events| - 1]];
      RaisedStep(front, events[|events| - 1]);
    }
  }

  // ----- One pass -----

  lemma AttemptCounts(s: TimerState, schedule: Schedule, i: nat)
    requires s.counter <= TICKS_PER_RELOAD
    ensures var a := TryOnce(s, schedule, i);
            && a.loaded.counter <= TICKS_PER_RELOAD && a.read.counter <= TICKS_PER_RELOAD
            && a.checked.counter <= TICKS_PER_RELOAD
            && a.loaded.reloads == s.reloads + Wraps(Gap(schedule, i)) + Wraps(Gap(schedule, i + 1))
            && a.read.reloads == a.loaded.reloads + Wraps(Gap(schedule, i + 2))
            && a.checked.reloads == a.read.reloads + Wraps(Gap(schedule, i + 3))
            && Elapsed(s) <= Elapsed(a.loaded) <= Elapsed(a.read) <= Elapsed(a.checked)
  {
    var reset := Run(s, Gap(schedule, i)).(modified := false);
    var a := TryOnce(s, schedule, i);
    RunCounts(s, Gap(schedule, i));
    RunCounts(reset, Gap(schedule, i + 1));
    RunCounts(a.loaded, Gap(schedule, i + 2));
    RunCounts(a.read, Gap(schedule, i + 3));
  }

  /** A pass is rejected exactly when, between its reset and its check, the last event that touches the flag is a wrap. */
  lemma RejectedIff(s: TimerState, schedule: Schedule, i: nat)
    ensures TryOnce(s, schedule, i).checked.modified <==> Raised(Watched(schedule, i))
  {
    var reset := Run(s, Gap(schedule, i)).(modified := false);
    var g1, g2, g3 := Gap(schedule, i + 1), Gap(schedule, i + 2), Gap(schedule, i + 3);
    RunConcat(reset, g1, g2);
    RunConcat(reset, g1 + g2, g3);
    RunRaises(reset, g1 + g2 + g3);
  }

  lemma WatchedWraps(schedule: Schedule, i: nat)
    ensures Wraps(Watched(schedule, i)) ==
            Wraps(Gap(schedule, i + 1)) + Wraps(Gap(schedule, i + 2)) + Wraps(Gap(schedule, i + 3))
  {
    WrapsConcat(Gap(schedule, i + 1), Gap(schedule, i + 2));
    WrapsConcat(Gap(schedule, i + 1) + Gap(schedule, i + 2), Gap(schedule, i + 3));
  }

  lemma RejectedAdvances(s: TimerState, schedule: Schedule, i: nat)
    requires s.counter <= TICKS_PER_RELOAD && TryOnce(s, schedule, i).checked.modified
    ensures s.reloads < TryOnce(s, schedule, i).checked.reloads
  {
    AttemptCounts(s, schedule, i);
    RejectedIff(s, schedule, i);
    RaisedByWrap(Watched(schedule, i));
    WatchedWraps(schedule, i);
  }

  // ----- A whole call -----

  /** The accepted pass is one run from some state the clock reaches after the start of the call. */
  lemma {:induction false} LastPass(s: TimerState, schedule: Schedule, i: nat) returns (begin: TimerState)
    requires s.counter <= TICKS_PER_RELOAD
    ensures var r := Read(s, schedule, i); r.last == TryOnce(begin, schedule, r.start)
    ensures s.reloads <= begin.reloads && begin.counter <= TICKS_PER_RELOAD && Elapsed(s) <= Elapsed(begin)
    decreases |schedule| - i
  {
    begin := s;
    var a := TryOnce(s, schedule, i);
    if a.checked.modified && i < |schedule| {
      AttemptCounts(s, schedule, i);
      begin := LastPass(a.checked, schedule, i + 4);
    }
  }

  lemma ReadCounts(s: TimerState, schedule: Schedule, i: nat)
    requires s.counter <= TICKS_PER_RELOAD
    ensures var r := Read(s, schedule, i);
            && r.last.read.counter <= TICKS_PER_RELOAD && r.last.checked.counter <= TICKS_PER_RELOAD
            && s.reloads <= r.last.loaded.reloads
            && r.last.read.reloads == r.last.loaded.reloads + Wraps(Gap(schedule, r.start + 2))
            && r.last.checked.reloads == r.last.read.reloads + Wraps(Gap(schedule, r.start + 3))
            && Elapsed(s) <= Elapsed(r.last.read) <= Elapsed(r.last.checked)
  {
    var begin := LastPass(s, schedule, i);
    AttemptCounts(begin, schedule, Read(s, schedule, i).start);
  }

  /** The accepted pass is determined by the schedule alone. */
  lemma {:induction false} ReadStarts(s: TimerState, schedule: Schedule, i: nat)
    ensures Read(s, schedule, i).start == AcceptedAt(schedule, i)
    decreases |schedule| - i
  {
    RejectedIff(s, schedule, i);
    var a := TryOnce(s, schedule, i);
    if a.checked.modified && i < |schedule| { ReadStarts(a.checked, schedule, i + 4); }
  }

  /** With any number of other readers, the reload count used is that of the instant of the counter read exactly
    * when no wrap hides between the two loads of the first pass that leaves its check with the flag down; in the 32
    * bits that are stored, exactly when a multiple of 2^32 wraps does. */
  lemma SnapshotExactIff(s: TimerState, schedule: Schedule)
    requires s.counter <= TICKS_PER_RELOAD
    ensures var r := Read(s, schedule, 0);
            && (r.last.loaded.reloads == r.last.read.reloads <==> NoHiddenWrap(schedule))
            && (r.last.loaded.reloads % TWO_32 == r.last.read.reloads % TWO_32 <==> HiddenWraps(schedule) % TWO_32 == 0)
  {
    var r := Read(s, schedule, 0);
    ReadCounts(s, schedule, 0);
    ReadStarts(s, schedule, 0);
    WrapsModulo(r.last.loaded.reloads, HiddenWraps(schedule));
  }

  lemma WrapsModulo(n: nat, wraps: nat)
    ensures n % TWO_32 == (n + wraps) % TWO_32 <==> wraps % TWO_32 == 0
  {
  }

  /** A wrap is hidden only by another reader's reset after it, before the check of the same pass. */
  lemma HiddenByReset(schedule: Schedule) returns (i: nat)
    requires !NoHiddenWrap(schedule)
    ensures i == AcceptedAt(schedule, 0) && ForeignReset in Gap(schedule, i + 2) + Gap(schedule, i + 3)
  {
    AcceptedLowered(schedule, 0);
    i := AcceptedAt(schedule, 0);
    LoweredHides(schedule, i);
  }

  lemma LoweredHides(schedule: Schedule, i: nat)
    requires !Raised(Watched(schedule, i)) && Wraps(Gap(schedule, i + 2)) > 0
    ensures ForeignReset in Gap(schedule, i + 2) + Gap(schedule, i + 3)
  {
    ResetAfterWrap(Gap(schedule, i + 1), Gap(schedule, i + 2), Gap(schedule, i + 3));
  }

  lemma ResetAfterWrap(a: seq<TimerEvent>, b: seq<TimerEvent>, c: seq<TimerEvent>)
    requires Wraps(b) > 0 && !Raised(a + b + c)
    ensures ForeignReset in b + c
  {
    WrapsConcat(b, c);
    RaisedByWrap(b + c);
    assert a + b + c == a + (b + c);
    if Raised(b + c) { RaisedLater(a, b + c); }
  }

  lemma RaisedLater(a: seq<TimerEvent>, b: seq<TimerEvent>)
    requires Raised(b)
    ensures Raised(a + b)
  {
    var events := a + b;
    var k :| 0 <= k < |b| && b[k].Wrap? && forall j :: k < j < |b| ==> b[j].Tick?;
    assert events[|a| + k].Wrap?;
    assert forall j :: |a| + k < j < |events| ==> events[j] == b[j - |a|];
  }

  lemma {:induction false} AcceptedLowered(schedule: Schedule, i: nat)
    ensures !Raised(Watched(schedule, AcceptedAt(schedule, i)))
    decreases |schedule| - i
  {
    if i < |schedule| && Raised(Watched(schedule, i)) { AcceptedLowered(schedule, i + 4); }
  }

  lemma {:induction false} PassAligned(schedule: Schedule, k: nat)
    ensures AcceptedAt(schedule, 4 * k) % 4 == 0
    decreases |schedule| - 4 * k
  {
    if 4 * k < |schedule| && Raised(Watched(schedule, 4 * k)) { PassAligned(schedule, k + 1); }
  }

  lemma SingleInPass(schedule: Schedule, i: nat)
    requires SingleReader(schedule) && i % 4 == 0
    ensures ForeignReset !in Watched(schedule, i)
  {
  }

  /** With one reader at a time the accepted pass saw no wrap at all. */
  lemma OneReaderSeesAll(schedule: Schedule)
    requires SingleReader(schedule)
    ensures Wraps(Watched(schedule, AcceptedAt(schedule, 0))) == 0 && NoHiddenWrap(schedule)
  {
    var i := AcceptedAt(schedule, 0);
    PassAligned(schedule, 0);
    SingleInPass(schedule, i);
    AcceptedLowered(schedule, 0);
    QuietPass(schedule, i);
  }

  lemma QuietPass(schedule: Schedule, i: nat)
    requires !Raised(Watched(schedule, i)) && ForeignReset !in Watched(schedule, i)
    ensures Wraps(Watched(schedule, i)) == 0 && Wraps(Gap(schedule, i + 2)) == 0
  {
    RaisedByWrap(Watched(schedule, i));
    WatchedWraps(schedule, i);
  }

  /** Snapshot consistency: the reloads used are those of the instant at which the ticks were read. */
  lemma SnapshotConsistent(s: TimerState, schedule: Schedule)
    requires s.counter <= TICKS_PER_RELOAD && SingleReader(schedule)
    ensures var r := Read(s, schedule, 0);
            && r.last.loaded.reloads == r.last.read.reloads == r.last.checked.reloads
            && Elapsed(s) <= Elapsed(r.last.read) <= Elapsed(r.last.checked)
  {
    var i := Read(s, schedule, 0).start;
    ReadCounts(s, schedule, 0);
    assert Wraps(Watched(schedule, i)) == 0 by {
      ReadStarts(s, schedule, 0);
      OneReaderSeesAll(schedule);
    }
    WatchedWraps(schedule, i);
  }

  /** The loop runs at most once more than the timer wraps during the call, whoever else resets the flag. */
  lemma {:induction false} PassesBounded(s: TimerState, schedule: Schedule, i: nat)
    requires s.counter <= TICKS_PER_RELOAD
    ensures var r := Read(s, schedule, i); r.passes <= r.last.checked.reloads - s.reloads + 1
    decreases |schedule| - i
  {
    AttemptCounts(s, schedule, i);
    var a := TryOnce(s, schedule, i);
    if a.checked.modified && i < |schedule| {
      RejectedAdvances(s, schedule, i);
      PassesBounded(a.checked, schedule, i + 4);
    }
  }

  // ----- Runs of calls -----

  /** The values returned by one call after another, each with the schedule it runs against. */
  function Calls(s: TimerState, calls: seq<Schedule>, q: nat): seq<Uint64>
    decreases |calls|
  {
    if calls == [] then [] else
      var r := Read(s, calls[0], 0);
      [Nanoseconds(r, q)] + Calls(r.last.checked, calls[1..], q)
  }

  function AfterCalls(s: TimerState, calls: seq<Schedule>): TimerState
    decreases |calls|
  {
    if calls == [] then s else AfterCalls(Read(s, calls[0], 0).last.checked, calls[1..])
  }

  lemma {:induction false} CallsAdvance(s: TimerState, calls: seq<Schedule>)
    requires s.counter <= TICKS_PER_RELOAD
    ensures var t := AfterCalls(s, calls);
            s.reloads <= t.reloads && t.counter <= TICKS_PER_RELOAD
    decreases |calls|
  {
    if calls != [] {
      ReadCounts(s, calls[0], 0);
      CallsAdvance(Read(s, calls[0], 0).last.checked, calls[1..]);
    }
  }

  /** The state the first call leaves. */
  lemma FirstCall(s: TimerState, calls: seq<Schedule>) returns (end: TimerState)
    requires s.counter <= TICKS_PER_RELOAD && calls != []
    ensures s.reloads <= end.reloads && end.counter <= TICKS_PER_RELOAD
    ensures Read(s, calls[0], 0).last.checked == end && AfterCalls(s, calls) == AfterCalls(end, calls[1..])
  {
    ReadCounts(s, calls[0], 0);
    end := Read(s, calls[0], 0).last.checked;
  }

  lemma Unwrapped(n: nat)
    requires n < TWO_32
    ensures n % TWO_32 == n
  {
  }

  lemma InstantsOrdered(a: TimerState, b: TimerState, c: TimerState, q: nat)
    requires Elapsed(a) <= Elapsed(b) <= Elapsed(c) && q <= TWO_48
    requires c.reloads < TWO_32 && c.counter <= TICKS_PER_RELOAD
    ensures Reference(Elapsed(a), q) <= Reference(Elapsed(b), q) <= Reference(Elapsed(c), q)
  {
    TotalBelow(c.reloads, c.counter);
    Monotone(Elapsed(a), Elapsed(b), q);
    Monotone(Elapsed(b), Elapsed(c), q);
  }

  /** One call's value lies between the times at its start and at its end, unless a wrap is hidden from it. */
  lemma CallBracketed(s: TimerState, schedule: Schedule, q: nat)
    requires s.counter <= TICKS_PER_RELOAD && q <= TWO_48 && NoHiddenWrap(schedule)
    requires Read(s, schedule, 0).last.checked.reloads < TWO_32
    ensures var r := Read(s, schedule, 0);
            Reference(Elapsed(s), q) <= Nanoseconds(r, q) <= Reference(Elapsed(r.last.checked), q)
  {
    var r := Read(s, schedule, 0);
    ReadCounts(s, schedule, 0);
    assert Nanoseconds(r, q) == Reference(Elapsed(r.last.read), q) by {
      SnapshotExactIff(s, schedule);
      Unwrapped(r.last.loaded.reloads);
    }
    InstantsOrdered(s, r.last.read, r.last.checked, q);
  }

  /** Each value is no later than the end of its call, and at most `slack` behind its start. */
  predicate Bracketed(s: TimerState, calls: seq<Schedule>, q: nat, slack: nat)
    decreases |calls|
  {
    calls == [] ||
      var r := Read(s, calls[0], 0);
      var end := Reference(Elapsed(r.last.checked), q);
      && Reference(Elapsed(s), q) <= end
      && Reference(Elapsed(s), q) <= Nanoseconds(r, q) + slack && Nanoseconds(r, q) <= end
      && Bracketed(r.last.checked, calls[1..], q, slack)
  }

  lemma {:induction false} BracketedOrdered(s: TimerState, calls: seq<Schedule>, q: nat, slack: nat, j: nat, k: nat)
    requires Bracketed(s, calls, q, slack) && j <= k < |Calls(s, calls, q)|
    ensures Reference(Elapsed(s), q) <= Calls(s, calls, q)[k] + slack
    ensures Calls(s, calls, q)[j] <= Calls(s, calls, q)[k] + slack
    decreases |calls|
  {
    var end := Read(s, calls[0], 0).last.checked;
    assert Calls(s, calls, q) == [Nanoseconds(Read(s, calls[0], 0), q)] + Calls(end, calls[1..], q);
    if k > 0 { BracketedOrdered(end, calls[1..], q, slack, if j == 0 then 0 else j - 1, k - 1); }
  }

  lemma {:induction false} UnhiddenBracketed(s: TimerState, calls: seq<Schedule>, q: nat)
    requires s.counter <= TICKS_PER_RELOAD && q <= TWO_48
    requires forall c :: 0 <= c < |calls| ==> NoHiddenWrap(calls[c])
    requires AfterCalls(s, calls).reloads < TWO_32
    ensures Bracketed(s, calls, q, 0)
    decreases |calls|
  {
    if calls != [] {
      var end := FirstCall(s, calls);
      CallsAdvance(end, calls[1..]);
      CallBracketed(s, calls[0], q);
      UnhiddenBracketed(end, calls[1..], q);
    }
  }

  /** Successive calls never go backwards, over any number of wraps, until the 32-bit reload count wraps, as long as
    * no wrap is hidden from them. */
  lemma TimeNeverGoesBack(s: TimerState, calls: seq<Schedule>, q: nat, j: nat, k: nat)
    requires s.counter <= TICKS_PER_RELOAD && q <= TWO_48
    requires forall c :: 0 <= c < |calls| ==> NoHiddenWrap(calls[c])
    requires AfterCalls(s, calls).reloads < TWO_32
    requires j <= k < |Calls(s, calls, q)|
    ensures Reference(Elapsed(s), q) <= Calls(s, calls, q)[j] <= Calls(s, calls, q)[k]
  {
    UnhiddenBracketed(s, calls, q);
    BracketedOrdered(s, calls, q, 0, j, j);
    BracketedOrdered(s, calls, q, 0, j, k);
  }

  /** With one reader at a time no wrap is hidden, and the clock is monotone. */
  lemma OneReaderMonotone(s: TimerState, calls: seq<Schedule>, q: nat, j: nat, k: nat)
    requires s.counter <= TICKS_PER_RELOAD && q <= TWO_48
    requires forall c :: 0 <= c < |calls| ==> SingleReader(calls[c])
    requires AfterCalls(s, calls).reloads < TWO_32
    requires j <= k < |Calls(s, calls, q)|
    ensures Calls(s, calls, q)[j] <= Calls(s, calls, q)[k]
  {
    forall c | 0 <= c < |calls| ensures NoHiddenWrap(calls[c]) { OneReaderSeesAll(calls[c]); }
    TimeNeverGoesBack(s, calls, q, j, k);
  }

  // ----- Any number of readers -----

  /** However many readers there are, the ticks used are never ahead of the counter read, and never more than one
    * reload behind the start of the call. */
  lemma TornBound(s: TimerState, schedule: Schedule)
    requires s.counter <= TICKS_PER_RELOAD
    ensures var r := Read(s, schedule, 0);
            var used := TotalTicks(r.last.loaded.reloads, r.last.read.counter);
            Elapsed(s) <= used + TICKS_PER_RELOAD && used <= Elapsed(r.last.read) <= Elapsed(r.last.checked)
  {
    ReadCounts(s, schedule, 0);
  }

  /** The largest step back, in nanoseconds: one reload period, rounded up. */
  function JumpBack(q: nat): nat {
    Reference(TICKS_PER_RELOAD, q) + 1
  }

  lemma BackBy(total: nat, q: nat)
    requires total + TICKS_PER_RELOAD < TWO_48 && q <= TWO_48
    ensures Reference(total + TICKS_PER_RELOAD, q) <= Reference(total, q) + JumpBack(q)
  {
    NoWrap(total + TICKS_PER_RELOAD, q);
    NoWrap(total, q);
    NoWrap(TICKS_PER_RELOAD, q);
    Distribute(total, q);
    ShiftedSum(total * q, TICKS_PER_RELOAD * q);
  }

  lemma Distribute(total: nat, q: nat)
    ensures (total + TICKS_PER_RELOAD) * q == total * q + TICKS_PER_RELOAD * q
  {
  }

  lemma ShiftedSum(a: nat, b: nat)
    ensures (a + b) / TWO_32 <= a / TWO_32 + b / TWO_32 + 1
  {
  }

  lemma CallTorn(s: TimerState, schedule: Schedule, q: nat)
    requires s.counter <= TICKS_PER_RELOAD && q <= TWO_48
    requires Read(s, schedule, 0).last.checked.reloads < TWO_32
    ensures var r := Read(s, schedule, 0);
            && Reference(Elapsed(s), q) <= Reference(Elapsed(r.last.checked), q)
            && Reference(Elapsed(s), q) <= Nanoseconds(r, q) + JumpBack(q)
            && Nanoseconds(r, q) <= Reference(Elapsed(r.last.checked), q)
  {
    var r := Read(s, schedule, 0);
    ReadCounts(s, schedule, 0);
    TornBound(s, schedule);
    Unwrapped(r.last.loaded.reloads);
    InstantsOrdered(s, r.last.read, r.last.checked, q);
    TotalBelow(r.last.checked.reloads, r.last.checked.counter);
    PlusReload(r.last.loaded.reloads, r.last.read.counter);
    TornScaled(Elapsed(s), TotalTicks(r.last.loaded.reloads, r.last.read.counter), Elapsed(r.last.read), q);
  }

  lemma TornScaled(start: nat, used: nat, read: nat, q: nat)
    requires start <= used + TICKS_PER_RELOAD < TWO_48 && used <= read < TWO_48 && q <= TWO_48
    ensures Reference(start, q) <= Reference(used, q) + JumpBack(q) && Reference(used, q) <= Reference(read, q)
  {
    Monotone(used, read, q);
    Monotone(start, used + TICKS_PER_RELOAD, q);
    BackBy(used, q);
  }

  lemma PlusReload(reloads: Uint32, counter: nat)
    requires counter <= TICKS_PER_RELOAD
    ensures TotalTicks(reloads, counter) + TICKS_PER_RELOAD < TWO_48
  {
  }

  lemma {:induction false} AnyBracketed(s: TimerState, calls: seq<Schedule>, q: nat)
    requires s.counter <= TICKS_PER_RELOAD && q <= TWO_48 && AfterCalls(s, calls).reloads < TWO_32
    ensures Bracketed(s, calls, q, JumpBack(q))
    decreases |calls|
  {
    if calls != [] {
      var end := FirstCall(s, calls);
      CallsAdvance(end, calls[1..]);
      CallTorn(s, calls[0], q);
      AnyBracketed(end, calls[1..], q);
    }
  }

  /** With any number of readers, no call returns a value more than one reload period below an earlier call's. */
  lemma JumpBackBounded(s: TimerState, calls: seq<Schedule>, q: nat, j: nat, k: nat)
    requires s.counter <= TICKS_PER_RELOAD && q <= TWO_48
    requires AfterCalls(s, calls).reloads < TWO_32
    requires j <= k < |Calls(s, calls, q)|
    ensures Calls(s, calls, q)[j] <= Calls(s, calls, q)[k] + JumpBack(q)
  {
    AnyBracketed(s, calls, q);
    BracketedOrdered(s, calls, q, JumpBack(q), j, k);
  }

  /** Two readers at once break it: another task's reset hides the wrap, and the clock jumps back, here by 65534
    * of the 65536 ns allowed above. */
  lemma SecondReaderTearsSnapshot()
    ensures var s := TimerState(0, 65534, false);
            var calls := [[], [[], [], [Wrap, ForeignReset], []]];
            var times := Calls(s, calls, TWO_32);
            |times| == 2 && times[0] == 65534 && times[1] == 0
  {
  }
}
