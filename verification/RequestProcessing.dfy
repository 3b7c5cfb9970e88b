/** One request processed by a thread: logged, measured with the elapsed-time clock, and folded into statistics. */
module RequestProcessing {
  import opened MachineIntegers
  import opened FixedPoint
  import opened ElapsedClock
  import opened ActivationLog
  import opened ExecutionStatistics

  /** What the timer does during a request: around its four clock readings and during the user function. */
  datatype RequestSchedule = RequestSchedule(
    activation: Schedule, before: Schedule, during: seq<TimerEvent>, after: Schedule, deactivation: Schedule)
  {
    predicate NoHiddenWrap() {
      && ElapsedClock.NoHiddenWrap(activation) && ElapsedClock.NoHiddenWrap(before)
      && ElapsedClock.NoHiddenWrap(after) && ElapsedClock.NoHiddenWrap(deactivation)
    }
  }

  /** The readings before and after the user function. */
  datatype Measurement = Measurement(before: Reading, after: Reading)

  function Measure(c: TimerState, s: RequestSchedule): Measurement {
    var before := Read(c, s.before, 0);
    Measurement(before, Read(Run(before.last.checked, s.during), s.after, 0))
  }

  /** The four readings of an unfrozen request, in order. */
  datatype Readings = Readings(activation: Reading, measured: Measurement, deactivation: Reading)

  function ReadingsOf(c: TimerState, s: RequestSchedule): Readings {
    var activation := Read(c, s.activation, 0);
    var measured := Measure(activation.last.checked, s);
    Readings(activation, measured, Read(measured.after.last.checked, s.deactivation, 0))
  }

  /** uint64_t subtraction. */
  function Minus64(a: Uint64, b: Uint64): Uint64 {
    (a - b) % TWO_64
  }

  /** The entries a request leaves in the log, and the execution time it records. */
  function BracketEntries(r: Readings, q: nat, thread: nat): seq<Entry> {
    [Entry(thread, Activation, Nanoseconds(r.activation, q)), Entry(thread, Deactivation, Nanoseconds(r.deactivation, q))]
  }

  function MeasuredTime(m: Measurement, q: nat): Uint64 {
    Minus64(Nanoseconds(m.after, q), Nanoseconds(m.before, q))
  }

  /** The clock when the user function starts, if the reading before it starts at c, and when it ends. */
  function Started(c: TimerState, s: RequestSchedule): TimerState {
    Read(c, s.before, 0).last.checked
  }

  function Ended(c: TimerState, s: RequestSchedule): TimerState {
    Run(Started(c, s), s.during)
  }

  /** No wrap is hidden from the four readings, and the 32-bit reload count has not wrapped by the end. */
  predicate Undisturbed(s: RequestSchedule, q: nat, end: TimerState) {
    s.NoHiddenWrap() && q <= TWO_48 && end.reloads < TWO_32
  }

  /** The time covers the run of the user function. */
  predicate CoversUserFunction(time: nat, c: TimerState, s: RequestSchedule, q: nat) {
    Reference(Elapsed(Started(c, s)), q) + time >= Reference(Elapsed(Ended(c, s)), q)
  }

  /** The two entries around the user function enclose both its run and its measured time. */
  predicate Encloses(on: Entry, off: Entry, thread: nat, time: nat, c: TimerState, s: RequestSchedule, q: nat) {
    && on.interface == thread && on.entryType == Activation
    && off.interface == thread && off.entryType == Deactivation
    && on.timestamp <= Reference(Elapsed(Started(c, s)), q)
    && Reference(Elapsed(Ended(c, s)), q) <= off.timestamp
    && on.timestamp + time <= off.timestamp
  }

  /** Monitor_IndicateInterface(De)Activated: the clock is read only when the log is not frozen. */
  method Indicate(clock: Clock, log: Log, interface: nat, entryType: EntryType, schedule: Schedule) returns (logged: bool)
    requires clock.Valid() && log.Valid()
    modifies clock, log, log.buffer
    ensures clock.Valid() && log.Valid() && log.isFrozen == old(log.isFrozen) && logged == !log.isFrozen
    ensures clock.nsPerTickQ32 == old(clock.nsPerTickQ32)
    ensures old(log.isFrozen) ==> log.history == old(log.history) && clock.State() == old(clock.State())
    ensures !old(log.isFrozen) ==>
              var r := Read(old(clock.State()), schedule, 0);
              && clock.State() == r.last.checked
              && log.history == old(log.history) + [Entry(interface, entryType, Nanoseconds(r, clock.nsPerTickQ32))]
  {
    if log.isFrozen { return false; }
    var now, _ := clock.GetElapsedTimeInNs(schedule);
    logged := log.Indicate(interface, entryType, now);
  }

  /** The user function between its two readings. */
  method MeasureUserFunction(clock: Clock, s: RequestSchedule) returns (time: Uint64)
    requires clock.Valid()
    modifies clock
    ensures clock.Valid() && clock.nsPerTickQ32 == old(clock.nsPerTickQ32)
    ensures var m := Measure(old(clock.State()), s);
            clock.State() == m.after.last.checked && time == MeasuredTime(m, clock.nsPerTickQ32)
  {
    var timeBefore, _ := clock.GetElapsedTimeInNs(s.before);
    clock.Advance(s.during);
    var timeAfter, _ := clock.GetElapsedTimeInNs(s.after);
    time := Minus64(timeAfter, timeBefore);
  }

  method ProcessRequest(clock: Clock, log: Log, info: ThreadInfo, thread: nat, s: RequestSchedule)
    requires clock.Valid() && log.Valid() && info.Valid()
    modifies clock, log, log.buffer, info
    ensures clock.Valid() && log.Valid() && info.Valid() && clock.nsPerTickQ32 == old(clock.nsPerTickQ32)
    ensures log.isFrozen == old(log.isFrozen)
    ensures info.times == old(info.times) + [info.executionTime]
    ensures old(log.isFrozen) ==>
              var m := Measure(old(clock.State()), s);
              && log.history == old(log.history) && clock.State() == m.after.last.checked
              && info.executionTime == MeasuredTime(m, clock.nsPerTickQ32)
    ensures !old(log.isFrozen) ==>
              var r, q := ReadingsOf(old(clock.State()), s), clock.nsPerTickQ32;
              && clock.State() == r.deactivation.last.checked
              && log.history == old(log.history) + BracketEntries(r, q, thread)
              && info.executionTime == MeasuredTime(r.measured, q)
    // what is recorded covers the user function, with the log frozen or not
    ensures old(log.isFrozen) && Undisturbed(s, clock.nsPerTickQ32, clock.State()) ==>
              CoversUserFunction(info.executionTime, old(clock.State()), s, clock.nsPerTickQ32)
    ensures !old(log.isFrozen) && Undisturbed(s, clock.nsPerTickQ32, clock.State()) ==>
              var c, n := Read(old(clock.State()), s.activation, 0).last.checked, |old(log.history)|;
              && CoversUserFunction(info.executionTime, c, s, clock.nsPerTickQ32)
              && |log.history| == n + 2 && log.history[..n] == old(log.history)
              && Encloses(log.history[n], log.history[n + 1], thread, info.executionTime, c, s, clock.nsPerTickQ32)
  {
    var logged := Indicate(clock, log, thread, Activation, s.activation);
    var time := MeasureUserFunction(clock, s);
    logged := Indicate(clock, log, thread, Deactivation, s.deactivation);
    assert !log.isFrozen ==>
        log.history == old(log.history) + BracketEntries(ReadingsOf(old(clock.State()), s), clock.nsPerTickQ32, thread);
    info.executionTime := time;
    info.UpdateExecutionTimeData(info.executionTime);
    if Undisturbed(s, clock.nsPerTickQ32, clock.State()) {
      if log.isFrozen {
        MeasurementCovers(old(clock.State()), s, clock.nsPerTickQ32);
      } else {
        ReadingsEnclose(old(clock.State()), s, clock.nsPerTickQ32, thread);
      }
    }
  }

  // ----- Bracketing -----

  /** Timestamps never decrease, and none is later than the bound. */
  predicate Timely(history: seq<Entry>, bound: nat) {
    && (forall i, j :: 0 <= i <= j < |history| ==> history[i].timestamp <= history[j].timestamp)
    && (forall i :: 0 <= i < |history| ==> history[i].timestamp <= bound)
  }

  /** The two readings around the user function are in order, between the times at their start and their end. */
  lemma MeasurementOrdered(c: TimerState, s: RequestSchedule, q: nat)
    requires c.counter <= TICKS_PER_RELOAD && q <= TWO_48 && NoHiddenWrap(s.before) && NoHiddenWrap(s.after)
    requires Measure(c, s).after.last.checked.reloads < TWO_32
    ensures var m := Measure(c, s);
            var end := m.after.last.checked;
            && Reference(Elapsed(c), q) <= Nanoseconds(m.before, q) <= Nanoseconds(m.after, q)
            && Nanoseconds(m.after, q) <= Reference(Elapsed(end), q)
  {
    var c1 := Measure(c, s).before.last.checked;
    var c2 := Run(c1, s.during);
    ReadAdvances(c, s.before);
    RunCounts(c1, s.during);
    ReadAdvances(c2, s.after);
    CallBracketed(c, s.before, q);
    assert Reference(Elapsed(c1), q) <= Reference(Elapsed(c2), q) by { InstantsOrdered(c1, c2, c2, q); }
    CallBracketed(c2, s.after, q);
  }

  /** The four readings of one request are in order, between the times at its start and its end. */
  lemma ReadingsOrdered(c: TimerState, s: RequestSchedule, q: nat)
    requires c.counter <= TICKS_PER_RELOAD && q <= TWO_48 && s.NoHiddenWrap()
    requires ReadingsOf(c, s).deactivation.last.checked.reloads < TWO_32
    ensures var r := ReadingsOf(c, s);
            && Reference(Elapsed(c), q) <= Nanoseconds(r.activation, q) <= Nanoseconds(r.measured.before, q)
            && Nanoseconds(r.measured.before, q) <= Nanoseconds(r.measured.after, q) <= Nanoseconds(r.deactivation, q)
            && Nanoseconds(r.deactivation, q) <= Reference(Elapsed(r.deactivation.last.checked), q)
  {
    var r := ReadingsOf(c, s);
    var c1, c2 := r.activation.last.checked, r.measured.after.last.checked;
    ReadAdvances(c, s.activation);
    MeasureAdvances(c1, s);
    ReadAdvances(c2, s.deactivation);
    CallBracketed(c, s.activation, q);
    MeasurementOrdered(c1, s, q);
    CallBracketed(c2, s.deactivation, q);
  }

  /** The measured time is at least the time from the start to the end of the user function. */
  lemma MeasurementCovers(c: TimerState, s: RequestSchedule, q: nat)
    requires c.counter <= TICKS_PER_RELOAD && q <= TWO_48 && NoHiddenWrap(s.before) && NoHiddenWrap(s.after)
    requires Measure(c, s).after.last.checked.reloads < TWO_32
    ensures CoversUserFunction(MeasuredTime(Measure(c, s), q), c, s, q)
    ensures var m := Measure(c, s);
            && Nanoseconds(m.before, q) <= Reference(Elapsed(Started(c, s)), q)
            && Reference(Elapsed(Ended(c, s)), q) <= Nanoseconds(m.after, q)
            && MeasuredTime(m, q) == Nanoseconds(m.after, q) - Nanoseconds(m.before, q)
  {
    var c1, c2 := Started(c, s), Ended(c, s);
    ReadAdvances(c, s.before);
    RunCounts(c1, s.during);
    ReadAdvances(c2, s.after);
    CallBracketed(c, s.before, q);
    CallBracketed(c2, s.after, q);
    MeasurementOrdered(c, s, q);
    Difference(Nanoseconds(Measure(c, s).before, q), Nanoseconds(Measure(c, s).after, q));
  }

  lemma ReadingsEnclose(c: TimerState, s: RequestSchedule, q: nat, thread: nat)
    requires c.counter <= TICKS_PER_RELOAD && Undisturbed(s, q, ReadingsOf(c, s).deactivation.last.checked)
    ensures var r, c1 := ReadingsOf(c, s), Read(c, s.activation, 0).last.checked;
            var entries, time := BracketEntries(r, q, thread), MeasuredTime(r.measured, q);
            && CoversUserFunction(time, c1, s, q)
            && |entries| == 2 && Encloses(entries[0], entries[1], thread, time, c1, s, q)
  {
    var c1 := Read(c, s.activation, 0).last.checked;
    ReadAdvances(c, s.activation);
    MeasureAdvances(c1, s);
    ReadAdvances(Measure(c1, s).after.last.checked, s.deactivation);
    MeasurementCovers(c1, s, q);
    ReadingsOrdered(c, s, q);
  }

  lemma MeasureAdvances(c: TimerState, s: RequestSchedule)
    requires c.counter <= TICKS_PER_RELOAD
    ensures var end := Measure(c, s).after.last.checked;
            c.reloads <= end.reloads && end.counter <= TICKS_PER_RELOAD
  {
    var c1 := Measure(c, s).before.last.checked;
    ReadAdvances(c, s.before);
    RunCounts(c1, s.during);
    ReadAdvances(Run(c1, s.during), s.after);
  }

  lemma ReadAdvances(c: TimerState, schedule: Schedule)
    requires c.counter <= TICKS_PER_RELOAD
    ensures var end := Read(c, schedule, 0).last.checked;
            c.reloads <= end.reloads && end.counter <= TICKS_PER_RELOAD
  {
    ReadCounts(c, schedule, 0);
  }

  /** The measured time is at most the difference of the two log timestamps around it, and the log stays in order. */
  lemma MeasuredTimeFitsBracket(c: TimerState, s: RequestSchedule, q: nat, history: seq<Entry>, thread: nat)
    requires c.counter <= TICKS_PER_RELOAD && q <= TWO_48 && s.NoHiddenWrap()
    requires ReadingsOf(c, s).deactivation.last.checked.reloads < TWO_32
    requires Timely(history, Reference(Elapsed(c), q))
    ensures var r := ReadingsOf(c, s);
            var on, off := Nanoseconds(r.activation, q), Nanoseconds(r.deactivation, q);
            && on <= off && MeasuredTime(r.measured, q) <= off - on
            && MeasuredTime(r.measured, q) == Nanoseconds(r.measured.after, q) - Nanoseconds(r.measured.before, q)
            && Timely(history + BracketEntries(r, q, thread), Reference(Elapsed(r.deactivation.last.checked), q))
  {
    var r := ReadingsOf(c, s);
    var on, off := Nanoseconds(r.activation, q), Nanoseconds(r.deactivation, q);
    ReadingsOrdered(c, s, q);
    Difference(Nanoseconds(r.measured.before, q), Nanoseconds(r.measured.after, q));
    TimelyPair(history, Reference(Elapsed(c), q), Entry(thread, Activation, on), Entry(thread, Deactivation, off));
    TimelyLater(history + BracketEntries(r, q, thread), off, Reference(Elapsed(r.deactivation.last.checked), q));
  }

  lemma TimelyPair(history: seq<Entry>, bound: nat, on: Entry, off: Entry)
    requires Timely(history, bound) && bound <= on.timestamp <= off.timestamp
    ensures Timely(history + [on, off], off.timestamp)
  {
    TimelyAppend(history, bound, on);
    TimelyAppend(history + [on], on.timestamp, off);
    assert history + [on, off] == history + [on] + [off];
  }

  lemma TimelyLater(history: seq<Entry>, bound: nat, bound': nat)
    requires Timely(history, bound) && bound <= bound'
    ensures Timely(history, bound')
  {
  }

  lemma Difference(before: Uint64, after: Uint64)
    requires before <= after
    ensures Minus64(after, before) == after - before
  {
  }

  lemma TimelyAppend(history: seq<Entry>, bound: nat, entry: Entry)
    requires Timely(history, bound) && bound <= entry.timestamp
    ensures Timely(history + [entry], entry.timestamp)
  {
  }

  // ----- Threads interleaved -----

  /** One clock reading: the value returned, and the time when the call starts and when it returns. */
  datatype Sample = Sample(start: Uint64, value: Uint64, end: Uint64)

  /** How far a thread is in its request; `on` is the position of its activation entry. The user function runs
    * from before.end to after.start. */
  datatype Phase =
    | Idle
    | Entered(on: nat)
    | Running(on: nat, before: Sample)
    | Ran(on: nat, before: Sample, after: Sample)

  datatype Completed = Completed(thread: nat, on: nat, off: nat, before: Sample, after: Sample, measured: Uint64)

  /** Several threads sharing one unfrozen log and one clock. */
  datatype System = System(clock: TimerState, history: seq<Entry>, phases: seq<Phase>, completed: seq<Completed>)

  /** The hardware runs between steps, or one thread takes its next step of ProcessRequest, reading the clock
    * once while the timer follows the schedule. */
  datatype Event = Wait(events: seq<TimerEvent>) | Proceed(thread: nat, schedule: Schedule)

  /** The step of a thread, with its reading. */
  function Take(y: System, thread: nat, r: Sample): System {
    if thread >= |y.phases| then y else
      match y.phases[thread]
      case Idle =>
        y.(history := y.history + [Entry(thread, Activation, r.value)], phases := y.phases[thread := Entered(|y.history|)])
      case Entered(on) => y.(phases := y.phases[thread := Running(on, r)])
      case Running(on, before) => y.(phases := y.phases[thread := Ran(on, before, r)])
      case Ran(on, before, after) =>
        y.(history := y.history + [Entry(thread, Deactivation, r.value)], phases := y.phases[thread := Idle],
           completed := y.completed + [Completed(thread, on, |y.history|, before, after, Minus64(after.value, before.value))])
  }

  function SampleOf(c: TimerState, schedule: Schedule, q: nat): Sample {
    var r := Read(c, schedule, 0);
    Sample(Reference(Elapsed(c), q), Nanoseconds(r, q), Reference(Elapsed(r.last.checked), q))
  }

  function Step(y: System, e: Event, q: nat): System {
    match e
    case Wait(events) => y.(clock := Run(y.clock, events))
    case Proceed(thread, schedule) =>
      Take(y, thread, SampleOf(y.clock, schedule, q)).(clock := Read(y.clock, schedule, 0).last.checked)
  }

  function StepAll(y: System, events: seq<Event>, q: nat): System {
    if events == [] then y else Step(StepAll(y, events[..|events| - 1], q), events[|events| - 1], q)
  }

  predicate Unhidden(e: Event) {
    e.Proceed? ==> NoHiddenWrap(e.schedule)
  }

  /** The log entry at a position is an activation or deactivation of the thread. */
  predicate Logged(history: seq<Entry>, at: nat, thread: nat, entryType: EntryType) {
    at < |history| && history[at].interface == thread && history[at].entryType == entryType
  }

  predicate Ordered(r: Sample) {
    r.start <= r.value <= r.end
  }

  predicate PhaseFits(y: System, thread: nat, phase: Phase, now: nat) {
    match phase
    case Idle => true
    case Entered(on) => Logged(y.history, on, thread, Activation) && y.history[on].timestamp <= now
    case Running(on, before) =>
      && Logged(y.history, on, thread, Activation) && Ordered(before)
      && y.history[on].timestamp <= before.value && before.end <= now
    case Ran(on, before, after) =>
      && Logged(y.history, on, thread, Activation) && Ordered(before) && Ordered(after)
      && y.history[on].timestamp <= before.value && before.end <= after.start && after.end <= now
  }

  /** A completed request has its two entries in the log. Its measured time fits between their timestamps, and
    * covers the user function, which ran from the end of the reading before it to the start of the one after it. */
  predicate Fits(history: seq<Entry>, r: Completed) {
    && r.on < r.off
    && Logged(history, r.on, r.thread, Activation) && Logged(history, r.off, r.thread, Deactivation)
    && history[r.on].timestamp + r.measured <= history[r.off].timestamp
    && history[r.on].timestamp <= r.before.end <= r.after.start <= history[r.off].timestamp
    && r.after.start - r.before.end <= r.measured
  }

  ghost predicate Consistent(y: System, now: nat) {
    && Timely(y.history, now)
    && (forall i :: 0 <= i < |y.phases| ==> PhaseFits(y, i, y.phases[i], now))
    && (forall k :: 0 <= k < |y.completed| ==> Fits(y.history, y.completed[k]))
  }

  lemma AppendKeeps(y: System, entry: Entry)
    requires Consistent(y, entry.timestamp)
    ensures Consistent(y.(history := y.history + [entry]), entry.timestamp)
  {
  }

  lemma LaterKeeps(y: System, now: nat, now': nat, c: TimerState)
    requires Consistent(y, now) && now <= now'
    ensures Consistent(y.(clock := c), now')
  {
    assert forall i :: 0 <= i < |y.phases| ==> PhaseFits(y, i, y.phases[i], now);
  }

  lemma TakeConsistent(y: System, thread: nat, now: nat, r: Sample)
    requires Consistent(y, now) && Ordered(r) && now <= r.start
    ensures Consistent(Take(y, thread, r), r.end)
  {
    LaterKeeps(y, now, r.value, y.clock);
    if thread < |y.phases| {
      assert PhaseFits(y, thread, y.phases[thread], now);
      match y.phases[thread]
      case Idle => ActivationConsistent(y, thread, r);
      case Entered(_) => LaterKeeps(y, now, r.end, y.clock);
      case Running(_, _) => LaterKeeps(y, now, r.end, y.clock);
      case Ran(_, _, _) => CompletionConsistent(y, thread, r);
    } else {
      LaterKeeps(y, now, r.end, y.clock);
    }
  }

  lemma ActivationConsistent(y: System, i: nat, r: Sample)
    requires Consistent(y, r.value) && Ordered(r) && i < |y.phases| && y.phases[i].Idle?
    ensures Consistent(Take(y, i, r), r.end)
  {
    AppendKeeps(y, Entry(i, Activation, r.value));
    var z := Take(y, i, r);
    assert Consistent(z, r.value);
    LaterKeeps(z, r.value, r.end, z.clock);
  }

  lemma CompletionConsistent(y: System, i: nat, r: Sample)
    requires Consistent(y, r.value) && Ordered(r) && i < |y.phases| && y.phases[i].Ran?
    ensures Consistent(Take(y, i, r), r.end)
  {
    var phase := y.phases[i];
    assert PhaseFits(y, i, phase, r.value);
    AppendKeeps(y, Entry(i, Deactivation, r.value));
    Difference(phase.before.value, phase.after.value);
    var z := Take(y, i, r);
    assert Consistent(z, r.value);
    LaterKeeps(z, r.value, r.end, z.clock);
  }

  lemma StepAdvances(y: System, e: Event, q: nat)
    requires y.clock.counter <= TICKS_PER_RELOAD
    ensures var z := Step(y, e, q); y.clock.reloads <= z.clock.reloads && z.clock.counter <= TICKS_PER_RELOAD
  {
    match e
    case Wait(events) => RunCounts(y.clock, events);
    case Proceed(_, schedule) => ReadAdvances(y.clock, schedule);
  }

  /** The elapsed time of the system's clock. */
  function Now(y: System, q: nat): Uint64 {
    Reference(Elapsed(y.clock), q)
  }

  lemma StepConsistent(y: System, e: Event, q: nat)
    requires Consistent(y, Now(y, q)) && y.clock.counter <= TICKS_PER_RELOAD && q <= TWO_48
    requires Unhidden(e) && Step(y, e, q).clock.reloads < TWO_32
    ensures Consistent(Step(y, e, q), Now(Step(y, e, q), q))
  {
    var z := Step(y, e, q);
    StepAdvances(y, e, q);
    match e
    case Wait(events) =>
      RunCounts(y.clock, events);
      InstantsOrdered(y.clock, z.clock, z.clock, q);
      LaterKeeps(y, Now(y, q), Now(z, q), z.clock);
    case Proceed(thread, schedule) =>
      var r := SampleOf(y.clock, schedule, q);
      CallBracketed(y.clock, schedule, q);
      TakeConsistent(y, thread, Now(y, q), r);
      LaterKeeps(Take(y, thread, r), r.end, Now(z, q), z.clock);
  }

  /** In every interleaving of threads, each reading taken through the retry loop against any timer schedule that
    * hides no wrap, the log stays in time order and every completed request fits its bracket and covers its user
    * function. */
  lemma {:induction false} EveryInterleavingFits(y: System, events: seq<Event>, q: nat)
    requires Consistent(y, Now(y, q)) && y.clock.counter <= TICKS_PER_RELOAD && q <= TWO_48
    requires forall i :: 0 <= i < |events| ==> Unhidden(events[i])
    requires StepAll(y, events, q).clock.reloads < TWO_32
    ensures var z := StepAll(y, events, q);
            && Timely(z.history, Now(z, q))
            && (forall k :: 0 <= k < |z.completed| ==> Fits(z.history, z.completed[k]))
            && Consistent(z, Now(z, q)) && z.clock.counter <= TICKS_PER_RELOAD
  {
    if events != [] {
      var front, last := events[..|events| - 1], events[|events| - 1];
      StepAllCounter(y, front, q);
      StepAdvances(StepAll(y, front, q), last, q);
      EveryInterleavingFits(y, front, q);
      StepConsistent(StepAll(y, front, q), last, q);
    }
  }

  lemma {:induction false} StepAllCounter(y: System, events: seq<Event>, q: nat)
    requires y.clock.counter <= TICKS_PER_RELOAD
    ensures StepAll(y, events, q).clock.counter <= TICKS_PER_RELOAD
  {
    if events != [] {
      StepAllCounter(y, events[..|events| - 1], q);
      StepAdvances(StepAll(y, events[..|events| - 1], q), events[|events| - 1], q);
    }
  }
}
