/** Properties of every run of driver calls. */
module DmaRuns {
  import opened Xdmac
  import opened HandshakeTable
  import opened DmaModel

  datatype Op =
    | InitializeOp(polling: bool, count: nat)
    | AllocateOp(locked: bool, source: nat, destination: nat)
    | FreeOp(channel: nat)
    | SetCallbackOp(channel: nat, callback: Callback, arg: int)
    | PrepareOp(channel: nat)
    | ConfigureOp(channel: nat, config: Config, descriptorConfig: nat, descriptorAddr: nat, irqs: nat)
    | StartOp(channel: nat)
    | StopOp(channel: nat)
    | IsDoneOp(channel: nat, hw: Hardware)
    | HandlerOp(hw: Hardware)
  {
    predicate Valid() {
      match this
      case InitializeOp(_, count) => count <= CHANNEL_NUM
      case IsDoneOp(_, hw) => hw.Valid()
      case HandlerOp(hw) => hw.Valid()
      case _ => true
    }
  }

  type Ops = ops: seq<Op> | forall i :: 0 <= i < |ops| ==> ops[i].Valid()

  /** The handshake table as this controller sees it. */
  datatype Table = Table(pid: Ids, last: nat) {
    predicate Valid() { last < TABLE_SIZE }
  }

  function Step(d: Dma, t: Table, op: Op): (d': Dma)
    requires d.Valid() && t.Valid() && op.Valid()
    ensures d'.Valid()
  {
    match op
    case InitializeOp(polling, count) => Initialize(d, polling, count)
    case AllocateOp(locked, source, destination) => Allocate(d, t.pid, t.last, locked, source, destination).0
    case FreeOp(channel) => FreeChannel(d, channel).0
    case SetCallbackOp(channel, callback, arg) => SetCallback(d, channel, callback, arg).0
    case PrepareOp(channel) => Prepare(d, channel).0
    case ConfigureOp(channel, config, dc, da, irqs) => Configure(d, channel, config, dc, da, irqs).0
    case StartOp(channel) => StartTransfer(d, channel).0
    case StopOp(channel) => StopTransfer(d, channel).0
    case IsDoneOp(channel, hw) => IsTransferDone(d, channel, hw).0
    case HandlerOp(hw) => Handle(d, hw).0
  }

  function Run(d: Dma, t: Table, ops: Ops): (d': Dma)
    requires d.Valid() && t.Valid()
    ensures d'.Valid()
  {
    if ops == [] then d else Step(Run(d, t, ops[..|ops| - 1]), t, ops[|ops| - 1])
  }

  /** A driver just initialized: every channel free, nothing written yet. */
  predicate Fresh(d: Dma) {
    && d.Valid() && d.initialized && d.commands == []
    && forall c :: 0 <= c < CHANNEL_NUM ==> d.channels[c] == CLEARED
  }

  lemma InitializedIsFresh(d: Dma, polling: bool, count: nat)
    requires Untouched(d) && count <= CHANNEL_NUM
    ensures Fresh(Initialize(d, polling, count)) && Initialize(d, polling, count).numChannels == count
  {
  }

  // ----- Who owns a channel -----

  /** Op `op` in state d hands out channel c. */
  predicate Allocates(d: Dma, t: Table, op: Op, c: nat)
    requires d.Valid() && t.Valid()
  {
    op.AllocateOp? && c < d.numChannels &&
    Allocate(d, t.pid, t.last, op.locked, op.source, op.destination).1 == c
  }

  /** Op `op` in state d is a Free that finds channel c done or halted. */
  predicate Releases(d: Dma, op: Op, c: nat)
    requires d.Valid()
  {
    op.FreeOp? && c == op.channel % 0x100 && c < d.numChannels && d.channels[c].state in {Done, Halted}
  }

  /** Op `op` in state d is a Stop that finds channel c free. */
  predicate StopsFree(d: Dma, op: Op, c: nat)
    requires d.Valid()
  {
    op.StopOp? && c == op.channel % 0x100 && c < d.numChannels && d.channels[c].state == Free
  }

  /** A channel changes between free and not free exactly by these three kinds of call. */
  lemma StepOwnership(d: Dma, t: Table, op: Op, c: nat)
    requires d.Valid() && t.Valid() && op.Valid() && d.initialized && c < CHANNEL_NUM
    ensures var was, now := d.channels[c].state != Free, Step(d, t, op).channels[c].state != Free;
            && (was ==> (now <==> !Releases(d, op, c)))
            && (!was ==> (now <==> Allocates(d, t, op, c) || StopsFree(d, op, c)))
    ensures Allocates(d, t, op, c) ==> d.channels[c].state == Free
  {
  }

  lemma StepKeepsSize(d: Dma, t: Table, op: Op)
    requires d.Valid() && t.Valid() && op.Valid() && d.initialized
    ensures Step(d, t, op).initialized && Step(d, t, op).numChannels == d.numChannels
  {
  }

  /** The state after the first k calls of a run. */
  function At(d: Dma, t: Table, ops: Ops, k: nat): (d': Dma)
    requires d.Valid() && t.Valid() && k <= |ops|
    ensures d'.Valid()
  {
    Run(d, t, ops[..k])
  }

  lemma AtNext(d: Dma, t: Table, ops: Ops, k: nat)
    requires d.Valid() && t.Valid() && k < |ops|
    ensures At(d, t, ops, k + 1) == Step(At(d, t, ops, k), t, ops[k])
  {
    assert ops[..k + 1][..k] == ops[..k];
  }

  lemma {:induction false} StaysInitialized(d: Dma, t: Table, ops: Ops, k: nat)
    requires d.Valid() && t.Valid() && d.initialized && k <= |ops|
    ensures At(d, t, ops, k).initialized && At(d, t, ops, k).numChannels == d.numChannels
  {
    if k != 0 {
      StaysInitialized(d, t, ops, k - 1);
      AtNext(d, t, ops, k - 1);
      StepKeepsSize(At(d, t, ops, k - 1), t, ops[k - 1]);
    }
  }

  /** Until a releasing Free, an owned channel stays owned. */
  lemma {:induction false} StaysOwned(d: Dma, t: Table, ops: Ops, i: nat, j: nat, c: nat)
    requires d.Valid() && t.Valid() && d.initialized && c < CHANNEL_NUM
    requires i <= j <= |ops| && At(d, t, ops, i).channels[c].state != Free
    requires forall k :: i <= k < j ==> !Releases(At(d, t, ops, k), ops[k], c)
    ensures At(d, t, ops, j).channels[c].state != Free
    decreases j
  {
    if i < j {
      var before := At(d, t, ops, j - 1);
      StaysOwned(d, t, ops, i, j - 1, c);
      AtNext(d, t, ops, j - 1);
      StaysInitialized(d, t, ops, j - 1);
      assert !Releases(before, ops[j - 1], c);
      StepOwnership(before, t, ops[j - 1], c);
    }
  }

  /** Exclusive ownership: between two allocations of one channel lies a Free that found it done or halted. */
  lemma ExclusiveOwnership(d: Dma, t: Table, ops: Ops, i: nat, j: nat, c: nat)
    requires d.Valid() && t.Valid() && d.initialized && c < CHANNEL_NUM && i < j < |ops|
    requires Allocates(At(d, t, ops, i), t, ops[i], c) && Allocates(At(d, t, ops, j), t, ops[j], c)
    ensures exists k :: i < k < j && Releases(At(d, t, ops, k), ops[k], c)
  {
    StaysInitialized(d, t, ops, i);
    StaysInitialized(d, t, ops, j);
    AtNext(d, t, ops, i);
    StepOwnership(At(d, t, ops, i), t, ops[i], c);
    StepOwnership(At(d, t, ops, j), t, ops[j], c);
    if forall k :: i < k < j ==> !Releases(At(d, t, ops, k), ops[k], c) {
      StaysOwned(d, t, ops, i + 1, j, c);
    }
  }

  // ----- Conservation -----

  /** The number of channels below n that are not free. */
  function Owned(channels: seq<Channel>, n: nat): nat
    requires n <= |channels|
  {
    if n == 0 then 0 else Owned(channels, n - 1) + if channels[n - 1].state != Free then 1 else 0
  }

  /** What one call adds to the number of owned channels. */
  function Delta(d: Dma, t: Table, op: Op): int
    requires d.Valid() && t.Valid() && op.Valid()
  {
    match op
    case AllocateOp(locked, source, destination) =>
      if Allocate(d, t.pid, t.last, locked, source, destination).1 == ALLOC_FAILED then 0 else 1
    case FreeOp(channel) => if Releases(d, op, Index(channel)) then -1 else 0
    case StopOp(channel) => if StopsFree(d, op, Index(channel)) then 1 else 0
    case _ => 0
  }

  function Balance(d: Dma, t: Table, ops: Ops): int
    requires d.Valid() && t.Valid()
  {
    if ops == [] then 0 else
      Balance(d, t, ops[..|ops| - 1]) + Delta(Run(d, t, ops[..|ops| - 1]), t, ops[|ops| - 1])
  }

  lemma {:induction false} OwnedSame(a: seq<Channel>, b: seq<Channel>, n: nat)
    requires n <= |a| && n <= |b|
    requires forall k :: 0 <= k < n ==> (a[k].state == Free <==> b[k].state == Free)
    ensures Owned(a, n) == Owned(b, n)
  {
    if n != 0 { OwnedSame(a, b, n - 1); }
  }

  lemma {:induction false} OwnedUpdate(a: seq<Channel>, c: nat, channel: Channel, n: nat)
    requires c < n <= |a|
    ensures Owned(a[c := channel], n) ==
            Owned(a, n) + (if channel.state != Free then 1 else 0) - if a[c].state != Free then 1 else 0
  {
    if c == n - 1 { OwnedSame(a[c := channel], a, n - 1); } else { OwnedUpdate(a, c, channel, n - 1); }
  }

  lemma StepConserves(d: Dma, t: Table, op: Op)
    requires d.Valid() && t.Valid() && op.Valid() && d.initialized
    ensures Owned(Step(d, t, op).channels, d.numChannels) == Owned(d.channels, d.numChannels) + Delta(d, t, op)
  {
    var d', n := Step(d, t, op), d.numChannels;
    match op
    case AllocateOp(locked, source, destination) =>
      var c := FirstFree(d, 0);
      if c < n { OwnedUpdate(d.channels, c, Claimed(d.channels[c], t.pid, t.last, source, destination), n); }
    case FreeOp(channel) =>
      var c := Index(channel);
      if c < n { OwnedUpdate(d.channels, c, d'.channels[c], n); }
    case StopOp(channel) =>
      var c := Index(channel);
      if c < n { OwnedUpdate(d.channels, c, d'.channels[c], n); }
    case _ =>
      forall c | 0 <= c < n ensures d.channels[c].state == Free <==> d'.channels[c].state == Free {
        StepOwnership(d, t, op, c);
      }
      OwnedSame(d.channels, d'.channels, n);
  }

  /** Conservation: owned channels are successful allocations, less releasing frees, plus stops of a free channel. */
  lemma {:induction false} Conservation(d: Dma, t: Table, ops: Ops)
    requires Fresh(d) && t.Valid()
    ensures Owned(Run(d, t, ops).channels, d.numChannels) == Balance(d, t, ops)
  {
    if ops == [] {
      NothingOwned(d.channels, d.numChannels);
    } else {
      var k := |ops| - 1;
      Conservation(d, t, ops[..k]);
      StaysInitialized(d, t, ops, k);
      StepConserves(Run(d, t, ops[..k]), t, ops[k]);
    }
  }

  lemma {:induction false} NothingOwned(channels: seq<Channel>, n: nat)
    requires n <= |channels| && forall c :: 0 <= c < |channels| ==> channels[c].state == Free
    ensures Owned(channels, n) == 0
  {
    if n != 0 { NothingOwned(channels, n - 1); }
  }

  /** The in-transfer state is never reached. */
  lemma {:induction false} NeverInTransfer(d: Dma, t: Table, ops: Ops, c: nat)
    requires Fresh(d) && t.Valid() && c < CHANNEL_NUM
    ensures Run(d, t, ops).channels[c].state != InTransfer
  {
    if ops != [] {
      var k := |ops| - 1;
      NeverInTransfer(d, t, ops[..k], c);
      StepIntoTransfer(Run(d, t, ops[..k]), t, ops[k], c);
    }
  }

  lemma StepIntoTransfer(d: Dma, t: Table, op: Op, c: nat)
    requires d.Valid() && t.Valid() && op.Valid() && c < CHANNEL_NUM && d.channels[c].state != InTransfer
    ensures Step(d, t, op).channels[c].state != InTransfer
  {
  }

  // ----- Registers -----

  /** No call writes the transfer registers of a started channel. */
  lemma StepFrozen(d: Dma, t: Table, op: Op, c: nat)
    requires d.Valid() && t.Valid() && op.Valid() && c < CHANNEL_NUM && d.channels[c].state == Start
    ensures Step(d, t, op).registers[c] == d.registers[c]
  {
  }

  /** While a channel is started, its transfer registers keep their contents. */
  lemma {:induction false} FrozenWhileStarted(d: Dma, t: Table, ops: Ops, i: nat, j: nat, c: nat)
    requires d.Valid() && t.Valid() && c < CHANNEL_NUM && i <= j <= |ops|
    requires forall k :: i <= k < j ==> At(d, t, ops, k).channels[c].state == Start
    ensures At(d, t, ops, j).registers[c] == At(d, t, ops, i).registers[c]
    decreases j
  {
    if i < j {
      FrozenWhileStarted(d, t, ops, i, j - 1, c);
      AtNext(d, t, ops, j - 1);
      StepFrozen(At(d, t, ops, j - 1), t, ops[j - 1], c);
    }
  }

  datatype Contents = Unknown | Known(config: Config)

  /** The registers of a transfer without descriptor fetch, field by field. */
  predicate Holds(r: ChannelRegisters, p: Config) {
    && r.sourceAddr == p.source && r.destinationAddr == p.destination
    && r.descriptorAddr == 0 && r.descriptorControl == 0
    && r.microblockControl == p.microblock % 0x100_0000 && r.blockControl == p.block % 0x1000
    && r.config == p.config && r.dataStride == p.dataStride
    && r.sourceStride == p.sourceStride % 0x100_0000 && r.destinationStride == p.destinationStride % 0x100_0000
  }

  /** Op `op` in state d writes transfer registers of channel c. */
  predicate Writes(d: Dma, op: Op, c: nat)
    requires d.Valid()
  {
    && (op.PrepareOp? || op.ConfigureOp?) && c == op.channel % 0x100 && c < d.numChannels
    && d.channels[c].state != Free && d.channels[c].state != Start && (op.PrepareOp? ==> d.channels[c].state != InTransfer)
  }

  /** Whose parameters the history of calls says channel c's registers hold: those of the last
    * accepted Configure without descriptor fetch, unless a Prepare or a fetching Configure followed. */
  function Configured(d: Dma, t: Table, ops: Ops, c: nat): Contents
    requires d.Valid() && t.Valid()
  {
    if ops == [] then Unknown else
      var front, op := ops[..|ops| - 1], ops[|ops| - 1];
      if !Writes(Run(d, t, front), op, c) then Configured(d, t, front, c)
      else if op.ConfigureOp? && op.descriptorConfig % 2 == 0 then Known(op.config)
      else Unknown
  }

  lemma StepWrites(d: Dma, t: Table, op: Op, c: nat)
    requires d.Valid() && t.Valid() && op.Valid() && c < CHANNEL_NUM
    ensures !Writes(d, op, c) ==> Step(d, t, op).registers[c] == d.registers[c]
    ensures Writes(d, op, c) && op.ConfigureOp? && op.descriptorConfig % 2 == 0 ==>
              Holds(Step(d, t, op).registers[c], op.config)
  {
  }

  /** In every run the registers hold the parameters the history of calls says. */
  lemma {:induction false} RegistersMatchHistory(d: Dma, t: Table, ops: Ops, c: nat)
    requires d.Valid() && t.Valid() && c < CHANNEL_NUM
    ensures var r := Configured(d, t, ops, c);
            r.Known? ==> Holds(Run(d, t, ops).registers[c], r.config)
  {
    if ops != [] {
      var front := ops[..|ops| - 1];
      RegistersMatchHistory(d, t, front, c);
      StepWrites(Run(d, t, front), t, ops[|ops| - 1], c);
    }
  }

  // ----- Callbacks -----

  /** The callback and argument of the last accepted SetCallback on channel c. */
  function LastCallback(d: Dma, t: Table, ops: Ops, c: nat): (Callback, int)
    requires d.Valid() && t.Valid()
  {
    if ops == [] then (NoCallback, 0) else
      var front, op := ops[..|ops| - 1], ops[|ops| - 1];
      if op.SetCallbackOp? && Index(op.channel) == c && SetCallback(Run(d, t, front), op.channel, op.callback, op.arg).1 == Ok
      then (op.callback, op.arg) else LastCallback(d, t, front, c)
  }

  lemma StepCallback(d: Dma, t: Table, op: Op, c: nat)
    requires d.Valid() && t.Valid() && op.Valid() && d.initialized && c < CHANNEL_NUM
    ensures var ch, ch' := d.channels[c], Step(d, t, op).channels[c];
            if op.SetCallbackOp? && Index(op.channel) == c && SetCallback(d, op.channel, op.callback, op.arg).1 == Ok
            then ch'.callback == op.callback && ch'.arg == op.arg
            else ch'.callback == ch.callback && ch'.arg == ch.arg
  {
  }

  /** A callback outlives its owner: freeing and allocating a channel leave the last one set in place. */
  lemma {:induction false} CallbackIsLastSet(d: Dma, t: Table, ops: Ops, c: nat)
    requires Fresh(d) && t.Valid() && c < CHANNEL_NUM
    ensures var ch := Run(d, t, ops).channels[c]; (ch.callback, ch.arg) == LastCallback(d, t, ops, c)
  {
    if ops != [] {
      var k := |ops| - 1;
      CallbackIsLastSet(d, t, ops[..k], c);
      StaysInitialized(d, t, ops, k);
      StepCallback(Run(d, t, ops[..k]), t, ops[k], c);
    }
  }

  // ----- Commands -----

  /** The last enable or disable command issued for channel c was an enable. */
  function LastEnabled(commands: seq<Command>, c: nat): bool {
    if commands == [] then false else
      var front, command := commands[..|commands| - 1], commands[|commands| - 1];
      if command == EnableChannel(c) then true
      else if command == DisableChannel(c) then false
      else LastEnabled(front, c)
  }

  lemma {:induction false} LastEnabledAppend(a: seq<Command>, b: seq<Command>, c: nat)
    requires forall i :: 0 <= i < |b| ==> b[i] != EnableChannel(c) && b[i] != DisableChannel(c)
    ensures LastEnabled(a + b, c) == LastEnabled(a, c)
  {
    if b == [] {
      assert a + b == a;
    } else {
      assert (a + b)[..|a + b| - 1] == a + b[..|b| - 1];
      LastEnabledAppend(a, b[..|b| - 1], c);
    }
  }

  /** A started channel was last told to enable, a halted one to disable. */
  predicate CommandsAgree(d: Dma, c: nat)
    requires d.Valid() && c < CHANNEL_NUM
  {
    && (d.channels[c].state == Start ==> LastEnabled(d.commands, c))
    && (d.channels[c].state == Halted ==> !LastEnabled(d.commands, c))
  }

  /** A call about another channel, or one that issues nothing, leaves channel c's last command alone. */
  lemma CommandsElsewhere(d: Dma, t: Table, op: Op, c: nat)
    requires d.Valid() && t.Valid() && op.Valid() && c < CHANNEL_NUM
    requires (op.PrepareOp? || op.StartOp? || op.StopOp?) ==> Index(op.channel) != c
    ensures LastEnabled(Step(d, t, op).commands, c) == LastEnabled(d.commands, c)
  {
    var after := Step(d, t, op).commands;
    assert |after| >= |d.commands| && after == d.commands + after[|d.commands|..];
    LastEnabledAppend(d.commands, after[|d.commands|..], c);
  }

  lemma StateElsewhere(d: Dma, t: Table, op: Op, c: nat)
    requires d.Valid() && t.Valid() && op.Valid() && d.initialized && c < CHANNEL_NUM
    requires (op.StartOp? || op.StopOp?) ==> Index(op.channel) != c
    ensures var state := Step(d, t, op).channels[c].state; state == d.channels[c].state || state in {Free, Allocated, Done}
  {
  }

  lemma StepPrepareCommands(d: Dma, channel: nat)
    requires d.Valid() && Index(channel) < d.numChannels && CommandsAgree(d, Index(channel))
    ensures CommandsAgree(Prepare(d, channel).0, Index(channel))
  {
  }

  lemma StepStartCommands(d: Dma, channel: nat)
    requires d.Valid() && Index(channel) < d.numChannels && CommandsAgree(d, Index(channel))
    ensures CommandsAgree(StartTransfer(d, channel).0, Index(channel))
  {
  }

  lemma StepStopCommands(d: Dma, channel: nat)
    requires d.Valid() && Index(channel) < d.numChannels
    ensures CommandsAgree(StopTransfer(d, channel).0, Index(channel))
  {
  }

  lemma StepCommands(d: Dma, t: Table, op: Op, c: nat)
    requires d.Valid() && t.Valid() && op.Valid() && d.initialized && c < CHANNEL_NUM && CommandsAgree(d, c)
    ensures CommandsAgree(Step(d, t, op), c)
  {
    if (op.PrepareOp? || op.StartOp? || op.StopOp?) && Index(op.channel) == c {
      if c < d.numChannels {
        match op
        case PrepareOp(channel) => StepPrepareCommands(d, channel);
        case StartOp(channel) => StepStartCommands(d, channel);
        case StopOp(channel) => StepStopCommands(d, channel);
      }
    } else {
      CommandsElsewhere(d, t, op, c);
      StateElsewhere(d, t, op, c);
    }
  }

  /** In every run, a started channel was last enabled and a halted one last disabled in the hardware. */
  lemma {:induction false} CommandsMatchStates(d: Dma, t: Table, ops: Ops, c: nat)
    requires Fresh(d) && t.Valid() && c < CHANNEL_NUM
    ensures CommandsAgree(Run(d, t, ops), c)
  {
    if ops != [] {
      var k := |ops| - 1;
      CommandsMatchStates(d, t, ops[..k], c);
      StaysInitialized(d, t, ops, k);
      StepCommands(Run(d, t, ops[..k]), t, ops[k], c);
    }
  }

  // ----- Allocation and the handshake table -----

  /** An allocated channel holds, for each end and direction, the interface of the first row of the table that matches,
    * and has one on its peripheral end. */
  lemma AllocatedHasInterface(d: Dma, t: Table, locked: bool, source: nat, destination: nat)
    requires d.Valid() && t.Valid()
    ensures var (d', c) := Allocate(d, t.pid, t.last, locked, source, destination);
            c != ALLOC_FAILED ==>
              && c < d.numChannels && d.channels[c].state == Free && d'.channels[c].state == Allocated
              && (source == 0xFF || destination == 0xFF)
              && d'.channels[c].source == source && d'.channels[c].destination == destination
              && (forall k :: 0 <= k < c ==> d.channels[k].state != Free)
              && (source != MEMORY ==> d'.channels[c].sourceTx != NO_INTERFACE || d'.channels[c].sourceRx != NO_INTERFACE)
              && (destination != MEMORY ==>
                    d'.channels[c].destinationTx != NO_INTERFACE || d'.channels[c].destinationRx != NO_INTERFACE)
              && FirstMatch(t.pid, source, 0, t.last, d'.channels[c].sourceTx)
              && FirstMatch(t.pid, source, 1, t.last, d'.channels[c].sourceRx)
              && FirstMatch(t.pid, destination, 0, t.last, d'.channels[c].destinationTx)
              && FirstMatch(t.pid, destination, 1, t.last, d'.channels[c].destinationRx)
  {
    ValidatedIff(t.pid, source, t.last);
    ValidatedIff(t.pid, destination, t.last);
    LookupMatches(t.pid, source, 0, t.last);
    LookupMatches(t.pid, source, 1, t.last);
    LookupMatches(t.pid, destination, 0, t.last);
    LookupMatches(t.pid, destination, 1, t.last);
  }

  /** So a channel can be claimed for reading from a peripheral that has no receive interface. */
  lemma AllocatedWithoutInterface(d: Dma, t: Table)
    requires d.Valid() && t.Valid() && t.last >= 14
    requires forall p, p' :: t.pid(p) == t.pid(p') ==> p == p'
    requires exists c :: 0 <= c < d.numChannels && d.channels[c].state == Free
    ensures var (d', c) := Allocate(d, t.pid, t.last, true, t.pid(Pwm0), MEMORY);
            c != ALLOC_FAILED && d'.channels[c].sourceRx == NO_INTERFACE
  {
    DirectionNotValidated(t.pid, t.last);
  }

  /** No row of the table up to the last names the peripheral. */
  predicate NoRow(t: Table, id: nat)
    requires t.Valid()
  {
    forall i :: 0 <= i <= t.last ==> t.pid(Row(i).peripheral) != id
  }

  /** An allocation fails exactly without the lock, between two peripherals, for a peripheral without a row, or with
    * every channel taken. */
  lemma AllocationFailsIff(d: Dma, t: Table, locked: bool, source: nat, destination: nat)
    requires d.Valid() && t.Valid()
    ensures Allocate(d, t.pid, t.last, locked, source, destination).1 == 0xFFFF <==>
            || !locked
            || (source != 0xFF && destination != 0xFF)
            || (source != 0xFF && NoRow(t, source)) || (destination != 0xFF && NoRow(t, destination))
            || forall c :: 0 <= c < d.numChannels ==> d.channels[c].state != Free
  {
  }

  // ----- The dispatcher -----

  lemma {:induction false} CallsExactly(d: Dma, hw: Hardware, k: nat, x: Call)
    requires d.Valid() && hw.Valid() && k <= CHANNEL_NUM
    ensures x in CallsBelow(d, hw, k) <==>
            && x.channel < k && x.channel in hw.pending && Fires(hw, x.channel)
            && d.channels[x.channel].callback == Callback(x.callback) && d.channels[x.channel].arg == x.arg
  {
    if k != 0 { CallsExactly(d, hw, k - 1, x); }
  }

  lemma {:induction false} CallsOrdered(d: Dma, hw: Hardware, k: nat, i: nat, j: nat)
    requires d.Valid() && hw.Valid() && k <= CHANNEL_NUM && i < j < |CallsBelow(d, hw, k)|
    ensures CallsBelow(d, hw, k)[i].channel < CallsBelow(d, hw, k)[j].channel
  {
    var below := CallsBelow(d, hw, k - 1);
    if j < |below| {
      CallsOrdered(d, hw, k - 1, i, j);
    } else {
      CallsExactly(d, hw, k - 1, below[i]);
    }
  }

  /** Interrupt status bit i of channel c is set, and not masked off. */
  predicate Seen(hw: Hardware, c: nat, i: nat)
    requires hw.Valid() && c < CHANNEL_NUM
  {
    i in hw.cause[c] && i in hw.mask[c]
  }

  /** An inactive channel has ended: at a block end (bit 0) with the list end interrupt (bit 1) masked off, at a list
    * end, or at a disable end (bit 2). */
  predicate AtEnd(hw: Hardware, c: nat)
    requires hw.Valid() && c < CHANNEL_NUM
  {
    c !in hw.active && ((Seen(hw, c, 0) && 1 !in hw.mask[c]) || Seen(hw, c, 1) || Seen(hw, c, 2))
  }

  /** An active channel is at a block end of its list, masked or not. */
  predicate AtBlockEnd(hw: Hardware, c: nat)
    requires hw.Valid() && c < CHANNEL_NUM
  {
    c in hw.active && 0 in hw.cause[c]
  }

  lemma EndedInBits(hw: Hardware, c: nat)
    requires hw.Valid() && c < CHANNEL_NUM
    ensures Ended(hw, c) <==> AtEnd(hw, c)
    ensures Fires(hw, c) <==> AtEnd(hw, c) || AtBlockEnd(hw, c)
  {
  }

  /** One pass, in the status bits: with k the least pending free channel, or the channel count, exactly the pending
    * channels below k are served, in order; those that have ended become done and every other channel stays as it
    * is; called back are those that have ended or are live at a block end. */
  lemma DispatcherPass(d: Dma, hw: Hardware, k: nat)
    requires d.Valid() && hw.Valid() && k <= d.numChannels
    requires k < d.numChannels ==> k in hw.pending && d.channels[k].state == Free
    requires forall c :: 0 <= c < k && c in hw.pending ==> d.channels[c].state != Free
    ensures var (d', calls) := Handle(d, hw);
            && d' == d.(channels := d'.channels)
            && (forall c :: 0 <= c < CHANNEL_NUM ==>
                  d'.channels[c] == (if c < k && c in hw.pending && AtEnd(hw, c)
                                     then d.channels[c].(state := Done) else d.channels[c]))
            && (forall x :: x in calls <==>
                  && x.channel < k && x.channel in hw.pending && (AtEnd(hw, x.channel) || AtBlockEnd(hw, x.channel))
                  && d.channels[x.channel].callback == Callback(x.callback) && d.channels[x.channel].arg == x.arg)
            && (forall i, j :: 0 <= i < j < |calls| ==> calls[i].channel < calls[j].channel)
  {
    assert Barrier(d, hw, 0) == k;
    forall c | 0 <= c < CHANNEL_NUM ensures Ended(hw, c) <==> AtEnd(hw, c) { EndedInBits(hw, c); }
    forall x ensures x in CallsBelow(d, hw, k) <==>
        && x.channel < k && x.channel in hw.pending && (AtEnd(hw, x.channel) || AtBlockEnd(hw, x.channel))
        && d.channels[x.channel].callback == Callback(x.callback) && d.channels[x.channel].arg == x.arg {
      CallsExactly(d, hw, k, x);
      if x.channel < CHANNEL_NUM { EndedInBits(hw, x.channel); }
    }
    forall i, j | 0 <= i < j < |CallsBelow(d, hw, k)|
      ensures CallsBelow(d, hw, k)[i].channel < CallsBelow(d, hw, k)[j].channel {
      CallsOrdered(d, hw, k, i, j);
    }
  }

  /** An ordinary single-block transfer: started, at an unmasked block end with list end masked off, it ends and is
    * called back once. */
  lemma SingleBlockEnds(d: Dma, hw: Hardware, id: nat)
    requires d.Valid() && hw.Valid() && d.numChannels > 0 && hw.pending == {0} && hw.active == {}
    requires d.channels[0].state == Start && d.channels[0].callback == Callback(id)
    requires 0 in hw.cause[0] && 0 in hw.mask[0] && 1 !in hw.mask[0]
    ensures var (d', calls) := Handle(d, hw);
            d'.channels[0].state == Done && calls == [Call(0, id, d.channels[0].arg)]
  {
    DispatcherPass(d, hw, d.numChannels);
    var calls := Handle(d, hw).1;
    var x := Call(0, id, d.channels[0].arg);
    assert x in calls;
    forall i | 0 <= i < |calls| ensures calls[i] == x { assert calls[i] in calls; }
    var pair := if |calls| > 1 then (calls[0].channel, calls[1].channel) else (0, 1);
    assert |calls| == 1;
  }
}
