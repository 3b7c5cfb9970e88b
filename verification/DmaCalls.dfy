/** What each call of the DMA driver answers, changes and commands, in states, register fields and status bits. */
module DmaCalls {
  import opened Xdmac
  import opened HandshakeTable
  import opened DmaModel
  import opened DmaRuns
  import DmaDriver

  // ----- Names -----

  /** A channel is named by the low byte, whatever controller number stands above it. */
  lemma ChannelByLowByte(controller: nat, c: nat)
    requires c < 0x100
    ensures Index(0x100 * controller + c) == c
  {
  }

  /** The type register's fields: channels minus one in bits 0 to 4, last request in bits 16 to 23. */
  lemma TypeFields(channels: nat, between: nat, last: nat, above: nat)
    requires 0 < channels <= 0x20 && between < 0x800 && last < 0x100
    ensures var gtype := channels - 1 + 0x20 * between + 0x1_0000 * last + 0x100_0000 * above;
            DmaDriver.ChannelCount(gtype) == channels && DmaDriver.LastRequest(gtype) == last
  {
    var gtype := channels - 1 + 0x20 * between + 0x1_0000 * last + 0x100_0000 * above;
    LowPart(channels - 1, between + 0x800 * last + 0x8_0000 * above);
    HighPart(channels - 1 + 0x20 * between, last, above);
  }

  lemma LowPart(low: nat, rest: nat)
    requires low < 0x20
    ensures (low + 0x20 * rest) % 0x20 == low
  {
  }

  lemma HighPart(low: nat, last: nat, above: nat)
    requires low < 0x1_0000 && last < 0x100
    ensures (low + 0x1_0000 * last + 0x100_0000 * above) / 0x1_0000 % 0x100 == last
  {
    assert (low + 0x1_0000 * last + 0x100_0000 * above) / 0x1_0000 == last + 0x100 * above;
  }

  // ----- Answers -----

  /** The channel a call names is out of range, or has one of the states. */
  predicate Missing(d: Dma, channel: nat) {
    channel % 0x100 >= d.numChannels
  }

  predicate In(d: Dma, channel: nat, states: set<ChannelState>)
    requires d.Valid()
  {
    channel % 0x100 < d.numChannels && d.channels[channel % 0x100].state in states
  }

  /** Which calls are refused, and how. */
  lemma Answers(d: Dma, channel: nat, callback: Callback, arg: int, p: Config, dc: nat, da: nat, irqs: nat)
    requires d.Valid()
    ensures var rc := FreeChannel(d, channel).1;
            && (rc == Error <==> Missing(d, channel)) && (rc == Busy <==> In(d, channel, {Allocated, Start, InTransfer}))
    ensures var rc := SetCallback(d, channel, callback, arg).1;
            && (rc == Error <==> Missing(d, channel) || In(d, channel, {Free})) && (rc == Busy <==> In(d, channel, {Start}))
    ensures var rc := Prepare(d, channel).1;
            && (rc == Error <==> Missing(d, channel) || In(d, channel, {Free}))
            && (rc == Busy <==> In(d, channel, {Start, InTransfer}))
    ensures var rc := Configure(d, channel, p, dc, da, irqs).1;
            && (rc == Error <==> Missing(d, channel) || In(d, channel, {Free})) && (rc == Busy <==> In(d, channel, {Start}))
    ensures var rc := StartTransfer(d, channel).1;
            && (rc == Error <==> Missing(d, channel) || In(d, channel, {Free})) && (rc == Busy <==> In(d, channel, {Start}))
    ensures var rc := StopTransfer(d, channel).1;
            && (rc == Error <==> Missing(d, channel)) && rc != Busy
  {
  }

  /** A refused call changes nothing, and neither does a Free of a free channel. */
  lemma RefusedChangesNothing(d: Dma, channel: nat, callback: Callback, arg: int, p: Config, dc: nat, da: nat, irqs: nat)
    requires d.Valid()
    ensures FreeChannel(d, channel).1 != Ok || In(d, channel, {Free}) ==> FreeChannel(d, channel).0 == d
    ensures SetCallback(d, channel, callback, arg).1 != Ok ==> SetCallback(d, channel, callback, arg).0 == d
    ensures Prepare(d, channel).1 != Ok ==> Prepare(d, channel).0 == d
    ensures Configure(d, channel, p, dc, da, irqs).1 != Ok ==> Configure(d, channel, p, dc, da, irqs).0 == d
    ensures StartTransfer(d, channel).1 != Ok ==> StartTransfer(d, channel).0 == d
    ensures StopTransfer(d, channel).1 != Ok ==> StopTransfer(d, channel).0 == d
  {
  }

  lemma RefusedAllocation(d: Dma, t: Table, locked: bool, source: nat, destination: nat)
    requires d.Valid() && t.Valid()
    ensures Allocate(d, t.pid, t.last, locked, source, destination).1 == 0xFFFF ==>
              Allocate(d, t.pid, t.last, locked, source, destination).0 == d
  {
  }

  /** The answer of a completion query, and when it runs a handler pass. */
  lemma CompletionAnswer(d: Dma, channel: nat, hw: Hardware)
    requires d.Valid() && hw.Valid()
    ensures var (d', calls, rc) := IsTransferDone(d, channel, hw);
            && (rc == Error <==> Missing(d, channel) || In(d, channel, {Free}))
            && (rc == Ok <==> In(d, channel, {Allocated, Done}))
            && (rc == Busy && d.polling ==> (d', calls) == Handle(d, hw))
            && (rc != Busy || !d.polling ==> d' == d && calls == [])
  {
  }

  // ----- States -----

  /** Op `op` names channel c. */
  predicate Names(op: Op, c: nat) {
    (op.FreeOp? || op.SetCallbackOp? || op.PrepareOp? || op.ConfigureOp? || op.StartOp? || op.StopOp?) && op.channel % 0x100 == c
  }

  /** Every change of a channel's state, and the call that makes it. */
  lemma StateGraph(d: Dma, t: Table, op: Op, c: nat)
    requires d.Valid() && t.Valid() && op.Valid() && d.initialized && c < CHANNEL_NUM
    ensures var was, now, here := d.channels[c].state, Step(d, t, op).channels[c].state, Names(op, c) && c < d.numChannels;
            && (now == Allocated && was != Allocated ==> op.AllocateOp? && was == Free)
            && (now == Start && was != Start <==> op.StartOp? && here && was != Free && was != Start)
            && (now == Halted && was != Halted <==> op.StopOp? && here && was != Halted)
            && (now == Free && was != Free <==> op.FreeOp? && here && was in {Done, Halted})
            && (now == Done && was != Done ==> was != Free && (op.HandlerOp? || (op.IsDoneOp? && d.polling)))
            && (now == InTransfer ==> was == InTransfer)
  {
  }

  /** What a call leaves alone: its mode, every channel it neither names nor claims nor serves, and every register
    * block of a channel it does not prepare or configure. */
  lemma Untouched(d: Dma, t: Table, op: Op, c: nat)
    requires d.Valid() && t.Valid() && op.Valid() && d.initialized && c < CHANNEL_NUM
    ensures var d' := Step(d, t, op);
            && d'.polling == d.polling && d'.numChannels == d.numChannels && d'.initialized
            && (!Names(op, c) && !Allocates(d, t, op, c) && !op.HandlerOp? && !(op.IsDoneOp? && d.polling) ==>
                  d'.channels[c] == d.channels[c])
            && (!((op.PrepareOp? || op.ConfigureOp?) && Names(op, c)) ==> d'.registers[c] == d.registers[c])
  {
  }

  /** Initialization takes the channel count and the mode it is given, once. */
  lemma InitializedOnce(d: Dma, polling: bool, count: nat, again: bool, count': nat)
    requires DmaModel.Untouched(d) && 0 < count <= CHANNEL_NUM && count' <= CHANNEL_NUM
    ensures var d' := Initialize(d, polling, count);
            d'.initialized && d'.polling == polling && d'.numChannels == count && Initialize(d', again, count') == d'
  {
  }

  // ----- Registers and commands -----

  /** A prepared channel: addresses, block length and descriptor cleared, configuration 0x20, the rest kept; its
    * interrupts and then the channel itself disabled. */
  lemma Prepared(d: Dma, channel: nat)
    requires d.Valid() && Prepare(d, channel).1 == Ok
    ensures var c, d' := channel % 0x100, Prepare(d, channel).0;
            var r, r' := d.registers[c], d'.registers[c];
            && r'.sourceAddr == 0 && r'.destinationAddr == 0 && r'.blockControl == 0 && r'.config == 0x20
            && r'.descriptorAddr == 0 && r'.descriptorControl == 0
            && r'.microblockControl == r.microblockControl && r'.dataStride == r.dataStride
            && r'.sourceStride == r.sourceStride && r'.destinationStride == r.destinationStride
            && d'.channels == d.channels
            && d'.commands == d.commands + [DisableGlobalIrq(c), DisableChannelIrq(c, 0xFF), DisableChannel(c)]
  {
  }

  /** A transfer configured without descriptor fetch enables the wanted interrupts and no more. */
  lemma ConfiguredPlain(d: Dma, channel: nat, p: Config, dc: nat, da: nat, irqs: nat)
    requires d.Valid() && Configure(d, channel, p, dc, da, irqs).1 == Ok && dc % 2 == 0
    ensures var c, d' := channel % 0x100, Configure(d, channel, p, dc, da, irqs).0;
            && Holds(d'.registers[c], p) && d'.channels == d.channels
            && d'.commands == d.commands + [EnableChannelIrq(c, irqs % 0x100)]
  {
  }

  /** With descriptor fetch, the view in bits 3 and 4 says what is written besides the descriptor registers. */
  lemma ConfiguredFetching(d: Dma, channel: nat, p: Config, above: nat, view: nat, below: nat, da: nat, irqs: nat)
    requires d.Valid() && view < 4 && below < 4
    requires Configure(d, channel, p, 0x20 * above + 8 * view + 2 * below + 1, da, irqs).1 == Ok
    ensures var dc := 0x20 * above + 8 * view + 2 * below + 1;
            var c, d' := channel % 0x100, Configure(d, channel, p, dc, da, irqs).0;
            var r, r' := d.registers[c], d'.registers[c];
            && r'.config == (if view <= 1 then p.config else r.config)
            && r'.sourceAddr == (if view == 0 then p.source else r.sourceAddr)
            && r'.destinationAddr == (if view == 0 then p.destination else r.destinationAddr)
            && r'.descriptorAddr == da - da % 4 && r'.descriptorControl == dc % 0x100
            && r'.microblockControl == r.microblockControl && r'.blockControl == r.blockControl
            && r'.dataStride == r.dataStride && r'.sourceStride == r.sourceStride
            && r'.destinationStride == r.destinationStride && d'.channels == d.channels
            && d'.commands == d.commands + [DisableChannelIrq(c, 0xFF), EnableChannelIrq(c, irqs % 0x100)]
  {
    DescriptorBits(above, view, below);
    AlignedDown(da);
  }

  lemma DescriptorBits(above: nat, view: nat, below: nat)
    requires view < 4 && below < 4
    ensures var dc := 0x20 * above + 8 * view + 2 * below + 1; Fetches(dc) && View(dc) == view
  {
    assert (0x20 * above + 8 * view + 2 * below + 1) / 8 == 4 * above + view;
  }

  lemma AlignedDown(addr: nat)
    ensures WordAligned(addr) == addr - addr % 4
  {
  }

  /** Starting enables the channel, and its interrupt unless the driver polls; stopping disables both. */
  lemma StartedAndStopped(d: Dma, channel: nat)
    requires d.Valid()
    ensures StartTransfer(d, channel).1 == Ok ==>
              var c, d' := channel % 0x100, StartTransfer(d, channel).0;
              && d'.channels[c] == d.channels[c].(state := Start)
              && d'.commands == d.commands + if d.polling then [EnableChannel(c)] else [EnableChannel(c), EnableGlobalIrq(c)]
    ensures StopTransfer(d, channel).1 == Ok ==>
              var c, d' := channel % 0x100, StopTransfer(d, channel).0;
              && d'.channels[c] == d.channels[c].(state := Halted)
              && d'.commands == d.commands + [DisableChannel(c), DisableChannelIrq(c, 0xFF)]
  {
  }

  // ----- Interrupts over runs -----

  /** The last command about channel c's global interrupt was to enable it. */
  function IrqEnabled(commands: seq<Command>, c: nat): bool {
    if commands == [] then false else
      var front, command := commands[..|commands| - 1], commands[|commands| - 1];
      if command == EnableGlobalIrq(c) then true
      else if command == DisableGlobalIrq(c) then false
      else IrqEnabled(front, c)
  }

  lemma {:induction false} IrqEnabledAppend(a: seq<Command>, b: seq<Command>, c: nat)
    requires forall i :: 0 <= i < |b| ==> b[i] != EnableGlobalIrq(c) && b[i] != DisableGlobalIrq(c)
    ensures IrqEnabled(a + b, c) == IrqEnabled(a, c)
  {
    if b == [] {
      assert a + b == a;
    } else {
      assert (a + b)[..|a + b| - 1] == a + b[..|b| - 1];
      IrqEnabledAppend(a, b[..|b| - 1], c);
    }
  }

  lemma {:induction false} NeverEnabled(a: seq<Command>, b: seq<Command>, c: nat)
    requires !IrqEnabled(a, c) && forall i :: 0 <= i < |b| ==> b[i] != EnableGlobalIrq(c)
    ensures !IrqEnabled(a + b, c)
  {
    if b == [] {
      assert a + b == a;
    } else {
      assert (a + b)[..|a + b| - 1] == a + b[..|b| - 1];
      NeverEnabled(a, b[..|b| - 1], c);
    }
  }

  /** A polling driver never enables a channel's interrupt; otherwise a started channel has it enabled. */
  predicate IrqAgrees(d: Dma, c: nat)
    requires d.Valid() && c < CHANNEL_NUM
  {
    && (d.polling ==> !IrqEnabled(d.commands, c))
    && (!d.polling && d.channels[c].state == Start ==> IrqEnabled(d.commands, c))
  }

  /** The commands a call issues. */
  function Issued(d: Dma, t: Table, op: Op): seq<Command>
    requires d.Valid() && t.Valid() && op.Valid()
  {
    var after := Step(d, t, op).commands;
    if |after| < |d.commands| then [] else after[|d.commands|..]
  }

  lemma IssuedAppends(d: Dma, t: Table, op: Op)
    requires d.Valid() && t.Valid() && op.Valid()
    ensures Step(d, t, op).commands == d.commands + Issued(d, t, op)
  {
  }

  /** Only an accepted Start enables a channel's interrupt, and only an accepted Prepare disables it. */
  lemma EnablesByStart(d: Dma, t: Table, op: Op, c: nat)
    requires d.Valid() && t.Valid() && op.Valid() && EnableGlobalIrq(c) in Issued(d, t, op)
    ensures op.StartOp? && !d.polling && Names(op, c) && StartTransfer(d, op.channel).1 == Ok
  {
  }

  lemma DisablesByPrepare(d: Dma, t: Table, op: Op, c: nat)
    requires d.Valid() && t.Valid() && op.Valid() && DisableGlobalIrq(c) in Issued(d, t, op)
    ensures op.PrepareOp? && In(d, c, {Allocated, Done, Halted})
  {
  }

  lemma StartIrq(d: Dma, channel: nat)
    requires d.Valid() && StartTransfer(d, channel).1 == Ok && !d.polling
    ensures IrqEnabled(StartTransfer(d, channel).0.commands, channel % 0x100)
  {
  }

  lemma StepIrq(d: Dma, t: Table, op: Op, c: nat)
    requires d.Valid() && t.Valid() && op.Valid() && d.initialized && c < CHANNEL_NUM && IrqAgrees(d, c)
    ensures IrqAgrees(Step(d, t, op), c)
  {
    var b := Issued(d, t, op);
    IssuedAppends(d, t, op);
    StateGraph(d, t, op, c);
    ModeKept(d, t, op);
    if EnableGlobalIrq(c) in b {
      EnablesByStart(d, t, op, c);
      StartIrq(d, op.channel);
    } else {
      if !IrqEnabled(d.commands, c) { NeverEnabled(d.commands, b, c); }
      if DisableGlobalIrq(c) in b { DisablesByPrepare(d, t, op, c); } else { IrqEnabledAppend(d.commands, b, c); }
    }
  }

  lemma ModeKept(d: Dma, t: Table, op: Op)
    requires d.Valid() && t.Valid() && op.Valid() && d.initialized
    ensures Step(d, t, op).polling == d.polling
  {
  }

  /** In every run a polling driver leaves all channel interrupts off, and otherwise each started channel's is on. */
  lemma {:induction false} InterruptsMatchMode(d: Dma, t: Table, ops: Ops, c: nat)
    requires Fresh(d) && t.Valid() && c < CHANNEL_NUM
    ensures Run(d, t, ops).polling == d.polling && IrqAgrees(Run(d, t, ops), c)
  {
    if ops != [] {
      var k := |ops| - 1;
      InterruptsMatchMode(d, t, ops[..k], c);
      StaysInitialized(d, t, ops, k);
      ModeKept(Run(d, t, ops[..k]), t, ops[k]);
      StepIrq(Run(d, t, ops[..k]), t, ops[k], c);
    }
  }
}
