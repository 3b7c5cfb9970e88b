/** What each call of the DMA driver does, as a function on the driver's state. */
module DmaModel {
  import opened Xdmac
  import opened HandshakeTable

  const ALLOC_FAILED: nat := 0xFFFF
  const PREPARED_CONFIG: nat := 0x20
  const ALL_IRQS: nat := 0xFF

  datatype ChannelState = Free | Allocated | Start | InTransfer | Done | Halted

  datatype Callback = NoCallback | Callback(id: nat)

  datatype Channel = Channel(
    state: ChannelState, callback: Callback, arg: int, source: nat, destination: nat,
    sourceTx: nat, sourceRx: nat, destinationTx: nat, destinationRx: nat)

  const CLEARED: Channel := Channel(Free, NoCallback, 0, 0, 0, 0, 0, 0, 0)

  datatype Dma = Dma(
    initialized: bool, numChannels: nat, polling: bool,
    channels: seq<Channel>, registers: seq<ChannelRegisters>, commands: seq<Command>)
  {
    predicate Valid() {
      |channels| == CHANNEL_NUM && |registers| == CHANNEL_NUM && numChannels <= CHANNEL_NUM
    }

    function WithState(c: nat, state: ChannelState): Dma
      requires c < |channels|
    {
      this.(channels := channels[c := channels[c].(state := state)])
    }
  }

  /** Before initialization: static storage, all zero, and nothing written to the controller. */
  predicate Untouched(d: Dma) {
    && d.Valid() && !d.initialized && d.numChannels == 0 && d.commands == []
    && forall c :: 0 <= c < CHANNEL_NUM ==> d.channels[c] == CLEARED
  }

  datatype Rc = Ok | Busy | Error

  datatype Config = Config(
    microblock: nat, source: nat, destination: nat, config: nat,
    block: nat, dataStride: nat, sourceStride: nat, destinationStride: nat)

  /** A call names its channel by the low byte of its argument. */
  function Index(channel: nat): nat {
    channel % 0x100
  }

  // ----- Initialize, Allocate, Free -----

  function Initialize(d: Dma, polling: bool, numChannels: nat): Dma
    requires d.Valid() && numChannels <= CHANNEL_NUM
  {
    if d.initialized then d
    else d.(initialized := true, polling := polling, numChannels := numChannels,
            channels := seq(CHANNEL_NUM, c requires 0 <= c < CHANNEL_NUM => if c < numChannels then CLEARED else d.channels[c]))
  }

  predicate Acceptable(pid: Ids, last: nat, source: nat, destination: nat)
    requires last < TABLE_SIZE
  {
    && (source == MEMORY || destination == MEMORY)
    && (destination == MEMORY ==> Validated(pid, source, last))
    && (source == MEMORY ==> Validated(pid, destination, last))
  }

  function FirstFree(d: Dma, i: nat): (c: nat)
    requires d.Valid() && i <= d.numChannels
    ensures i <= c <= d.numChannels
    ensures c < d.numChannels ==> d.channels[c].state == Free
    ensures forall k :: i <= k < c ==> d.channels[k].state != Free
    decreases d.numChannels - i
  {
    if i == d.numChannels || d.channels[i].state == Free then i else FirstFree(d, i + 1)
  }

  function Claimed(channel: Channel, pid: Ids, last: nat, source: nat, destination: nat): Channel
    requires last < TABLE_SIZE
  {
    channel.(state := Allocated, source := source, destination := destination,
             sourceTx := Lookup(pid, source, 0, last), sourceRx := Lookup(pid, source, 1, last),
             destinationTx := Lookup(pid, destination, 0, last), destinationRx := Lookup(pid, destination, 1, last))
  }

  /** `locked` says whether the allocation semaphore was obtained. */
  function Allocate(d: Dma, pid: Ids, last: nat, locked: bool, source: nat, destination: nat): (Dma, nat)
    requires d.Valid() && last < TABLE_SIZE
  {
    var c := FirstFree(d, 0);
    if !locked || !Acceptable(pid, last, source, destination) || c == d.numChannels then (d, ALLOC_FAILED)
    else (d.(channels := d.channels[c := Claimed(d.channels[c], pid, last, source, destination)]), c)
  }

  function FreeChannel(d: Dma, channel: nat): (Dma, Rc)
    requires d.Valid()
  {
    var c := Index(channel);
    if c >= d.numChannels then (d, Error)
    else match d.channels[c].state
      case Allocated | Start | InTransfer => (d, Busy)
      case Done | Halted => (d.WithState(c, Free), Ok)
      case Free => (d, Ok)
  }

  // ----- Callback, Prepare, Configure -----

  function SetCallback(d: Dma, channel: nat, callback: Callback, arg: int): (Dma, Rc)
    requires d.Valid()
  {
    var c := Index(channel);
    if c >= d.numChannels || d.channels[c].state == Free then (d, Error)
    else if d.channels[c].state == Start then (d, Busy)
    else (d.(channels := d.channels[c := d.channels[c].(callback := callback, arg := arg)]), Ok)
  }

  function PreparedRegisters(r: ChannelRegisters): ChannelRegisters {
    r.(sourceAddr := 0, destinationAddr := 0, blockControl := 0, config := PREPARED_CONFIG,
       descriptorAddr := 0, descriptorControl := 0)
  }

  function Prepare(d: Dma, channel: nat): (Dma, Rc)
    requires d.Valid()
  {
    var c := Index(channel);
    if c >= d.numChannels || d.channels[c].state == Free then (d, Error)
    else if d.channels[c].state == Start || d.channels[c].state == InTransfer then (d, Busy)
    else (d.(registers := d.registers[c := PreparedRegisters(d.registers[c])],
             commands := d.commands + [DisableGlobalIrq(c), DisableChannelIrq(c, ALL_IRQS), DisableChannel(c)]), Ok)
  }

  /** Descriptor fetch is bit 0 of the descriptor configuration, its view bits 3 and 4. */
  predicate Fetches(descriptorConfig: nat) {
    descriptorConfig % 2 == 1
  }

  function View(descriptorConfig: nat): nat {
    descriptorConfig / 8 % 4
  }

  function FetchedRegisters(r: ChannelRegisters, p: Config, descriptorConfig: nat, descriptorAddr: nat): ChannelRegisters {
    var viewed :=
      if View(descriptorConfig) == 0 then r.(config := p.config, sourceAddr := p.source, destinationAddr := p.destination)
      else if View(descriptorConfig) == 1 then r.(config := p.config)
      else r;
    viewed.(descriptorAddr := WordAligned(descriptorAddr), descriptorControl := Low8(descriptorConfig))
  }

  /** The parameters of a transfer without descriptor fetch, as the masked registers hold them. */
  function MaskedRegisters(p: Config): ChannelRegisters {
    ChannelRegisters(p.source, p.destination, 0, 0, Field24(p.microblock), Field12(p.block), p.config,
                     p.dataStride, Field24(p.sourceStride), Field24(p.destinationStride))
  }

  function Configure(d: Dma, channel: nat, p: Config, descriptorConfig: nat, descriptorAddr: nat, irqs: nat): (Dma, Rc)
    requires d.Valid()
  {
    var c := Index(channel);
    if c >= d.numChannels || d.channels[c].state == Free then (d, Error)
    else if d.channels[c].state == Start then (d, Busy)
    else if Fetches(descriptorConfig) then
      (d.(registers := d.registers[c := FetchedRegisters(d.registers[c], p, descriptorConfig, descriptorAddr)],
          commands := d.commands + [DisableChannelIrq(c, ALL_IRQS), EnableChannelIrq(c, Low8(irqs))]), Ok)
    else
      (d.(registers := d.registers[c := MaskedRegisters(p)],
          commands := d.commands + [EnableChannelIrq(c, Low8(irqs))]), Ok)
  }

  // ----- Start, Stop -----

  function StartTransfer(d: Dma, channel: nat): (Dma, Rc)
    requires d.Valid()
  {
    var c := Index(channel);
    if c >= d.numChannels || d.channels[c].state == Free then (d, Error)
    else if d.channels[c].state == Start then (d, Busy)
    else (d.WithState(c, Start).(commands := d.commands + [EnableChannel(c)] + if d.polling then [] else [EnableGlobalIrq(c)]), Ok)
  }

  function StopTransfer(d: Dma, channel: nat): (Dma, Rc)
    requires d.Valid()
  {
    var c := Index(channel);
    if c >= d.numChannels then (d, Error)
    else (d.WithState(c, Halted).(commands := d.commands + [DisableChannel(c), DisableChannelIrq(c, ALL_IRQS)]), Ok)
  }

  // ----- The interrupt handler -----

  /** A status register, as the set of its one bits. */
  type Status = set<nat>

  const BLOCK_END: nat := 0
  const LIST_END: nat := 1
  const DISABLE_END: nat := 2

  /** What one pass reads from the hardware: global interrupt and channel status, channel status and masks. */
  datatype Hardware = Hardware(pending: Status, active: Status, cause: seq<Status>, mask: seq<Status>) {
    predicate Valid() {
      |cause| == CHANNEL_NUM && |mask| == CHANNEL_NUM
    }
  }

  datatype Call = Call(channel: nat, callback: nat, arg: int)

  /** Channel c has ended: its masked causes hold block end (with list end masked off), list end or disable end. */
  predicate Ended(hw: Hardware, c: nat)
    requires hw.Valid() && c < CHANNEL_NUM
  {
    var masked := hw.cause[c] * hw.mask[c];
    c !in hw.active && (|| (BLOCK_END in masked && LIST_END !in hw.mask[c]) || LIST_END in masked || DISABLE_END in masked)
  }

  /** Channel c wants its callback: it has ended, or is live and at a block end. */
  predicate Fires(hw: Hardware, c: nat)
    requires hw.Valid() && c < CHANNEL_NUM
  {
    if c in hw.active then BLOCK_END in hw.cause[c] else Ended(hw, c)
  }

  /** Where the pass stops: the least pending free channel, or the channel count. */
  function Barrier(d: Dma, hw: Hardware, i: nat): (k: nat)
    requires d.Valid() && i <= d.numChannels
    ensures i <= k <= d.numChannels
    ensures k < d.numChannels ==> k in hw.pending && d.channels[k].state == Free
    ensures forall c :: i <= c < k ==> !(c in hw.pending && d.channels[c].state == Free)
    decreases d.numChannels - i
  {
    if i == d.numChannels || (i in hw.pending && d.channels[i].state == Free) then i else Barrier(d, hw, i + 1)
  }

  function Visited(d: Dma, hw: Hardware, k: nat): (channels: seq<Channel>)
    requires d.Valid() && hw.Valid()
    ensures |channels| == CHANNEL_NUM
  {
    seq(CHANNEL_NUM, c requires 0 <= c < CHANNEL_NUM =>
      if c < k && c in hw.pending && Ended(hw, c) then d.channels[c].(state := Done) else d.channels[c])
  }

  function CallOf(d: Dma, hw: Hardware, c: nat): seq<Call>
    requires d.Valid() && hw.Valid() && c < CHANNEL_NUM
  {
    if c in hw.pending && Fires(hw, c) && d.channels[c].callback.Callback?
    then [Call(c, d.channels[c].callback.id, d.channels[c].arg)] else []
  }

  function CallsBelow(d: Dma, hw: Hardware, k: nat): seq<Call>
    requires d.Valid() && hw.Valid() && k <= CHANNEL_NUM
  {
    if k == 0 then [] else CallsBelow(d, hw, k - 1) + CallOf(d, hw, k - 1)
  }

  function Handle(d: Dma, hw: Hardware): (Dma, seq<Call>)
    requires d.Valid() && hw.Valid()
  {
    var k := Barrier(d, hw, 0);
    (d.(channels := Visited(d, hw, k)), CallsBelow(d, hw, k))
  }

  /** Servicing channel c turns the channels visited below c into those visited below c + 1. */
  lemma VisitNext(d: Dma, hw: Hardware, c: nat)
    requires d.Valid() && hw.Valid() && c < CHANNEL_NUM
    ensures Visited(d, hw, c)[c] == d.channels[c]
    ensures Visited(d, hw, c + 1) == if c in hw.pending && Ended(hw, c)
                                     then Visited(d, hw, c)[c := d.channels[c].(state := Done)] else Visited(d, hw, c)
  {
  }

  lemma {:induction false} NothingPending(d: Dma, hw: Hardware, k: nat)
    requires d.Valid() && hw.Valid() && k <= CHANNEL_NUM
    requires forall c :: 0 <= c < CHANNEL_NUM ==> c !in hw.pending
    ensures Visited(d, hw, k) == d.channels && CallsBelow(d, hw, k) == []
  {
    if k != 0 { NothingPending(d, hw, k - 1); }
  }

  function IsTransferDone(d: Dma, channel: nat, hw: Hardware): (Dma, seq<Call>, Rc)
    requires d.Valid() && hw.Valid()
  {
    var c := Index(channel);
    if c >= d.numChannels then (d, [], Error)
    else match d.channels[c].state
      case Allocated | Done => (d, [], Ok)
      case Free => (d, [], Error)
      case Start | InTransfer | Halted =>
        if d.polling then var (d', calls) := Handle(d, hw); (d', calls, Busy) else (d, [], Busy)
  }
}
