/** The DMA driver: its calls as the source runs them, each proved against DmaModel.
  *
  * Premises: each call is one atomic step; the controller's type register reports at most 24
  * channels and a request count inside the handshake table; callbacks do not touch the driver.
  */
module DmaDriver {
  import opened Xdmac
  import opened HandshakeTable
  import Spec = DmaModel

  type Channel = Spec.Channel
  type Dma = Spec.Dma
  type Rc = Spec.Rc

  /** The fields of the controller's type register: channels minus one, and last request index. */
  function ChannelCount(gtype: nat): nat { gtype % 0x20 + 1 }
  function LastRequest(gtype: nat): nat { gtype / 0x1_0000 % 0x100 }

  class Driver {
    const pid: Ids
    const gtype: nat
    const xdmac: Controller
    const channels: array<Channel>
    var initialized: bool
    var numChannels: nat
    var polling: bool

    ghost predicate Valid()
      reads this, xdmac
    {
      && xdmac.Valid() && channels.Length == CHANNEL_NUM && numChannels <= CHANNEL_NUM
      && ChannelCount(gtype) <= CHANNEL_NUM && LastRequest(gtype) < TABLE_SIZE
    }

    ghost function State(): (d: Dma)
      requires Valid()
      reads this, xdmac, xdmac.channel, channels
      ensures d.Valid()
    {
      Spec.Dma(initialized, numChannels, polling, channels[..], xdmac.channel[..], xdmac.commands)
    }

    constructor (pid: Ids, gtype: nat)
      requires ChannelCount(gtype) <= CHANNEL_NUM && LastRequest(gtype) < TABLE_SIZE
      ensures Valid() && Spec.Untouched(State())
      ensures fresh(channels) && fresh(xdmac) && fresh(xdmac.channel)
    {
      this.pid, this.gtype := pid, gtype;
      xdmac := new Controller();
      channels := new Channel[CHANNEL_NUM](_ => Spec.CLEARED);
      initialized, numChannels, polling := false, 0, false;
    }

    method Initialize(pollingMode: bool)
      requires Valid()
      modifies this`initialized, this`numChannels, this`polling, channels
      ensures Valid() && State() == Spec.Initialize(old(State()), pollingMode, ChannelCount(gtype))
    {
      if initialized { return; }
      polling := pollingMode;
      numChannels := ChannelCount(gtype);
      for j := 0 to numChannels
        modifies channels
        invariant forall c :: 0 <= c < j ==> channels[c] == Spec.CLEARED
        invariant forall c :: j <= c < CHANNEL_NUM ==> channels[c] == old(channels[c])
      {
        channels[j] := Spec.CLEARED;
      }
      initialized := true;
      assert channels[..] == Spec.Initialize(old(State()), pollingMode, ChannelCount(gtype)).channels;
    }

    method AllocateXdmacChannel(source: nat, destination: nat) returns (channel: nat)
      requires Valid()
      modifies channels
      ensures Valid()
      ensures (State(), channel) == Spec.Allocate(old(State()), pid, LastRequest(gtype), true, source, destination)
    {
      var last := LastRequest(gtype);
      if source != MEMORY && destination != MEMORY { return Spec.ALLOC_FAILED; }
      if destination == MEMORY {
        var valid := IsValidatedPeripheral(pid, source, last);
        if !valid { return Spec.ALLOC_FAILED; }
      }
      if source == MEMORY {
        var valid := IsValidatedPeripheral(pid, destination, last);
        if !valid { return Spec.ALLOC_FAILED; }
      }
      var i := 0;
      while i < numChannels
        invariant i <= numChannels
        invariant channels[..] == old(channels[..])
        invariant Spec.FirstFree(old(State()), 0) == Spec.FirstFree(old(State()), i)
      {
        if channels[i].state == Spec.Free {
          var sourceTx := GetChannelNumber(pid, source, 0, last);
          var sourceRx := GetChannelNumber(pid, source, 1, last);
          var destinationTx := GetChannelNumber(pid, destination, 0, last);
          var destinationRx := GetChannelNumber(pid, destination, 1, last);
          channels[i] := channels[i].(state := Spec.Allocated, source := source, destination := destination,
                                      sourceTx := sourceTx, sourceRx := sourceRx,
                                      destinationTx := destinationTx, destinationRx := destinationRx);
          return i;
        }
        i := i + 1;
      }
      return Spec.ALLOC_FAILED;
    }

    /** `locked` is whether the allocation semaphore was obtained. */
    method AllocateChannel(locked: bool, source: nat, destination: nat) returns (channel: nat)
      requires Valid()
      modifies channels
      ensures Valid()
      ensures (State(), channel) == Spec.Allocate(old(State()), pid, LastRequest(gtype), locked, source, destination)
    {
      if locked {
        channel := AllocateXdmacChannel(source, destination);
      } else {
        channel := Spec.ALLOC_FAILED;
      }
    }

    method FreeChannel(channel: nat) returns (rc: Rc)
      requires Valid()
      modifies channels
      ensures Valid() && (State(), rc) == Spec.FreeChannel(old(State()), channel)
    {
      var c := Spec.Index(channel);
      if c >= numChannels { return Spec.Error; }
      match channels[c].state {
        case Allocated | Start | InTransfer => return Spec.Busy;
        case Done | Halted => channels[c] := channels[c].(state := Spec.Free);
        case Free =>
      }
      return Spec.Ok;
    }

    method SetCallback(channel: nat, callback: Spec.Callback, arg: int) returns (rc: Rc)
      requires Valid()
      modifies channels
      ensures Valid() && (State(), rc) == Spec.SetCallback(old(State()), channel, callback, arg)
    {
      var c := Spec.Index(channel);
      if c >= numChannels { return Spec.Error; }
      if channels[c].state == Spec.Free {
        return Spec.Error;
      } else if channels[c].state == Spec.Start {
        return Spec.Busy;
      }
      channels[c] := channels[c].(callback := callback, arg := arg);
      return Spec.Ok;
    }

    method PrepareChannel(channel: nat) returns (rc: Rc)
      requires Valid()
      modifies xdmac, xdmac.channel
      ensures Valid() && (State(), rc) == Spec.Prepare(old(State()), channel)
    {
      var c := Spec.Index(channel);
      if c >= numChannels { return Spec.Error; }
      if channels[c].state == Spec.Free {
        return Spec.Error;
      } else if channels[c].state == Spec.Start || channels[c].state == Spec.InTransfer {
        return Spec.Busy;
      }
      xdmac.Issue(DisableGlobalIrq(c));
      xdmac.Issue(DisableChannelIrq(c, Spec.ALL_IRQS));
      xdmac.Issue(DisableChannel(c));
      xdmac.SetSourceAddr(c, 0);
      xdmac.SetDestinationAddr(c, 0);
      xdmac.SetBlockControl(c, 0);
      xdmac.SetChannelConfig(c, Spec.PREPARED_CONFIG);
      xdmac.SetDescriptorAddr(c, 0, 0);
      xdmac.SetDescriptorControl(c, 0);
      assert xdmac.commands == old(xdmac.commands) +
             [DisableGlobalIrq(c), DisableChannelIrq(c, Spec.ALL_IRQS), DisableChannel(c)];
      assert xdmac.channel[..] == old(xdmac.channel[..])[c := Spec.PreparedRegisters(old(xdmac.channel[c]))];
      return Spec.Ok;
    }

    method ConfigureWithDescriptorFetch(c: nat, p: Spec.Config, descriptorConfig: nat, descriptorAddr: nat, irqs: nat)
      requires Valid() && c < CHANNEL_NUM
      modifies xdmac, xdmac.channel
      ensures Valid()
      ensures xdmac.channel[..] == old(xdmac.channel[..])[c :=
                Spec.FetchedRegisters(old(xdmac.channel[c]), p, descriptorConfig, descriptorAddr)]
      ensures xdmac.commands == old(xdmac.commands) + [DisableChannelIrq(c, Spec.ALL_IRQS), EnableChannelIrq(c, Low8(irqs))]
    {
      if Spec.View(descriptorConfig) == 0 {
        xdmac.SetChannelConfig(c, p.config);
        xdmac.SetSourceAddr(c, p.source);
        xdmac.SetDestinationAddr(c, p.destination);
      }
      if Spec.View(descriptorConfig) == 1 {
        xdmac.SetChannelConfig(c, p.config);
      }
      xdmac.SetDescriptorAddr(c, descriptorAddr, 0);
      xdmac.SetDescriptorControl(c, descriptorConfig);
      xdmac.Issue(DisableChannelIrq(c, Spec.ALL_IRQS));
      xdmac.Issue(EnableChannelIrq(c, Low8(irqs)));
    }

    method ConfigureWithoutDescriptorFetch(c: nat, p: Spec.Config, irqs: nat)
      requires Valid() && c < CHANNEL_NUM
      modifies xdmac, xdmac.channel
      ensures Valid()
      ensures xdmac.channel[..] == old(xdmac.channel[..])[c := Spec.MaskedRegisters(p)]
      ensures xdmac.commands == old(xdmac.commands) + [EnableChannelIrq(c, Low8(irqs))]
    {
      xdmac.SetSourceAddr(c, p.source);
      xdmac.SetDestinationAddr(c, p.destination);
      xdmac.SetMicroblockControl(c, p.microblock);
      xdmac.SetBlockControl(c, p.block);
      xdmac.SetDataStride(c, p.dataStride);
      xdmac.SetSourceStride(c, p.sourceStride);
      xdmac.SetDestinationStride(c, p.destinationStride);
      xdmac.SetChannelConfig(c, p.config);
      xdmac.SetDescriptorAddr(c, 0, 0);
      xdmac.SetDescriptorControl(c, 0);
      xdmac.Issue(EnableChannelIrq(c, Low8(irqs)));
    }

    method ConfigureTransfer(channel: nat, p: Spec.Config, descriptorConfig: nat, descriptorAddr: nat, irqs: nat)
      returns (rc: Rc)
      requires Valid()
      modifies xdmac, xdmac.channel
      ensures Valid()
      ensures (State(), rc) == Spec.Configure(old(State()), channel, p, descriptorConfig, descriptorAddr, irqs)
    {
      var c := Spec.Index(channel);
      if c >= numChannels { return Spec.Error; }
      if channels[c].state == Spec.Free { return Spec.Error; }
      if channels[c].state == Spec.Start { return Spec.Busy; }
      if Spec.Fetches(descriptorConfig) {
        ConfigureWithDescriptorFetch(c, p, descriptorConfig, descriptorAddr, irqs);
      } else {
        ConfigureWithoutDescriptorFetch(c, p, irqs);
      }
      return Spec.Ok;
    }

    method StartTransfer(channel: nat) returns (rc: Rc)
      requires Valid()
      modifies channels, xdmac`commands
      ensures Valid() && (State(), rc) == Spec.StartTransfer(old(State()), channel)
    {
      var c := Spec.Index(channel);
      if c >= numChannels { return Spec.Error; }
      if channels[c].state == Spec.Free {
        return Spec.Error;
      } else if channels[c].state == Spec.Start {
        return Spec.Busy;
      }
      channels[c] := channels[c].(state := Spec.Start);
      xdmac.Issue(EnableChannel(c));
      if !polling {
        xdmac.Issue(EnableGlobalIrq(c));
      }
      assert xdmac.commands == old(xdmac.commands) + [EnableChannel(c)] + if polling then [] else [EnableGlobalIrq(c)];
      return Spec.Ok;
    }

    method StopTransfer(channel: nat) returns (rc: Rc)
      requires Valid()
      modifies channels, xdmac`commands
      ensures Valid() && (State(), rc) == Spec.StopTransfer(old(State()), channel)
    {
      var c := Spec.Index(channel);
      if c >= numChannels { return Spec.Error; }
      channels[c] := channels[c].(state := Spec.Halted);
      xdmac.Issue(DisableChannel(c));
      xdmac.Issue(DisableChannelIrq(c, Spec.ALL_IRQS));
      assert xdmac.commands == old(xdmac.commands) + [DisableChannel(c), DisableChannelIrq(c, Spec.ALL_IRQS)];
      return Spec.Ok;
    }

    method HandleChannelInterruptStatus(hw: Spec.Hardware, c: nat) returns (execute: bool)
      requires Valid() && hw.Valid() && c < CHANNEL_NUM && c !in hw.active
      modifies channels
      ensures execute == Spec.Ended(hw, c)
      ensures channels[..] == if execute then old(channels[..])[c := old(channels[c]).(state := Spec.Done)] else old(channels[..])
    {
      execute := false;
      var status := hw.cause[c] * hw.mask[c];
      if Spec.BLOCK_END in status {
        if Spec.LIST_END !in hw.mask[c] {
          channels[c] := channels[c].(state := Spec.Done);
          execute := true;
        }
      }
      if Spec.LIST_END in status {
        channels[c] := channels[c].(state := Spec.Done);
        execute := true;
      }
      if Spec.DISABLE_END in status {
        channels[c] := channels[c].(state := Spec.Done);
        execute := true;
      }
    }

    method HandleChannelInterrupts(hw: Spec.Hardware, c: nat) returns (execute: bool)
      requires Valid() && hw.Valid() && c < CHANNEL_NUM
      modifies channels
      ensures execute == Spec.Fires(hw, c)
      ensures channels[..] == if Spec.Ended(hw, c) then old(channels[..])[c := old(channels[c]).(state := Spec.Done)]
                              else old(channels[..])
    {
      if c !in hw.active {
        execute := HandleChannelInterruptStatus(hw, c);
      } else {
        execute := Spec.BLOCK_END in hw.cause[c];
      }
    }

    /** Services one channel; `called` is the callback invocation, if any. */
    method HandleChannel(hw: Spec.Hardware, c: nat) returns (proceed: bool, called: seq<Spec.Call>)
      requires Valid() && hw.Valid() && c < CHANNEL_NUM
      modifies channels
      ensures proceed == !(c in hw.pending && old(channels[c]).state == Spec.Free)
      ensures called == if proceed then Spec.CallOf(old(State()), hw, c) else []
      ensures channels[..] == if proceed && c in hw.pending && Spec.Ended(hw, c)
                              then old(channels[..])[c := old(channels[c]).(state := Spec.Done)] else old(channels[..])
    {
      called := [];
      if c !in hw.pending { return true, []; }
      if channels[c].state == Spec.Free { return false, []; }
      var execute := HandleChannelInterrupts(hw, c);
      if execute && channels[c].callback.Callback? {
        called := [Spec.Call(c, channels[c].callback.id, channels[c].arg)];
      }
      return true, called;
    }

    /** One pass of the interrupt handler; `calls` lists the callbacks it runs, in order. */
    method Handler(hw: Spec.Hardware) returns (calls: seq<Spec.Call>)
      requires Valid() && hw.Valid()
      modifies channels
      ensures Valid() && (State(), calls) == Spec.Handle(old(State()), hw)
    {
      calls := [];
      ghost var before := State();
      ghost var k := Spec.Barrier(before, hw, 0);
      assert channels[..] == Spec.Visited(before, hw, 0);
      if exists c :: 0 <= c < CHANNEL_NUM && c in hw.pending {
        var c := 0;
        while c < numChannels
          invariant c <= k
          invariant channels[..] == Spec.Visited(before, hw, c)
          invariant calls == Spec.CallsBelow(before, hw, c)
        {
          Spec.VisitNext(before, hw, c);
          var proceed, called := HandleChannel(hw, c);
          calls := calls + called;
          if !proceed { break; }
          c := c + 1;
        }
        assert c == k && calls == Spec.CallsBelow(before, hw, k);
      } else {
        Spec.NothingPending(before, hw, k);
      }
    }

    method IsTransferDone(channel: nat, hw: Spec.Hardware) returns (rc: Rc, calls: seq<Spec.Call>)
      requires Valid() && hw.Valid()
      modifies channels
      ensures Valid() && (State(), calls, rc) == Spec.IsTransferDone(old(State()), channel, hw)
    {
      var c := Spec.Index(channel);
      if c >= numChannels { return Spec.Error, []; }
      var state := channels[c].state;
      if state == Spec.Allocated { return Spec.Ok, []; }
      if state == Spec.Free {
        return Spec.Error, [];
      } else if state != Spec.Done {
        calls := [];
        if polling { calls := Handler(hw); }
        return Spec.Busy, calls;
      }
      return Spec.Ok, [];
    }
  }
}
