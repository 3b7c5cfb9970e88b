/** The register layer of the DMA controller: per-channel setters and the write-only command registers.
  *
  * The ten transfer registers of a channel keep what the driver last wrote. The enable and disable
  * registers are strobes, so what is kept of them is the log of commands issued through them.
  */
module Xdmac {

  const CHANNEL_NUM: nat := 24

  datatype ChannelRegisters = ChannelRegisters(
    sourceAddr: nat, destinationAddr: nat, descriptorAddr: nat, descriptorControl: nat, microblockControl: nat,
    blockControl: nat, config: nat, dataStride: nat, sourceStride: nat, destinationStride: nat)

  datatype Command =
    | EnableGlobalIrq(channel: nat) | DisableGlobalIrq(channel: nat)
    | EnableChannel(channel: nat) | DisableChannel(channel: nat)
    | EnableChannelIrq(channel: nat, mask: nat) | DisableChannelIrq(channel: nat, mask: nat)

  /** The register fields that are narrower than the word written to them. */
  function Field24(value: nat): nat { value % 0x100_0000 }
  function Field12(value: nat): nat { value % 0x1000 }
  function WordAligned(addr: nat): nat { addr / 4 * 4 }
  function Low8(value: nat): nat { value % 0x100 }
  function Low16(value: nat): nat { value % 0x1_0000 }

  lemma NarrowField(value: nat)
    ensures Field12(Low16(value)) == Field12(value)
  {
  }

  class Controller {
    const channel: array<ChannelRegisters>
    var commands: seq<Command>

    ghost predicate Valid()
      reads this
    {
      channel.Length == CHANNEL_NUM
    }

    constructor ()
      ensures Valid() && fresh(channel) && commands == []
    {
      channel := new ChannelRegisters[CHANNEL_NUM](_ => ChannelRegisters(0, 0, 0, 0, 0, 0, 0, 0, 0, 0));
      commands := [];
    }

    /** Writes through one of the strobe registers. */
    method Issue(command: Command)
      requires Valid()
      modifies this`commands
      ensures commands == old(commands) + [command]
    {
      commands := commands + [command];
    }

    method SetSourceAddr(c: nat, addr: nat)
      requires Valid() && c < CHANNEL_NUM
      modifies channel
      ensures channel[..] == old(channel[..])[c := old(channel[c]).(sourceAddr := addr)]
    {
      channel[c] := channel[c].(sourceAddr := addr);
    }

    method SetDestinationAddr(c: nat, addr: nat)
      requires Valid() && c < CHANNEL_NUM
      modifies channel
      ensures channel[..] == old(channel[..])[c := old(channel[c]).(destinationAddr := addr)]
    {
      channel[c] := channel[c].(destinationAddr := addr);
    }

    method SetDescriptorAddr(c: nat, addr: nat, interface: nat)
      requires Valid() && c < CHANNEL_NUM && interface < 2
      modifies channel
      ensures channel[..] == old(channel[..])[c := old(channel[c]).(descriptorAddr := WordAligned(addr) + interface)]
    {
      channel[c] := channel[c].(descriptorAddr := WordAligned(addr) + interface);
    }

    method SetDescriptorControl(c: nat, config: nat)
      requires Valid() && c < CHANNEL_NUM
      modifies channel
      ensures channel[..] == old(channel[..])[c := old(channel[c]).(descriptorControl := Low8(config))]
    {
      channel[c] := channel[c].(descriptorControl := Low8(config));
    }

    method SetMicroblockControl(c: nat, length: nat)
      requires Valid() && c < CHANNEL_NUM
      modifies channel
      ensures channel[..] == old(channel[..])[c := old(channel[c]).(microblockControl := Field24(length))]
    {
      channel[c] := channel[c].(microblockControl := Field24(length));
    }

    method SetBlockControl(c: nat, length: nat)
      requires Valid() && c < CHANNEL_NUM
      modifies channel
      ensures channel[..] == old(channel[..])[c := old(channel[c]).(blockControl := Field12(length))]
    {
      NarrowField(length);
      channel[c] := channel[c].(blockControl := Field12(Low16(length)));
    }

    method SetChannelConfig(c: nat, config: nat)
      requires Valid() && c < CHANNEL_NUM
      modifies channel
      ensures channel[..] == old(channel[..])[c := old(channel[c]).(config := config)]
    {
      channel[c] := channel[c].(config := config);
    }

    method SetDataStride(c: nat, pattern: nat)
      requires Valid() && c < CHANNEL_NUM
      modifies channel
      ensures channel[..] == old(channel[..])[c := old(channel[c]).(dataStride := pattern)]
    {
      channel[c] := channel[c].(dataStride := pattern);
    }

    method SetSourceStride(c: nat, stride: nat)
      requires Valid() && c < CHANNEL_NUM
      modifies channel
      ensures channel[..] == old(channel[..])[c := old(channel[c]).(sourceStride := Field24(stride))]
    {
      channel[c] := channel[c].(sourceStride := Field24(stride));
    }

    method SetDestinationStride(c: nat, stride: nat)
      requires Valid() && c < CHANNEL_NUM
      modifies channel
      ensures channel[..] == old(channel[..])[c := old(channel[c]).(destinationStride := Field24(stride))]
    {
      channel[c] := channel[c].(destinationStride := Field24(stride));
    }
  }
}
