/** USB-MIDI event packets and the device interface they are sent through. The USB stack itself
    is not modelled: sending a packet and flushing the endpoint are recorded, in order, in a log. */
module UsbMidi {

  /** MIDI 1.0 status bytes of the two commands the button produces. */
  const MIDI_COMMAND_NOTE_OFF: bv8 := 0x80
  const MIDI_COMMAND_NOTE_ON: bv8 := 0x90

  /** A 4-byte USB-MIDI event packet: the header byte and three MIDI bytes. */
  datatype EventPacket = EventPacket(event: bv8, data1: bv8, data2: bv8, data3: bv8)

  /** What the firmware asks of the MIDI interface, in order. */
  datatype UsbAction = Send(packet: EventPacket) | Flush

  /** The packet header `MIDI_EVENT(cable, command)`: the virtual cable number in the high nibble
      and the code index number in the low nibble, which for channel messages is the high nibble
      of the status byte (USB Device Class Definition for MIDI Devices 1.0, section 4). */
  function MidiEvent(cable: bv8, command: bv8): (h: bv8)
    requires cable < 16
    ensures h >> 4 == cable
    ensures h & 0x0F == command >> 4
  {
    (cable << 4) | (command >> 4)
  }

  /** The packet and the flush that follow each other whenever the firmware sends an event. */
  function SendAndFlush(p: EventPacket): seq<UsbAction>
  {
    [Send(p), Flush]
  }

  /** `Keyboard_MIDI_Interface`: the log of everything sent through it. */
  class MidiInterface {
    var log: seq<UsbAction>

    constructor ()
      ensures log == []
    {
      log := [];
    }

    /** `MIDI_Device_SendEventPacket`. */
    method SendEventPacket(p: EventPacket)
      modifies this
      ensures log == old(log) + [Send(p)]
    {
      log := log + [Send(p)];
    }

    /** `MIDI_Device_Flush`. */
    method FlushEndpoint()
      modifies this
      ensures log == old(log) + [Flush]
    {
      log := log + [Flush];
    }
  }
}
