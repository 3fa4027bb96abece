/** The glue between the serial receive interrupt, the byte queue, the MIDI stream parser and the
    USB-MIDI interface: the receive ISR pushes each byte, and each pass of the main loop moves at
    most one byte from the queue through the parser to USB. */
module Bridge {
  import opened FastQueue
  import opened UsbMidi

  /** A complete MIDI message as `getMidiMsg()` exposes it: status byte and two data bytes. */
  type MidiMsg = m: seq<bv8> | |m| == 3 witness [0, 0, 0]

  /** What the stream parser answers. The parser is a deterministic state machine, so both
      answers are functions of the bytes fed to it so far: whether the latest byte completed a
      message, and the message buffer then. Its filtering and length rules are not modelled. */
  datatype ParserBehaviour = ParserBehaviour(completes: seq<bv8> -> bool, message: seq<bv8> -> MidiMsg)

  /** `midiParser`: the bytes it has consumed, in order, and its fixed behaviour. */
  class MidiParser {
    const behaviour: ParserBehaviour
    var fed: seq<bv8>

    constructor (b: ParserBehaviour)
      ensures behaviour == b && fed == []
    {
      behaviour := b;
      fed := [];
    }

    /** `parse(c)`: consume one byte; true when it completed a message. */
    method Parse(c: bv8) returns (complete: bool)
      modifies this`fed
      ensures fed == old(fed) + [c]
      ensures complete == behaviour.completes(fed)
    {
      fed := fed + [c];
      complete := behaviour.completes(fed);
    }

    /** `getMidiMsg()`: the message buffer after the bytes consumed so far. */
    function GetMidiMsg(): (m: MidiMsg)
      reads this
      ensures |m| == 3
    {
      behaviour.message(fed)
    }
  }

  /** The packet `MIDItoUSB` builds from a parsed message: the header from the status byte, then the
      three message bytes in order. */
  function MessagePacket(m: MidiMsg): (p: EventPacket)
    ensures p.event >> 4 == 0 && p.event & 0x0F == m[0] >> 4
    ensures [p.data1, p.data2, p.data3] == m
  {
    EventPacket(MidiEvent(0, m[0]), m[0], m[1], m[2])
  }

  /** The receive interrupt `ISR(USART1_RX_vect)`: push the received byte `udr1` with the queue's
      own full test. Below capacity the byte is appended. On a full queue whose write index has not
      wrapped below the read index the byte is dropped; on a full queue whose write index has
      wrapped, the test misses, the byte is stored and the queue reads empty. */
  method ReceiveInterrupt(queue: Queue<bv8>, udr1: bv8)
    requires queue.Valid()
    modifies queue`writeIdx, queue.elements
    ensures queue.Valid() && queue.readIdx == old(queue.readIdx)
    ensures old(|queue.Contents()|) < queue.N ==> queue.Contents() == old(queue.Contents()) + [udr1]
    ensures old(|queue.Contents()| == queue.N && queue.readIdx <= queue.writeIdx) ==>
      queue.writeIdx == old(queue.writeIdx) && queue.elements[..] == old(queue.elements[..])
    ensures old(|queue.Contents()| == queue.N && queue.writeIdx < queue.readIdx) ==> queue.Contents() == []
  {
    var _ := queue.PushAsWritten(udr1);
  }

  /** `MIDItoUSB`: pop at most one byte. On an empty queue nothing else happens. Otherwise the byte
      goes to the parser, and only if it completed a message is that message sent and flushed. */
  method MidiToUsb(queue: Queue<bv8>, parser: MidiParser, usb: MidiInterface)
    requires queue.Valid()
    modifies queue`readIdx, parser`fed, usb
    ensures queue.Valid() && queue.writeIdx == old(queue.writeIdx)
    ensures old(queue.Contents()) == [] ==>
      queue.readIdx == old(queue.readIdx) && parser.fed == old(parser.fed) && usb.log == old(usb.log)
    ensures old(queue.Contents()) != [] ==>
      queue.Contents() == old(queue.Contents())[1..] && parser.fed == old(parser.fed) + [old(queue.Contents())[0]]
    ensures old(queue.Contents()) != [] && parser.behaviour.completes(parser.fed) ==>
      usb.log == old(usb.log) + SendAndFlush(MessagePacket(parser.GetMidiMsg()))
    ensures !(old(queue.Contents()) != [] && parser.behaviour.completes(parser.fed)) ==> usb.log == old(usb.log)
  {
    var ok, c := queue.Pop(0);
    if !ok {
      return;
    }
    var complete := parser.Parse(c);
    if !complete {
      return;
    }
    usb.SendEventPacket(MessagePacket(parser.GetMidiMsg()));
    usb.FlushEndpoint();
  }

  /** What USB receives when the parser is fed `bytes` one at a time: for every byte that completes
      a message, that message's packet and a flush, in stream order; nothing for the other bytes. */
  function Forwarded(b: ParserBehaviour, bytes: seq<bv8>): seq<UsbAction>
  {
    if bytes == [] then []
    else
      Forwarded(b, bytes[..|bytes| - 1])
        + (if b.completes(bytes) then SendAndFlush(MessagePacket(b.message(bytes))) else [])
  }

  /** Feeding one more byte adds to what USB receives exactly the packet and flush for the message
      that byte completes, if any. */
  lemma ForwardedStep(b: ParserBehaviour, fed: seq<bv8>, c: bv8)
    ensures Forwarded(b, fed + [c]) == Forwarded(b, fed)
      + (if b.completes(fed + [c]) then SendAndFlush(MessagePacket(b.message(fed + [c]))) else [])
  {
    assert (fed + [c])[..|fed + [c]| - 1] == fed;
  }

  /** Bytes received by the interrupt reach the parser in arrival order: after the interrupt pushes
      a run of bytes onto the bridge's 128-byte queue, as many passes of `MidiToUsb` feed the
      parser exactly that run and send exactly the messages it completes, in order. */
  method ForwardInOrder(bytes: seq<bv8>, b: ParserBehaviour) returns (fed: seq<bv8>, sent: seq<UsbAction>)
    requires |bytes| <= 128
    ensures fed == bytes
    ensures sent == Forwarded(b, bytes)
  {
    var queue := new Queue<bv8>(128);
    var parser := new MidiParser(b);
    var usb := new MidiInterface();
    ReceiveAll(queue, bytes);
    DrainAll(queue, parser, usb);
    assert bytes[..|bytes|] == bytes;
    fed, sent := parser.fed, usb.log;
  }

  /** The receive interrupt firing once per byte of `bytes`, with room for all of them. */
  method ReceiveAll(queue: Queue<bv8>, bytes: seq<bv8>)
    requires queue.Valid() && |queue.Contents()| + |bytes| <= queue.N
    modifies queue`writeIdx, queue.elements
    ensures queue.Valid() && queue.Contents() == old(queue.Contents()) + bytes
  {
    ghost var before := queue.Contents();
    var i := 0;
    while i < |bytes|
      invariant 0 <= i <= |bytes|
      invariant queue.Valid() && queue.Contents() == before + bytes[..i]
    {
      ReceiveInterrupt(queue, bytes[i]);
      assert bytes[..i + 1] == bytes[..i] + [bytes[i]];
      i := i + 1;
    }
    assert bytes[..i] == bytes;
  }

  /** Passes of `MidiToUsb` until the queue is empty feed the parser exactly the queued bytes, and
      USB receives exactly what the parser's whole input completes. */
  method DrainAll(queue: Queue<bv8>, parser: MidiParser, usb: MidiInterface)
    requires queue.Valid()
    requires usb.log == Forwarded(parser.behaviour, parser.fed)
    modifies queue`readIdx, parser`fed, usb
    ensures queue.Valid() && queue.Contents() == []
    ensures parser.fed == old(parser.fed) + old(queue.Contents())
    ensures usb.log == Forwarded(parser.behaviour, parser.fed)
  {
    ghost var pending := queue.Contents();
    ghost var fedBefore := parser.fed;
    var n := queue.Count();
    var j := 0;
    while j < n
      invariant 0 <= j <= n == |pending|
      invariant queue.Valid() && queue.Contents() == pending[j..]
      invariant parser.fed == fedBefore + pending[..j]
      invariant usb.log == Forwarded(parser.behaviour, parser.fed)
    {
      DrainOne(queue, parser, usb);
      assert pending[j..][1..] == pending[j + 1..];
      assert pending[..j + 1] == pending[..j] + [pending[j]];
      j := j + 1;
    }
    assert pending[..j] == pending;
  }

  /** One pass of `MidiToUsb` over a nonempty queue keeps USB in step with the parser's input. */
  method DrainOne(queue: Queue<bv8>, parser: MidiParser, usb: MidiInterface)
    requires queue.Valid() && queue.Contents() != []
    requires usb.log == Forwarded(parser.behaviour, parser.fed)
    modifies queue`readIdx, parser`fed, usb
    ensures queue.Valid() && queue.Contents() == old(queue.Contents())[1..]
    ensures parser.fed == old(parser.fed) + [old(queue.Contents())[0]]
    ensures usb.log == Forwarded(parser.behaviour, parser.fed)
  {
    ForwardedStep(parser.behaviour, parser.fed, queue.Contents()[0]);
    MidiToUsb(queue, parser, usb);
  }
}
