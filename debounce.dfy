/** The board button: the active-low pin read, the 16-bit debounce shift register of
    `CheckButtonPress`, its two one-shot flags, and the Note-On / Note-Off packets it sends.
    main.cpp and main.c carry the same code; this module models both. */
module Debounce {
  import opened UsbMidi

  /** `BUTTONS_BUTTON1`: the button is wired to bit 7 of port D. */
  const BUTTONS_BUTTON1: bv8 := 0x80
  /** Bits 9..15 of the register are forced to one on every tick. */
  const IGNORE_MASK: bv16 := 0xFE00
  /** Two pressed samples followed by seven released ones. */
  const RELEASE_MASK: bv16 := 0xFF80
  /** Seven released samples followed by two pressed ones. */
  const PRESS_MASK: bv16 := 0xFE03
  /** The note the button plays. */
  const MIDI_PITCH: bv8 := 0x3B
  /** `MIDI_CHANNEL(1)`: channel numbers are 1-based, the status nibble 0-based. */
  const MIDI_CHANNEL_1: bv8 := 0x00
  /** `MIDI_STANDARD_VELOCITY`. */
  const MIDI_STANDARD_VELOCITY: bv8 := 64

  /** `Buttons_GetStatus`: PIND masked to the button bit and inverted, because the button pulls
      the pin low when pressed. */
  function ButtonsGetStatus(pind: bv8): (status: bv8)
    ensures status & !BUTTONS_BUTTON1 == 0
    ensures status == BUTTONS_BUTTON1 <==> pind & BUTTONS_BUTTON1 == 0
    ensures status == 0 <==> pind & BUTTONS_BUTTON1 != 0
  {
    (pind & BUTTONS_BUTTON1) ^ BUTTONS_BUTTON1
  }

  /** `(bool)(Buttons_GetStatus() & BUTTONS_BUTTON1)`: the sample fed into the register. */
  predicate IsPressed(pind: bv8)
    ensures IsPressed(pind) <==> pind & BUTTONS_BUTTON1 == 0
  {
    ButtonsGetStatus(pind) & BUTTONS_BUTTON1 != 0
  }

  function Bit(b: bool): bv16
  {
    if b then 1 else 0
  }

  /** One tick of the register: `(state << 1) | pressed | IGNORE_MASK`, kept to 16 bits. The
      oldest history bit leaves through bit 8, the new sample enters bit 0, bits 9..15 read one. */
  function Shift(state: bv16, pressed: bool): (r: bv16)
    ensures r & IGNORE_MASK == IGNORE_MASK
    ensures r & 1 == Bit(pressed)
    ensures (r >> 1) & 0xFF == state & 0xFF
  {
    (state << 1) | Bit(pressed) | IGNORE_MASK
  }

  /** The register after the samples of `h` (oldest first), from the static's initial value 0. */
  function Register(h: seq<bool>): bv16
  {
    if h == [] then 0 else Shift(Register(h[..|h| - 1]), h[|h| - 1])
  }

  /** Whether the button read pressed k ticks before the latest sample of `h`; ticks before the
      first one count as released. */
  predicate SampleAgo(h: seq<bool>, k: nat)
  {
    k < |h| && h[|h| - 1 - k]
  }

  /** The last nine samples, latest first: the only history the register still holds. */
  function Window(h: seq<bool>): (w: seq<bool>)
    ensures |w| == 9
    ensures forall k :: 0 <= k < 9 ==> w[k] == SampleAgo(h, k)
  {
    seq(9, k requires 0 <= k => SampleAgo(h, k))
  }

  /** The register value that holds window `w` (latest sample in bit 0) under the forced bits. */
  function Pack(w: seq<bool>): bv16
    requires |w| == 9
  {
    IGNORE_MASK | Bit(w[0]) | (Bit(w[1]) << 1) | (Bit(w[2]) << 2) | (Bit(w[3]) << 3) | (Bit(w[4]) << 4)
      | (Bit(w[5]) << 5) | (Bit(w[6]) << 6) | (Bit(w[7]) << 7) | (Bit(w[8]) << 8)
  }

  /** The window a clean press leaves: pressed now and one tick ago, released the seven before. */
  const PRESS_WINDOW: seq<bool> := [true, true, false, false, false, false, false, false, false]
  /** The window a clean release leaves: released now and for six ticks before, pressed the two before. */
  const RELEASE_WINDOW: seq<bool> := [false, false, false, false, false, false, false, true, true]

  lemma ShiftPack(w: seq<bool>, x: bool)
    requires |w| == 9
    ensures Shift(Pack(w), x) == Pack([x] + w[..8])
  {
    var w' := [x] + w[..8];
    assert w'[0] == x && w'[1] == w[0] && w'[2] == w[1] && w'[3] == w[2] && w'[4] == w[3];
    assert w'[5] == w[4] && w'[6] == w[5] && w'[7] == w[6] && w'[8] == w[7];
  }

  lemma PackPattern(w: seq<bool>)
    requires |w| == 9
    ensures Pack(w) == PRESS_MASK <==> w == PRESS_WINDOW
    ensures Pack(w) == RELEASE_MASK <==> w == RELEASE_WINDOW
  {
    if Pack(w) == PRESS_MASK {
      assert w[0] && w[1] && !w[2] && !w[3] && !w[4] && !w[5] && !w[6] && !w[7] && !w[8];
      assert w == PRESS_WINDOW;
    }
    if Pack(w) == RELEASE_MASK {
      assert !w[0] && !w[1] && !w[2] && !w[3] && !w[4] && !w[5] && !w[6] && w[7] && w[8];
      assert w == RELEASE_WINDOW;
    }
  }

  /** After at least one tick the register is exactly the last nine samples under the forced bits. */
  lemma {:induction false} RegisterHoldsWindow(h: seq<bool>)
    requires h != []
    ensures Register(h) == Pack(Window(h))
  {
    var prev := h[..|h| - 1];
    var x := h[|h| - 1];
    assert Window(h) == [x] + Window(prev)[..8] by {
      forall k | 1 <= k < 9 ensures SampleAgo(h, k) == SampleAgo(prev, k - 1) { }
    }
    if prev == [] {
      assert Window(prev) == [false, false, false, false, false, false, false, false, false];
      assert Shift(0, x) == Pack([x] + Window(prev)[..8]);
    } else {
      RegisterHoldsWindow(prev);
      ShiftPack(Window(prev), x);
    }
  }

  /** The register matches 0xFE03 exactly when the last nine samples are a clean press, and 0xFF80
      exactly when they are a clean release; at most one of the two holds on any tick. */
  lemma RegisterMatchesIffWindow(h: seq<bool>)
    ensures Register(h) == PRESS_MASK <==> Window(h) == PRESS_WINDOW
    ensures Register(h) == RELEASE_MASK <==> Window(h) == RELEASE_WINDOW
    ensures !(Register(h) == PRESS_MASK && Register(h) == RELEASE_MASK)
  {
    if h == [] {
      assert Window(h)[0] == false && Window(h)[7] == false;
    } else {
      RegisterHoldsWindow(h);
      PackPattern(Window(h));
    }
  }

  /** The event a tick with history `h` sends: Note-On on a clean press, Note-Off on a clean
      release, nothing otherwise. */
  function ButtonEvent(h: seq<bool>): (acts: seq<UsbAction>)
    ensures acts == [] || acts == SendAndFlush(NotePacket(MIDI_COMMAND_NOTE_ON)) || acts == SendAndFlush(NotePacket(MIDI_COMMAND_NOTE_OFF))
  {
    if Window(h) == RELEASE_WINDOW then SendAndFlush(NotePacket(MIDI_COMMAND_NOTE_OFF))
    else if Window(h) == PRESS_WINDOW then SendAndFlush(NotePacket(MIDI_COMMAND_NOTE_ON))
    else []
  }

  /** The packet and flush a tick sends are the Note-On pair exactly when the register matched the
      press pattern, and the Note-Off pair exactly when it matched the release pattern. */
  lemma ButtonEventMatches(h: seq<bool>)
    requires h != []
    ensures ButtonEvent(h) == SendAndFlush(NotePacket(MIDI_COMMAND_NOTE_ON)) <==> Register(h) == PRESS_MASK
    ensures ButtonEvent(h) == SendAndFlush(NotePacket(MIDI_COMMAND_NOTE_OFF)) <==> Register(h) == RELEASE_MASK
  {
    RegisterMatchesIffWindow(h);
    var on, off := SendAndFlush(NotePacket(MIDI_COMMAND_NOTE_ON)), SendAndFlush(NotePacket(MIDI_COMMAND_NOTE_OFF));
    assert on[0] != off[0];
  }

  lemma AppendCancels<X>(prefix: seq<X>, a: seq<X>, b: seq<X>)
    ensures prefix + a == prefix + b <==> a == b
  {
    if prefix + a == prefix + b {
      assert a == (prefix + a)[|prefix|..];
    }
  }

  /** The packet synthesised for `command`: cable 0, channel 1, pitch 0x3B, standard velocity. */
  function NotePacket(command: bv8): (p: EventPacket)
    requires command & 0x0F == 0
    ensures p.event == MidiEvent(0, command)
    ensures p.data1 & 0xF0 == command & 0xF0 && p.data1 & 0x0F == MIDI_CHANNEL_1
    ensures p.data2 == MIDI_PITCH && p.data3 == MIDI_STANDARD_VELOCITY
  {
    EventPacket(MidiEvent(0, command), command | MIDI_CHANNEL_1, MIDI_PITCH, MIDI_STANDARD_VELOCITY)
  }

  /** A press that never lasts two consecutive ticks sends nothing: both patterns need two
      neighbouring pressed samples. */
  lemma IsolatedPressIgnored(h: seq<bool>)
    requires forall i :: 0 < i < |h| ==> !(h[i - 1] && h[i])
    ensures Register(h) != PRESS_MASK && Register(h) != RELEASE_MASK
  {
    RegisterMatchesIffWindow(h);
    if |h| >= 2 {
      assert !(h[|h| - 2] && h[|h| - 1]);
    }
    assert !(Window(h)[0] && Window(h)[1]);
    if |h| >= 9 {
      assert !(h[|h| - 9] && h[|h| - 8]);
    }
    assert !(Window(h)[7] && Window(h)[8]);
  }

  /** A contact that bounces, changing state on every tick, never matches either pattern. */
  lemma BounceRejected(h: seq<bool>)
    requires forall i :: 0 < i < |h| ==> h[i - 1] != h[i]
    ensures Register(h) != PRESS_MASK && Register(h) != RELEASE_MASK
  {
    RegisterMatchesIffWindow(h);
    if |h| >= 2 {
      assert h[|h| - 2] != h[|h| - 1];
    }
    assert !(Window(h)[0] && Window(h)[1]);
    if |h| >= 9 {
      assert h[|h| - 9] != h[|h| - 8];
    }
    assert !(Window(h)[7] && Window(h)[8]);
  }

  /** `n` samples all equal to `b`. */
  function Held(b: bool, n: nat): (s: seq<bool>)
    ensures |s| == n && forall i :: 0 <= i < n ==> s[i] == b
  {
    seq(n, _ => b)
  }

  lemma SampleAgoAppend(h: seq<bool>, t: seq<bool>, k: nat)
    ensures SampleAgo(h + t, k) == if k < |t| then t[|t| - 1 - k] else SampleAgo(h, k - |t|)
  {
  }

  /** From seven or more released ticks (the power-on state included), holding the button matches
      the press pattern on its second pressed tick and on no other, and never the release pattern. */
  lemma PressDetectedOnce(idle: seq<bool>, j: nat)
    requires forall k: nat :: k < 7 ==> !SampleAgo(idle, k)
    requires j >= 1
    ensures Register(idle + Held(true, j)) == PRESS_MASK <==> j == 2
    ensures Register(idle + Held(true, j)) != RELEASE_MASK
  {
    var h := idle + Held(true, j);
    RegisterMatchesIffWindow(h);
    forall k: nat | k < 9 ensures SampleAgo(h, k) == if k < j then true else SampleAgo(idle, k - j) {
      SampleAgoAppend(idle, Held(true, j), k);
    }
    assert Window(h)[0];
    if j == 2 {
      assert Window(h) == PRESS_WINDOW;
    } else if j == 1 {
      assert !Window(h)[1];
    } else {
      assert Window(h)[2];
    }
  }

  /** After two or more pressed ticks, releasing the button matches the release pattern on its
      seventh released tick and on no other, and never the press pattern. */
  lemma ReleaseDetectedOnce(held: seq<bool>, j: nat)
    requires SampleAgo(held, 0) && SampleAgo(held, 1)
    requires j >= 1
    ensures Register(held + Held(false, j)) == RELEASE_MASK <==> j == 7
    ensures Register(held + Held(false, j)) != PRESS_MASK
  {
    var h := held + Held(false, j);
    RegisterMatchesIffWindow(h);
    forall k: nat | k < 9 ensures SampleAgo(h, k) == if k < j then false else SampleAgo(held, k - j) {
      SampleAgoAppend(held, Held(false, j), k);
    }
    assert !Window(h)[0];
    if j == 7 {
      assert Window(h) == RELEASE_WINDOW;
    } else if j < 7 {
      assert Window(h)[j];
    } else {
      assert !Window(h)[7];
    }
  }

  /** The static state of `CheckButtonPress`: the register and the two one-shot flags. */
  class Debouncer {
    var debounceState: bv16
    var pressed: bool
    var released: bool
    /** Every sample taken so far, oldest first. */
    ghost var history: seq<bool>

    /** Between calls both flags are clear and the register holds the sample history. */
    ghost predicate Valid()
      reads this
    {
      debounceState == Register(history) && !pressed && !released
    }

    /** Static storage starts zeroed. */
    constructor ()
      ensures Valid() && history == []
      ensures debounceState == 0 && !pressed && !released
    {
      debounceState, pressed, released := 0, false, false;
      history := [];
    }

    /** `CheckButtonPress`: shift in the pin's sample, set the flag whose pattern matched, then
        consume both flags and send at most one packet, followed by a flush. */
    method CheckButtonPress(pind: bv8, usb: MidiInterface)
      requires Valid()
      modifies this, usb
      ensures Valid()
      ensures history == old(history) + [IsPressed(pind)]
      ensures debounceState == Shift(old(debounceState), IsPressed(pind))
      ensures !pressed && !released
      ensures usb.log == old(usb.log) + ButtonEvent(history)
      ensures Register(history) == PRESS_MASK <==> usb.log == old(usb.log) + SendAndFlush(NotePacket(MIDI_COMMAND_NOTE_ON))
      ensures Register(history) == RELEASE_MASK <==> usb.log == old(usb.log) + SendAndFlush(NotePacket(MIDI_COMMAND_NOTE_OFF))
    {
      debounceState := Shift(debounceState, IsPressed(pind));
      history := history + [IsPressed(pind)];

      if debounceState == RELEASE_MASK {
        released := true;
      } else if debounceState == PRESS_MASK {
        pressed := true;
      }

      var command: bv8 := 0;
      if pressed {
        pressed := false;
        command := MIDI_COMMAND_NOTE_ON;
      }
      if released {
        released := false;
        command := MIDI_COMMAND_NOTE_OFF;
      }

      if command != 0 {
        usb.SendEventPacket(NotePacket(command));
        usb.FlushEndpoint();
      }
      ButtonEventMatches(history);
      assert usb.log == old(usb.log) + ButtonEvent(history);
      AppendCancels(old(usb.log), ButtonEvent(history), SendAndFlush(NotePacket(MIDI_COMMAND_NOTE_ON)));
      AppendCancels(old(usb.log), ButtonEvent(history), SendAndFlush(NotePacket(MIDI_COMMAND_NOTE_OFF)));
    }
  }
}
