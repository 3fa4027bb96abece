# midi-to-usb: the bridge's queue, button debouncer and USART set-up in Dafny

This project models the firmware of a serial-MIDI-to-USB bridge for an AVR (ATmega32U4)
board. It covers three pieces whose behaviour can be stated exactly, plus the glue around them:

- `fast_queue<T, N>` (module `FastQueue`, file `fast_queue.dfy`). This is the lock-free ring
  buffer that the USART receive interrupt fills and the main loop drains. It is a class with the
  `elements` array of N + 1 slots and the `readIdx`/`writeIdx` fields. The queued elements are a
  ghost function of those fields (`Contents()`). `push`/`pop` are methods that say exactly
  which fields and slots change.
- `CheckButtonPress` (module `Debounce`, file `debounce.dfy`). This is the 16-bit debounce shift
  register (`bv16`) with the one-shot `Pressed`/`Released` flags, kept as fields of a class,
  and the Note-On/Note-Off USB-MIDI packet it synthesises. main.cpp and main.c contain the same
  function. One model stands for both, and the lemmas about sample sequences cite main.c.
- `USART_Init` (module `Usart`, file `usart.dfy`). This is the rounding baud-rate divisor in
  16/32-bit unsigned arithmetic, and the register writes as updates to a register record.
- The glue in main.cpp (module `Bridge`, file `bridge.dfy`): `MIDItoUSB` and the receive ISR
  over the queue. The MIDI stream parser is opaque: it is given as two functions of the bytes it
  has been fed.
- USB-MIDI packets and the MIDI interface (module `UsbMidi`, file `usb_midi.dfy`). Sending and
  flushing append to a log.

Integer widths are those of avr-gcc: `size_t` and `unsigned int` are 16 bits, and
`unsigned long` is 32 bits. The wrap-arounds are written out explicitly.

The queue has N + 1 slots, wraps each index by comparing it with N + 1, and holds at most N
elements. `MIDItoUSB` pops one byte per call.

## Model

| member | source | states |
|---|---|---|
| `FastQueue.Advance` | fast_queue.h:41-43 | the incremented and wrapped index is (i + 1) mod (N + 1) and stays within 0..N, so every `elements[...]` access is in bounds |
| `FastQueue.HeldCount` | fast_queue.h:26-29 | the intended element count (write − read) mod (N + 1): at most N, zero exactly when the indices are equal, and equal to the distance around the ring |
| `FastQueue.SizeCorrectIffNotWrapped` | fast_queue.h:26-29 | the unsigned `write_idx - read_idx` equals the held count if and only if the write index has not wrapped below the read index; after such a wrap it exceeds N |
| `FastQueue.Queue.constructor` | fast_queue.h:18 | a new queue has both indices 0 and is empty, with N + 1 fresh slots |
| `FastQueue.Queue.Empty` | fast_queue.h:21-24 | `empty()` is true exactly when no element is queued |
| `FastQueue.Queue.Size` | fast_queue.h:26-29 | `size()` as written reports the number of queued elements if and only if the write index is not below the read index; otherwise it reports more than N |
| `FastQueue.Queue.Count` | fast_queue.h:26-29 | the intended `size()` is the length of the queued sequence and never exceeds N |
| `FastQueue.Queue.MaxSize` | fast_queue.h:31-34 | `max_size()` is N and bounds the number of queued elements |
| `FastQueue.Queue.Push` | fast_queue.h:36-45 | `push` with the intended full test refuses exactly when N elements are queued, and then changes nothing; otherwise it appends the element at the tail. It writes only `writeIdx` and the slot at the old write index |
| `FastQueue.Queue.PushAsWritten` | fast_queue.h:36-45 | `push` as written accepts exactly when the unsigned `size()` differs from N. It agrees with `Push` below capacity and when full without a wrap. When full after the write index has wrapped, it accepts and leaves the queue empty |
| `FastQueue.Queue.WriteSlot` | fast_queue.h:41-43 | the store writes the element at the write index and advances that index with wrap-around; with a free slot this appends the element to the queued sequence |
| `FastQueue.Queue.Pop` | fast_queue.h:47-56 | `pop` on an empty queue returns false and leaves the indices, storage and out-parameter unchanged; otherwise it returns the oldest element and removes it (FIFO), changing only `readIdx` |
| `FastQueue.FillThenDrain` | fast_queue.h:31-56 | from empty, N pushes all succeed, push N + 1 fails, and N pops return the pushed elements in order and leave the queue empty |
| `FastQueue.WrappedFullQueueLosesEverything` | fast_queue.h:26-45 | on the bridge's 128-byte queue, after 128 pushes, one pop and one push (128 held, write index wrapped), the as-written push is accepted and 0 elements remain |
| `UsbMidi.MidiEvent` | main.cpp:194 | the packet header carries the cable number in its high nibble and the status byte's high nibble (code index number) in its low nibble |
| `UsbMidi.MidiInterface.constructor` | main.cpp:87-97 | the MIDI interface starts with nothing sent |
| `UsbMidi.MidiInterface.SendEventPacket` | main.cpp:201 | sending appends exactly that packet to the USB log |
| `UsbMidi.MidiInterface.FlushEndpoint` | main.cpp:202 | flushing appends a flush to the USB log |
| `Debounce.ButtonsGetStatus` | main.cpp:78-81 | the status has only the button bit, which is set exactly when the active-low pin reads 0 |
| `Debounce.IsPressed` | main.cpp:164 | the sample shifted into the register is "pressed" exactly when PIND bit 7 is low |
| `Debounce.Shift` | main.cpp:158-164 | one tick forces bits 9..15 to one, puts the new sample in bit 0 and moves the previous bits 0..7 up to bits 1..8 |
| `Debounce.RegisterHoldsWindow` | main.cpp:148-164 | after at least one tick from the zero initial state, the register is the last nine samples (latest in bit 0) under the forced bits |
| `Debounce.RegisterMatchesIffWindow` | main.cpp:159-173 | the register equals 0xFE03 iff the last nine samples are pressed, pressed, then seven released. It equals 0xFF80 iff they are seven released, then two pressed. The two never match on the same tick |
| `Debounce.NotePacket` | main.cpp:192-199 | the synthesised packet has header `MIDI_EVENT(0, cmd)`, the command's status nibble with channel 1 in Data1, pitch 0x3B and the standard velocity |
| `Debounce.ButtonEvent` | main.cpp:175-203 | a tick sends nothing, or exactly one Note-On packet and a flush, or exactly one Note-Off packet and a flush |
| `Debounce.ButtonEventMatches` | main.cpp:166-203 | a tick's USB output is the Note-On packet and flush exactly when the register equals 0xFE03, and the Note-Off packet and flush exactly when it equals 0xFF80 |
| `Debounce.IsolatedPressIgnored` | main.c:158-171 | if the button is never pressed on two consecutive ticks, neither pattern ever matches |
| `Debounce.BounceRejected` | main.c:155-171 | a sample sequence that changes on every tick never matches either pattern, so bouncing sends nothing |
| `Debounce.PressDetectedOnce` | main.c:144-171 | after seven or more released ticks (including power-on), holding the button matches the press pattern on the second pressed tick and on no other, and never the release pattern |
| `Debounce.ReleaseDetectedOnce` | main.c:155-167 | after two or more pressed ticks, releasing matches the release pattern on the seventh released tick and on no other, and never the press pattern |
| `Debounce.Debouncer.constructor` | main.cpp:148-149 | the static register and both flags start at zero |
| `Debounce.Debouncer.CheckButtonPress` | main.cpp:146-204 | the register becomes the shifted value and both flags are clear on return. The USB log grows by exactly one Note-On packet and flush iff the register equals 0xFE03, by exactly one Note-Off packet and flush iff it equals 0xFF80, and otherwise not at all |
| `Bridge.MidiParser.constructor` | main.cpp:101 | the parser starts having consumed nothing |
| `Bridge.MidiParser.Parse` | main.cpp:212 | `parse` consumes exactly the given byte, and its answer is the parser's verdict on the bytes consumed so far |
| `Bridge.MidiParser.GetMidiMsg` | main.cpp:217-221 | the parser's 3-byte message buffer, a fixed function of the bytes consumed so far |
| `Bridge.MessagePacket` | main.cpp:215-222 | the forwarded packet has cable 0 with the status byte's code index number in its header, and Data1..Data3 are `getMidiMsg()[0..2]` in order |
| `Bridge.ReceiveInterrupt` | main.cpp:252-256 | the receive ISR pushes with the source's own full test. It appends the received byte when the queue has room. On a full queue whose write index is not below the read index, the byte is dropped and the queue is unchanged. On a full queue whose write index has wrapped below the read index, the byte is stored and the queue reads empty (see Findings) |
| `Bridge.MidiToUsb` | main.cpp:206-226 | on an empty queue nothing changes: no pop, no parser call, no send. Otherwise exactly one byte is removed and fed to the parser, and a packet and flush are sent iff the parser reports a complete message |
| `Bridge.DrainAll` | main.cpp:113-116 | repeated passes of the main loop's `MIDItoUSB` empty the queue, feed the parser exactly the queued bytes, in order, and keep USB equal to the packets for every message the parser's whole input completes, each followed by a flush |
| `Bridge.ForwardInOrder` | main.cpp:206-226 | up to 128 bytes, all pushed by the ISR before the first `MIDItoUSB` pass, reach the parser in arrival order, and USB receives exactly the messages they complete, in order, each followed by a flush |
| `Usart.BaudDivisor` | usart.c:11 | the divisor stored in the 16-bit `unsigned int` is below 2^16 |
| `Usart.BaudDivisorFromQuotient` | usart.c:11 | when neither `16 * baud` nor the rounding sum overflows 32 bits, the divisor is the rounding quotient minus one, wrapping to 0xFFFF when that quotient is 0 |
| `Usart.DivisorRoundsToNearest` | usart.c:11 | without overflow and with F_CPU ≥ 8·baud, divisor + 1 is F_CPU / (16·baud) rounded to the nearest integer, halves up |
| `Usart.DivisorWrapsWhenClockTooSlow` | usart.c:9-11 | when F_CPU < 8·baud the quotient is 0 and the unsigned subtraction wraps the divisor to 0xFFFF |
| `Usart.UsartInit` | usart.c:9-24 | UBRR1 ends holding only the divisor's low byte, which differs from the divisor whenever it is ≥ 256. UCSR1A gains U2X1 with its other bits kept. UCSR1B ends as exactly `1 << RXEN1`, with RXCIE1 clear. UCSR1C is `3 << UCSZ10` |
| `Usart.AsWrittenRunsAtTwiceTheRate` | usart.c:11-17 | with F_CPU = 16·baud·k and k ≤ 256, the divisor is k − 1 and survives in the low byte UBRR1 keeps; with that UBRR1 value, in the double-speed mode the code selects, the line runs at 2·baud |
| `Usart.DoubleSpeedDivisor` | usart.c:11 | the divisor for double-speed mode: divisor + 1 is F_CPU / (8·baud) rounded to nearest, halves up |
| `Usart.DoubleSpeedDivisorGivesTheRate` | usart.c:16-17 | with the same clock, the double-speed divisor is 2k − 1 and the line runs at the requested baud |
| `Usart.UsartInitIntended` | usart.c:13-23 | the intended set-up: UBRR1 holds the whole double-speed divisor, U2X1 is set with the other bits of UCSR1A kept, UCSR1B enables both the receiver and its receive-complete interrupt, and UCSR1C is `3 << UCSZ10` |

## Findings

| source | as written | input that shows it | evidently intended | confidence | as-written member | corrected member |
|---|---|---|---|---|---|---|
| fast_queue.h:28 | `size()` is the unsigned `write_idx - read_idx`. Once `write_idx` wraps below `read_idx` the difference is at least 2^16 − N, so the test `size() == N` in `push` never fires | queue of 128: push 128 bytes, pop 1, push 1 (read 1, write 0, 128 held), push once more: it is accepted, write catches up with read, and the queue reads empty, losing 128 bytes | count = (write − read) mod (N + 1), with `push` refusing at count N | high, not executed | `FastQueue.WrappedFullQueueLosesEverything` | `FastQueue.Queue.Push` |
| usart.c:14-15 | UBRR1 is assigned twice; the second write (the low byte) replaces the first (the high byte) | F_CPU = 16 MHz, baud 2400: divisor 416, UBRR1 ends 160 | UBRR1 holds the whole divisor (high byte in UBRR1H, low byte in UBRR1L) | medium (harmless at 31250 baud, where the divisor is below 256), not executed | `Usart.UsartInit` | `Usart.UsartInitIntended` |
| usart.c:19-21 | RXCIE1 is set with `|=` and then cleared by the plain assignment `UCSR1B = (1 << RXEN1)` | any call: UCSR1B ends 0x10, so the receive-complete interrupt is disabled and `ISR(USART1_RX_vect)` never fills the queue | UCSR1B enables both RXCIE1 and RXEN1 | high, not executed | `Usart.UsartInit` | `Usart.UsartInitIntended` |
| usart.c:11 | the divisor is computed for the normal ×16 mode, but line 17 selects double-speed mode (U2X1), where the rate is F_CPU / (8·(UBRR + 1)) | F_CPU = 16 MHz, baud 31250 (k = 32): divisor 31, line rate 62500 | a divisor computed with 8·baud, or U2X1 left clear | medium, not executed | `Usart.AsWrittenRunsAtTwiceTheRate` | `Usart.DoubleSpeedDivisorGivesTheRate` |

## Left out

- The MIDI stream parser `midiXparser` is not part of this model. Its message filter, message
  lengths and running-status handling are not modelled. Its answers (`parse` and `getMidiMsg()`)
  are two arbitrary functions of the bytes it has consumed, so every property proved holds for
  any deterministic parser. The call `setMidiMsgFilter` (main.cpp:111) is therefore not modelled.
- The LUFA USB stack is not part of this model: `MIDI_Device_ReceiveEventPacket`,
  `MIDI_Device_USBTask`, `USB_USBTask`, `USB_Init`, the `EVENT_USB_Device_*` handlers and the
  interface descriptor contents. Sending and flushing only append to a log. Delivery,
  endpoint buffering and failure are not modelled.
- The LUFA macro values are not defined in the repository's files. The model uses the standard
  values: `MIDI_COMMAND_NOTE_ON` = 0x90 and `MIDI_COMMAND_NOTE_OFF` = 0x80 (MIDI 1.0 status
  bytes), `MIDI_CHANNEL(1)` = 0, `MIDI_STANDARD_VELOCITY` = 64, and `MIDI_EVENT(cable, cmd)` =
  cable in the high nibble and the command's high nibble in the low nibble (USB Device Class
  Definition for MIDI Devices 1.0, section 4). The register bit numbers U2X1 = 1, RXEN1 = 4,
  RXCIE1 = 7 and UCSZ10 = 1 are those of the ATmega32U4.
- Hardware bring-up is not modelled: `SetupHardware`, `Buttons_Init`, `Buttons_Disable`,
  watchdog and clock prescaler. The pin register PIND and the received byte in UDR1 enter as
  parameters, and `F_CPU` is a parameter of the USART functions.
- Concurrency between the receive interrupt and the main loop is not modelled. `push` and
  `pop` are atomic sequential steps. The non-volatile indices and memory visibility are not
  modelled.
- The busy-wait I/O routines `USART_TransmitChar`, `USART_TransmitString`, `USART_ReceiveChar`,
  `USART_GetCharFromISR` and `USART_Flush` are pure hardware access and are not modelled. usart.h
  only declares them.
- `main()`'s endless loop (main.cpp:113-126, main.c:113-125) is modelled only through its
  `MIDItoUSB` calls (`DrainAll`). The interleaving with `CheckButtonPress` on the same USB
  interface is not modelled.
- `Bridge.ForwardInOrder` covers at most 128 bytes, all received before the first `MIDItoUSB`
  pass. It does not cover arrivals interleaved with the drain, or more bytes than the queue holds.
- `Usart.AsWrittenRunsAtTwiceTheRate` covers divisors below 256 (k ≤ 256), which include the
  firmware's own 31250 baud at 16 MHz. For larger divisors UBRR1 keeps only the low byte (see
  Findings), and the resulting rate is not stated.
- `FastQueue.Queue`: the element type needs a default value (`T(0)`) to allocate the slots. The
  source's static `T elements[N + 1]` is zero-initialised anyway. N is bounded by the AVR
  toolchain's object-size limit (PTRDIFF_MAX = 0x7FFF).
- `Debounce.Debouncer.CheckButtonPress` requires that both flags are clear on entry. They always
  are, because the function clears them before returning. The case where both flags are set on
  entry, in which `Released` wins, therefore never arises and is not stated.
- `FastQueue.FillThenDrain` uses the corrected `push` test (`FastQueue.Queue.Push`). The receive
  ISR (`Bridge.ReceiveInterrupt`) uses the source's test (`FastQueue.Queue.PushAsWritten`).
