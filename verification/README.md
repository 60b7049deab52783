# Firmata client core in Dafny

This is a model of the deterministic core of a Go Firmata client, the library a
host program uses to drive an Arduino-class board over a serial line. It has
two halves.

- **Inbound.** The reply reader turns the bytes the board sends into three
  things: decoded pin values (`FirmataValue`), sysex payloads, and the
  protocol version. Until the first ReportVersion byte it discards
  everything. It signals the end of the connection handshake by closing a
  `done` channel. The model is a pure fold, `Reader.Run`, over a byte
  sequence, built from `Reader.NextFrame` (cut one frame off the input) and
  `Reader.Apply` (that frame's effect). The goroutine and its channels
  become lists in a `ReaderState`, and closing `done` increments a counter.
  The three value accessors (`IsAnalog`, `AnalogValue`, `DigitalValue`) live
  in `Values`.
- **Outbound.** The five pin-control operations are `SetPinMode`,
  `EnableDigitalInput`, `DigitalWrite`, `EnableAnalogInput` and
  `AnalogWrite`. Each checks a guard, may update one bit of the eight port
  bytes, and hands a two- or three-byte frame to `sendCommand`. In `Client`
  they are pure functions over an immutable client record. The transport is
  the list of frames written, plus the write's outcome as a parameter.

Around these:
- `Protocol` holds the command bytes (0x90 digital message, 0xE0 analog
  message, 0xC0 report-analog, 0xD0 report-digital, 0xF4 set-pin-mode,
  0xF9 report-version, 0xF0 and 0xF7 sysex start and end), the two pin
  modes the guards look up (output 1, analog 2) and the 7-bit data-byte
  codec.
- `Commands` is the board's own reading of the fixed-length frames. The
  frame builders are proved against it.
- `Loopback` runs two of the client's frames through the reader: the
  digital message `DigitalWrite` sends, and the analog message `AnalogWrite`
  sends for a pin below 16. Each reads back as the value written. The
  set-pin-mode and the two report frames are checked against `Commands`
  only, since they are requests that only the board acts on.
- `Scenarios` runs concrete byte streams through the reader. They cover the
  handshake, an analog reading, a digital port report, and the stream that
  exhibits the finding below.

`parseSysEx` is not part of this model. The reader takes it as a function
parameter that acts on the two handshake flags and the channel-to-pin table.
`Scenarios.ExampleParser` is a stand-in for it that knows the capability
(0x6C) and analog-mapping (0x6A) replies.

The files as they stand do not compile:
- `replyReader` is declared on `*Client` while the struct is `FirmataClient`.
- `sendCommand` assigns an undeclared `err`.

The model treats the two names as one client type, and `sendCommand` as
returning the transport's write error.

Go's pin guards read `pin < 0 || pin > n && pinModes[pin][mode] != nil`. The
right-hand conjunct runs only for `pin > n`. In `EnableAnalogInput` and
`AnalogWrite` it then always indexes `pinModes` out of range. In
`DigitalWrite` it does so only when there are fewer than 256 pins: with 256
or more, the wrapped `n` lets it run on pins that are in range. The model
keeps the guard as written (`Client.PinGuard`) and requires the index to
be in range whenever it is evaluated:
- in `DigitalWrite`, `n` is `uint8(len(pinModes))`, which wraps modulo 256;
- in `EnableAnalogInput` and `AnalogWrite`, `n` is the full length, so a pin
  at most `len(pinModes)` passes.

`DigitalWrite` also needs `pin < 64` whenever its guard lets the pin
through, because `digitalPinState` has eight ports. A pin the guard rejects
may be 64 or more: with 300 output-capable pins, pin 100 is reported invalid
before any port byte is read.

## Model

| member | source | states |
|---|---|---|
| Protocol.From7BitTo7Bit | client.go:142-143 | splitting a byte into the two 7-bit data bytes the client sends, then joining them as the reader does, gives the byte back |
| Protocol.To7BitFrom7Bit | reply.go:101-103 | two data bytes whose high part is at most 1 join into the byte `lsb | msb << 7`, and splitting that byte gives the same two data bytes back |
| Protocol.BitOfByte | reply.go:46-49 | the reader's test of bit i of the `int` value (`value & mask > 0` with `mask = 1 << i`) agrees with shifting the byte down by i and testing bit 0 |
| Protocol.LowBitsIgnoreHigh | reply.go:46-49 | adding any multiple of 256 to a value does not change its bits 0 to 7, for negative values too |
| Values.IsAnalog | reply.go:28-30 | a value is analog exactly when its command byte is in 0xE0..0xEF |
| Values.AnalogValue | reply.go:32-37 | on a digital value: pin 0, value 0 and an error. On an analog value: no error, the value unchanged, and the pin that the channel-to-pin table gives channel `cmd - 0xE0`, or 0 when the channel is missing |
| Values.PortBits | reply.go:45-50 | the loop from bit i on puts exactly the keys `base+i .. base+7` in the map, and key `base+j` is true exactly when bit j of the value is set |
| Values.DigitalValue | reply.go:39-52 | on an analog value: port 0, no map and an error. Otherwise: no error; the port is the command byte with 0x90 cleared (its low nibble for a 0x9X byte); the map has exactly the 8 keys from the byte `port*8` up; and each key is true exactly when the matching bit of the value is set |
| Values.DigitalValueIgnoresHighBits | reply.go:46-50 | the digital map depends only on the low byte of the value |
| Reader.IsValueCommand | reply.go:100 | the value branch's test `cmd & 0x90 > 0 \|\| cmd & 0xE0 > 0` accepts exactly the bytes 0x10 and up |
| Reader.FindEnd | reply.go:93 | `ReadSlice(EndSysEx)` finds the first EndSysEx, with none before it, or reports that there is none |
| Reader.NextFrame | reply.go:71-104 | one turn of the loop: it returns None exactly when the input ends inside the next frame; otherwise it returns a frame that can occur in the current sync state and whose wire bytes are exactly the consumed prefix |
| Reader.NextFrameOfFrameBytes | reply.go:78-104 | the framing round trip: on any input that starts with a valid frame's bytes, the next frame cut is that frame, whatever follows |
| Reader.NextFrameAfterSync | reply.go:86-104 | after sync, ReportVersion and StartSysEx come before the value branch; a value command takes exactly two more bytes; a byte below 0x10 consumes only itself. A StartSysEx yields no frame exactly when no EndSysEx follows it; otherwise its frame is the payload up to the first EndSysEx, and it consumes that EndSysEx too |
| Reader.NextSysExAt | reply.go:91-95 | a sysex frame ends at the first EndSysEx after its StartSysEx: its payload is exactly the bytes in between |
| Reader.Apply | reply.go:86-104 | a version frame sets the version to its two bytes and syncs. A sysex frame passes its payload, without the terminator, to `parseSysEx`; with the two flags set afterwards it closes `done` (every time as written, only the first time when latched). A value frame emits `{cmd, from7Bit(b1, b2), table}`. Everything else changes nothing |
| Reader.Run | reply.go:70-105 | over any input, emitted values and sysex payloads only grow, sync is never lost, and the latched reader closes `done` at most once |
| Reader.RunFrame | reply.go:71-105 | running over a valid frame and then any rest is applying the frame and then running over the rest |
| Reader.RunFrames | reply.go:71-105 | running over the concatenated bytes of valid frames applies the frames in order |
| Reader.RunVersionMessage | reply.go:87-90 | each ReportVersion, first or later, sets the protocol version to the next two bytes and syncs the reader |
| Reader.RunSkipsUntilSync | reply.go:78-84 | before sync, bytes with no ReportVersion among them are consumed without effect, whatever follows them |
| Reader.CloseOnceLatches | reply.go:94-98 | the latched reader does exactly what the as-written reader does, except that its `done` count is 1 wherever the as-written count is 1 or more |
| Client.SendCommand | client.go:182-190 | appends exactly one frame to the transport, changes nothing else, and returns the transport's error unchanged |
| Client.SetPinModeOp | client.go:96-106 | when the pin lacks the mode: an unsupported-mode error and nothing written. Otherwise exactly the frame `[0xF4, pin & 0x7F, mode]` is written, the write's error comes back, and the board reads the frame as set-pin-mode for that pin and mode |
| Client.EnableDigitalInputOp | client.go:110-127 | invalid-pin error, with nothing written, exactly when `pin > len(pinModes)`. Otherwise exactly the frame `[0xD0 \| (pin / 8) & 0x7F, 1 or 0]` goes out, 1 when enabling. For a pin below 128 the board reads it as report-digital for port `pin / 8` with the requested enable flag |
| Client.WriteBit | client.go:137-141 | the new byte has bit `bit` equal to `val` and every other bit as before |
| Client.PortMessage | client.go:142-143 | the 3-byte digital message for a port, which the board reads as that port with exactly the byte given |
| Client.WritePin | client.go:134-141 | the eight port bytes after the write: the pin's port has bit `pin % 8` set to `val` and its other bits unchanged; every other port is unchanged |
| Client.WrappedCount | client.go:131 | `uint8(len(pinModes))` is the pin count modulo 256: below 256, at most the pin count, and differing from it by a multiple of 256, so equal to it when there are fewer than 256 pins |
| Client.DigitalWriteOp | client.go:130-149 | the invalid-pin error, with the client unchanged, exactly when the wrapped guard fires. Otherwise the port bytes become `WritePin`, and one frame goes out: the digital message for the pin's port carrying the updated byte. The board reads that frame as the port and byte. The state change stays even when the write fails |
| Client.EnableAnalogInputOp | client.go:153-170 | never an invalid-pin error for a pin at most `len(pinModes)`. Exactly the frame `[0xC0 \| channel, 1 or 0]` goes out, where the channel is the pin's mapped channel (0 when the pin is unmapped) and the data byte is 1 when enabling. For a channel below 16 the board reads it as report-analog for that channel with the requested flag |
| Client.AnalogWriteOp | client.go:173-180 | never an invalid-pin error for a pin at most `len(pinModes)`. One 3-byte frame is sent: its command byte is `0xE0 \| byte(pin)`, and its two data bytes are the 7-bit split of the byte written (a data byte and a top bit of at most 1 that join back into exactly that byte). For a pin below 16 the board reads it as an analog output on that channel carrying that byte |
| Client.WritePinIdempotent | client.go:137-141 | writing the same level to the same pin twice leaves the port bytes as writing it once |
| Client.DigitalWriteIdempotent | client.go:130-149 | two identical DigitalWrite calls leave `digitalPinState` as one call does, whatever the writes' outcomes, for a rejected pin as well as an accepted one |
| Client.DigitalWriteNeverInvalid | client.go:131-133 | with fewer than 256 pins, DigitalWrite never reports an invalid pin for a pin at most `len(pinModes)` |
| Client.DigitalWriteSetThenClear | client.go:130-149 | for any pin the guard accepts, on a board of any size: after writing high and then low, the pin is low, its port's other bits and all other ports are as they started, and the last frame reports that port byte |
| Client.DigitalWriteGuardWraps | client.go:131 | with 300 output-capable pins, `uint8(len)` is 44, so DigitalWrite rejects pin 60 |
| Client.DigitalWriteRejectsHighPin | client.go:130-133 | with 300 output-capable pins, DigitalWrite rejects pin 100, which has no port byte, before reading any port byte |
| Loopback.RunValueMessage | reply.go:100-103 | a synced reader turns one value message into exactly one emitted value `{cmd, from7Bit(b1, b2), table}` |
| Loopback.DigitalValueOfByte | reply.go:44-50 | a digital value holding a byte for port p reports port p, with keys `8p .. 8p+7` and, per key, the byte's bit |
| Loopback.PortMessageReadBack | reply.go:100-103 | the digital message for a port, read back, emits one value reporting that port and that byte's bits |
| Loopback.DigitalWriteReadBack | client.go:130-149 | the frame DigitalWrite sends, read back, emits one digital value for the pin's port reporting the updated byte, and its entry for the pin is the level written |
| Loopback.AnalogWriteReadBack | client.go:173-180 | the frame AnalogWrite sends for a pin below 16, read back, emits one analog value carrying exactly the byte written |
| Scenarios.HandshakeClosesDoneOnce | reply.go:86-98 | the stream version 2.3, capability reply, analog-mapping reply sets version `[2, 3]`, passes both payloads on, emits no value, and closes `done` once: after the second reply, not before |
| Scenarios.AnalogAfterHandshake | reply.go:32-37 | after that handshake, `E0 10 01` reads back as the value 144 on pin 14, the pin the mapping gave channel 0 |
| Scenarios.DigitalPortReport | reply.go:39-52 | after sync, `90 7F 01` is a digital value for port 0 with exactly the keys 0 to 7, all true |
| Scenarios.LateSysExClosesDoneTwice | reply.go:94-98 | a string-data sysex after the handshake closes `done` a second time as written, and does not when latched |

## Left out

- `NewClient` (client.go:58-87) is left out: opening the serial port, sending SystemReset, and the retry and timeout `select` on `done` are I/O and timing.
- The reader's goroutine, the `valueChan` send and the `panic` on a read error (reply.go:67-76) are left out. Emission appends to a list, and the end of the input ends the fold.
- A frame cut short by the end of the input (a version or value message missing bytes, or a sysex with no EndSysEx) stops the reader without effect. Go would block or panic there, and would send zeros for failed `ReadByte`s at reply.go:101-102.
- `bufio` details, such as `ReadSlice`'s buffer-full limit, are left out.
- `parseSysEx`, `to7Bit`, `from7Bit` and the command constants are not part of this model's source files:
  - `parseSysEx` is a parameter;
  - the codec follows the Firmata 7-bit data-byte convention, where low is `v & 0x7F`, high is `v >> 7`, and the join is `lsb | msb << 7`;
  - the constants follow the Firmata message-type table.
- Logging (`c.Log.Printf`) and the discarded hex string in `sendCommand` (client.go:184-187) have no behavioural effect and are left out.
- `Close`, `GetValues`, `SetAnalogSamplingInterval` and `sendSysEx` (client.go:91-93, 193-202) are left out. They are thin transport or channel wrappers, and `sendSysEx` is not part of this model.
- `FirmataValue.String` (reply.go:54-62) is formatting only and is left out.
- examples/main.go, a hardware demo with delays, is left out.
- Reader.Apply: a value copies the channel-to-pin table as it stands when the value is read, whereas Go stores a reference to the live map (reply.go:103). The two agree as long as `parseSysEx` builds a fresh map rather than changing the old one in place. That function is not part of this model, so this is an assumption.
- The client's `sent` list records a frame even when the write fails. The frame was handed to `conn.Write`, and the outcome is reported in `err`.
- Client.SetPinModeOp: requires `pin < len(pinModes)`, because Go indexes `pinModes[pin]` unguarded and would panic otherwise.
- Client.DigitalWriteOp: requires `pin < 64` whenever the guard passes the pin, and an in-range index whenever the guard's right conjunct runs. On the inputs this excludes Go panics with an index out of range.
- Client.EnableAnalogInputOp: requires `pin <= len(pinModes)`; for larger pins Go's guard indexes out of range. The exact frame is stated for every channel, but the board's report-analog reading of it only for channels below 16, since a larger channel spills into the command nibble.
- Client.AnalogWriteOp: requires `pin <= len(pinModes)`, as above. The read-back and board decoding are stated for pins below 16, where `byte(pin)` fits the command's low nibble.
- Client.EnableDigitalInputOp: the exact frame is stated for every pin, but the board's report-digital reading of it only for pins below 128, where `(pin / 8) & 0x7F` is the port without masking.

## Findings

| source | as written | input that shows it | evidently intended | confidence | as-written member | corrected member |
|---|---|---|---|---|---|---|
| reply.go:94-98 | `close(done)` runs after every sysex that leaves both handshake flags set | the handshake stream followed by any further sysex, such as string data `F0 71 41 00 F7`: `done` is closed twice, and Go panics on closing a closed channel | close `done` once, when the handshake completes | high (not executed) | Scenarios.LateSysExClosesDoneTwice | Reader.CloseOnceLatches |
