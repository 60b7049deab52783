/**
 * Concrete byte streams run through the reader: the connection handshake,
 * an analog reading after the analog mapping, a digital port report, and
 * the stream on which the Go reader as written closes `done` a second time.
 *
 * `parseSysEx` is not part of this model; `ExampleParser` stands in for it
 * here, handling the two handshake replies as the Firmata protocol lays
 * them out and ignoring every other sysex.
 */
module Scenarios {
  import opened Wrappers
  import opened Protocol
  import opened Values
  import opened Reader
  import opened Loopback

  const CapabilityResponse: bv8 := 0x6C
  const AnalogMappingResponse: bv8 := 0x6A
  const StringData: bv8 := 0x71

  /** Analog-mapping reply bytes, one per pin from `pin` on: 0x7F for no channel, else the channel. */
  function ChannelPins(channels: seq<bv8>, pin: nat): (m: map<int, int>)
    decreases |channels|
  {
    if |channels| == 0 then map[]
    else
      var rest := ChannelPins(channels[1..], pin + 1);
      if channels[0] == 0x7F then rest else rest[channels[0] as int := pin]
  }

  /** A stand-in for `parseSysEx` that sets the handshake flags and the channel-to-pin table. */
  function ExampleParser(t: Tables, payload: seq<bv8>): Tables {
    if |payload| == 0 then t
    else if payload[0] == CapabilityResponse then t.(capabilityDone := true)
    else if payload[0] == AnalogMappingResponse then
      t.(analogMappingDone := true, analogChannelPinsMap := ChannelPins(payload[1..], 0))
    else t
  }

  const NoTables := Tables(false, false, map[])

  /** Pin 0 supports output at resolution 1. */
  const Capabilities: seq<bv8> := [CapabilityResponse, 0x01, 0x01, 0x7F]

  /** Pins 0 to 13 have no analog channel; pin 14 is channel 0. */
  const Mapping: seq<bv8> := [AnalogMappingResponse,
    0x7F, 0x7F, 0x7F, 0x7F, 0x7F, 0x7F, 0x7F, 0x7F, 0x7F, 0x7F, 0x7F, 0x7F, 0x7F, 0x7F, 0x00]

  const Handshake: seq<Frame> := [Version(2, 3), SysEx(Capabilities), SysEx(Mapping)]

  /** The reader's state after the first `n` frames of `fs`, from a fresh start. */
  function After(fs: seq<Frame>, n: nat, policy: DonePolicy): ReaderState
    requires n <= |fs|
  {
    ApplyAll(Start(NoTables), fs[..n], ExampleParser, policy)
  }

  /** The first `n` frames of `fs` can be cut one after another from a fresh start. */
  predicate CutsCleanly(fs: seq<Frame>, n: nat, policy: DonePolicy)
    requires n <= |fs|
  {
    ValidFrames(Start(NoTables), fs[..n], ExampleParser, policy)
  }

  /** One more frame: its effect, and whether it can be cut where the others left the reader. */
  lemma Step(fs: seq<Frame>, n: nat, policy: DonePolicy)
    requires n < |fs|
    ensures After(fs, n + 1, policy) == Apply(After(fs, n, policy), fs[n], ExampleParser, policy)
    ensures CutsCleanly(fs, n + 1, policy) <==> CutsCleanly(fs, n, policy) && WellFormed(After(fs, n, policy).synced, fs[n])
  {
    assert fs[..n + 1] == fs[..n] + [fs[n]];
    ApplyAllSnoc(Start(NoTables), fs[..n], fs[n], ExampleParser, policy);
    ValidFramesSnoc(Start(NoTables), fs[..n], fs[n], ExampleParser, policy);
  }

  /** Nothing applied yet. */
  lemma Initial(fs: seq<Frame>, policy: DonePolicy)
    ensures After(fs, 0, policy) == Start(NoTables) && CutsCleanly(fs, 0, policy)
  {
    assert fs[..0] == [];
  }

  /** When every frame cuts cleanly, running the reader on their bytes applies them all. */
  lemma RunAll(fs: seq<Frame>, policy: DonePolicy)
    requires CutsCleanly(fs, |fs|, policy)
    ensures Run(Start(NoTables), Bytes(fs), ExampleParser, policy) == After(fs, |fs|, policy)
  {
    assert fs[..|fs|] == fs;
    RunFrames(Start(NoTables), fs, [], ExampleParser, policy);
    assert Bytes(fs) + [] == Bytes(fs);
  }

  /** Pins whose mapping byte is 0x7F get no channel, whatever follows. */
  lemma {:induction false} ChannelPinsSkip(k: nat, tail: seq<bv8>, pin: nat)
    ensures ChannelPins(seq(k, _ => 0x7F) + tail, pin) == ChannelPins(tail, pin + k)
    decreases k
  {
    if k > 0 {
      var cs := seq(k, _ => 0x7F) + tail;
      assert cs[0] == 0x7F;
      assert cs[1..] == seq(k - 1, _ => 0x7F) + tail;
      ChannelPinsSkip(k - 1, tail, pin + 1);
    } else {
      assert seq(k, _ => 0x7F) + tail == tail;
    }
  }

  /** The channel table the mapping reply sets: channel 0 is pin 14. */
  lemma MappingTable()
    ensures ChannelPins(Mapping[1..], 0) == map[0 := 14]
  {
    var tail: seq<bv8> := [0x00];
    assert Mapping[1..] == seq(14, _ => 0x7F) + tail;
    ChannelPinsSkip(14, tail, 0);
    assert ChannelPins(tail[1..], 15) == map[];
  }

  /** The reader after the version report. */
  const Synced := ReaderState(true, [2, 3], NoTables, [], [], 0)

  /** The reader after the capability reply: one flag set, `done` still open. */
  const Capable := Synced.(tables := Tables(false, true, map[]), sysEx := [Capabilities])

  /** The reader after the analog mapping reply: both flags set, `done` closed. */
  const Handshaken := ReaderState(true, [2, 3], Tables(true, true, map[0 := 14]), [], [Capabilities, Mapping], 1)

  lemma HandshakeStep1(policy: DonePolicy)
    ensures CutsCleanly(Handshake, 1, policy) && After(Handshake, 1, policy) == Synced
  {
    Initial(Handshake, policy);
    Step(Handshake, 0, policy);
  }

  lemma HandshakeStep2(policy: DonePolicy)
    ensures CutsCleanly(Handshake, 2, policy) && After(Handshake, 2, policy) == Capable
  {
    HandshakeStep1(policy);
    Step(Handshake, 1, policy);
    assert EndSysEx !in Capabilities;
    assert ExampleParser(NoTables, Capabilities) == Capable.tables;
  }

  /** The mapping reply sets the second flag and the channel table. */
  lemma ParseMapping()
    ensures ExampleParser(Capable.tables, Mapping) == Handshaken.tables
  {
    MappingTable();
  }

  lemma MappingIsPayload()
    ensures EndSysEx !in Mapping
  {
  }

  /** The mapping reply, a well-formed sysex, completes the handshake and closes `done`. */
  lemma ApplyMapping(policy: DonePolicy)
    ensures WellFormed(Capable.synced, SysEx(Mapping))
    ensures Apply(Capable, SysEx(Mapping), ExampleParser, policy) == Handshaken
  {
    MappingIsPayload();
    ParseMapping();
  }

  /** The state the handshake frames leave, step by step. */
  lemma HandshakeSteps(policy: DonePolicy)
    ensures CutsCleanly(Handshake, 3, policy)
    ensures After(Handshake, 2, policy).doneCloses == 0
    ensures After(Handshake, 3, policy) == Handshaken
  {
    HandshakeStep2(policy);
    Step(Handshake, 2, policy);
    ApplyMapping(policy);
  }

  /**
   * The handshake stream `F9 02 03, F0 <capabilities> F7, F0 <mapping> F7`
   * sets the protocol version and closes `done` exactly once, after the
   * second reply and not before.
   */
  lemma HandshakeClosesDoneOnce(policy: DonePolicy)
    ensures var r := Run(Start(NoTables), Bytes(Handshake), ExampleParser, policy);
      && r.synced && r.protocolVersion == [2, 3]
      && r.sysEx == [Capabilities, Mapping] && r.values == []
      && r.doneCloses == 1
    ensures Run(Start(NoTables), Bytes(Handshake[..2]), ExampleParser, policy).doneCloses == 0
  {
    HandshakeSteps(policy);
    RunAll(Handshake, policy);
    HandshakeHalfway(policy);
  }

  lemma HandshakeHalfway(policy: DonePolicy)
    ensures Run(Start(NoTables), Bytes(Handshake[..2]), ExampleParser, policy) == Capable
  {
    var first := Handshake[..2];
    HandshakeStep2(policy);
    assert first[..2] == Handshake[..2];
    RunAll(first, policy);
  }

  /** A stream that continues past the handshake with `frames`. */
  function AfterHandshakeWith(frames: seq<Frame>): seq<Frame> {
    Handshake + frames
  }

  /** The handshake part of a longer stream behaves as the handshake alone. */
  lemma HandshakePrefix(frames: seq<Frame>, policy: DonePolicy)
    ensures var fs := AfterHandshakeWith(frames);
      After(fs, 3, policy) == After(Handshake, 3, policy)
      && CutsCleanly(fs, 3, policy) == CutsCleanly(Handshake, 3, policy)
  {
    assert AfterHandshakeWith(frames)[..3] == Handshake[..3];
  }

  /**
   * An analog message on channel 0 after the handshake reads back as a
   * reading of pin 14, the pin the mapping reply gave that channel:
   * `E0 10 01` carries 0x10 + 128 * 1 = 144.
   */
  lemma AnalogAfterHandshake(policy: DonePolicy)
    ensures var r := Run(Start(NoTables), Bytes(AfterHandshakeWith([Value(AnalogMessage, 0x10, 0x01)])), ExampleParser, policy);
      && |r.values| == 1
      && AnalogValue(r.values[0]) == AnalogReading(14, 144, None)
  {
    var fs := AfterHandshakeWith([Value(AnalogMessage, 0x10, 0x01)]);
    HandshakeSteps(policy);
    HandshakePrefix([Value(AnalogMessage, 0x10, 0x01)], policy);
    Step(fs, 3, policy);
    RunAll(fs, policy);
  }

  /** A synced reader that then receives the digital message `90 7F 01`. */
  const PortZeroAllHigh: seq<Frame> := [Version(2, 3), Value(DigitalMessage, 0x7F, 0x01)]

  /** The digital value `90 7F 01` decodes to. */
  const AllHigh := FirmataValue(DigitalMessage, 0xFF, map[])

  lemma PortZeroRun(policy: DonePolicy)
    ensures Run(Start(NoTables), Bytes(PortZeroAllHigh), ExampleParser, policy).values == [AllHigh]
  {
    Initial(PortZeroAllHigh, policy);
    Step(PortZeroAllHigh, 0, policy);
    Step(PortZeroAllHigh, 1, policy);
    RunAll(PortZeroAllHigh, policy);
  }

  lemma AllBitsSet()
    ensures forall k: nat :: k < 8 ==> BitOf(0xFF, k)
  {
    forall k: nat | k < 8
      ensures BitOf(0xFF, k)
    {
      assert (0xFF as bv8 >> k) & 1 == 1;
    }
  }

  /** `AllHigh` reports port 0 with pins 0 to 7 all high. */
  lemma AllHighReport()
    ensures !IsAnalog(AllHigh)
    ensures DigitalValue(AllHigh).port == 0 && DigitalValue(AllHigh).val.Some?
    ensures forall k :: k in DigitalValue(AllHigh).val.value <==> 0 <= k < 8
    ensures forall k: nat :: k < 8 ==> DigitalValue(AllHigh).val.value[k]
  {
    DigitalValueOfByte(0, 0xFF, map[]);
    assert AllHigh == FirmataValue(DigitalMessage | 0, 0xFF as bv8 as int, map[]);
    var m := DigitalValue(AllHigh).val.value;
    forall k: nat | k < 8
      ensures m[k]
    {
      assert m[8 * (0 as bv8) as int + k] == BitOf(0xFF, k);
      AllBitsSet();
    }
  }

  /**
   * `90 7F 01` carries 0x7F + 128 = 0xFF for port 0: a digital value, not
   * an analog one, reporting pins 0 to 7 all high.
   */
  lemma DigitalPortReport(policy: DonePolicy)
    ensures var r := Run(Start(NoTables), Bytes(PortZeroAllHigh), ExampleParser, policy);
      && |r.values| == 1
      && !IsAnalog(r.values[0])
      && DigitalValue(r.values[0]).port == 0
      && DigitalValue(r.values[0]).val.Some?
      && (forall k :: k in DigitalValue(r.values[0]).val.value <==> 0 <= k < 8)
      && forall k: nat :: k < 8 ==> DigitalValue(r.values[0]).val.value[k]
  {
    PortZeroRun(policy);
    AllHighReport();
  }

  /** A string-data sysex (the text "A") that arrives after the handshake. */
  const Text: seq<bv8> := [StringData, 0x41, 0x00]

  /**
   * The reader as written closes `done` again on any sysex that arrives
   * once both handshake flags are set; Go panics on the second close.
   * The latched reader closes it once.
   */
  lemma LateSysExClosesDoneTwice()
    ensures Run(Start(NoTables), Bytes(AfterHandshakeWith([SysEx(Text)])), ExampleParser, CloseEveryTime).doneCloses == 2
    ensures Run(Start(NoTables), Bytes(AfterHandshakeWith([SysEx(Text)])), ExampleParser, CloseOnce).doneCloses == 1
  {
    LateSysEx(CloseEveryTime);
    LateSysEx(CloseOnce);
  }

  lemma LateSysEx(policy: DonePolicy)
    ensures Run(Start(NoTables), Bytes(AfterHandshakeWith([SysEx(Text)])), ExampleParser, policy).doneCloses
      == if policy == CloseEveryTime then 2 else 1
  {
    var fs := AfterHandshakeWith([SysEx(Text)]);
    HandshakeSteps(policy);
    HandshakePrefix([SysEx(Text)], policy);
    Step(fs, 3, policy);
    RunAll(fs, policy);
  }
}
