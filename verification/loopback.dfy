/**
 * The two halves of the client against each other: a digital or analog
 * message the client sends, read back by the frame reader, decodes to the
 * value that was written.  The board echoes its own pin states in exactly
 * these frames, so this is the round trip between client.go's encoder and
 * reply.go's decoder.
 */
module Loopback {
  import opened Wrappers
  import opened Protocol
  import opened Values
  import opened Reader
  import opened Client

  /** Running a synced reader over one value message emits exactly that value. */
  lemma RunValueMessage(s: ReaderState, cmd: bv8, lsb: bv8, msb: bv8, parse: SysExParser, policy: DonePolicy)
    requires s.synced && cmd != ReportVersion && cmd != StartSysEx && IsValueCommand(cmd)
    ensures Run(s, [cmd, lsb, msb], parse, policy).values
         == s.values + [FirmataValue(cmd, From7Bit(lsb, msb), s.tables.analogChannelPinsMap)]
  {
    RunFrame(s, Value(cmd, lsb, msb), [], parse, policy);
    assert FrameBytes(Value(cmd, lsb, msb)) + [] == [cmd, lsb, msb];
  }

  /** A synced reader turns the digital message for a port into one value holding the byte sent. */
  lemma RunPortMessage(s: ReaderState, port: bv8, b: bv8, parse: SysExParser, policy: DonePolicy)
    requires s.synced && port < 8
    ensures Run(s, PortMessage(port, b), parse, policy).values
         == s.values + [FirmataValue(DigitalMessage | port, b as int, s.tables.analogChannelPinsMap)]
  {
    var data := To7Bit(b);
    RunValueMessage(s, DigitalMessage | port, data.0, data.1, parse, policy);
    From7BitTo7Bit(b);
  }

  lemma PortBase(port: bv8)
    requires port < 8
    ensures (port * 8) as int == 8 * port as int
  {
  }

  /** A digital value from a port's message reports that port and, per pin, the value's bit. */
  lemma DigitalValueOfPort(port: bv8, x: int, m: map<int, int>)
    requires port < 8
    ensures var d := DigitalValue(FirmataValue(DigitalMessage | port, x, m));
      && d.port == port
      && d.val.Some?
      && (forall q :: q in d.val.value <==> 8 * port as int <= q < 8 * port as int + 8)
      && forall k: nat :: k < 8 ==> d.val.value[8 * port as int + k] == Bit(x, k)
  {
    var v := FirmataValue(DigitalMessage | port, x, m);
    assert !IsAnalog(v);
    assert DigitalValue(v).port == port;
    PortBase(port);
  }

  /** A digital value holding a byte reports the port and, per pin, the byte's bit. */
  lemma DigitalValueOfByte(port: bv8, b: bv8, m: map<int, int>)
    requires port < 8
    ensures var v := FirmataValue(DigitalMessage | port, b as int, m);
      && !IsAnalog(v)
      && DigitalValue(v).port == port
      && DigitalValue(v).val.Some?
      && (forall q :: q in DigitalValue(v).val.value <==> 8 * port as int <= q < 8 * port as int + 8)
      && forall k: nat :: k < 8 ==> DigitalValue(v).val.value[8 * port as int + k] == BitOf(b, k)
  {
    DigitalValueOfPort(port, b as int, m);
    forall k: nat | k < 8
      ensures Bit(b as int, k) == BitOf(b, k)
    {
      BitOfByte(b, k);
    }
  }

  /**
   * `v` is the digital value a board reports for `port` whose pins are the
   * bits of `b`: keys exactly the port's eight pin numbers, each mapped to
   * its bit.
   */
  ghost predicate ReportsPort(v: FirmataValue, port: bv8, b: bv8)
    requires port < 8
  {
    && !IsAnalog(v)
    && DigitalValue(v).port == port
    && DigitalValue(v).val.Some?
    && (forall q :: q in DigitalValue(v).val.value <==> 8 * port as int <= q < 8 * port as int + 8)
    && forall k: nat :: k < 8 ==> DigitalValue(v).val.value[8 * port as int + k] == BitOf(b, k)
  }

  lemma ReportsPortEntry(v: FirmataValue, port: bv8, b: bv8, k: nat)
    requires port < 8 && k < 8 && ReportsPort(v, port, b)
    ensures DigitalValue(v).val.value[8 * port as int + k] == BitOf(b, k)
  {
  }

  /**
   * A digital message for a port, read back, is a digital value for that
   * port with one entry per bit of the byte sent.
   */
  lemma PortMessageReadBack(s: ReaderState, port: bv8, b: bv8, parse: SysExParser, policy: DonePolicy)
    requires s.synced && port < 8
    ensures var out := Run(s, PortMessage(port, b), parse, policy).values;
      |out| == |s.values| + 1 && ReportsPort(out[|s.values|], port, b)
  {
    RunPortMessage(s, port, b, parse, policy);
    DigitalValueOfByte(port, b, s.tables.analogChannelPinsMap);
  }

  /**
   * The frame DigitalWrite sends, read back, is a digital value for the
   * pin's port that reports the port's updated byte, so its entry for the
   * pin is the value written.
   */
  lemma DigitalWriteReadBack(c: FirmataClient, pin: bv8, val: bool, io: IoStatus,
                             s: ReaderState, parse: SysExParser, policy: DonePolicy)
    requires Valid(c) && pin < 64
    requires pin as int > WrappedCount(c) ==> pin as int < |c.pinModes|
    requires DigitalWriteOp(c, pin, val, io).err != Some(InvalidPin(pin as int))
    requires s.synced
    ensures var r := DigitalWriteOp(c, pin, val, io).client;
      var out := Run(s, LastFrame(r), parse, policy).values;
      && |out| == |s.values| + 1
      && ReportsPort(out[|s.values|], pin / 8, r.digitalPinState[PortOf(pin)])
      && DigitalValue(out[|s.values|]).val.value[pin as int] == val
  {
    var r := DigitalWriteOp(c, pin, val, io).client;
    WrittenBit(c, pin, val, io);
    PinReadBack(s, pin, r.digitalPinState[PortOf(pin)], parse, policy);
  }

  /** The digital message for a pin's port, read back, reports the pin's bit under the pin's number. */
  lemma PinReadBack(s: ReaderState, pin: bv8, b: bv8, parse: SysExParser, policy: DonePolicy)
    requires s.synced && pin < 64
    ensures var out := Run(s, PortMessage(pin / 8, b), parse, policy).values;
      && |out| == |s.values| + 1
      && ReportsPort(out[|s.values|], pin / 8, b)
      && DigitalValue(out[|s.values|]).val.value[pin as int] == BitOf(b, BitIndex(pin))
  {
    PortMessageReadBack(s, pin / 8, b, parse, policy);
    ReportedPin(Run(s, PortMessage(pin / 8, b), parse, policy).values[|s.values|], pin, b);
  }

  /** After an accepted DigitalWrite the pin's bit holds the level, and the last frame is its port's message. */
  lemma WrittenBit(c: FirmataClient, pin: bv8, val: bool, io: IoStatus)
    requires Valid(c) && pin < 64
    requires pin as int > WrappedCount(c) ==> pin as int < |c.pinModes|
    requires DigitalWriteOp(c, pin, val, io).err != Some(InvalidPin(pin as int))
    ensures var r := DigitalWriteOp(c, pin, val, io).client;
      && |r.digitalPinState| == 8 && |r.sent| > 0
      && BitOf(r.digitalPinState[PortOf(pin)], BitIndex(pin)) == val
      && LastFrame(r) == PortMessage(pin / 8, r.digitalPinState[PortOf(pin)])
  {
  }

  /** A value reporting the pin's port reports the pin's own bit under the pin's number. */
  lemma ReportedPin(v: FirmataValue, pin: bv8, b: bv8)
    requires pin < 64 && ReportsPort(v, pin / 8, b)
    ensures DigitalValue(v).val.value[pin as int] == BitOf(b, BitIndex(pin))
  {
    PinSplit(pin);
    ReportsPortEntry(v, pin / 8, b, BitIndex(pin));
    assert 8 * (pin / 8) as int + BitIndex(pin) == pin as int;
  }

  /**
   * The frame AnalogWrite sends for a pin below 16, read back, is an analog
   * value carrying the byte written.
   */
  lemma AnalogWriteReadBack(c: FirmataClient, pin: nat, pinData: bv8, io: IoStatus,
                            s: ReaderState, parse: SysExParser, policy: DonePolicy)
    requires pin <= |c.pinModes| && pin < 16
    requires s.synced
    ensures var r := AnalogWriteOp(c, pin, pinData, io).client;
      var out := Run(s, LastFrame(r), parse, policy).values;
      && |out| == |s.values| + 1
      && IsAnalog(out[|s.values|])
      && AnalogValue(out[|s.values|]).err == None
      && AnalogValue(out[|s.values|]).val == pinData as int
  {
    var r := AnalogWriteOp(c, pin, pinData, io).client;
    var data := To7Bit(pinData);
    var cmd := AnalogMessage | (pin % 256) as bv8;
    assert LastFrame(r) == [cmd, data.0, data.1];
    RunValueMessage(s, cmd, data.0, data.1, parse, policy);
    From7BitTo7Bit(pinData);
  }
}
