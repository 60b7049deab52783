/**
 * The client's pin-control operations as frame builders over an immutable
 * client record.  The transport is the list of frames handed to
 * `conn.Write`, and the outcome of each write is a parameter.
 */
module Client {
  import opened Wrappers
  import opened Protocol
  import opened Commands

  /** The result `conn.Write` reports for one frame. */
  datatype IoStatus = Written | Failed(reason: string)

  /**
   * The client fields the operations read or write.  `pinModes[p]` is the
   * set of modes whose entry in Go's per-pin map is non-nil, and `sent`
   * holds every frame passed to `conn.Write`, oldest first.
   */
  datatype FirmataClient = FirmataClient(
    digitalPinState: seq<bv8>,
    pinModes: seq<set<bv8>>,
    analogPinsChannelMap: map<int, bv8>,
    sent: seq<seq<bv8>>)

  /** `digitalPinState` is a Go array of 8 port bytes. */
  predicate Valid(c: FirmataClient) {
    |c.digitalPinState| == 8
  }

  /** An operation's updated client and its error (None for Go's nil). */
  datatype Reply = Reply(client: FirmataClient, err: Option<Error>)

  /** The error a failed write turns into; None when the write succeeded. */
  function WriteError(io: IoStatus): (e: Option<Error>)
    ensures e.None? <==> io.Written?
  {
    match io
    case Written => None
    case Failed(reason) => Some(WriteFailed(reason))
  }

  /** The frame the last operation sent. */
  function LastFrame(c: FirmataClient): seq<bv8>
    requires |c.sent| > 0
  {
    c.sent[|c.sent| - 1]
  }

  /**
   * `sendCommand`: writes one frame and returns the transport's error
   * unchanged.  The frame is recorded even when the write fails.
   */
  function SendCommand(c: FirmataClient, cmd: seq<bv8>, io: IoStatus): (r: Reply)
    ensures r.client.sent == c.sent + [cmd] && r.client.(sent := c.sent) == c
    ensures r.err.None? <==> io.Written?
    ensures io.Failed? ==> r.err == Some(WriteFailed(io.reason))
  {
    Reply(c.(sent := c.sent + [cmd]), WriteError(io))
  }

  /**
   * A pin guard `pin > n && pinModes[pin][mode] != nil` as Go evaluates it:
   * the right conjunct only when the left one holds, and it then indexes
   * `pinModes`, so that index must be in range.  (Each guard also starts
   * with `pin < 0 ||`, which is false for Go's unsigned pins.)
   */
  predicate PinGuard(modes: seq<set<bv8>>, pin: int, n: int, mode: bv8)
    requires pin > n ==> 0 <= pin < |modes|
  {
    pin > n && mode in modes[pin]
  }

  /**
   * `SetPinMode`: fails, writing nothing, when the pin's capabilities lack
   * the mode; otherwise sends the three-byte set-pin-mode command.
   */
  function SetPinModeOp(c: FirmataClient, pin: bv8, mode: bv8, io: IoStatus): (r: Reply)
    requires pin as int < |c.pinModes|
    ensures r.err == Some(UnsupportedMode(pin, mode)) <==> mode !in c.pinModes[pin]
    ensures mode !in c.pinModes[pin] ==> r.client == c
    ensures mode in c.pinModes[pin] ==>
      && |r.client.sent| == |c.sent| + 1
      && r.client.sent == c.sent + [LastFrame(r.client)]
      && r.client.(sent := c.sent) == c
      && LastFrame(r.client) == [SetPinMode, pin % 128, mode]
      && r.err == WriteError(io)
    ensures mode in c.pinModes[pin] && IsDataByte(mode) ==>
      Decode(LastFrame(r.client)) == Some(SetMode(pin % 128, mode))
  {
    if mode !in c.pinModes[pin] then Reply(c, Some(UnsupportedMode(pin, mode)))
    else SendCommand(c, [SetPinMode, pin & 0x7F, mode], io)
  }

  /**
   * `EnableDigitalInput`: rejects only pins beyond `len(pinModes)` (so the
   * pin equal to the length passes) and writes nothing then; otherwise
   * sends report-digital for the pin's port, enabling or disabling it.
   */
  function EnableDigitalInputOp(c: FirmataClient, pin: nat, val: bool, io: IoStatus): (r: Reply)
    ensures r.err == Some(InvalidPin(pin)) <==> pin > |c.pinModes|
    ensures pin > |c.pinModes| ==> r.client == c
    ensures pin <= |c.pinModes| ==>
      && |r.client.sent| == |c.sent| + 1
      && r.client.sent == c.sent + [LastFrame(r.client)]
      && r.client.(sent := c.sent) == c
      && LastFrame(r.client) == [EnableDigitalInput | ((pin / 8) % 128) as bv8, if val then 1 else 0]
      && r.err == WriteError(io)
    ensures pin <= |c.pinModes| && pin < 128 ==>
      Decode(LastFrame(r.client)) == Some(ReportDigital((pin / 8) as bv8, val))
  {
    if pin > |c.pinModes| then Reply(c, Some(InvalidPin(pin)))
    else
      var port := (pin / 8) % 128;  // (pin / 8) & 0x7F
      SendCommand(c, [EnableDigitalInput | port as bv8, if val then 1 else 0], io)
  }

  /**
   * The read-modify-write of one bit: `b | (1 << bit)` to set it,
   * `b & ^(1 << bit)` to clear it.
   */
  function WriteBit(b: bv8, bit: bv8, val: bool): (r: bv8)
    requires bit < 8
    ensures forall k: nat :: k < 8 ==> BitOf(r, k) == (if k == bit as int then val else BitOf(b, k))
  {
    if val then SetBitFacts(b, bit); b | (1 << bit)
    else ClearBitFacts(b, bit); b & !(1 << bit)
  }

  lemma SetBitFacts(b: bv8, bit: bv8)
    requires bit < 8
    ensures forall k: nat :: k < 8 ==> BitOf(b | (1 << bit), k) == (k == bit as int || BitOf(b, k))
  {
    forall k: nat | k < 8
      ensures BitOf(b | (1 << bit), k) == (k == bit as int || BitOf(b, k))
    {
      assert (b | (1 << bit)) >> k == (b >> k) | ((1 << bit) >> k);
    }
  }

  lemma ClearBitFacts(b: bv8, bit: bv8)
    requires bit < 8
    ensures forall k: nat :: k < 8 ==> BitOf(b & !(1 << bit), k) == (k != bit as int && BitOf(b, k))
  {
    forall k: nat | k < 8
      ensures BitOf(b & !(1 << bit), k) == (k != bit as int && BitOf(b, k))
    {
      ClearBitAt(b, bit, k);
    }
  }

  lemma ClearBitAt(b: bv8, bit: bv8, k: nat)
    requires bit < 8 && k < 8
    ensures BitOf(b & !(1 << bit), k) == (k != bit as int && BitOf(b, k))
  {
    ShiftByNat(b & !(1 << bit), k);
    ShiftByNat(b, k);
    ClearBitBv(b, bit, k as bv8);
    SameIndex(bit, k);
  }

  lemma SameIndex(bit: bv8, k: nat)
    requires bit < 8 && k < 8
    ensures (k as bv8 == bit) <==> (k == bit as int)
  {
  }

  /** Shifting by a small `nat` is shifting by the same amount as a byte. */
  lemma ShiftByNat(x: bv8, k: nat)
    requires k < 8
    ensures x >> k == x >> (k as bv8)
  {
  }

  lemma ClearBitBv(b: bv8, bit: bv8, k: bv8)
    requires bit < 8 && k < 8
    ensures ((b & !(1 << bit)) >> k) & 1 == (if k == bit then 0 else (b >> k) & 1)
  {
  }

  /** The digital message reporting the whole byte `b` for a port. */
  function PortMessage(port: bv8, b: bv8): (frame: seq<bv8>)
    requires port < 16
    ensures |frame| == 3 && Decode(frame) == Some(DigitalPort(port, b as int))
  {
    var data := To7Bit(b);
    From7BitTo7Bit(b);
    [DigitalMessage | port, data.0, data.1]
  }

  /** The port a pin belongs to, and the pin's bit within that port. */
  function PortOf(pin: bv8): (port: int)
    ensures port == pin as int / 8 && 0 <= port < 32
  {
    (pin / 8) as int
  }

  function BitIndex(pin: bv8): (bit: int)
    ensures bit == pin as int % 8 && 0 <= bit < 8
  {
    (pin % 8) as int
  }

  /** A pin number is its port's first pin plus its bit index. */
  lemma PinSplit(pin: bv8)
    ensures pin as int == 8 * PortOf(pin) + BitIndex(pin)
    ensures (pin / 8) as int == PortOf(pin)
  {
  }

  /**
   * The port bytes after writing `val` to `pin`: only bit `pin % 8` of port
   * `pin / 8` changes, and it becomes `val`.
   */
  function WritePin(state: seq<bv8>, pin: bv8, val: bool): (r: seq<bv8>)
    requires |state| == 8 && pin < 64
    ensures |r| == 8
    ensures forall p :: 0 <= p < 8 && p != PortOf(pin) ==> r[p] == state[p]
    ensures forall k: nat :: k < 8 ==>
      BitOf(r[PortOf(pin)], k) == (if k == BitIndex(pin) then val else BitOf(state[PortOf(pin)], k))
  {
    var port := ((pin / 8) & 0x7F) as int;
    state[port := WriteBit(state[port], pin % 8, val)]
  }

  /**
   * `DigitalWrite`: sets (val) or clears (!val) the pin's bit in its port's
   * byte, leaving the other bits and ports alone, and sends that whole
   * updated byte as a digital message for the port.  The state change stays
   * even when the write fails.  The guard compares with `uint8(len(pinModes))`,
   * so it can only reject a pin when there are 256 pins or more.  A pin the
   * guard passes indexes one of the eight port bytes, so it must be below 64.
   */
  function DigitalWriteOp(c: FirmataClient, pin: bv8, val: bool, io: IoStatus): (r: Reply)
    requires Valid(c)
    requires pin as int > WrappedCount(c) ==> pin as int < |c.pinModes|
    requires !PinGuard(c.pinModes, pin as int, WrappedCount(c), Output) ==> pin < 64
    ensures r.err == Some(InvalidPin(pin as int)) <==>
      WrappedCount(c) < pin as int && Output in c.pinModes[pin]
    ensures r.err == Some(InvalidPin(pin as int)) ==> r.client == c
    ensures r.err != Some(InvalidPin(pin as int)) ==>
      var after := WritePin(c.digitalPinState, pin, val);
      && r.client.digitalPinState == after
      && |r.client.sent| == |c.sent| + 1
      && r.client.sent == c.sent + [LastFrame(r.client)]
      && LastFrame(r.client) == PortMessage(pin / 8, after[PortOf(pin)])
      && Decode(LastFrame(r.client)) == Some(DigitalPort(pin / 8, after[PortOf(pin)] as int))
      && r.client.(sent := c.sent, digitalPinState := c.digitalPinState) == c
      && r.err == WriteError(io)
  {
    if PinGuard(c.pinModes, pin as int, WrappedCount(c), Output) then Reply(c, Some(InvalidPin(pin as int)))
    else WriteAndSend(c, pin, val, io)
  }

  /** The part of DigitalWrite past its guard: update the port byte, then send it. */
  function WriteAndSend(c: FirmataClient, pin: bv8, val: bool, io: IoStatus): (r: Reply)
    requires Valid(c) && pin < 64
    ensures r.client.digitalPinState == WritePin(c.digitalPinState, pin, val)
    ensures r.client.sent == c.sent + [PortMessage(pin / 8, r.client.digitalPinState[PortOf(pin)])]
    ensures r.client.(sent := c.sent, digitalPinState := c.digitalPinState) == c
    ensures r.err == WriteError(io)
  {
    var after := WritePin(c.digitalPinState, pin, val);
    var port := (pin / 8) & 0x7F;
    assert port == pin / 8 && port as int == PortOf(pin);
    SendCommand(c.(digitalPinState := after), PortMessage(port, after[port]), io)
  }

  /** Go's `uint8(len(pinModes))`: the pin count wrapped to a byte. */
  function WrappedCount(c: FirmataClient): (n: int)
    ensures 0 <= n < 256
    ensures n <= |c.pinModes|
    ensures (|c.pinModes| - n) % 256 == 0
    ensures |c.pinModes| < 256 ==> n == |c.pinModes|
  {
    |c.pinModes| % 256
  }

  /** Go's map read: a pin missing from the pin-to-channel map reads as channel 0. */
  function ChannelOf(c: FirmataClient, pin: int): bv8 {
    if pin in c.analogPinsChannelMap then c.analogPinsChannelMap[pin] else 0
  }

  /**
   * `EnableAnalogInput`: sends report-analog for the pin's channel (0 for
   * a pin with no channel), enabling or disabling it.  When the pin is
   * within `len(pinModes)` its guard is false, so it never reports an
   * invalid pin.
   */
  function EnableAnalogInputOp(c: FirmataClient, pin: nat, val: bool, io: IoStatus): (r: Reply)
    requires pin <= |c.pinModes|
    ensures r.err == WriteError(io)
    ensures |r.client.sent| == |c.sent| + 1
    ensures r.client.sent == c.sent + [LastFrame(r.client)] && r.client.(sent := c.sent) == c
    ensures LastFrame(r.client) == [EnableAnalogInput | ChannelOf(c, pin), if val then 1 else 0]
    ensures var channel := if pin in c.analogPinsChannelMap then c.analogPinsChannelMap[pin] else 0;
      channel < 16 ==> Decode(LastFrame(r.client)) == Some(ReportAnalog(channel, val))
  {
    if PinGuard(c.pinModes, pin, |c.pinModes|, Analog) then Reply(c, Some(InvalidPin(pin)))
    else
      var ch := ChannelOf(c, pin);
      SendCommand(c, [EnableAnalogInput | ch, if val then 1 else 0], io)
  }

  /**
   * `AnalogWrite`: sends an analog message addressed by `byte(pin)` with
   * the byte split into two data bytes.  Never an invalid-pin error within
   * `len(pinModes)`.
   */
  function AnalogWriteOp(c: FirmataClient, pin: nat, pinData: bv8, io: IoStatus): (r: Reply)
    requires pin <= |c.pinModes|
    ensures r.err == WriteError(io)
    ensures |r.client.sent| == |c.sent| + 1
    ensures r.client.sent == c.sent + [LastFrame(r.client)] && r.client.(sent := c.sent) == c
    ensures |LastFrame(r.client)| == 3
    ensures LastFrame(r.client)[0] == AnalogMessage | (pin % 256) as bv8
    ensures IsDataByte(LastFrame(r.client)[1]) && LastFrame(r.client)[2] <= 1
    ensures From7Bit(LastFrame(r.client)[1], LastFrame(r.client)[2]) == pinData as int
    ensures pin < 16 ==> Decode(LastFrame(r.client)) == Some(AnalogOut(pin as bv8, pinData as int))
  {
    if PinGuard(c.pinModes, pin, |c.pinModes|, Analog) then Reply(c, Some(InvalidPin(pin)))
    else
      var data := To7Bit(pinData);
      SendCommand(c, [AnalogMessage | (pin % 256) as bv8, data.0, data.1], io)
  }

  /** Writing the same value to the same pin twice leaves the ports as writing it once. */
  lemma WritePinIdempotent(state: seq<bv8>, pin: bv8, val: bool)
    requires |state| == 8 && pin < 64
    ensures WritePin(WritePin(state, pin, val), pin, val) == WritePin(state, pin, val)
  {
    var port := (pin / 8) as int;
    WriteBitIdempotent(state[port], pin % 8, val);
  }

  /** Writing the same value to the same bit twice is writing it once. */
  lemma WriteBitIdempotent(b: bv8, bit: bv8, val: bool)
    requires bit < 8
    ensures WriteBit(WriteBit(b, bit, val), bit, val) == WriteBit(b, bit, val)
  {
  }

  /**
   * Two identical DigitalWrite calls leave the port bytes as one call does,
   * for a rejected pin as well as an accepted one.
   */
  lemma DigitalWriteIdempotent(c: FirmataClient, pin: bv8, val: bool, io1: IoStatus, io2: IoStatus)
    requires Valid(c)
    requires pin as int > WrappedCount(c) ==> pin as int < |c.pinModes|
    requires !PinGuard(c.pinModes, pin as int, WrappedCount(c), Output) ==> pin < 64
    ensures var once := DigitalWriteOp(c, pin, val, io1).client;
      DigitalWriteOp(once, pin, val, io2).client.digitalPinState == once.digitalPinState
  {
    if !PinGuard(c.pinModes, pin as int, WrappedCount(c), Output) {
      WritePinIdempotent(c.digitalPinState, pin, val);
    }
  }

  /**
   * With fewer than 256 pins the DigitalWrite guard never fires: a pin the
   * precondition admits is never reported invalid.
   */
  lemma DigitalWriteNeverInvalid(c: FirmataClient, pin: bv8, val: bool, io: IoStatus)
    requires Valid(c) && pin < 64 && |c.pinModes| < 256
    requires pin as int <= |c.pinModes|
    ensures DigitalWriteOp(c, pin, val, io).err != Some(InvalidPin(pin as int))
  {
  }

  /**
   * DigitalWrite of high then low to a pin the guard accepts: the pin ends
   * low, the other seven pins of its port and every other port end as they
   * started, and the last frame sent reports the port as it started with
   * that pin cleared.
   */
  lemma DigitalWriteSetThenClear(c: FirmataClient, pin: bv8, io1: IoStatus, io2: IoStatus)
    requires Valid(c) && pin < 64
    requires pin as int > WrappedCount(c) ==> pin as int < |c.pinModes|
    requires !PinGuard(c.pinModes, pin as int, WrappedCount(c), Output)
    ensures var after := DigitalWriteOp(DigitalWriteOp(c, pin, true, io1).client, pin, false, io2).client;
      && |after.digitalPinState| == 8
      && !BitOf(after.digitalPinState[PortOf(pin)], BitIndex(pin))
      && (forall k: nat :: k < 8 && k != BitIndex(pin) ==>
            BitOf(after.digitalPinState[PortOf(pin)], k) == BitOf(c.digitalPinState[PortOf(pin)], k))
      && (forall p :: 0 <= p < 8 && p != PortOf(pin) ==> after.digitalPinState[p] == c.digitalPinState[p])
      && |after.sent| == |c.sent| + 2
      && Decode(LastFrame(after)) == Some(DigitalPort(pin / 8, after.digitalPinState[PortOf(pin)] as int))
  {
    AcceptedWrite(c, pin, true, io1);
    var mid := DigitalWriteOp(c, pin, true, io1).client;
    AcceptedWrite(mid, pin, false, io2);
    WritePinSetThenClear(c.digitalPinState, pin);
  }

  /** What one DigitalWrite the guard accepts leaves behind. */
  lemma AcceptedWrite(c: FirmataClient, pin: bv8, val: bool, io: IoStatus)
    requires Valid(c) && pin < 64
    requires pin as int > WrappedCount(c) ==> pin as int < |c.pinModes|
    requires !PinGuard(c.pinModes, pin as int, WrappedCount(c), Output)
    ensures var r := DigitalWriteOp(c, pin, val, io).client;
      && Valid(r) && r.pinModes == c.pinModes
      && r.digitalPinState == WritePin(c.digitalPinState, pin, val)
      && |r.sent| == |c.sent| + 1
      && Decode(LastFrame(r)) == Some(DigitalPort(pin / 8, r.digitalPinState[PortOf(pin)] as int))
  {
  }

  /** The port-byte half of the above. */
  lemma WritePinSetThenClear(state: seq<bv8>, pin: bv8)
    requires |state| == 8 && pin < 64
    ensures var after := WritePin(WritePin(state, pin, true), pin, false);
      && !BitOf(after[PortOf(pin)], BitIndex(pin))
      && (forall k: nat :: k < 8 && k != BitIndex(pin) ==> BitOf(after[PortOf(pin)], k) == BitOf(state[PortOf(pin)], k))
      && (forall p :: 0 <= p < 8 && p != PortOf(pin) ==> after[p] == state[p])
  {
  }

  /**
   * The guard's `uint8(len(pinModes))` wraps: with 300 output-capable pins
   * it reads as 44, so DigitalWrite reports pin 60 invalid.
   */
  lemma DigitalWriteGuardWraps()
    ensures var c := FirmataClient(seq(8, _ => 0), seq(300, _ => {Output}), map[], []);
      DigitalWriteOp(c, 60, true, Written).err == Some(InvalidPin(60))
  {
    var c := FirmataClient(seq(8, _ => 0), seq(300, _ => {Output}), map[], []);
    assert Output in c.pinModes[60];
  }

  /**
   * A pin past the wrapped length that supports output is rejected before
   * the port bytes are touched, even when it has no port byte: with 300
   * output-capable pins, pin 100 is reported invalid.
   */
  lemma DigitalWriteRejectsHighPin()
    ensures var c := FirmataClient(seq(8, _ => 0), seq(300, _ => {Output}), map[], []);
      DigitalWriteOp(c, 100, false, Written).err == Some(InvalidPin(100))
  {
    var c := FirmataClient(seq(8, _ => 0), seq(300, _ => {Output}), map[], []);
    assert Output in c.pinModes[100];
  }
}
