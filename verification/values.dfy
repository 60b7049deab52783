/**
 * The decoded input value the frame reader emits (`FirmataValue`) and its
 * three accessors.  A value remembers the command byte it came from; the
 * high nibble of that byte says whether it is an analog reading or a
 * digital port mask.
 */
module Values {
  import opened Wrappers
  import opened Protocol

  /**
   * `valueType` is the originating command byte, `value` the decoded data,
   * and `analogChannelPinsMap` the channel-to-pin table in force when the
   * value was decoded.
   */
  datatype FirmataValue = FirmataValue(valueType: bv8, value: int, analogChannelPinsMap: map<int, int>)

  /** The `(pin, val, err)` result of `AnalogValue`. */
  datatype AnalogReading = AnalogReading(pin: int, val: int, err: Option<Error>)

  /** The `(port, val, err)` result of `DigitalValue`; `val` is None for Go's nil map. */
  datatype DigitalReading = DigitalReading(port: bv8, val: Option<map<int, bool>>, err: Option<Error>)

  /** A value is analog exactly when its command byte lies in the 0xE0 family. */
  predicate IsAnalog(v: FirmataValue)
    ensures IsAnalog(v) <==> 0xE0 <= v.valueType <= 0xEF
  {
    v.valueType & 0xF0 == AnalogMessage
  }

  /** Go's map read: a missing key reads as the zero value. */
  function Lookup(m: map<int, int>, k: bv8): int {
    if k as int in m then m[k as int] else 0
  }

  /**
   * The pin a reading came from (through the channel-to-pin table, 0 for an
   * unmapped channel) and the reading; an error and zeros on a digital value.
   */
  function AnalogValue(v: FirmataValue): (r: AnalogReading)
    ensures !IsAnalog(v) ==> r == AnalogReading(0, 0, Some(NotAnalog))
    ensures IsAnalog(v) ==> r.err == None && r.val == v.value
    ensures IsAnalog(v) ==>
      var channel := v.valueType as int - 0xE0;
      r.pin == (if channel in v.analogChannelPinsMap then v.analogChannelPinsMap[channel] else 0)
  {
    if !IsAnalog(v) then AnalogReading(0, 0, Some(NotAnalog))
    else AnalogReading(Lookup(v.analogChannelPinsMap, v.valueType & !AnalogMessage), v.value, None)
  }

  /**
   * The loop of `DigitalValue` from bit `i` on: `mask` is `1 << i`, and the
   * entry for pin `base + i` records whether `value & mask` is nonzero.
   * Go computes the key as the byte `port*8 + i`; `base` is the byte
   * `port*8`, a multiple of 8, so adding `i < 8` never wraps.
   */
  function PortBits(value: int, base: int, i: nat, mask: int): (m: map<int, bool>)
    requires i <= 8 && mask == Pow2(i)
    ensures forall k :: k in m <==> base + i <= k < base + 8
    ensures forall j: nat :: i <= j < 8 ==> m[base + j] == Bit(value, j)
    ensures |m| == 8 - i
    decreases 8 - i
  {
    if i == 8 then map[]
    else PortBits(value, base, i + 1, mask * 2)[base + i := (value / mask) % 2 == 1]
  }

  /** The port a digital command byte addresses: the byte with DigitalMessage's bits cleared. */
  function PortOfCommand(cmd: bv8): (port: bv8)
    ensures port == cmd & 0x6F
    ensures cmd & 0xF0 == DigitalMessage ==> port == cmd & 0x0F
  {
    cmd & !DigitalMessage
  }

  /** The whole loop of `DigitalValue`: one entry per pin from `base` on, each the matching bit of `value`. */
  function PortMap(value: int, base: int): (m: map<int, bool>)
    ensures forall k :: k in m <==> base <= k < base + 8
    ensures forall j: nat :: j < 8 ==> m[base + j] == Bit(value, j)
    ensures |m| == 8
  {
    PortBits(value, base, 0, 1)
  }

  /**
   * The port a digital value reports and one boolean per pin of that port,
   * keyed by pin number; an error and no map on an analog value.
   */
  function DigitalValue(v: FirmataValue): (r: DigitalReading)
    ensures IsAnalog(v) ==> r == DigitalReading(0, None, Some(NotDigital))
    ensures !IsAnalog(v) ==> r.err == None && r.val.Some? && r.port == v.valueType & 0x6F
    ensures v.valueType & 0xF0 == DigitalMessage ==> r.port == v.valueType & 0x0F
    ensures !IsAnalog(v) ==> |r.val.value| == 8
    ensures !IsAnalog(v) ==>
      var base := (r.port * 8) as int;
      && (forall k :: k in r.val.value <==> base <= k < base + 8)
      && (forall j: nat :: j < 8 ==> r.val.value[base + j] == Bit(v.value, j))
  {
    if IsAnalog(v) then DigitalReading(0, None, Some(NotDigital))
    else
      var port := PortOfCommand(v.valueType);
      DigitalReading(port, Some(PortMap(v.value, (port * 8) as int)), None)
  }

  /**
   * Only the low byte of the value matters to `DigitalValue`: bits 8 and up
   * are never examined.
   */
  lemma DigitalValueIgnoresHighBits(v: FirmataValue)
    ensures DigitalValue(v) == DigitalValue(v.(value := v.value % 256))
  {
    if !IsAnalog(v) {
      var base := (PortOfCommand(v.valueType) * 8) as int;
      PortBitsLowByte(v.value, base, 0, 1);
    }
  }

  lemma {:induction false} PortBitsLowByte(value: int, base: int, i: nat, mask: int)
    requires i <= 8 && mask == Pow2(i)
    ensures PortBits(value, base, i, mask) == PortBits(value % 256, base, i, mask)
    decreases 8 - i
  {
    if i < 8 {
      PortBitsLowByte(value, base, i + 1, mask * 2);
      LowBitsIgnoreHigh(value % 256, value / 256, i);
      assert value == value % 256 + 256 * (value / 256);
    }
  }
}
