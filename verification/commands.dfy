/**
 * The board's reading of the fixed-length command frames the client sends,
 * as the Firmata protocol lays them out: a command byte whose high nibble
 * names the command and whose low nibble selects a port or channel, then
 * data bytes with the high bit clear.  This is the receiving end the
 * client's frame builders are checked against.
 */
module Commands {
  import opened Wrappers
  import opened Protocol

  datatype Command =
    | SetMode(pin: bv8, mode: bv8)             // set-pin-mode: pin, mode
    | ReportDigital(port: bv8, enable: bool)   // report-digital for a port
    | ReportAnalog(channel: bv8, enable: bool) // report-analog for a channel
    | DigitalPort(port: bv8, mask: int)        // digital message: the 8 pins of a port
    | AnalogOut(channel: bv8, level: int)      // analog message: a 14-bit level

  /** The command a frame carries, or None when it is not a well-formed fixed-length command. */
  function Decode(frame: seq<bv8>): (r: Option<Command>)
    ensures r.Some? ==> |frame| == 2 || |frame| == 3
    ensures r.Some? ==> forall i :: 1 <= i < |frame| ==> IsDataByte(frame[i])
  {
    if |frame| == 2 && IsDataByte(frame[1]) then
      var family, selector := frame[0] & 0xF0, frame[0] & 0x0F;
      if family == EnableDigitalInput then Some(ReportDigital(selector, frame[1] != 0))
      else if family == EnableAnalogInput then Some(ReportAnalog(selector, frame[1] != 0))
      else None
    else if |frame| == 3 && IsDataByte(frame[1]) && IsDataByte(frame[2]) then
      var family, selector := frame[0] & 0xF0, frame[0] & 0x0F;
      if frame[0] == SetPinMode then Some(SetMode(frame[1], frame[2]))
      else if family == DigitalMessage then Some(DigitalPort(selector, From7Bit(frame[1], frame[2])))
      else if family == AnalogMessage then Some(AnalogOut(selector, From7Bit(frame[1], frame[2])))
      else None
    else None
  }
}
