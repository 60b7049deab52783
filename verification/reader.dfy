/**
 * The inbound frame reader (`replyReader`), with its goroutine and channels
 * taken away: a pure fold over the bytes the board sends.  Emitting a value
 * appends it to a list, handing a sysex payload to `parseSysEx` appends it
 * to another list, and closing the `done` channel increments a counter.
 * Running out of input, including in the middle of a frame, stops the fold.
 */
module Reader {
  import opened Wrappers
  import opened Protocol
  import opened Values

  /** The client fields `parseSysEx` writes and the reader then reads. */
  datatype Tables = Tables(analogMappingDone: bool, capabilityDone: bool, analogChannelPinsMap: map<int, int>)

  /** Both handshake replies (capabilities and analog mapping) have arrived. */
  predicate HandshakeComplete(t: Tables) {
    t.analogMappingDone && t.capabilityDone
  }

  /**
   * `parseSysEx`: its body is not part of this model, so the reader takes it
   * as a parameter acting on the tables with the sysex payload.
   */
  type SysExParser = (Tables, seq<bv8>) -> Tables

  /**
   * When the reader closes `done` after a sysex: every time both handshake
   * flags are set afterwards (as written in Go), or only the first time.
   */
  datatype DonePolicy = CloseEveryTime | CloseOnce

  /**
   * `synced` is the reader's `init` flag; `values` are the values sent on
   * the value channel, `sysEx` the payloads passed to `parseSysEx`, and
   * `doneCloses` the number of times `close(done)` ran.
   */
  datatype ReaderState = ReaderState(
    synced: bool,
    protocolVersion: seq<bv8>,
    tables: Tables,
    values: seq<FirmataValue>,
    sysEx: seq<seq<bv8>>,
    doneCloses: nat)

  /** The reader as the client starts it: not synced, nothing emitted. */
  function Start(t: Tables): ReaderState {
    ReaderState(false, [], t, [], [], 0)
  }

  /** One unit of input as the reader's loop consumes it. */
  datatype Frame =
    | Skipped(b: bv8)                       // a byte discarded before the first ReportVersion
    | Version(major: bv8, minor: bv8)       // ReportVersion and its two bytes
    | SysEx(payload: seq<bv8>)              // StartSysEx, payload, EndSysEx
    | Value(cmd: bv8, lsb: bv8, msb: bv8)   // a digital or analog message
    | Ignored(b: bv8)                       // any other command byte after sync

  /** The bytes a frame occupies on the wire. */
  function FrameBytes(f: Frame): seq<bv8> {
    match f
    case Skipped(b) => [b]
    case Version(major, minor) => [ReportVersion, major, minor]
    case SysEx(payload) => [StartSysEx] + payload + [EndSysEx]
    case Value(cmd, lsb, msb) => [cmd, lsb, msb]
    case Ignored(b) => [b]
  }

  /**
   * The third branch of the reader's switch.  Its test
   * `cmd & DigitalMessage > 0 || cmd & AnalogMessage > 0` picks every byte
   * with one of the high four bits set.
   */
  predicate IsValueCommand(cmd: bv8)
    ensures IsValueCommand(cmd) <==> cmd >= 0x10
  {
    cmd & DigitalMessage != 0 || cmd & AnalogMessage != 0
  }

  /** The frames the reader can cut in the given sync state. */
  predicate WellFormed(synced: bool, f: Frame) {
    match f
    case Skipped(b) => !synced && b != ReportVersion
    case Version(_, _) => true
    case SysEx(payload) => synced && EndSysEx !in payload
    case Value(cmd, _, _) => synced && cmd != ReportVersion && cmd != StartSysEx && IsValueCommand(cmd)
    case Ignored(b) => synced && !IsValueCommand(b)
  }

  /** Input on which the reader's next frame runs past the end of the bytes. */
  predicate Incomplete(synced: bool, input: seq<bv8>) {
    || |input| == 0
    || (input[0] == ReportVersion && |input| < 3)
    || (synced && input[0] == StartSysEx && EndSysEx !in input[1..])
    || (synced && input[0] != ReportVersion && input[0] != StartSysEx
        && IsValueCommand(input[0]) && |input| < 3)
  }

  /** `ReadSlice(EndSysEx)`: the position of the first EndSysEx. */
  function FindEnd(s: seq<bv8>): (r: Option<nat>)
    ensures r.Some? ==> r.value < |s| && s[r.value] == EndSysEx && EndSysEx !in s[..r.value]
    ensures r.None? ==> EndSysEx !in s
  {
    if |s| == 0 then None
    else if s[0] == EndSysEx then Some(0)
    else match FindEnd(s[1..])
      case None => None
      case Some(k) =>
        assert s[..k + 1] == [s[0]] + s[1..][..k];
        Some(k + 1)
  }

  /** A frame and the number of bytes it takes. */
  datatype Cut = Cut(frame: Frame, size: nat)

  /**
   * One turn of the reader's loop: the frame at the head of `input`, or None
   * when the input ends before the frame does.
   */
  function NextFrame(synced: bool, input: seq<bv8>): (r: Option<Cut>)
    ensures r.None? <==> Incomplete(synced, input)
    ensures r.Some? ==>
      && r.value.size == |FrameBytes(r.value.frame)| <= |input|
      && input[..r.value.size] == FrameBytes(r.value.frame)
      && WellFormed(synced, r.value.frame)
  {
    if |input| == 0 then None
    else
      var cmd := input[0];
      if !synced && cmd != ReportVersion then Some(Cut(Skipped(cmd), 1))
      else if cmd == ReportVersion then
        if |input| < 3 then None else Some(Cut(Version(input[1], input[2]), 3))
      else if cmd == StartSysEx then
        match FindEnd(input[1..])
        case None => None
        case Some(k) =>
          assert input[..k + 2] == [StartSysEx] + input[1..][..k] + [EndSysEx];
          Some(Cut(SysEx(input[1..][..k]), k + 2))
      else if IsValueCommand(cmd) then
        if |input| < 3 then None else Some(Cut(Value(cmd, input[1], input[2]), 3))
      else Some(Cut(Ignored(cmd), 1))
  }

  /**
   * The effect of one frame: ReportVersion (re)sets the protocol version and
   * ends the wait for sync; a sysex runs `parseSysEx` and may close `done`;
   * a value message emits one value; skipped and ignored bytes do nothing.
   */
  function Apply(s: ReaderState, f: Frame, parse: SysExParser, policy: DonePolicy): (r: ReaderState)
    ensures r.values == s.values + (if f.Value? then [FirmataValue(f.cmd, From7Bit(f.lsb, f.msb), s.tables.analogChannelPinsMap)] else [])
    ensures r.sysEx == s.sysEx + (if f.SysEx? then [f.payload] else [])
    ensures r.protocolVersion == (if f.Version? then [f.major, f.minor] else s.protocolVersion)
    ensures r.synced == (s.synced || f.Version?)
    ensures f.SysEx? ==> r.tables == parse(s.tables, f.payload)
    ensures !f.SysEx? ==> r.tables == s.tables && r.doneCloses == s.doneCloses
    ensures f.SysEx? && policy == CloseEveryTime ==>
      r.doneCloses == s.doneCloses + (if HandshakeComplete(r.tables) then 1 else 0)
    ensures f.SysEx? && policy == CloseOnce ==>
      r.doneCloses == s.doneCloses + (if HandshakeComplete(r.tables) && s.doneCloses == 0 then 1 else 0)
  {
    match f
    case Skipped(_) => s
    case Ignored(_) => s
    case Version(major, minor) => s.(synced := true, protocolVersion := [major, minor])
    case SysEx(payload) =>
      var t := parse(s.tables, payload);
      var close := HandshakeComplete(t) && (policy == CloseEveryTime || s.doneCloses == 0);
      s.(tables := t, sysEx := s.sysEx + [payload], doneCloses := if close then s.doneCloses + 1 else s.doneCloses)
    case Value(cmd, lsb, msb) =>
      s.(values := s.values + [FirmataValue(cmd, From7Bit(lsb, msb), s.tables.analogChannelPinsMap)])
  }

  /**
   * The reader's loop over the whole input.  Output only grows, sync is
   * never lost, and under CloseOnce `done` is closed at most once.
   */
  function Run(s: ReaderState, input: seq<bv8>, parse: SysExParser, policy: DonePolicy): (r: ReaderState)
    ensures s.values <= r.values && s.sysEx <= r.sysEx
    ensures s.doneCloses <= r.doneCloses
    ensures s.synced ==> r.synced
    ensures policy == CloseOnce && s.doneCloses <= 1 ==> r.doneCloses <= 1
    decreases |input|
  {
    match NextFrame(s.synced, input)
    case None => s
    case Some(c) => Run(Apply(s, c.frame, parse, policy), input[c.size..], parse, policy)
  }

  /** FindEnd stops at the EndSysEx that closes a payload free of EndSysEx. */
  lemma {:induction false} FindEndAfterPayload(payload: seq<bv8>, rest: seq<bv8>)
    requires EndSysEx !in payload
    ensures FindEnd(payload + [EndSysEx] + rest) == Some(|payload|)
    decreases |payload|
  {
    if |payload| > 0 {
      FindEndAfterPayload(payload[1..], rest);
      assert (payload + [EndSysEx] + rest)[1..] == payload[1..] + [EndSysEx] + rest;
    }
  }

  /**
   * Framing round trip: the reader cuts a well-formed frame off the front
   * of any input that starts with the frame's bytes, whatever follows.
   * With NextFrame's own contract this makes NextFrame the exact inverse of
   * FrameBytes on the frames valid in each sync state.
   */
  lemma NextFrameOfFrameBytes(synced: bool, f: Frame, rest: seq<bv8>)
    requires WellFormed(synced, f)
    ensures NextFrame(synced, FrameBytes(f) + rest) == Some(Cut(f, |FrameBytes(f)|))
  {
    var input := FrameBytes(f) + rest;
    if f.SysEx? {
      assert input[1..] == f.payload + [EndSysEx] + rest;
      FindEndAfterPayload(f.payload, rest);
      assert input[1..][..|f.payload|] == f.payload;
    }
  }

  /**
   * The dispatch after sync: ReportVersion and StartSysEx come before the
   * value branch, a value command with its two bytes present takes exactly
   * those, and a byte below 0x10 takes only itself.  A StartSysEx waits for
   * an EndSysEx, and then takes everything up to the first one.
   */
  lemma NextFrameAfterSync(input: seq<bv8>)
    requires |input| >= 1
    ensures var cmd := input[0];
      && (cmd == ReportVersion && |input| >= 3 ==> NextFrame(true, input) == Some(Cut(Version(input[1], input[2]), 3)))
      && (cmd != ReportVersion && cmd != StartSysEx && cmd >= 0x10 && |input| >= 3 ==>
            NextFrame(true, input) == Some(Cut(Value(cmd, input[1], input[2]), 3)))
      && (cmd < 0x10 ==> NextFrame(true, input) == Some(Cut(Ignored(cmd), 1)))
    ensures input[0] == StartSysEx ==>
      (NextFrame(true, input).None? <==> EndSysEx !in input[1..])
    ensures input[0] == StartSysEx ==>
      forall k :: 1 <= k < |input| && input[k] == EndSysEx && EndSysEx !in input[1..k] ==>
        NextFrame(true, input) == Some(Cut(SysEx(input[1..k]), k + 1))
  {
    if input[0] == StartSysEx {
      forall k | 1 <= k < |input| && input[k] == EndSysEx && EndSysEx !in input[1..k]
        ensures NextFrame(true, input) == Some(Cut(SysEx(input[1..k]), k + 1))
      {
        NextSysExAt(input, k);
      }
    }
  }

  /** A sysex frame ends at the first EndSysEx after its StartSysEx, and at no other. */
  lemma NextSysExAt(input: seq<bv8>, k: nat)
    requires |input| >= 1 && input[0] == StartSysEx
    requires 1 <= k < |input| && input[k] == EndSysEx && EndSysEx !in input[1..k]
    ensures NextFrame(true, input) == Some(Cut(SysEx(input[1..k]), k + 1))
  {
    var rest := input[1..];
    assert rest[k - 1] == EndSysEx;
    assert rest[..k - 1] == input[1..k];
  }

  /** Running over a frame and then `rest` is applying the frame, then running over `rest`. */
  lemma RunFrame(s: ReaderState, f: Frame, rest: seq<bv8>, parse: SysExParser, policy: DonePolicy)
    requires WellFormed(s.synced, f)
    ensures Run(s, FrameBytes(f) + rest, parse, policy) == Run(Apply(s, f, parse, policy), rest, parse, policy)
  {
    NextFrameOfFrameBytes(s.synced, f, rest);
    assert (FrameBytes(f) + rest)[|FrameBytes(f)|..] == rest;
  }

  /**
   * Every ReportVersion, first or later, sets the protocol version to the
   * two bytes after it and leaves the reader synced.
   */
  lemma RunVersionMessage(s: ReaderState, major: bv8, minor: bv8, rest: seq<bv8>, parse: SysExParser, policy: DonePolicy)
    ensures Run(s, [ReportVersion, major, minor] + rest, parse, policy)
         == Run(s.(synced := true, protocolVersion := [major, minor]), rest, parse, policy)
  {
    RunFrame(s, Version(major, minor), rest, parse, policy);
  }

  /**
   * Before the first ReportVersion every byte is consumed with no effect:
   * no version, no sysex, no value, no close of `done`.
   */
  lemma {:induction false} RunSkipsUntilSync(s: ReaderState, junk: seq<bv8>, rest: seq<bv8>, parse: SysExParser, policy: DonePolicy)
    requires !s.synced && ReportVersion !in junk
    ensures Run(s, junk + rest, parse, policy) == Run(s, rest, parse, policy)
    ensures Run(s, junk, parse, policy) == s
    decreases |junk|
  {
    if |junk| > 0 {
      RunSkipsUntilSync(s, junk[1..], rest, parse, policy);
      RunFrame(s, Skipped(junk[0]), junk[1..] + rest, parse, policy);
      assert junk + rest == FrameBytes(Skipped(junk[0])) + (junk[1..] + rest);
      RunFrame(s, Skipped(junk[0]), junk[1..], parse, policy);
      assert junk == FrameBytes(Skipped(junk[0])) + junk[1..];
    } else {
      assert junk + rest == rest;
    }
  }

  /** A closed-at-most-once count: 0 stays 0, anything else becomes 1. */
  function AtMostOnce(n: nat): (r: nat)
    ensures r <= 1 && (r == 0 <==> n == 0)
  {
    if n == 0 then 0 else 1
  }

  /**
   * The CloseOnce reader does everything the Go reader as written does,
   * except that it closes `done` once where the Go reader closes it one
   * or more times.
   */
  lemma {:induction false} CloseOnceLatches(s1: ReaderState, s2: ReaderState, input: seq<bv8>, parse: SysExParser)
    requires s1 == s2.(doneCloses := AtMostOnce(s2.doneCloses))
    ensures var r2 := Run(s2, input, parse, CloseEveryTime);
      Run(s1, input, parse, CloseOnce) == r2.(doneCloses := AtMostOnce(r2.doneCloses))
    decreases |input|
  {
    match NextFrame(s1.synced, input)
    case None =>
    case Some(c) =>
      var t1 := Apply(s1, c.frame, parse, CloseOnce);
      var t2 := Apply(s2, c.frame, parse, CloseEveryTime);
      assert t1 == t2.(doneCloses := AtMostOnce(t2.doneCloses));
      CloseOnceLatches(t1, t2, input[c.size..], parse);
  }

  /** The bytes of a sequence of frames, back to back. */
  function Bytes(fs: seq<Frame>): seq<bv8> {
    if |fs| == 0 then [] else FrameBytes(fs[0]) + Bytes(fs[1..])
  }

  /** Applying frames one after another. */
  function ApplyAll(s: ReaderState, fs: seq<Frame>, parse: SysExParser, policy: DonePolicy): ReaderState
    decreases |fs|
  {
    if |fs| == 0 then s else ApplyAll(Apply(s, fs[0], parse, policy), fs[1..], parse, policy)
  }

  /** Each frame is one the reader can cut in the sync state the frames before it leave. */
  predicate ValidFrames(s: ReaderState, fs: seq<Frame>, parse: SysExParser, policy: DonePolicy)
    decreases |fs|
  {
    |fs| == 0 || (WellFormed(s.synced, fs[0]) && ValidFrames(Apply(s, fs[0], parse, policy), fs[1..], parse, policy))
  }

  /**
   * The reader run over a stream made of valid frames is the frames'
   * effects in order: it cuts the stream exactly where the frames meet.
   */
  lemma {:induction false} RunFrames(s: ReaderState, fs: seq<Frame>, rest: seq<bv8>, parse: SysExParser, policy: DonePolicy)
    requires ValidFrames(s, fs, parse, policy)
    ensures Run(s, Bytes(fs) + rest, parse, policy) == Run(ApplyAll(s, fs, parse, policy), rest, parse, policy)
    decreases |fs|
  {
    if |fs| == 0 {
      assert Bytes(fs) + rest == rest;
    } else {
      var t := Apply(s, fs[0], parse, policy);
      var tail := Bytes(fs[1..]) + rest;
      assert Bytes(fs) == FrameBytes(fs[0]) + Bytes(fs[1..]);
      assert Bytes(fs) + rest == FrameBytes(fs[0]) + tail;
      RunFrame(s, fs[0], tail, parse, policy);
      RunFrames(t, fs[1..], rest, parse, policy);
    }
  }

  /** Applying a list of frames and then one more. */
  lemma {:induction false} ApplyAllSnoc(s: ReaderState, fs: seq<Frame>, f: Frame, parse: SysExParser, policy: DonePolicy)
    ensures ApplyAll(s, fs + [f], parse, policy) == Apply(ApplyAll(s, fs, parse, policy), f, parse, policy)
    decreases |fs|
  {
    if |fs| == 0 {
      assert fs + [f] == [f];
    } else {
      assert (fs + [f])[1..] == fs[1..] + [f];
      ApplyAllSnoc(Apply(s, fs[0], parse, policy), fs[1..], f, parse, policy);
    }
  }

  /** A list of frames stays valid when the next frame can be cut in the state it leaves. */
  lemma {:induction false} ValidFramesSnoc(s: ReaderState, fs: seq<Frame>, f: Frame, parse: SysExParser, policy: DonePolicy)
    ensures ValidFrames(s, fs + [f], parse, policy)
      <==> ValidFrames(s, fs, parse, policy) && WellFormed(ApplyAll(s, fs, parse, policy).synced, f)
    decreases |fs|
  {
    if |fs| == 0 {
      assert fs + [f] == [f];
      assert ValidFrames(Apply(s, f, parse, policy), [], parse, policy);
    } else {
      assert (fs + [f])[1..] == fs[1..] + [f];
      ValidFramesSnoc(Apply(s, fs[0], parse, policy), fs[1..], f, parse, policy);
    }
  }
}
