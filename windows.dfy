// windows.go: WindowsIO.SendFrame (open a pcap handle, write one packet)
// and WindowsIO.ReceiveFrame (open a pcap handle, copy every non-empty
// packet of its packet stream into one buffer allocated once and emit a slice
// of it). pcap.OpenLive, WritePacketData and the packet stream are inputs.
module Windows {
  import opened Outcomes
  import opened Capture
  import opened NetIO

  /** The snapshot length SendFrame opens its handle with. */
  const SEND_SNAPLEN: int := 65536

  /** The calls into pcap, with their arguments; every handle is opened promiscuous with pcap.BlockForever. */
  datatype PcapCall =
    | OpenLive(device: string, snaplen: int, promisc: bool, blockForever: bool)
    | WritePacketData(data: Bytes)

  /** The errors pcap.OpenLive and WritePacketData report (None for success). */
  datatype SendEnv = SendEnv(open: Option<Error>, write: Option<Error>)

  /**
   * WindowsIO.SendFrame(frame): open the device, then write the frame;
   * (0, err) from the first that fails, (len(frame), nil) when both succeed.
   */
  method SendFrame(w: WindowsIO, frame: Bytes, env: SendEnv) returns (n: int, err: Option<Error>, calls: seq<PcapCall>)
    ensures err == PipelineError([env.open, env.write])
    ensures |calls| == StepsRun([env.open, env.write])
    ensures calls[0] == OpenLive(w.Interface, SEND_SNAPLEN, true, true)
    ensures env.open.Some? ==> n == 0 && err == env.open && |calls| == 1
    ensures env.open.None? ==> |calls| == 2 && calls[1] == WritePacketData(frame)
    ensures env.open.None? && env.write.Some? ==> n == 0 && err == env.write
    ensures env.open.None? && env.write.None? ==> n == |frame| && err.None?
  {
    var errs := [env.open, env.write];
    calls := [OpenLive(w.Interface, SEND_SNAPLEN, true, true)];
    if env.open.Some? {
      FirstFailureIs(errs, 0);
      return 0, env.open, calls;
    }
    calls := calls + [WritePacketData(frame)];
    if env.write.Some? {
      FirstFailureIs(errs, 1);
      return 0, env.write, calls;
    }
    FirstFailureIs(errs, 2);
    return |frame|, None, calls;
  }

  /** Go's int32(x) conversion: the value congruent to x modulo 2^32 in the int32 range. */
  function Int32(x: int): (r: int)
    ensures -0x8000_0000 <= r < 0x8000_0000
    ensures (r - x) % 0x1_0000_0000 == 0
    ensures -0x8000_0000 <= x < 0x8000_0000 ==> r == x
  {
    var m := x % 0x1_0000_0000;
    if m < 0x8000_0000 then m else m - 0x1_0000_0000
  }

  /** A byteSize of 2^31 or more reaches pcap as a different snapshot length, negative from 2^31 up to 2^32 - 1. */
  lemma Int32Wraps(x: int)
    requires 0x8000_0000 <= x < 0x1_0000_0000
    ensures Int32(x) == x - 0x1_0000_0000 && Int32(x) < 0
  {
  }

  /** The packets the handle's packet stream delivers, and whether the stream then closes. */
  datatype PacketStream = PacketStream(packets: seq<Bytes>, ended: bool)

  /** The outcome of pcap.OpenLive and the packet stream of the opened handle, given as input. */
  datatype ReceiveEnv = ReceiveEnv(open: Option<Error>, stream: PacketStream)

  /** Every packet fits in a buffer of cap bytes. */
  predicate Fits(ps: seq<Bytes>, cap: nat)
  {
    forall i :: 0 <= i < |ps| ==> |ps[i]| <= cap
  }

  /**
   * The emissions of the capture loop over packets with a buffer of cap
   * bytes: every non-empty packet, in order, until the first packet longer
   * than the buffer, where buffer[:len(frameData)] panics.
   */
  function CaptureLoop(ps: seq<Bytes>, cap: nat): seq<Emission>
  {
    if ps == [] then []
    else if |ps[0]| > cap then []
    else if ps[0] == [] then CaptureLoop(ps[1..], cap)
    else [Frame(ps[0])] + CaptureLoop(ps[1..], cap)
  }

  /** Where the capture loop stands after packets: panicked at a packet too long, ended with the stream, or still waiting. */
  function CaptureEnd(ps: seq<Bytes>, ended: bool, cap: nat): SessionState
  {
    if ps == [] then (if ended then Terminated else Capturing)
    else if |ps[0]| > cap then Panicked
    else CaptureEnd(ps[1..], ended, cap)
  }

  /** After packets that fit, the loop goes on as it would have started on the remaining ones. */
  lemma {:induction false} CaptureAppend(a: seq<Bytes>, b: seq<Bytes>, cap: nat, ended: bool)
    requires Fits(a, cap)
    ensures CaptureLoop(a + b, cap) == CaptureLoop(a, cap) + CaptureLoop(b, cap)
    ensures CaptureEnd(a + b, ended, cap) == CaptureEnd(b, ended, cap)
  {
    if a != [] {
      assert (a + b)[1..] == a[1..] + b;
      CaptureAppend(a[1..], b, cap, ended);
    } else {
      assert a + b == b;
    }
  }

  /** A packet longer than the buffer ends the session in a panic; nothing from it or after it is emitted. */
  lemma CaptureStopsAtOversize(a: seq<Bytes>, p: Bytes, b: seq<Bytes>, cap: nat, ended: bool)
    requires Fits(a, cap) && |p| > cap
    ensures CaptureLoop(a + [p] + b, cap) == CaptureLoop(a, cap)
    ensures CaptureEnd(a + [p] + b, ended, cap) == Panicked
  {
    assert a + [p] + b == a + ([p] + b);
    CaptureAppend(a, [p] + b, cap, ended);
  }

  /** When every packet fits, the loop stops exactly when the stream ends, and then without an error. */
  lemma StreamEnd(ps: seq<Bytes>, ended: bool, cap: nat)
    requires Fits(ps, cap)
    ensures CaptureEnd(ps, ended, cap) == if ended then Terminated else Capturing
  {
    assert ps + [] == ps;
    CaptureAppend(ps, [], cap, ended);
  }

  /**
   * The capture loop emits frames only, never an error, each a non-empty
   * copy of a packet that fits the buffer.
   */
  lemma {:induction false} CaptureFrames(ps: seq<Bytes>, cap: nat)
    ensures forall i :: 0 <= i < |CaptureLoop(ps, cap)| ==> CaptureLoop(ps, cap)[i].Frame?
    ensures forall i :: 0 <= i < |CaptureLoop(ps, cap)| ==> 1 <= |CaptureLoop(ps, cap)[i].bytes| <= cap
    ensures Failures(CaptureLoop(ps, cap)) == []
  {
    if ps != [] && |ps[0]| <= cap {
      CaptureFrames(ps[1..], cap);
    }
    NoFailures(CaptureLoop(ps, cap));
  }

  /** One more packet that fits extends the loop's emissions by that packet if it is not empty. */
  lemma FitStep(done: seq<Bytes>, p: Bytes, cap: nat)
    requires Fits(done, cap) && |p| <= cap
    ensures Fits(done + [p], cap)
    ensures CaptureLoop(done + [p], cap) == CaptureLoop(done, cap) + (if p == [] then [] else [Frame(p)])
  {
    CaptureAppend(done, [p], cap, false);
    assert CaptureLoop([p], cap) == (if p == [] then [] else [Frame(p)]) + CaptureLoop([], cap);
  }

  /**
   * One pass of the capture loop over a non-empty packet that fits: copy it
   * into the buffer and emit buffer[:len(frameData)].
   */
  method CopyAndEmit(buffer: array<byte>, done: seq<Bytes>, p: Bytes, trace: seq<Emission>)
    returns (extended: seq<Emission>)
    requires Fits(done, buffer.Length) && trace == CaptureLoop(done, buffer.Length)
    requires 0 < |p| <= buffer.Length
    requires buffer[..] == Overlay(Zeros(buffer.Length), Frames(trace))
    modifies buffer
    ensures Fits(done + [p], buffer.Length) && extended == CaptureLoop(done + [p], buffer.Length)
    ensures buffer[..] == Overlay(Zeros(buffer.Length), Frames(extended))
  {
    CopyInto(buffer, p);
    var frame := buffer[..|p|];
    assert frame == p;
    extended := trace + [Frame(frame)];
    FitStep(done, p, buffer.Length);
    FramesAppend(trace, [Frame(frame)]);
    assert Frames([Frame(frame)]) == Frames([]) + [frame];
    OverlayPush(Zeros(buffer.Length), Frames(trace), p);
  }

  /**
   * The capture loop: for each packet of the stream, skip it if empty, panic
   * if it is longer than the buffer, and otherwise copy and emit it.
   */
  method CapturePackets(buffer: array<byte>, stream: PacketStream) returns (trace: seq<Emission>, state: SessionState)
    requires buffer[..] == Zeros(buffer.Length)
    modifies buffer
    ensures trace == CaptureLoop(stream.packets, buffer.Length)
    ensures state == CaptureEnd(stream.packets, stream.ended, buffer.Length)
    ensures buffer[..] == Overlay(Zeros(buffer.Length), Frames(trace))
  {
    var cap := buffer.Length;
    var ps := stream.packets;
    trace := [];
    var i := 0;
    while i < |ps|
      invariant 0 <= i <= |ps|
      invariant Fits(ps[..i], cap) && trace == CaptureLoop(ps[..i], cap)
      invariant buffer[..] == Overlay(Zeros(cap), Frames(trace))
    {
      var frameData := ps[i];
      if |frameData| > 0 {
        if |frameData| > cap {
          assert ps == ps[..i] + [frameData] + ps[i + 1..];
          CaptureStopsAtOversize(ps[..i], frameData, ps[i + 1..], cap, stream.ended);
          return trace, Panicked;
        }
        assert ps[..i + 1] == ps[..i] + [frameData];
        trace := CopyAndEmit(buffer, ps[..i], frameData, trace);
      } else {
        assert ps[..i + 1] == ps[..i] + [frameData];
        FitStep(ps[..i], frameData, cap);
      }
      i := i + 1;
    }
    assert ps[..i] == ps;
    StreamEnd(ps, stream.ended, cap);
    state := if stream.ended then Terminated else Capturing;
  }

  /**
   * WindowsIO.ReceiveFrame(byteSize): open the device with snapshot length
   * int32(byteSize), emitting the error and ending if that fails; otherwise
   * run the capture loop with one buffer of byteSize bytes. views is what the
   * delivered slices, all backed by that one buffer, show at the end.
   */
  method ReceiveFrame(w: WindowsIO, byteSize: nat, env: ReceiveEnv)
    returns (calls: seq<PcapCall>, trace: seq<Emission>, state: SessionState, views: seq<Bytes>)
    ensures calls == [OpenLive(w.Interface, Int32(byteSize), true, true)]
    ensures env.open.Some? ==> trace == [Failure(env.open.value)] && state == Terminated
    ensures env.open.None? ==>
              && trace == CaptureLoop(env.stream.packets, byteSize)
              && state == CaptureEnd(env.stream.packets, env.stream.ended, byteSize)
    ensures views == Views(Overlay(Zeros(byteSize), Frames(trace)), Frames(trace))
  {
    calls := [OpenLive(w.Interface, Int32(byteSize), true, true)];
    if env.open.Some? {
      trace := [Failure(env.open.value)];
      assert Frames(trace) == [];
      return calls, trace, Terminated, [];
    }
    var buffer := new byte[byteSize](_ => 0);
    assert buffer[..] == Zeros(byteSize);
    trace, state := CapturePackets(buffer, env.stream);
    views := Views(buffer[..], Frames(trace));
  }
}
