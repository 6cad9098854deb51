// unix.go: UnixLikeIO.SendFrame (a raw AF_PACKET socket bound to the
// interface's link-layer address, promiscuous mode switched on, one write)
// and UnixLikeIO.ReceiveFrame (a raw socket bound to the device, then one
// Recvfrom after another into a buffer allocated once). Every system call and
// net.InterfaceByName is an input: the outcome it reports.
module Unix {
  import opened Outcomes
  import opened Capture
  import Promisc
  import opened NetIO

  const AF_PACKET: int := 17
  const SOCK_RAW: int := 3
  /** ETH_P_ALL (0x0003) with its bytes swapped, as the package passes it. */
  const ETH_P_ALL_SWAPPED: int := 0x0300

  /**
   * A Go byte slice: its elements, and the bytes of its backing array beyond
   * its length (cap - len of them), which a reslice up to cap can reach.
   */
  datatype ByteSlice = ByteSlice(elems: Bytes, spare: Bytes)
  {
    function Len(): nat { |elems| }
    function Cap(): nat { |elems| + |spare| }
  }

  /** What net.InterfaceByName reports and the package uses. */
  datatype NetInterface = NetInterface(Index: int, HardwareAddr: ByteSlice)

  /** syscall.SockaddrLinklayer. */
  datatype SockaddrLinklayer = SockaddrLinklayer(
    Protocol: bv16, Ifindex: int, Hatype: bv16, Pkttype: byte, Halen: byte, Addr: Bytes)

  /** Go's uint8(x) conversion of a non-negative int: the low eight bits. */
  function Uint8(x: nat): (r: byte)
    ensures (r as int - x) % 256 == 0
    ensures x < 256 ==> r as int == x
  {
    (x % 256) as byte
  }

  /** Lengths 256 apart convert to the same byte: uint8 forgets everything above the low eight bits. */
  lemma Uint8Wraps(x: nat)
    ensures Uint8(x + 256) == Uint8(x)
  {
  }

  /**
   * The address record as unix.go:43-50 builds it: the reslice
   * HardwareAddr[0:7] panics (None) unless the slice has capacity 7, and
   * otherwise copies seven bytes, reaching past the length into spare capacity.
   */
  function LinkAddrAsWritten(dev: NetInterface): (r: Option<SockaddrLinklayer>)
    ensures r.None? <==> dev.HardwareAddr.Cap() < 7
    ensures r.Some? ==> |r.value.Addr| == 8 && r.value.Addr[7] == 0
    ensures r.Some? ==> r.value.Addr[..7] == (dev.HardwareAddr.elems + dev.HardwareAddr.spare)[..7]
  {
    var ha := dev.HardwareAddr;
    if ha.Cap() < 7 then None
    else
      var window := (ha.elems + ha.spare)[..7];
      Some(SockaddrLinklayer(0x0300, dev.Index, 0, 0, Uint8(ha.Len()), Write(Zeros(8), window)))
  }

  /**
   * The address record with the copy bounded by the address itself, as
   * copy(hardwareAddr[0:7], device.HardwareAddr) does: at most seven bytes of
   * the address, the rest of the eight-byte field zero.
   */
  function LinkAddr(dev: NetInterface): (r: SockaddrLinklayer)
    ensures r.Protocol == 0x0300 && r.Ifindex == dev.Index && r.Hatype == 0 && r.Pkttype == 0
    ensures r.Halen as int == dev.HardwareAddr.Len() % 256
    ensures |r.Addr| == 8 && r.Addr[7] == 0
    ensures forall i :: 0 <= i < 7 && i < dev.HardwareAddr.Len() ==> r.Addr[i] == dev.HardwareAddr.elems[i]
    ensures forall i :: dev.HardwareAddr.Len() <= i < 8 ==> r.Addr[i] == 0
  {
    var ha := dev.HardwareAddr.elems;
    var n := if |ha| < 7 then |ha| else 7;
    SockaddrLinklayer(0x0300, dev.Index, 0, 0, Uint8(|ha|), Write(Zeros(8), ha[..n]))
  }

  /** With an address of seven bytes or more, both versions build the same record. */
  lemma LinkAddrAgrees(dev: NetInterface)
    requires dev.HardwareAddr.Len() >= 7
    ensures LinkAddrAsWritten(dev) == Some(LinkAddr(dev))
  {
    var ha := dev.HardwareAddr;
    assert (ha.elems + ha.spare)[..7] == ha.elems[..7];
  }

  /**
   * An Ethernet MAC of six bytes in a slice without spare capacity (how a
   * freshly made slice comes), and the nil address of an interface without a
   * link-layer address, make the as-written reslice panic; the bounded copy
   * gives the address zero-padded to eight bytes.
   */
  lemma LinkAddrPanics(index: int, mac: Bytes)
    requires |mac| == 6
    ensures LinkAddrAsWritten(NetInterface(index, ByteSlice(mac, []))).None?
    ensures LinkAddrAsWritten(NetInterface(index, ByteSlice([], []))).None?
    ensures LinkAddr(NetInterface(index, ByteSlice(mac, []))).Addr == mac + [0, 0]
    ensures LinkAddr(NetInterface(index, ByteSlice(mac, []))).Halen == 6
  {
    var addr := LinkAddr(NetInterface(index, ByteSlice(mac, []))).Addr;
    assert addr == mac + [0, 0] by {
      forall i | 0 <= i < 8 ensures addr[i] == (mac + [0, 0])[i] { }
    }
  }

  /** With spare capacity behind a short address, the as-written copy carries bytes that are not part of the address. */
  lemma LinkAddrReadsSpare(dev: NetInterface)
    requires dev.HardwareAddr.Len() < 7 <= dev.HardwareAddr.Cap()
    ensures var ha := dev.HardwareAddr;
            LinkAddrAsWritten(dev).value.Addr[ha.Len()..7] == ha.spare[..7 - ha.Len()]
  {
    var ha := dev.HardwareAddr;
    var addr := LinkAddrAsWritten(dev).value.Addr;
    assert addr[ha.Len()..7] == (ha.elems + ha.spare)[..7][ha.Len()..];
  }

  /** The steps SendFrame and ReceiveFrame take, in order, with the arguments they pass. */
  datatype Step =
    | OpenSocket(domain: int, sotype: int, proto: int)
    | LookupInterface(name: string)
    | Bind(fd: int, addr: SockaddrLinklayer)
    | BindToDevice(fd: int, device: string)
    | EnablePromisc(name: string, calls: seq<Promisc.Call>)
    | WriteFrame(fd: int, frame: Bytes)

  /** The outcomes of SendFrame's five steps, given as input. */
  datatype SendEnv = SendEnv(
    socket: Outcome<int>,        // syscall.Socket
    lookup: Outcome<NetInterface>, // net.InterfaceByName
    bind: Option<Error>,         // syscall.Bind
    promisc: Promisc.Env,        // the kernel calls of setLsfPromisc
    write: Outcome<int>)         // syscall.Write

  /** The errors of SendFrame's steps: socket, lookup, bind, promiscuous mode, write. */
  function SendErrors(env: SendEnv): seq<Option<Error>>
  {
    [ env.socket.ErrorOf(), env.lookup.ErrorOf(), env.bind,
      PipelineError(Promisc.StepErrors(env.promisc)), env.write.ErrorOf() ]
  }

  /** SendFrame succeeds exactly when all five steps do. */
  lemma SendSucceeds(env: SendEnv)
    ensures PipelineError(SendErrors(env)).None? <==>
              && env.socket.Ok? && env.lookup.Ok? && env.bind.None?
              && PipelineError(Promisc.StepErrors(env.promisc)).None? && env.write.Ok?
  {
    var errs := SendErrors(env);
    PipelineOutcome(errs);
    assert errs[0].None? <==> env.socket.Ok?;
    assert errs[1].None? <==> env.lookup.Ok?;
    assert errs[4].None? <==> env.write.Ok?;
    if PipelineError(errs).None? {
      assert errs[0].None? && errs[1].None? && errs[2].None? && errs[3].None? && errs[4].None?;
    }
  }

  /**
   * UnixLikeIO.SendFrame(frame): open a raw socket, look the interface up,
   * bind to its link-layer address, enable promiscuous mode, write the frame.
   * The first step that fails ends it with (0, err) and no later step runs; on
   * success it returns the count the write reported.
   */
  method SendFrame(u: UnixLikeIO, frame: Bytes, env: SendEnv) returns (n: int, err: Option<Error>, steps: seq<Step>)
    ensures err == PipelineError(SendErrors(env))
    ensures |steps| == StepsRun(SendErrors(env))
    ensures steps[0] == OpenSocket(AF_PACKET, SOCK_RAW, ETH_P_ALL_SWAPPED)
    ensures |steps| > 1 ==> env.socket.Ok? && steps[1] == LookupInterface(u.Interface)
    ensures |steps| > 2 ==> env.lookup.Ok? && steps[2] == Bind(env.socket.value, LinkAddr(env.lookup.value))
    ensures |steps| > 3 ==>
              && steps[3].EnablePromisc? && steps[3].name == u.Interface
              && Promisc.Issued(u.Interface, true, env.promisc, steps[3].calls)
    ensures |steps| > 4 ==> steps[4] == WriteFrame(env.socket.value, frame)
    ensures err.None? ==> env.write.Ok? && n == env.write.value
    ensures err.Some? ==> n == 0
  {
    var errs := SendErrors(env);
    steps := [OpenSocket(AF_PACKET, SOCK_RAW, ETH_P_ALL_SWAPPED)];
    if env.socket.Fail? {
      FirstFailureIs(errs, 0);
      return 0, Some(env.socket.error), steps;
    }
    var fd := env.socket.value;

    steps := steps + [LookupInterface(u.Interface)];
    if env.lookup.Fail? {
      FirstFailureIs(errs, 1);
      return 0, Some(env.lookup.error), steps;
    }
    var device := env.lookup.value;

    var addr := LinkAddr(device);
    steps := steps + [Bind(fd, addr)];
    if env.bind.Some? {
      FirstFailureIs(errs, 2);
      return 0, env.bind, steps;
    }

    var perr, calls := Promisc.SetLsfPromisc(u.Interface, true, env.promisc);
    steps := steps + [EnablePromisc(u.Interface, calls)];
    if perr.Some? {
      FirstFailureIs(errs, 3);
      return 0, perr, steps;
    }

    steps := steps + [WriteFrame(fd, frame)];
    if env.write.Fail? {
      FirstFailureIs(errs, 4);
      return 0, Some(env.write.error), steps;
    }
    FirstFailureIs(errs, 5);
    return env.write.value, None, steps;
  }

  /** What one Recvfrom reports: the packet that arrived, or an error. */
  datatype ReadResult = Received(packet: Bytes) | ReadFailed(error: Error)

  /** The outcomes of ReceiveFrame's set-up and of its successive reads, given as input. */
  datatype ReceiveEnv = ReceiveEnv(socket: Outcome<int>, bind: Option<Error>, results: seq<ReadResult>)

  /** The bytes of a packet a read of n bytes stores: at most n of them. */
  function Truncate(p: Bytes, n: nat): (r: Bytes)
    ensures r <= p
    ensures |r| == if |p| < n then |p| else n
  {
    if |p| < n then p else p[..n]
  }

  /**
   * The emissions of the receive loop over reads into a buffer of cap bytes:
   * the stored bytes of every read that stored any, until the first failed
   * read, whose error is emitted last.
   */
  function ReadLoop(rs: seq<ReadResult>, cap: nat): seq<Emission>
  {
    if rs == [] then []
    else
      match rs[0]
      case ReadFailed(e) => [Failure(e)]
      case Received(p) => Stored(p, cap) + ReadLoop(rs[1..], cap)
  }

  /** Where the loop stands after reads: ended by a failed read, or still reading. */
  function ReadState(rs: seq<ReadResult>): SessionState
  {
    if rs == [] then Capturing
    else if rs[0].ReadFailed? then Terminated
    else ReadState(rs[1..])
  }

  /**
   * After successful reads, the loop goes on exactly as it would have started
   * on the remaining reads.
   */
  lemma {:induction false} ReadLoopAppend(a: seq<ReadResult>, b: seq<ReadResult>, cap: nat)
    requires forall i :: 0 <= i < |a| ==> a[i].Received?
    ensures ReadLoop(a + b, cap) == ReadLoop(a, cap) + ReadLoop(b, cap)
    ensures ReadState(a + b) == ReadState(b)
  {
    if a != [] {
      assert (a + b)[1..] == a[1..] + b;
      ReadLoopAppend(a[1..], b, cap);
    } else {
      assert a + b == b;
    }
  }

  /**
   * The first failed read is emitted once and ends the loop: nothing it would
   * have read afterwards is emitted, and the loop terminates.
   */
  lemma {:induction false} ReadLoopEndsAtFailure(a: seq<ReadResult>, e: Error, b: seq<ReadResult>, cap: nat)
    requires forall i :: 0 <= i < |a| ==> a[i].Received?
    ensures ReadLoop(a + [ReadFailed(e)] + b, cap) == ReadLoop(a, cap) + [Failure(e)]
    ensures ReadState(a + [ReadFailed(e)] + b) == Terminated
  {
    assert a + [ReadFailed(e)] + b == a + ([ReadFailed(e)] + b);
    ReadLoopAppend(a, [ReadFailed(e)] + b, cap);
  }

  /** The emissions of a read that succeeded: its stored bytes, if there are any. */
  function Stored(p: Bytes, cap: nat): (r: seq<Emission>)
    ensures |r| <= 1
    ensures r == [] <==> p == [] || cap == 0
    ensures r != [] ==> r[0] == Frame(Truncate(p, cap)) && 1 <= |r[0].bytes| <= cap
  {
    if Truncate(p, cap) != [] then [Frame(Truncate(p, cap))] else []
  }

  /**
   * Every emission of a receive trace but the last is a frame, and every
   * frame holds 1 to cap bytes.
   */
  lemma {:induction false} ReadLoopFrames(rs: seq<ReadResult>, cap: nat)
    ensures forall i :: 0 <= i < |ReadLoop(rs, cap)| - 1 ==> ReadLoop(rs, cap)[i].Frame?
    ensures forall i :: 0 <= i < |ReadLoop(rs, cap)| && ReadLoop(rs, cap)[i].Frame? ==>
              1 <= |ReadLoop(rs, cap)[i].bytes| <= cap
  {
    if rs != [] && rs[0].Received? {
      ReadLoopFrames(rs[1..], cap);
      var head := Stored(rs[0].packet, cap);
      var rest := ReadLoop(rs[1..], cap);
      var t := head + rest;
      assert ReadLoop(rs, cap) == t;
      forall i | 0 <= i < |t|
        ensures i < |t| - 1 ==> t[i].Frame?
        ensures t[i].Frame? ==> 1 <= |t[i].bytes| <= cap
      {
        if i < |head| {
          assert t[i] == head[0];
        } else {
          assert t[i] == rest[i - |head|];
        }
      }
    }
  }

  /** A receive trace ends with an error exactly when the loop has terminated. */
  lemma {:induction false} ReadLoopEnds(rs: seq<ReadResult>, cap: nat)
    ensures var t := ReadLoop(rs, cap);
            (t != [] && t[|t| - 1].Failure?) <==> ReadState(rs) == Terminated
  {
    if rs != [] && rs[0].Received? {
      ReadLoopEnds(rs[1..], cap);
      var head := Stored(rs[0].packet, cap);
      var rest := ReadLoop(rs[1..], cap);
      assert ReadLoop(rs, cap) == head + rest;
      if rest != [] {
        assert (head + rest)[|head + rest| - 1] == rest[|rest| - 1];
      }
    }
  }

  /** The loop terminates exactly when some read fails. */
  lemma {:induction false} ReadStateFailed(rs: seq<ReadResult>)
    ensures ReadState(rs) == Terminated <==> exists j :: 0 <= j < |rs| && rs[j].ReadFailed?
  {
    if rs != [] && rs[0].Received? {
      ReadStateFailed(rs[1..]);
      if ReadState(rs) == Terminated {
        var j :| 0 <= j < |rs[1..]| && rs[1..][j].ReadFailed?;
        assert rs[j + 1].ReadFailed?;
      }
      if exists j :: 0 <= j < |rs| && rs[j].ReadFailed? {
        var j :| 0 <= j < |rs| && rs[j].ReadFailed?;
        assert rs[1..][j - 1].ReadFailed?;
      }
    }
  }

  /** A receive trace holds at most one error. */
  lemma AtMostOneFailure(rs: seq<ReadResult>, cap: nat)
    ensures |Failures(ReadLoop(rs, cap))| <= 1
  {
    ReadLoopFrames(rs, cap);
    FailuresCount(ReadLoop(rs, cap));
  }

  /**
   * One successful Recvfrom into buffer: the kernel stores as much of the
   * packet as fits, and the stored bytes, if any, are emitted as buffer[:n].
   */
  method Read(buffer: array<byte>, p: Bytes) returns (emitted: seq<Emission>)
    modifies buffer
    ensures buffer[..] == Write(old(buffer[..]), Truncate(p, buffer.Length))
    ensures emitted == Stored(p, buffer.Length)
    ensures Frames(emitted) == if emitted == [] then [] else [Truncate(p, buffer.Length)]
    ensures emitted == [] ==> buffer[..] == old(buffer[..])
  {
    ghost var before := buffer[..];
    CopyInto(buffer, p);
    WriteTruncated(before, p);
    var n := if |p| < buffer.Length then |p| else buffer.Length;
    if n > 0 {
      emitted := [Frame(buffer[..n])];
      assert Frames(emitted) == Frames([]) + [buffer[..n]];
    } else {
      emitted := [];
      assert buffer[..] == before;
    }
  }

  predicate AllReceived(rs: seq<ReadResult>)
  {
    forall j :: 0 <= j < |rs| ==> rs[j].Received?
  }

  /**
   * A loop whose reads all succeeded is still capturing. It is stated on the
   * loop's last prefix rs[..|rs|] and equates it with rs, so the loop's proof stays within the solver's budget.
   */
  lemma AllReceivedCapturing(rs: seq<ReadResult>)
    requires AllReceived(rs[..|rs|])
    ensures rs[..|rs|] == rs
    ensures ReadState(rs) == Capturing
  {
    assert rs[..|rs|] == rs;
    assert rs + [] == rs;
    ReadLoopAppend(rs, [], 0);
  }

  /** A failed read after successful ones ends the loop with its error. */
  lemma FailedReadEnds(rs: seq<ReadResult>, i: nat, cap: nat)
    requires i < |rs| && rs[i].ReadFailed? && AllReceived(rs[..i])
    ensures ReadLoop(rs, cap) == ReadLoop(rs[..i], cap) + [Failure(rs[i].error)]
    ensures ReadState(rs) == Terminated
  {
    assert rs == rs[..i] + [rs[i]] + rs[i + 1..];
    ReadLoopEndsAtFailure(rs[..i], rs[i].error, rs[i + 1..], cap);
  }

  /** The reads up to and including read i, stated apart so the loop's proof stays within the solver's budget. */
  lemma PrefixStep(rs: seq<ReadResult>, i: nat)
    requires i < |rs|
    ensures rs[..i + 1] == rs[..i] + [rs[i]]
  {
  }

  /** An error adds no frame. */
  lemma FailureFrames(trace: seq<Emission>, e: Error)
    ensures Frames(trace + [Failure(e)]) == Frames(trace)
  {
    FramesAppend(trace, [Failure(e)]);
    assert [Failure(e)][..0] == [];
  }

  /** One more successful read extends the loop's trace by what it stored. */
  lemma ReceivedStep(done: seq<ReadResult>, p: Bytes, cap: nat)
    requires AllReceived(done)
    ensures AllReceived(done + [Received(p)])
    ensures ReadLoop(done + [Received(p)], cap) == ReadLoop(done, cap) + Stored(p, cap)
  {
    ReadLoopAppend(done, [Received(p)], cap);
    assert ReadLoop([Received(p)], cap) == Stored(p, cap) + ReadLoop([], cap);
  }

  /** The frames of a trace extended by what one read stored. */
  lemma StoredFrames(trace: seq<Emission>, emitted: seq<Emission>, p: Bytes, cap: nat)
    requires Frames(emitted) == if emitted == [] then [] else [Truncate(p, cap)]
    ensures Frames(trace + emitted) == if emitted == [] then Frames(trace) else Frames(trace) + [Truncate(p, cap)]
  {
    FramesAppend(trace, emitted);
  }

  /** One pass of the capture loop whose read succeeded: the read, and the emission of what it stored. */
  method ReadAndEmit(buffer: array<byte>, done: seq<ReadResult>, p: Bytes, trace: seq<Emission>)
    returns (extended: seq<Emission>)
    requires AllReceived(done) && trace == ReadLoop(done, buffer.Length)
    requires buffer[..] == Overlay(Zeros(buffer.Length), Frames(trace))
    modifies buffer
    ensures AllReceived(done + [Received(p)]) && extended == ReadLoop(done + [Received(p)], buffer.Length)
    ensures buffer[..] == Overlay(Zeros(buffer.Length), Frames(extended))
  {
    var emitted := Read(buffer, p);
    ReceivedStep(done, p, buffer.Length);
    StoredFrames(trace, emitted, p, buffer.Length);
    if emitted != [] {
      OverlayPush(Zeros(buffer.Length), Frames(trace), Truncate(p, buffer.Length));
    }
    extended := trace + emitted;
  }

  /**
   * The capture loop: read into buffer, emitting what each read stored, until
   * a read fails (its error emitted last) or there is nothing more to read.
   */
  method ReadUntilFailure(buffer: array<byte>, rs: seq<ReadResult>) returns (trace: seq<Emission>, state: SessionState)
    requires buffer[..] == Zeros(buffer.Length)
    modifies buffer
    ensures trace == ReadLoop(rs, buffer.Length) && state == ReadState(rs)
    ensures buffer[..] == Overlay(Zeros(buffer.Length), Frames(trace))
  {
    var cap := buffer.Length;
    trace := [];
    var i := 0;
    while i < |rs|
      invariant 0 <= i <= |rs|
      invariant AllReceived(rs[..i]) && trace == ReadLoop(rs[..i], cap)
      invariant buffer[..] == Overlay(Zeros(cap), Frames(trace))
    {
      var r := rs[i];
      if r.ReadFailed? {
        FailedReadEnds(rs, i, cap);
        FailureFrames(trace, r.error);
        return trace + [Failure(r.error)], Terminated;
      }
      PrefixStep(rs, i);
      trace := ReadAndEmit(buffer, rs[..i], r.packet, trace);
      i := i + 1;
    }
    AllReceivedCapturing(rs);
    state := Capturing;
  }

  /**
   * UnixLikeIO.ReceiveFrame(byteSize): open a raw socket and bind it to the
   * device, emitting the error and ending if either fails; otherwise read
   * into one buffer of byteSize bytes, emitting buffer[:n] for every read of
   * n > 0 bytes, until a read fails, whose error is emitted last. views is
   * what the delivered slices, all backed by that one buffer, show at the end.
   */
  method ReceiveFrame(u: UnixLikeIO, byteSize: nat, env: ReceiveEnv)
    returns (setup: seq<Step>, trace: seq<Emission>, state: SessionState, views: seq<Bytes>)
    ensures |setup| >= 1 && setup[0] == OpenSocket(AF_PACKET, SOCK_RAW, ETH_P_ALL_SWAPPED)
    ensures env.socket.Fail? ==> |setup| == 1 && trace == [Failure(env.socket.error)] && state == Terminated
    ensures env.socket.Ok? ==> |setup| == 2 && setup[1] == BindToDevice(env.socket.value, u.Interface)
    ensures env.socket.Ok? && env.bind.Some? ==> trace == [Failure(env.bind.value)] && state == Terminated
    ensures env.socket.Ok? && env.bind.None? ==>
              trace == ReadLoop(env.results, byteSize) && state == ReadState(env.results)
    ensures views == Views(Overlay(Zeros(byteSize), Frames(trace)), Frames(trace))
  {
    setup := [OpenSocket(AF_PACKET, SOCK_RAW, ETH_P_ALL_SWAPPED)];
    if env.socket.Fail? {
      trace := [Failure(env.socket.error)];
      assert Frames(trace) == [];
      return setup, trace, Terminated, [];
    }
    var fd := env.socket.value;
    setup := setup + [BindToDevice(fd, u.Interface)];
    if env.bind.Some? {
      trace := [Failure(env.bind.value)];
      assert Frames(trace) == [];
      return setup, trace, Terminated, [];
    }

    var buffer := new byte[byteSize](_ => 0);
    assert buffer[..] == Zeros(byteSize);
    trace, state := ReadUntilFailure(buffer, env.results);
    views := Views(buffer[..], Frames(trace));
  }
}
