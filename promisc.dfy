// setLsfPromisc (unix.go): switch promiscuous capture on or off for a named
// interface by reading its flags with the SIOCGIFFLAGS ioctl and writing
// them back with IFF_PROMISC set or cleared through SIOCSIFFLAGS.
module Promisc {
  import opened Outcomes
  import GoStrings

  // Linux constants the function passes to the kernel.
  const AF_INET: int := 2
  const SOCK_DGRAM: int := 2
  const SOCK_CLOEXEC: int := 0x80000
  const SIOCGIFFLAGS: int := 0x8913
  const SIOCSIFFLAGS: int := 0x8914
  const IFNAMSIZ: nat := 16
  const IFF_PROMISC: bv16 := 0x100
  /** Every flag bit except IFF_PROMISC (the complement of IFF_PROMISC). */
  const OTHER_FLAGS: bv16 := 0xFEFF

  /** The ioctl argument: the interface name field and the 16-bit flags word. */
  datatype Ifreq = Ifreq(name: Bytes, flags: bv16)

  /** The calls setLsfPromisc makes into the kernel, in the order it makes them. */
  datatype Call =
    | Socket(domain: int, sotype: int, proto: int)
    | Ioctl(fd: int, request: int, arg: Ifreq)

  /** What an ioctl reported: its errno (0 for success) and, for SIOCGIFFLAGS, the flags it filled in. */
  datatype IoctlReply = IoctlReply(errno: nat, flags: bv16)

  /** The outcomes of the three kernel calls, given as input. */
  datatype Env = Env(socket: Outcome<int>, get: IoctlReply, setErrno: nat)

  /** The errors of the three steps (open a socket, SIOCGIFFLAGS, SIOCSIFFLAGS), in order. */
  function StepErrors(env: Env): seq<Option<Error>>
  {
    [env.socket.ErrorOf(), ErrnoError(env.get.errno), ErrnoError(env.setErrno)]
  }

  /** The name field of the ioctl argument: a zeroed IFNAMSIZ-byte array with the name copied in. */
  function NameField(name: Bytes): (r: Bytes)
    ensures |r| == IFNAMSIZ
    ensures forall i :: 0 <= i < |name| && i < IFNAMSIZ ==> r[i] == name[i]
    ensures forall i :: |name| <= i < IFNAMSIZ ==> r[i] == 0
  {
    seq(IFNAMSIZ, i requires 0 <= i < IFNAMSIZ => if i < |name| then name[i] else 0)
  }

  /** The NUL-terminated string the kernel reads back out of a name field. */
  function CString(b: Bytes): (r: Bytes)
    ensures r <= b
    ensures 0 !in r
  {
    if b == [] || b[0] == 0 then [] else [b[0]] + CString(b[1..])
  }

  lemma {:induction false} CStringOf(s: Bytes, rest: Bytes)
    requires 0 !in s
    ensures CString(s + [0] + rest) == s
  {
    if s != [] {
      assert (s + [0] + rest)[1..] == s[1..] + [0] + rest;
      CStringOf(s[1..], rest);
      assert s == [s[0]] + s[1..];
    }
  }

  /**
   * A name shorter than IFNAMSIZ bytes, without NUL bytes, survives the copy
   * into the name field: the kernel reads back exactly that name.
   */
  lemma NameFieldRoundTrip(name: Bytes)
    requires |name| < IFNAMSIZ && 0 !in name
    ensures CString(NameField(name)) == name
  {
    var f := NameField(name);
    assert f == name + [0] + f[|name| + 1..];
    CStringOf(name, f[|name| + 1..]);
  }

  /**
   * A name of IFNAMSIZ bytes or more is truncated to its first IFNAMSIZ
   * bytes, leaving the field without a terminating NUL unless one was among them.
   */
  lemma NameFieldTruncates(name: Bytes)
    requires |name| >= IFNAMSIZ
    ensures NameField(name) == name[..IFNAMSIZ]
    ensures 0 in NameField(name) <==> 0 in name[..IFNAMSIZ]
  {
  }

  /** The flags word written back: IFF_PROMISC set when enabling, cleared when disabling. */
  function UpdateFlags(flags: bv16, enable: bool): (r: bv16)
    ensures (r & IFF_PROMISC != 0) == enable
    ensures r & OTHER_FLAGS == flags & OTHER_FLAGS
  {
    if enable then flags | IFF_PROMISC else flags & !IFF_PROMISC
  }

  /** A flags word is determined by its IFF_PROMISC bit and its other bits. */
  lemma FlagsDetermined(a: bv16, b: bv16)
    requires (a & IFF_PROMISC != 0) == (b & IFF_PROMISC != 0)
    requires a & OTHER_FLAGS == b & OTHER_FLAGS
    ensures a == b
  {
  }

  /**
   * Of two updates in a row only the second counts: enabling twice is enabling
   * once, and disabling after enabling leaves the bit clear as if never enabled.
   */
  lemma UpdateTwice(flags: bv16, first: bool, second: bool)
    ensures UpdateFlags(UpdateFlags(flags, first), second) == UpdateFlags(flags, second)
  {
    FlagsDetermined(UpdateFlags(UpdateFlags(flags, first), second), UpdateFlags(flags, second));
  }

  /**
   * The flags an interface ends with after a run of successful calls, each
   * reading back the flags the previous one wrote.
   */
  function Toggle(flags: bv16, modes: seq<bool>): bv16
  {
    if modes == [] then flags else UpdateFlags(Toggle(flags, modes[..|modes| - 1]), modes[|modes| - 1])
  }

  /**
   * After any run of enable/disable calls the IFF_PROMISC bit matches the last
   * call and every other bit is what the interface started with.
   */
  lemma {:induction false} ToggleLastWins(flags: bv16, modes: seq<bool>)
    requires modes != []
    ensures (Toggle(flags, modes) & IFF_PROMISC != 0) == modes[|modes| - 1]
    ensures Toggle(flags, modes) & OTHER_FLAGS == flags & OTHER_FLAGS
  {
    if |modes| > 1 {
      ToggleLastWins(flags, modes[..|modes| - 1]);
    }
  }

  /** The calls setLsfPromisc issues for name and mode m under env, as its contract states them. */
  predicate Issued(name: string, m: bool, env: Env, calls: seq<Call>)
  {
    var field := NameField(GoStrings.Utf8(name));
    && |calls| == StepsRun(StepErrors(env))
    && calls[0] == Socket(AF_INET, SOCK_DGRAM + SOCK_CLOEXEC, 0)
    && (|calls| > 1 ==> env.socket.Ok? && calls[1] == Ioctl(env.socket.value, SIOCGIFFLAGS, Ifreq(field, 0)))
    && (|calls| > 2 ==>
          env.socket.Ok? && env.get.errno == 0
          && calls[2] == Ioctl(env.socket.value, SIOCSIFFLAGS, Ifreq(field, UpdateFlags(env.get.flags, m))))
  }

  /**
   * setLsfPromisc(name, m). It opens a datagram socket, copies the name into a
   * zeroed IFNAMSIZ field, reads the flags with SIOCGIFFLAGS, and writes back
   * the flags with IFF_PROMISC set (m) or cleared (!m) with SIOCSIFFLAGS,
   * returning the error of the first call that fails.
   */
  method SetLsfPromisc(name: string, m: bool, env: Env) returns (err: Option<Error>, calls: seq<Call>)
    ensures err == PipelineError(StepErrors(env))
    ensures Issued(name, m, env, calls)
    ensures env.socket.Ok? && env.get.errno != 0 ==>
              err == Some(Errno(env.get.errno))
              && forall c :: c in calls && c.Ioctl? ==> c.request != SIOCSIFFLAGS
  {
    calls := [Socket(AF_INET, SOCK_DGRAM + SOCK_CLOEXEC, 0)];
    if env.socket.Fail? {
      FirstFailureIs(StepErrors(env), 0);
      return Some(env.socket.error), calls;
    }
    var s := env.socket.value;

    var ifname := new byte[IFNAMSIZ](_ => 0);
    var bytes := GoStrings.Utf8(name);
    var i := 0;
    while i < IFNAMSIZ && i < |bytes|
      invariant 0 <= i <= IFNAMSIZ
      invariant i <= |bytes|
      invariant forall j :: 0 <= j < i ==> ifname[j] == bytes[j]
      invariant forall j :: i <= j < IFNAMSIZ ==> ifname[j] == 0
    {
      ifname[i] := bytes[i];
      i := i + 1;
    }
    assert ifname[..] == NameField(bytes);

    calls := calls + [Ioctl(s, SIOCGIFFLAGS, Ifreq(ifname[..], 0))];
    if env.get.errno != 0 {
      FirstFailureIs(StepErrors(env), 1);
      return Some(Errno(env.get.errno)), calls;
    }
    var flags := UpdateFlags(env.get.flags, m);
    calls := calls + [Ioctl(s, SIOCSIFFLAGS, Ifreq(ifname[..], flags))];
    if env.setErrno != 0 {
      FirstFailureIs(StepErrors(env), 2);
      return Some(Errno(env.setErrno)), calls;
    }
    FirstFailureIs(StepErrors(env), 3);
    return None, calls;
  }
}
