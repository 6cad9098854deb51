// iointerface.go: the IoInterface capability with its two implementations,
// the choice of implementation by operating system (NewIO), the checked
// constructor NewIoInterface, and the string handling of
// listAndChooseInterface. The host OS (Go's runtime.GOOS) is a parameter;
// the device list, the listing command's output and the option the
// interactive prompt hands back are inputs.
module NetIO {
  import opened Outcomes
  import opened GoStrings

  /** Frame I/O through a packet-capture handle (Windows). */
  datatype WindowsIO = WindowsIO(Interface: string)

  /** Frame I/O through raw link-layer sockets (Linux, macOS). */
  datatype UnixLikeIO = UnixLikeIO(Interface: string)

  /** A non-nil IoInterface value: one of the two implementations. */
  datatype IoInterface = Windows(w: WindowsIO) | UnixLike(u: UnixLikeIO) {
    function Interface(): string
    {
      match this
      case Windows(w) => w.Interface
      case UnixLike(u) => u.Interface
    }
  }

  const NameRequired := "interface name must be provided if list is false"
  const NoInterfacesFound := "no network interfaces found"

  /** isWindows: the host is Windows. */
  predicate IsWindows(goos: string)
    ensures IsWindows(goos) ==> !IsUnixLike(goos)
  {
    goos == "windows"
  }

  /** isUnixLike: the host is Linux or macOS. */
  predicate IsUnixLike(goos: string)
  {
    goos == "linux" || goos == "darwin"
  }

  /**
   * NewIO(device): the implementation for the host OS, bound to device; nil
   * (None) on any other OS.
   */
  function NewIO(goos: string, device: string): (r: Option<IoInterface>)
    ensures r == Some(Windows(WindowsIO(device))) <==> goos == "windows"
    ensures r == Some(UnixLike(UnixLikeIO(device))) <==> goos == "linux" || goos == "darwin"
    ensures r.None? <==> goos != "windows" && goos != "linux" && goos != "darwin"
    ensures r.Some? ==> r.value.Interface() == device
  {
    if IsWindows(goos) then Some(Windows(WindowsIO(device)))
    else if IsUnixLike(goos) then Some(UnixLike(UnixLikeIO(device)))
    else None
  }

  /** A capture device as pcap.FindAllDevs reports it. */
  datatype PcapDevice = PcapDevice(Name: string, Description: string)

  /** The option shown for a Windows device: fmt.Sprintf("%s (%s)", Name, Description). */
  function DeviceOption(d: PcapDevice): string
  {
    d.Name + " (" + d.Description + ")"
  }

  /** The Windows options, one per device in device order. */
  method WindowsCandidates(devices: seq<PcapDevice>) returns (interfaces: seq<string>)
    ensures |interfaces| == |devices|
    ensures forall i :: 0 <= i < |devices| ==> interfaces[i] == DeviceOption(devices[i])
  {
    interfaces := [];
    var i := 0;
    while i < |devices|
      invariant 0 <= i <= |devices|
      invariant |interfaces| == i
      invariant forall j :: 0 <= j < i ==> interfaces[j] == DeviceOption(devices[j])
    {
      interfaces := interfaces + [DeviceOption(devices[i])];
      i := i + 1;
    }
  }

  /** What one line of listing output contributes: its first field, or nothing for a blank line. */
  function LineCandidate(line: string): seq<string>
  {
    var parts := Fields(line);
    if parts == [] then [] else [parts[0]]
  }

  /** The interface names a Unix listing yields, line by line in order. */
  function LineCandidates(lines: seq<string>): seq<string>
  {
    if lines == [] then []
    else LineCandidates(lines[..|lines| - 1]) + LineCandidate(lines[|lines| - 1])
  }

  /** Lines contribute independently and in order. */
  lemma {:induction false} LineCandidatesAppend(a: seq<string>, b: seq<string>)
    ensures LineCandidates(a + b) == LineCandidates(a) + LineCandidates(b)
    decreases |b|
  {
    if b == [] {
      assert a + b == a;
    } else {
      var b' := b[..|b| - 1];
      assert (a + b)[..|a + b| - 1] == a + b';
      assert (a + b)[|a + b| - 1] == b[|b| - 1];
      LineCandidatesAppend(a, b');
    }
  }

  /**
   * An empty or all-white-space line contributes nothing; a line of leading
   * white space, a word, and then white space or the end, contributes the word.
   */
  lemma LineContribution(lead: string, w: string, rest: string)
    requires AllSpace(lead)
    requires rest == [] || IsSpace(rest[0])
    ensures w == [] && AllSpace(rest) ==> LineCandidates([lead + w + rest]) == []
    ensures w != [] && NoSpace(w) ==> LineCandidates([lead + w + rest]) == [w]
  {
    assert [lead + w + rest][..0] == [];
    if w == [] && AllSpace(rest) {
      assert AllSpace(lead + w + rest) by {
        forall i | 0 <= i < |lead + w + rest| ensures IsSpace((lead + w + rest)[i]) {
          if i >= |lead| {
            assert (lead + w + rest)[i] == rest[i - |lead|];
          }
        }
      }
    }
    if w != [] && NoSpace(w) {
      FirstField(lead, w, rest);
    }
  }

  /** Every name a listing yields is non-empty and free of white space, and there is at most one per line. */
  lemma {:induction false} LineCandidatesWellFormed(lines: seq<string>)
    ensures |LineCandidates(lines)| <= |lines|
    ensures forall i :: 0 <= i < |LineCandidates(lines)| ==>
              LineCandidates(lines)[i] != [] && NoSpace(LineCandidates(lines)[i])
  {
    if lines != [] {
      LineCandidatesWellFormed(lines[..|lines| - 1]);
    }
  }

  /** The Unix options: the first field of every non-blank line of the listing output. */
  method UnixCandidates(output: string) returns (interfaces: seq<string>)
    ensures interfaces == LineCandidates(Split(output, '\n'))
  {
    var lines := Split(output, '\n');
    interfaces := [];
    var i := 0;
    while i < |lines|
      invariant 0 <= i <= |lines|
      invariant interfaces == LineCandidates(lines[..i])
    {
      var line := lines[i];
      assert lines[..i + 1][..i] == lines[..i];
      if |line| > 0 {
        var parts := Fields(line);
        if |parts| > 0 {
          interfaces := interfaces + [parts[0]];
        }
      }
      i := i + 1;
    }
    assert lines[..i] == lines;
  }

  /** The inputs listAndChooseInterface gets from outside. */
  datatype ListEnv = ListEnv(
    devices: Outcome<seq<PcapDevice>>, // pcap.FindAllDevs (Windows)
    output: Outcome<string>,           // output of the listing command (Linux, macOS)
    selection: string)                 // the option the prompt passes to its handler ("" if it never does)

  /** The options offered to the user, or the error that prevents listing them. */
  function Candidates(goos: string, env: ListEnv): Outcome<seq<string>>
  {
    if IsWindows(goos) then
      match env.devices
      case Fail(e) => Fail(e)
      case Ok(ds) => Ok(seq(|ds|, i requires 0 <= i < |ds| => DeviceOption(ds[i])))
    else if IsUnixLike(goos) then
      match env.output
      case Fail(e) => Fail(e)
      case Ok(out) => Ok(LineCandidates(Split(out, '\n')))
    else
      Ok([])
  }

  /** What listAndChooseInterface returns: the first token of the chosen option. */
  function Chosen(goos: string, env: ListEnv): Outcome<string>
  {
    match Candidates(goos, env)
    case Fail(e) => Fail(e)
    case Ok(options) => if options == [] then Fail(Message(NoInterfacesFound)) else Ok(FirstToken(env.selection))
  }

  /**
   * listAndChooseInterface. Lists the devices (Windows) or runs the listing
   * command (`ip -br link` on Linux, `ifconfig` on macOS), offers the
   * options, and returns the text before the first space of the option chosen.
   */
  method ListAndChooseInterface(goos: string, env: ListEnv) returns (command: seq<string>, r: Outcome<string>)
    ensures goos == "linux" ==> command == ["ip", "-br", "link"]
    ensures goos == "darwin" ==> command == ["ifconfig"]
    ensures !IsUnixLike(goos) ==> command == []
    ensures r == Chosen(goos, env)
  {
    var interfaces: seq<string> := [];
    command := [];
    if IsWindows(goos) {
      if env.devices.Fail? {
        return command, Fail(env.devices.error);
      }
      interfaces := WindowsCandidates(env.devices.value);
    } else if IsUnixLike(goos) {
      if goos == "linux" {
        command := ["ip", "-br", "link"];
      } else if goos == "darwin" {
        command := ["ifconfig"];
      }
      // The "unsupported OS" return for a missing command cannot be reached:
      // both Unix-like systems name a command.
      assert command != [];
      if env.output.Fail? {
        return command, Fail(env.output.error);
      }
      interfaces := UnixCandidates(env.output.value);
    }
    if |interfaces| == 0 {
      return command, Fail(Message(NoInterfacesFound));
    }
    var choice := env.selection;
    r := Ok(FirstToken(choice));
  }

  /** With no device, no listing line, or an OS that lists nothing, the result is the "no interfaces" error. */
  lemma NoCandidates(goos: string, env: ListEnv)
    requires || (!IsWindows(goos) && !IsUnixLike(goos))
             || (IsWindows(goos) && env.devices == Ok([]))
             || (IsUnixLike(goos) && env.output.Ok? && AllSpace(env.output.value))
    ensures Chosen(goos, env) == Fail(Message(NoInterfacesFound))
  {
    if IsUnixLike(goos) {
      var out := env.output.value;
      var lines := Split(out, '\n');
      JoinSplit(out, '\n');
      BlankLines(lines, '\n');
    }
  }

  /** A text of white space splits into lines that yield no name. */
  lemma {:induction false} BlankLines(lines: seq<string>, sep: char)
    requires IsSpace(sep)
    requires AllSpace(Join(lines, sep))
    ensures LineCandidates(lines) == []
    decreases |lines|
  {
    if lines != [] {
      var last := lines[|lines| - 1];
      var init := lines[..|lines| - 1];
      JoinLast(lines, sep);
      if init != [] {
        assert AllSpace(Join(init, sep)) by {
          forall i | 0 <= i < |Join(init, sep)| ensures IsSpace(Join(init, sep)[i]) {
            assert Join(lines, sep)[i] == Join(init, sep)[i];
          }
        }
        BlankLines(init, sep);
      } else {
        assert init == [];
      }
      assert AllSpace(last) by {
        forall i | 0 <= i < |last| ensures IsSpace(last[i]) {
          assert Join(lines, sep)[|Join(lines, sep)| - |last| + i] == last[i];
        }
      }
    }
  }

  /** A join ends with its last piece, after the joined earlier pieces and a separator. */
  lemma {:induction false} JoinLast(lines: seq<string>, sep: char)
    requires lines != []
    ensures var init := lines[..|lines| - 1];
            Join(lines, sep) == if init == [] then lines[0] else Join(init, sep) + [sep] + lines[|lines| - 1]
    decreases |lines|
  {
    if |lines| > 2 {
      var tail := lines[1..];
      JoinLast(tail, sep);
      assert tail[..|tail| - 1] == lines[1..|lines| - 1];
      assert lines[..|lines| - 1] == [lines[0]] + lines[1..|lines| - 1];
      assert lines[..|lines| - 1][1..] == lines[1..|lines| - 1];
    } else if |lines| == 2 {
      assert lines[..1] == [lines[0]];
    }
  }

  /**
   * Choosing the option of a Windows device whose name has no space returns
   * that device's name: the " (description)" part is cut off.
   */
  lemma ChooseWindowsDevice(goos: string, env: ListEnv, k: nat)
    requires IsWindows(goos) && env.devices.Ok? && k < |env.devices.value|
    requires ' ' !in env.devices.value[k].Name
    requires env.selection == DeviceOption(env.devices.value[k])
    ensures Chosen(goos, env) == Ok(env.devices.value[k].Name)
  {
    var d := env.devices.value[k];
    assert DeviceOption(d)[|d.Name|] == ' ';
    FirstTokenUnique(DeviceOption(d), d.Name);
  }

  /** Choosing one of the names a Unix listing yields returns that name unchanged. */
  lemma ChooseUnixName(goos: string, env: ListEnv, k: nat)
    requires IsUnixLike(goos) && env.output.Ok?
    requires k < |LineCandidates(Split(env.output.value, '\n'))|
    requires env.selection == LineCandidates(Split(env.output.value, '\n'))[k]
    ensures Chosen(goos, env) == Ok(env.selection)
  {
    LineCandidatesWellFormed(Split(env.output.value, '\n'));
    var s := env.selection;
    FirstTokenOfSpaceFree(s);
  }

  /**
   * NewIoInterface(list, interfaceName): with list, the implementation for the
   * chosen interface; without, the implementation for interfaceName, which
   * must not be empty. On an unsupported OS the result is nil without an error.
   */
  method NewIoInterface(goos: string, list: bool, interfaceName: string, env: ListEnv)
    returns (r: Outcome<Option<IoInterface>>)
    ensures list ==> r == match Chosen(goos, env)
                          case Ok(nic) => Ok(NewIO(goos, nic))
                          case Fail(e) => Fail(e)
    ensures !list && interfaceName == "" ==> r == Fail(Message(NameRequired))
    ensures !list && interfaceName != "" ==> r == Ok(NewIO(goos, interfaceName))
  {
    var nic: string;
    if list {
      var command, chosen := ListAndChooseInterface(goos, env);
      if chosen.Fail? {
        return Fail(chosen.error);
      }
      nic := chosen.value;
    } else {
      if interfaceName == "" {
        return Fail(Message(NameRequired));
      }
      nic := interfaceName;
    }
    return Ok(NewIO(goos, nic));
  }
}
