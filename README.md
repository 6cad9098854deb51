# netio: raw Ethernet frame I/O, modelled in Dafny

netio gives a program one capability, `IoInterface`, for sending and
receiving raw link-layer frames on a named network interface. It has two
implementations:

- `UnixLikeIO` works over raw Linux `AF_PACKET` sockets. `NewIO` also
  selects it for macOS, where Go's `syscall` package has no `AF_PACKET`. Before
  each send it switches the interface into promiscuous mode with the
  `SIOCGIFFLAGS`/`SIOCSIFFLAGS` ioctls.
- `WindowsIO` works over a pcap capture handle.

`NewIO` picks the implementation for the host operating system. The checked
constructor `NewIoInterface` either takes an interface name or lets the user
choose one from a listing (`ip -br link`, `ifconfig`, or the pcap device list).

This project models that core. Each foreign call has an outcome that the
model takes as input: the system calls, `net.InterfaceByName`, pcap, the
listing command's output and the option picked in the interactive prompt.
The host OS is a parameter. The send paths become methods that return the
calls they issue. The receive goroutines become loops over the sequence of
read results, or over the packet stream. The channel sends become a trace of
emissions (`Capture.Emission`). All reads fill one `array<byte>` buffer (`byte` is the integer type 0..255),
allocated once, as in the source. What the delivered slices of that buffer
show at the end of a session is computed as well (`Capture.Views`), so the
aliasing of reused buffers is part of what is proved.

Modules, one per concern:

- `Outcomes` (outcomes.dfy) holds errors, call outcomes, and the rule every
  "call, check err, return early" sequence follows.
- `GoStrings` (gostrings.dfy) covers the parts of Go's `strings`, `unicode`
  and string-to-bytes conversion that the code relies on.
- `Capture` (capture.dfy) covers receive traces, the reused buffer and Go's
  `copy`.
- `Promisc` (promisc.dfy) covers `setLsfPromisc`.
- `Unix` (unix.dfy) covers the `UnixLikeIO` methods.
- `Windows` (windows.dfy) covers the `WindowsIO` methods.
- `NetIO` (iointerface.dfy) covers the interface, the dispatch and the listing logic.

Where the code and the prose description of the system differ, the model
follows the code:

- The Windows receive loop does not bound frames to `byteSize`. A packet that
  is longer panics at `buffer[:len(frameData)]` (state `Panicked`).
- When the Windows packet stream ends, the session stops without emitting an error.
- The Unix send path enables promiscuous mode and never disables it. The
  contract of `Unix.SendFrame` states that the one `SIOCSIFFLAGS` call it
  issues writes the flags back with `IFF_PROMISC` set.

## Model

| member | source | states |
|---|---|---|
| Outcomes.PipelineOutcome | unix.go:24-70 | An early-return sequence returns nil exactly when every step succeeds, and then runs all its steps. Otherwise it returns the error of the last step it ran, and every step before that one succeeded. |
| Promisc.UpdateFlags | unix.go:157-162 | The flags written back have `IFF_PROMISC` set exactly when enabling. Every other bit equals the bit that was read. |
| Promisc.FlagsDetermined | unix.go:157-162 | A flags word is determined by its `IFF_PROMISC` bit and its other bits. |
| Promisc.UpdateTwice | unix.go:157-162 | Of two updates in a row only the second counts. Enable after enable is enable, and disable after enable leaves the bit clear with the other bits as read. |
| Promisc.ToggleLastWins | unix.go:157-163 | After any run of enable/disable calls, each reading back what the previous one wrote, the bit matches the last call and all other bits are the interface's original ones. |
| Promisc.NameField | unix.go:133-136 | The name field is exactly `IFNAMSIZ` (16) bytes long. It holds the name's bytes, with zeros after them. |
| Promisc.NameFieldRoundTrip | unix.go:150 | A name shorter than 16 bytes with no NUL byte is read back by the kernel as exactly that name. |
| Promisc.NameFieldTruncates | unix.go:150 | A name of 16 bytes or more is cut to its first 16 bytes. The field then has no terminating NUL unless one was among those bytes. |
| Promisc.SetLsfPromisc | unix.go:139-167 | Issues the socket call, then `SIOCGIFFLAGS` and `SIOCSIFFLAGS` on the zero-padded name field, stopping at the first failure. Returns that failure's error, or nil. When `SIOCGIFFLAGS` fails, its errno is returned and no `SIOCSIFFLAGS` call is issued. The flags written are `UpdateFlags` of the flags read. |
| GoStrings.Utf8Nul | unix.go:150 | The bytes of a Go string contain a 0 exactly when the string contains a NUL character. |
| GoStrings.Utf8Ascii | unix.go:150 | An ASCII name has one byte per character, equal to its code. |
| Unix.Uint8 | unix.go:48 | `uint8(len(...))` is a byte congruent to the length modulo 256, and equal to it below 256. |
| Unix.Uint8Wraps | unix.go:48 | Lengths 256 apart give the same `Halen`. |
| Unix.LinkAddrAsWritten | unix.go:43 | The reslice `HardwareAddr[0:7]` panics exactly when the address slice has capacity below 7. Otherwise the first seven bytes of the address field are the first seven bytes of the backing array, and byte 7 is 0. |
| Unix.LinkAddr | unix.go:43-50 | The address record has protocol 0x0300, the interface index, and `Halen` equal to the address length modulo 256. Its 8-byte `Addr` holds the address's first (up to seven) bytes, zeros after them, and byte 7 is always 0. |
| Unix.LinkAddrAgrees | unix.go:43-50 | For an address of seven bytes or more, the as-written record and the bounded copy are the same. |
| Unix.LinkAddrPanics | unix.go:43 | A 6-byte MAC in a slice without spare capacity makes the as-written code panic, and so does a nil address. The bounded copy gives the MAC followed by two zero bytes, with `Halen` 6. |
| Unix.LinkAddrReadsSpare | unix.go:43 | With spare capacity behind an address shorter than seven bytes, the as-written field carries the bytes from that spare capacity. |
| Unix.SendSucceeds | unix.go:24-70 | `SendFrame` returns nil exactly when the socket, lookup, bind, promiscuous-mode and write steps all succeed. |
| Unix.SendFrame | unix.go:24-70 | Runs socket, lookup, bind, promiscuous-mode enable and write, in that order. Each step gets the arguments the source passes: bind gets the bounded `LinkAddr` record (see Left out), and promiscuous mode is enabled for `u.Interface`. The first failure returns `(0, err)` and no later step runs. On success it returns the write's count. |
| Unix.ReadLoopAppend | unix.go:113-124 | After successful reads, the loop continues exactly as it would have started on the remaining reads. Its trace and its end state split accordingly. |
| Unix.ReadLoopEndsAtFailure | unix.go:114-118 | The first failed read emits its error once, as the last emission. Nothing after it is read, and the session terminates. |
| Unix.ReadLoopFrames | unix.go:120-123 | Every emission but the last is a frame, and every frame holds 1 to `byteSize` bytes. A read of 0 bytes emits nothing. |
| Unix.ReadLoopEnds | unix.go:115-118 | The trace ends with an error exactly when the session has terminated. |
| Unix.ReadStateFailed | unix.go:113-118 | The session terminates exactly when some read fails. |
| Unix.AtMostOneFailure | unix.go:113-124 | A receive trace holds at most one error. |
| Unix.Read | unix.go:114-123 | One successful `Recvfrom` stores as much of the packet as fits in the buffer. If it stored any bytes, it emits exactly those bytes. |
| Unix.ReadUntilFailure | unix.go:113-124 | The loop over the read results produces exactly the `ReadLoop` trace and the `ReadState` end state. The reused buffer ends as every stored frame written over it in order. |
| Unix.ReceiveFrame | unix.go:88-124 | A socket or bind failure emits exactly that one error and no frames, and ends the session. Otherwise the session is the read loop on one buffer of `byteSize` bytes. The delivered slices show the final buffer's prefixes. |
| Capture.Write | windows.go:59 | Go's `copy` into a buffer changes only the first `min(len(dst), len(src))` bytes, to those of the source, also when the source is longer than the buffer. |
| Capture.CopyInto | windows.go:59 | Copying into the array leaves it equal to `Write` of its old contents. |
| Capture.OverlayAt | windows.go:48-60 | Byte k of the reused buffer holds byte k of the last frame written that reaches k, or its initial value if no frame does. |
| Capture.SlicesAfterSession | windows.go:59-60 | The slice delivered for frame k shows, at each byte, the last frame written over it, which is frame k or a later one. |
| Capture.LastSliceIntact | unix.go:120-123 | The slice of the frame delivered last still shows that frame. |
| Capture.BackToBack | unix.go:114-122 | After two frames, the slice delivered for the first shows the start of the second. It differs from the first frame unless the first frame is a prefix of the second. |
| Windows.SendFrame | windows.go:14-27 | Opens with snapshot length 65536, promiscuous, blocking forever. An open failure returns `(0, err)` with no write attempted, and a write failure returns `(0, err)`. Success returns `(len(frame), nil)`. |
| Windows.Int32 | windows.go:39 | `int32(byteSize)` is the value in the int32 range congruent to `byteSize` modulo 2^32, and is `byteSize` itself when it fits. |
| Windows.Int32Wraps | windows.go:39 | A `byteSize` from 2^31 to 2^32 - 1 reaches pcap as a negative snapshot length. |
| Windows.CaptureAppend | windows.go:53-62 | After packets that fit the buffer, the loop continues exactly as it would have started on the remaining packets. |
| Windows.CaptureStopsAtOversize | windows.go:57-60 | A packet longer than the buffer ends the session in a panic. No later packet is emitted. |
| Windows.StreamEnd | windows.go:53-63 | When every packet fits, the session ends exactly when the stream ends, and then without emitting an error. |
| Windows.CaptureFrames | windows.go:53-62 | The loop emits frames only, never an error. Each frame is non-empty and at most `byteSize` bytes. |
| Windows.FitStep | windows.go:57-61 | A packet that fits adds itself to the trace when non-empty, and nothing when empty. |
| Windows.CopyAndEmit | windows.go:57-61 | A non-empty packet that fits is copied into the buffer and emitted as `buffer[:len(frameData)]`, which equals the packet at that moment. |
| Windows.CapturePackets | windows.go:53-62 | The loop over the stream produces exactly the `CaptureLoop` trace and the `CaptureEnd` end state. The reused buffer ends as every frame written over it in order. |
| Windows.ReceiveFrame | windows.go:38-62 | Opens with snapshot length `int32(byteSize)`. An open failure emits exactly that one error and no frames. Otherwise the session is the capture loop on one buffer of `byteSize` bytes, and the delivered slices show the final buffer's prefixes. |
| NetIO.IsWindows | iointerface.go:48-50 | Windows and Unix-like are exclusive. |
| NetIO.NewIO | iointerface.go:143-154 | "windows" gives a `WindowsIO`, and "linux" or "darwin" give a `UnixLikeIO`, both bound to the device. Any other OS gives nil. |
| NetIO.NewIoInterface | iointerface.go:24-45 | Without listing, an empty name is an error with a nil interface, and a non-empty name gives `NewIO(name)` with no error. With listing, it returns the listing error or `NewIO` of the chosen name. |
| NetIO.WindowsCandidates | iointerface.go:74-76 | One option `"name (description)"` per device, in device order. |
| NetIO.UnixCandidates | iointerface.go:96-104 | The options are the first field of every non-blank line of the output, in line order. |
| NetIO.LineCandidatesAppend | iointerface.go:97-104 | Lines contribute independently and in order. |
| NetIO.LineContribution | iointerface.go:98-102 | An all-white-space line contributes nothing. A line of white space, a word, then white space or its end, contributes exactly that word. |
| NetIO.LineCandidatesWellFormed | iointerface.go:96-104 | Every listed name is non-empty and free of white space, with at most one per line. |
| NetIO.ListAndChooseInterface | iointerface.go:59-130 | Runs `ip -br link` on Linux and `ifconfig` on macOS, and nothing elsewhere. The result is the listing error, the "no network interfaces found" error, or the first space-separated token of the chosen option. |
| NetIO.NoCandidates | iointerface.go:107-109 | With no device, an all-white-space listing, or an OS that lists nothing, the result is the "no network interfaces found" error. |
| NetIO.ChooseWindowsDevice | iointerface.go:129 | Choosing the option of a device whose name has no space returns that name: the `" (description)"` built at iointerface.go:75 is cut off. |
| NetIO.ChooseUnixName | iointerface.go:129 | Choosing any listed Unix name returns it unchanged. |
| GoStrings.Fields | iointerface.go:99 | The fields are non-empty and free of white space, and there are none exactly when the line is all white space. |
| GoStrings.FirstField | iointerface.go:99-101 | The first field of white space, a word, then white space or the end, is that word. |
| GoStrings.JoinSplit | iointerface.go:96 | Splitting the output at newlines loses nothing: joining the lines gives it back. |
| GoStrings.SplitJoin | iointerface.go:96 | Splitting a join of newline-free lines gives back the lines. |
| GoStrings.FirstToken | iointerface.go:129 | The first token is the longest space-free prefix of the choice, followed by a space or by its end. |
| GoStrings.FirstTokenUnique | iointerface.go:129 | Any space-free prefix followed by a space or by the end is the first token. |

## Left out

- The system calls (`Socket`, `Bind`, `BindToDevice`, `Recvfrom`, `Write`, the raw `ioctl`), `net.InterfaceByName` and pcap/gopacket are foreign calls. The model takes only their outcomes as inputs and does not model what the kernel or libpcap does with the arguments.
- The goroutines and channels of both `ReceiveFrame` methods are concurrency. A session is a sequential trace of what it sends, and channel closing is the end state `Terminated`. The blocking of sends on an unbuffered channel is not modelled.
- The deferred `syscall.Close` with `panic` (unix.go:29-34, 95-100) and `handle.Close` are resource release and process abort. They are not modelled.
- The close-error path of `setLsfPromisc` (unix.go:144-148, 169-172) is not modelled. `closeErr` is checked before the deferred close runs, so a close failure is never reported.
- `exec.Command(...).Output()` and the `cobra_ui` prompt (iointerface.go:90, 113-127) are I/O and UI. The command output and the option the prompt hands to its handler are inputs; an option that is never handed over is the empty string.
- The "unsupported OS" return at iointerface.go:86-88 cannot be reached, because both Unix-like systems name a command. The model asserts this instead of modelling a return.
- `pcap.FindAllDevs` is a foreign call. The device list is an input.
- The byte layout of the ioctl argument is not modelled. The Go struct holds only the name field and a 16-bit flags word, and the model records those two fields, not the memory the kernel reads.
- Promisc.SetLsfPromisc: the socket number and flags word the kernel returns are inputs. The model does not check that the kernel actually honours the flags written.
- Go strings are byte strings, and `string(output)` of the listing command (iointerface.go:96) or an interface name copied into the ioctl argument (unix.go:150) may hold invalid UTF-8. A Dafny `string` holds Unicode scalar values only, so such strings are not modelled; `GoStrings.Utf8` encodes valid text only.
- The `UnixLikeIO` file uses `syscall.AF_PACKET`, `SockaddrLinklayer` and `BindToDevice`, which Go defines for Linux only. The model does not capture that this code does not build for macOS, although `NewIO` maps "darwin" to `UnixLikeIO`.
- `byteSize` is a `nat`. A negative size, for which `make` panics, is not modelled.
- Unix.Read: a raw-socket read that is shorter than the packet stores the first `byteSize` bytes and returns that count. The model assumes this. Recvfrom flags and the sender address are not modelled.
- Windows.ReceiveFrame: the packets are taken as the stream delivers them. libpcap normally cuts packets at the snapshot length, which is not modelled, so the oversize panic is only as reachable as libpcap lets it be. Link-type decoding by `gopacket.NewPacketSource` is not modelled either; only each packet's `Data()` is.
- Unix.SendFrame: the model uses the bounded address copy from `Unix.LinkAddr`. The source as written panics for addresses whose slice has capacity below seven, and otherwise passes spare-capacity bytes behind an address shorter than seven (see Findings). For an address of seven bytes or more the two records agree (`Unix.LinkAddrAgrees`). How Go converts `SockaddrLinklayer` into the kernel's byte order is not modelled; `Protocol` is recorded as the 0x0300 the source passes.
- Unix.ReceiveFrame, Windows.ReceiveFrame: a session whose inputs run out without a failure is `Capturing`, meaning still blocked in a read. Its infinite continuation is not modelled.
- example/example.go (a demo driver) and the build-tag stubs unixlike_.go and windows_.go, which return `(0, nil)` or do nothing, are not part of this model.

## Findings

| source | as written | input that shows it | evidently intended | confidence | as-written member | corrected member |
|---|---|---|---|---|---|---|
| unix.go:43 | `copy(hardwareAddr[0:7], device.HardwareAddr[0:7])` reslices the address to seven bytes whatever its length. This panics when the slice's capacity is below 7, and otherwise copies bytes beyond the address from spare capacity. | A 6-byte Ethernet MAC held in a slice of capacity 6, or the nil address of an interface without a link-layer address (Unix.LinkAddrPanics). | Copy at most the address itself, `copy(hardwareAddr[0:7], device.HardwareAddr)`: the first `min(7, len)` bytes, zeros after. | not executed; the panic follows from Go's slicing rule, and whether `net.InterfaceByName` returns spare capacity lies outside the model | Unix.LinkAddrAsWritten | Unix.LinkAddr |
