// What a receive session hands to its consumer. Both receive loops of the
// package deliver, on the frame channel, slices of ONE buffer that they
// allocate once and overwrite on every read, and at most one error on the
// error channel. This module describes that trace and what the delivered
// slices show once later reads have overwritten the buffer.
module Capture {
  import opened Outcomes

  /** One value a session writes: a frame on the frame channel, or an error on the error channel. */
  datatype Emission = Frame(bytes: Bytes) | Failure(error: Error)

  /**
   * Where a session stands. Capturing: still blocked reading. Terminated: it
   * returned and both channels are closed. Panicked: a Go run-time panic ended it.
   */
  datatype SessionState = Capturing | Terminated | Panicked

  /** The frames of a trace, in delivery order. */
  function Frames(trace: seq<Emission>): (r: seq<Bytes>)
    ensures |r| <= |trace|
  {
    if trace == [] then []
    else
      Frames(trace[..|trace| - 1])
      + (match trace[|trace| - 1] case Frame(b) => [b] case Failure(_) => [])
  }

  /** The errors of a trace. */
  function Failures(trace: seq<Emission>): (r: seq<Error>)
  {
    if trace == [] then []
    else
      Failures(trace[..|trace| - 1])
      + (match trace[|trace| - 1] case Frame(_) => [] case Failure(e) => [e])
  }

  /** The number of emissions of a trace that are errors. */
  lemma {:induction false} FailuresCount(trace: seq<Emission>)
    requires forall i :: 0 <= i < |trace| - 1 ==> trace[i].Frame?
    ensures |Failures(trace)| == if trace != [] && trace[|trace| - 1].Failure? then 1 else 0
  {
    if trace != [] {
      var init := trace[..|trace| - 1];
      assert forall i :: 0 <= i < |init| ==> init[i].Frame?;
      NoFailures(init);
    }
  }

  lemma {:induction false} NoFailures(trace: seq<Emission>)
    requires forall i :: 0 <= i < |trace| ==> trace[i].Frame?
    ensures Failures(trace) == []
  {
    if trace != [] {
      var init := trace[..|trace| - 1];
      assert forall i :: 0 <= i < |init| ==> init[i].Frame?;
      NoFailures(init);
    }
  }

  /** Frames and failures of a concatenation, in order. */
  lemma {:induction false} FramesAppend(a: seq<Emission>, b: seq<Emission>)
    ensures Frames(a + b) == Frames(a) + Frames(b)
    ensures Failures(a + b) == Failures(a) + Failures(b)
    decreases |b|
  {
    if b == [] {
      assert a + b == a;
    } else {
      var b' := b[..|b| - 1];
      assert (a + b)[..|a + b| - 1] == a + b';
      assert (a + b)[|a + b| - 1] == b[|b| - 1];
      FramesAppend(a, b');
    }
  }

  /** A buffer as Go's make([]byte, n) allocates it. */
  function Zeros(n: nat): (r: Bytes)
    ensures |r| == n
    ensures forall i :: 0 <= i < n ==> r[i] == 0
  {
    seq(n, _ => 0)
  }

  /** buf after Go's copy(buf, f): the first min(|buf|, |f|) bytes replaced by those of f. */
  function Write(buf: Bytes, f: Bytes): (r: Bytes)
    ensures |r| == |buf|
    ensures |f| <= |buf| ==> r[..|f|] == f
    ensures forall i :: 0 <= i < |buf| && i < |f| ==> r[i] == f[i]
    ensures forall i :: |f| <= i < |buf| ==> r[i] == buf[i]
  {
    var r := seq(|buf|, i requires 0 <= i < |buf| => if i < |f| then f[i] else buf[i]);
    assert |f| <= |buf| ==> r[..|f|] == f;
    r
  }

  /** A copy into buf only ever uses the first |buf| bytes of its source. */
  lemma WriteTruncated(buf: Bytes, f: Bytes)
    ensures var n := if |f| < |buf| then |f| else |buf|;
            Write(buf, f) == Write(buf, f[..n])
  {
  }

  /** The reused buffer after each frame of fs, in order, was written into it. */
  function Overlay(buf: Bytes, fs: seq<Bytes>): (r: Bytes)
    ensures |r| == |buf|
  {
    if fs == [] then buf else Write(Overlay(buf, fs[..|fs| - 1]), fs[|fs| - 1])
  }

  /** Writing one more frame into the buffer. */
  lemma OverlayPush(buf: Bytes, fs: seq<Bytes>, f: Bytes)
    ensures Overlay(buf, fs + [f]) == Write(Overlay(buf, fs), f)
  {
    assert (fs + [f])[..|fs|] == fs;
  }

  /** The last frame of fs that reaches byte k of the buffer, -1 when none does. */
  function LastCovering(fs: seq<Bytes>, k: nat): (j: int)
    ensures -1 <= j < |fs|
    ensures j >= 0 ==> k < |fs[j]|
    ensures forall i :: j < i < |fs| ==> |fs[i]| <= k
  {
    if fs == [] then -1
    else if k < |fs[|fs| - 1]| then |fs| - 1
    else LastCovering(fs[..|fs| - 1], k)
  }

  /**
   * Byte k of the reused buffer holds byte k of the LAST frame written that
   * is longer than k, and its initial value when no frame reached it.
   */
  lemma {:induction false} OverlayAt(buf: Bytes, fs: seq<Bytes>, k: nat)
    requires forall i :: 0 <= i < |fs| ==> |fs[i]| <= |buf|
    requires k < |buf|
    ensures var j := LastCovering(fs, k);
            Overlay(buf, fs)[k] == if j >= 0 then fs[j][k] else buf[k]
  {
    if fs != [] {
      var init := fs[..|fs| - 1];
      var last := fs[|fs| - 1];
      if k < |last| {
        assert Overlay(buf, fs)[..|last|] == last;
        assert Overlay(buf, fs)[k] == Overlay(buf, fs)[..|last|][k];
      } else {
        OverlayAt(buf, init, k);
      }
    }
  }

  /**
   * What each delivered slice buffer[:len(f)] shows when it is read from buf:
   * the slice for frame k is the first |fs[k]| bytes of buf.
   */
  function Views(buf: Bytes, fs: seq<Bytes>): (r: seq<Bytes>)
    ensures |r| == |fs|
    ensures forall k :: 0 <= k < |fs| && |fs[k]| <= |buf| ==> r[k] == buf[..|fs[k]|]
  {
    seq(|fs|, k requires 0 <= k < |fs| => if |fs[k]| <= |buf| then buf[..|fs[k]|] else buf)
  }

  /**
   * Once a session has delivered the frames fs into one buffer of n bytes,
   * only the slice of the LAST frame still shows that frame; the slice of an
   * earlier frame shows, at each byte, the last frame written over it.
   */
  lemma SlicesAfterSession(n: nat, fs: seq<Bytes>, k: nat, i: nat)
    requires forall j :: 0 <= j < |fs| ==> |fs[j]| <= n
    requires k < |fs| && i < |fs[k]|
    ensures var j := LastCovering(fs, i);
            k <= j && Views(Overlay(Zeros(n), fs), fs)[k][i] == fs[j][i]
  {
    OverlayAt(Zeros(n), fs, i);
  }

  /** The slice of the frame delivered last shows that frame intact. */
  lemma LastSliceIntact(n: nat, fs: seq<Bytes>)
    requires forall j :: 0 <= j < |fs| ==> |fs[j]| <= n
    requires fs != []
    ensures Views(Overlay(Zeros(n), fs), fs)[|fs| - 1] == fs[|fs| - 1]
  {
  }

  /**
   * Two frames delivered back to back through a buffer of n bytes: once the
   * second is in, the slice handed out for the first shows the start of the
   * SECOND frame, so it no longer shows the first unless that is a prefix of
   * the second.
   */
  lemma BackToBack(n: nat, f1: Bytes, f2: Bytes)
    requires |f1| <= |f2| <= n
    ensures Views(Overlay(Zeros(n), [f1, f2]), [f1, f2])[0] == f2[..|f1|]
    ensures f1 != f2[..|f1|] ==> Views(Overlay(Zeros(n), [f1, f2]), [f1, f2])[0] != f1
  {
    var buf := Overlay(Zeros(n), [f1, f2]);
    assert [f1, f2][..1] == [f1];
    assert [f1][..0] == [];
    assert Overlay(Zeros(n), [f1]) == Write(Zeros(n), f1);
    assert buf == Write(Overlay(Zeros(n), [f1]), f2);
    assert buf[..|f2|] == f2;
    assert buf[..|f1|] == f2[..|f1|];
  }

  /**
   * Go's copy(dst, src) into an allocated buffer (also how a read fills the
   * caller's buffer): the first min(len(dst), len(src)) bytes take those of src.
   */
  method CopyInto(dst: array<byte>, src: Bytes)
    modifies dst
    ensures dst[..] == Write(old(dst[..]), src)
  {
    var i := 0;
    while i < dst.Length && i < |src|
      invariant 0 <= i <= dst.Length
      invariant i <= |src|
      invariant forall j :: 0 <= j < i ==> dst[j] == src[j]
      invariant forall j :: i <= j < dst.Length ==> dst[j] == old(dst[j])
    {
      dst[i] := src[i];
      i := i + 1;
    }
  }
}
