// Values shared by the whole model: Go's `error` results, the abstract
// outcome of a call into the operating system or a library, and the
// short-circuit rule that every "call, check err, return early" sequence
// of the package follows.
module Outcomes {

  /** A Go byte (uint8). */
  newtype byte = x: int | 0 <= x < 0x100

  /** Raw bytes: a Go `[]byte` by value. */
  type Bytes = seq<byte>

  /** A Go `error`: an errno returned by a system call, or an error known by its text. */
  datatype Error = Errno(code: nat) | Message(text: string)

  datatype Option<+T> = None | Some(value: T)

  /** What one foreign call returned: a value, or the error it reported. */
  datatype Outcome<+T> = Ok(value: T) | Fail(error: Error) {
    function ErrorOf(): (r: Option<Error>)
      ensures r.Some? <==> Fail?
      ensures Fail? ==> r == Some(error)
    {
      if Fail? then Some(error) else None
    }
  }

  /** The error a raw `syscall.Syscall` reports through its errno result: none when it is 0. */
  function ErrnoError(errno: nat): (r: Option<Error>)
    ensures r.None? <==> errno == 0
    ensures r.Some? ==> r.value.Errno? && r.value.code == errno
  {
    if errno != 0 then Some(Errno(errno)) else None
  }

  /**
   * The index of the first step of a sequence that failed (|errs| when none did).
   * errs[i] is the error step i reports, None when it succeeds.
   */
  function FirstFailure(errs: seq<Option<Error>>): (k: nat)
    ensures k <= |errs|
    ensures forall i :: 0 <= i < k ==> errs[i].None?
    ensures k < |errs| ==> errs[k].Some?
  {
    if errs == [] then 0
    else if errs[0].Some? then 0
    else 1 + FirstFailure(errs[1..])
  }

  /** A step that fails after steps that all succeeded is the first failure. */
  lemma {:induction false} FirstFailureIs(errs: seq<Option<Error>>, k: nat)
    requires k <= |errs|
    requires forall i :: 0 <= i < k ==> errs[i].None?
    requires k < |errs| ==> errs[k].Some?
    ensures FirstFailure(errs) == k
  {
    if k > 0 {
      FirstFailureIs(errs[1..], k - 1);
    }
  }

  /** How many steps of an early-return sequence run: every step up to and including the first failure. */
  function StepsRun(errs: seq<Option<Error>>): nat
  {
    var k := FirstFailure(errs);
    if k < |errs| then k + 1 else |errs|
  }

  /** The error an early-return sequence returns: that of its first failing step, or nil. */
  function PipelineError(errs: seq<Option<Error>>): Option<Error>
  {
    var k := FirstFailure(errs);
    if k < |errs| then errs[k] else None
  }

  /** A sequence of steps succeeds exactly when every step does; otherwise it stops at a failing step. */
  lemma PipelineOutcome(errs: seq<Option<Error>>)
    ensures PipelineError(errs).None? <==> forall i :: 0 <= i < |errs| ==> errs[i].None?
    ensures PipelineError(errs).None? ==> StepsRun(errs) == |errs|
    ensures PipelineError(errs).Some? ==>
              1 <= StepsRun(errs) && PipelineError(errs) == errs[StepsRun(errs) - 1]
    ensures forall i :: 0 <= i < StepsRun(errs) - 1 ==> errs[i].None?
  {
    var k := FirstFailure(errs);
    if PipelineError(errs).None? {
      assert k == |errs|;
    }
  }
}
