/**
  How a finished process is described three times over: by the operating system
  (the word waitpid() stores), by the waiter (the exitstatus field of the task
  slot) and by the master (the fate of the frame).
  Words are bit-vectors because the source takes them apart with masks.
  */
module ExitStatus {

  const EXITED_FLAG: bv16 := 0x0100
  const SIGNALED_FLAG: bv16 := 0x0200

  const SIGINT: bv16 := 2
  const SIGKILL: bv16 := 9
  const SIGTERM: bv16 := 15

  datatype Outcome = Exited(code: bv16) | Signaled(signal: bv16) | Neither

  /* The operating system's word, as the WIF... and W... macros read it. */

  predicate IfExited(rc: bv16) {
    rc & 0x7f == 0
  }

  predicate IfSignaled(rc: bv16) {
    rc & 0x7f != 0 && rc & 0x7f != 0x7f
  }

  function ExitCode(rc: bv16): bv16 {
    (rc & 0xff00) >> 8
  }

  function TermSignal(rc: bv16): bv16 {
    rc & 0x7f
  }

  function WaitOutcome(rc: bv16): Outcome {
    if IfSignaled(rc) then Signaled(TermSignal(rc))
    else if IfExited(rc) then Exited(ExitCode(rc))
    else Neither
  }

  /** The word of a process that called exit(code). */
  function ExitWord(code: bv16): bv16 {
    (code & 0xff) << 8
  }

  /** The words of exited, killed (with or without a core dump) and stopped processes. */
  lemma WordsRead(code: bv16, signal: bv16, core: bool)
    requires code < 256 && signal < 128
    ensures WaitOutcome(ExitWord(code)) == Exited(code)
    ensures 1 <= signal < 127 ==> WaitOutcome(signal | (if core then 0x80 else 0)) == Signaled(signal)
    ensures WaitOutcome(0x7f | (signal << 8)) == Neither
  {
    assert ((code & 0xff) << 8) & 0x7f == 0 && (((code & 0xff) << 8) & 0xff00) >> 8 == code;
    assert (signal | 0x80) & 0x7f == signal;
    assert (0x7f | (signal << 8)) & 0x7f == 0x7f;
  }

  /** The exitstatus a waiter computes from its child's word. */
  function ReportedStatus(rc: bv16): bv16 {
    if IfSignaled(rc) then 0 | SIGNALED_FLAG | TermSignal(rc)
    else if IfExited(rc) then 0 | EXITED_FLAG | ExitCode(rc)
    else 0
  }

  /** The DR_WIF... macros, in the order in which the master asks them. */
  function Decode(status: bv16): Outcome {
    if status & EXITED_FLAG != 0 then Exited(status & 0xff)
    else if status & SIGNALED_FLAG != 0 then Signaled(status & 0xff)
    else Neither
  }

  /** Nothing about the ending of a process is lost or invented on the way to the master. */
  lemma FaithfulStatus(rc: bv16)
    ensures Decode(ReportedStatus(rc)) == WaitOutcome(rc)
  {
    assert rc & 0x7f & 0xff == rc & 0x7f;
    assert ((rc & 0xff00) >> 8) & 0xff == (rc & 0xff00) >> 8;
  }

  /** Two words are reported alike exactly when they describe the same ending. */
  lemma StatusInjective(rc: bv16, rc': bv16)
    ensures ReportedStatus(rc) == ReportedStatus(rc') <==> WaitOutcome(rc) == WaitOutcome(rc')
  {
    FaithfulStatus(rc);
    FaithfulStatus(rc');
  }
}
