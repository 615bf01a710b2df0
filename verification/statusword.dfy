/** The statusword cell: the last 16-bit status word received from the
    drive, updated by the transport callback and waited on by the state
    monitor. Each locked region is one step; the condition wait is an input
    outcome, and the clock readings are inputs. */
module Statusword {
  import opened Outcomes
  import Bits

  /** uint16_t */
  type Word = x: int | 0 <= x < 0x1_0000

  /** The cell after sw_update and whether the change condition was
      broadcast. */
  datatype Update = Update(stored: Word, broadcast: bool)

  /** sw_update: store and broadcast on a real change only. */
  function SwUpdate(stored: Word, sw: Word): (r: Update)
    ensures r.stored == sw
    ensures r.broadcast <==> stored != sw
  {
    if stored != sw then Update(sw, true) else Update(stored, false)
  }

  /** Delivering the same word twice wakes nobody the second time, and a
      broadcast always leaves a word that differs from the one every woken
      waiter was waiting on. */
  lemma UpdateWakesOnlyOnChange(stored: Word, sw: Word)
    ensures !SwUpdate(SwUpdate(stored, sw).stored, sw).broadcast
    ensures SwUpdate(stored, sw).broadcast ==> SwUpdate(stored, sw).stored != stored
  {
  }

  /** osal_timespec_t */
  datatype Timespec = Timespec(s: int, ns: int)

  const NanosPerSec: int := 1_000_000_000
  const NanosPerMsec: int := 1_000_000

  predicate Normal(t: Timespec)
  {
    0 <= t.ns < NanosPerSec
  }

  /** The instant a timespec denotes, in nanoseconds. */
  function Nanos(t: Timespec): int
  {
    t.s * NanosPerSec + t.ns
  }

  /** The difference end - start with a borrow from the seconds when the
      nanoseconds go negative. */
  function Diff(start: Timespec, end: Timespec): (d: Timespec)
    ensures Nanos(d) == Nanos(end) - Nanos(start)
    ensures Normal(start) && Normal(end) ==> Normal(d)
  {
    if end.ns - start.ns < 0 then
      Timespec(end.s - start.s - 1, end.ns - start.ns + NanosPerSec)
    else
      Timespec(end.s - start.s, end.ns - start.ns)
  }

  /** C integer division, which truncates toward zero. */
  function CDiv(a: int, b: int): int
    requires b > 0
  {
    if a >= 0 then a / b else -((-a) / b)
  }

  /** Whole milliseconds of a difference, as the timeout update computes
      them: diff.s * 1000 + diff.ns / OSAL_CLOCK_NANOSPERMSEC. */
  function ElapsedMs(d: Timespec): int
  {
    d.s * 1000 + CDiv(d.ns, NanosPerMsec)
  }

  /** For normalised readings the elapsed milliseconds are the floor of the
      elapsed nanoseconds over 10^6, never negative when time did not go
      backwards. */
  lemma ElapsedIsFloor(start: Timespec, end: Timespec)
    requires Normal(start) && Normal(end)
    ensures ElapsedMs(Diff(start, end)) == (Nanos(end) - Nanos(start)) / NanosPerMsec
    ensures Nanos(start) <= Nanos(end) ==> ElapsedMs(Diff(start, end)) >= 0
  {
    var d := Diff(start, end);
    var q := d.s * 1000 + d.ns / NanosPerMsec;
    assert Nanos(d) == NanosPerMsec * q + d.ns % NanosPerMsec;
    Bits.DivModUnique(Nanos(d), NanosPerMsec, q, d.ns % NanosPerMsec);
  }

  /** What the condition wait reported: woken (with the word stored at
      wake-up, possibly unchanged), timed out, or failed. */
  datatype Wake = Signalled(stored: Word) | WaitTimedOut | WaitFailed

  /** The return code of sw_wait_change and its two in/out parameters. */
  datatype Wait = Wait(status: Result<()>, sw: Word, timeout: int)

  /** sw_wait_change, with the clock readings (None: the clock failed) and
      the outcome of the single condition wait as inputs. A non-positive
      timeout reads no clock and is never updated. */
  function WaitChange(stored: Word, sw: Word, timeout: int, start: Option<Timespec>, wake: Wake, end: Option<Timespec>): (r: Wait)
    ensures timeout <= 0 ==> r.timeout == timeout
    ensures r.status.Err? ==> r.status.error == EFail || r.status.error == ETimedOut
    ensures stored != sw && (timeout <= 0 || start.Some?) ==> r.sw == stored
    ensures r.status.Ok? ==> (stored != sw ==> r.sw == stored) && (stored == sw ==> wake.Signalled? && r.sw == wake.stored)
    ensures r.status.Ok? && timeout > 0 ==>
      start.Some? && end.Some? && r.timeout > 0
      && r.timeout == timeout - ElapsedMs(Diff(start.value, end.value))
    ensures r.status == Err(ETimedOut) ==>
      (stored == sw && wake.WaitTimedOut?) || (timeout > 0 && r.timeout <= 0)
    ensures timeout > 0 && start.Some? && end.Some? && (stored != sw || wake.Signalled?) ==>
      r.timeout == timeout - ElapsedMs(Diff(start.value, end.value))
      && (r.status.Ok? <==> r.timeout > 0)
    ensures timeout <= 0 || start.Some? ==>
      r.sw == (if stored != sw then stored else if wake.Signalled? then wake.stored else sw)
    ensures timeout > 0 && start.None? ==> r == Wait(Err(EFail), sw, timeout)
    ensures stored == sw && (timeout <= 0 || start.Some?) && wake.WaitTimedOut? ==> r == Wait(Err(ETimedOut), sw, timeout)
    ensures stored == sw && (timeout <= 0 || start.Some?) && wake.WaitFailed? ==> r == Wait(Err(EFail), sw, timeout)
    ensures timeout > 0 && start.Some? && end.None? && (stored != sw || wake.Signalled?) ==>
      r.status == Err(EFail) && r.timeout == timeout && r.sw == (if stored != sw then stored else wake.stored)
  {
    if timeout > 0 && start.None? then Wait(Err(EFail), sw, timeout)
    else
      var (status, sw') :=
        if stored != sw then (Ok(()), stored)
        else match wake
          case Signalled(v) => (Ok(()), v)
          case WaitTimedOut => (Err(ETimedOut), sw)
          case WaitFailed => (Err(EFail), sw);
      if timeout > 0 && status.Ok? then
        if end.None? then Wait(Err(EFail), sw', timeout)
        else
          var left := timeout - ElapsedMs(Diff(start.value, end.value));
          Wait(if left <= 0 then Err(ETimedOut) else Ok(()), sw', left)
      else
        Wait(status, sw', timeout)
  }

  /** A word that already differs is returned at once, whatever the
      condition wait would have done. */
  lemma ChangedWordSkipsWait(stored: Word, sw: Word, timeout: int, start: Option<Timespec>, w1: Wake, w2: Wake, end: Option<Timespec>)
    requires stored != sw
    ensures WaitChange(stored, sw, timeout, start, w1, end) == WaitChange(stored, sw, timeout, start, w2, end)
  {
  }

  /** Success does not mean the word changed: a spurious wake-up returns
      success with the word the caller already had. */
  lemma SpuriousWakeSucceedsUnchanged(w: Word)
    ensures WaitChange(w, w, 0, None, Signalled(w), None) == Wait(Ok(()), w, 0)
  {
  }
}
