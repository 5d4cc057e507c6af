/**
 * monitor_and_cleanup_cgroup: open `cgroup.events`, poll it for POLLPRI until
 * the group reports itself empty or poll fails, then close it and remove the
 * group directory.
 *
 * The kernel's side is an input: whether the open succeeds, and the sequence of
 * answers that successive poll calls would give. The loop never ends on its own
 * in the source; when the given answers run out before an exit condition the
 * model reports that the call is still blocked.
 */
module CgroupMonitor {
  import opened Wrappers
  import CgroupEvents

  /** The POLLPRI bit of `revents` (0x002 on Linux). */
  const PollPri: bv16 := 0x0002

  /**
   * One return from `poll(&pfd, 1, -1)`: its result, the `revents` it left, and
   * what seeking and reading `cgroup.events` would then give.
   */
  datatype PollWake = PollWake(res: int, revents: bv16, events: CgroupEvents.EventsRead)

  /** The observable steps the monitor takes, in order. */
  datatype Action = OpenEvents | Poll | ReadEvents | CloseEvents | RemoveDir

  datatype MonitorOutcome =
    | OpenFailed          // cgroup.events could not be opened; nothing else happens
    | StillWaiting        // no exit condition among the given wakes: the call is still in poll
    | PollError(at: nat)   // wake `at` was a poll failure
    | FoundEmpty(at: nat)  // wake `at` carried POLLPRI and the re-read said "not populated"

  predicate HasPri(w: PollWake) {
    w.revents & PollPri != 0
  }

  /** A wake after which the loop stops waiting. */
  predicate EndsWait(w: PollWake): (ends: bool)
    ensures ends ==> w.res < 0 || HasPri(w)
  {
    w.res < 0 || (HasPri(w) && !CgroupEvents.IsCgroupPopulated(w.events))
  }

  /** The index of the first wake that ends the wait, if any. */
  function FirstExit(wakes: seq<PollWake>): (r: Option<nat>)
    ensures r.Some? ==> r.value < |wakes| && EndsWait(wakes[r.value])
    ensures r.Some? ==> forall j :: 0 <= j < r.value ==> !EndsWait(wakes[j])
    ensures r.None? ==> forall j :: 0 <= j < |wakes| ==> !EndsWait(wakes[j])
  {
    if wakes == [] then None
    else if EndsWait(wakes[0]) then Some(0)
    else match FirstExit(wakes[1..])
      case None => None
      case Some(k) => Some(k + 1)
  }

  /** The steps of one pass of the loop: a poll, then a re-read only when poll succeeded with POLLPRI. */
  function WakeTrace(w: PollWake): seq<Action> {
    if w.res >= 0 && HasPri(w) then [Poll, ReadEvents] else [Poll]
  }

  function LoopTrace(wakes: seq<PollWake>): seq<Action> {
    if wakes == [] then [] else LoopTrace(wakes[..|wakes| - 1]) + WakeTrace(wakes[|wakes| - 1])
  }

  function Count(s: seq<Action>, a: Action): nat {
    if s == [] then 0 else (if s[0] == a then 1 else 0) + Count(s[1..], a)
  }

  lemma {:induction false} CountAppend(s: seq<Action>, t: seq<Action>, a: Action)
    ensures Count(s + t, a) == Count(s, a) + Count(t, a)
  {
    if s == [] {
      assert s + t == t;
    } else {
      assert (s + t)[1..] == s[1..] + t;
      CountAppend(s[1..], t, a);
    }
  }

  lemma WakeTraceCounts(w: PollWake)
    ensures Count(WakeTrace(w), Poll) == 1
    ensures Count(WakeTrace(w), RemoveDir) == 0
    ensures Count(WakeTrace(w), CloseEvents) == 0
    ensures Count(WakeTrace(w), OpenEvents) == 0
  {
    var t := WakeTrace(w);
    assert Count(t[1..], Poll) == 0 && Count(t[1..], RemoveDir) == 0 by {
      if |t| == 2 { assert t[1..][1..] == []; }
    }
    assert Count(t[1..], CloseEvents) == 0 && Count(t[1..], OpenEvents) == 0 by {
      if |t| == 2 { assert t[1..][1..] == []; }
    }
  }

  /** The loop itself polls once per wake, re-reads only on POLLPRI, and never closes or removes anything. */
  lemma {:induction false} LoopTraceCounts(wakes: seq<PollWake>)
    ensures Count(LoopTrace(wakes), Poll) == |wakes|
    ensures Count(LoopTrace(wakes), RemoveDir) == 0
    ensures Count(LoopTrace(wakes), CloseEvents) == 0
    ensures Count(LoopTrace(wakes), OpenEvents) == 0
    decreases |wakes|
  {
    if wakes != [] {
      var w := wakes[|wakes| - 1];
      LoopTraceCounts(wakes[..|wakes| - 1]);
      WakeTraceCounts(w);
      CountAppend(LoopTrace(wakes[..|wakes| - 1]), WakeTrace(w), Poll);
      CountAppend(LoopTrace(wakes[..|wakes| - 1]), WakeTrace(w), RemoveDir);
      CountAppend(LoopTrace(wakes[..|wakes| - 1]), WakeTrace(w), CloseEvents);
      CountAppend(LoopTrace(wakes[..|wakes| - 1]), WakeTrace(w), OpenEvents);
    }
  }

  /** The full trace of a monitor run that exits at wake `k`. */
  function ExitTrace(wakes: seq<PollWake>, k: nat): seq<Action>
    requires k < |wakes|
  {
    [OpenEvents] + LoopTrace(wakes[..k + 1]) + [CloseEvents, RemoveDir]
  }

  /** The trace of the loop up to the wake that ended it, or over every wake when none did. */
  function WaitTrace(wakes: seq<PollWake>, exit: Option<nat>): seq<Action>
    requires exit.Some? ==> exit.value < |wakes|
  {
    if exit.Some? then LoopTrace(wakes[..exit.value + 1]) else LoopTrace(wakes)
  }

  method MonitorAndCleanup(openOk: bool, wakes: seq<PollWake>) returns (outcome: MonitorOutcome, trace: seq<Action>)
    ensures !openOk ==> outcome == OpenFailed && trace == [OpenEvents]
    ensures openOk && FirstExit(wakes).None? ==>
      outcome == StillWaiting && trace == [OpenEvents] + LoopTrace(wakes)
    ensures openOk && FirstExit(wakes).Some? ==>
      var k := FirstExit(wakes).value;
      trace == ExitTrace(wakes, k)
      && outcome == (if wakes[k].res < 0 then PollError(k) else FoundEmpty(k))
  {
    trace := [OpenEvents];
    if !openOk {
      return OpenFailed, trace;
    }
    var exit, steps := WaitForExit(wakes);
    trace := trace + steps;
    if exit.None? {
      return StillWaiting, trace;
    }
    var k := exit.value;
    outcome := if wakes[k].res < 0 then PollError(k) else FoundEmpty(k);
    trace := trace + [CloseEvents, RemoveDir];
  }

  /**
   * The `while (true)` loop: poll once per wake and stop at the first wake that
   * ends the wait; `exit` is that wake's index, or None while still blocked.
   */
  method WaitForExit(wakes: seq<PollWake>) returns (exit: Option<nat>, trace: seq<Action>)
    ensures exit == FirstExit(wakes)
    ensures trace == WaitTrace(wakes, exit)
  {
    trace := [];
    var i := 0;
    while i < |wakes|
      invariant 0 <= i <= |wakes|
      invariant forall j :: 0 <= j < i ==> !EndsWait(wakes[j])
      invariant trace == LoopTrace(wakes[..i])
    {
      var stop, steps := AwaitWake(wakes[i]);
      LoopTraceStep(wakes, i);
      trace := trace + steps;
      if stop {
        FirstExitAt(wakes, i);
        return Some(i), trace;
      }
      i := i + 1;
    }
    assert wakes[..|wakes|] == wakes;
    return None, trace;
  }

  /**
   * One pass of the `while (true)` body: stop on a poll failure; on POLLPRI,
   * re-read the record and stop when it says "not populated"; otherwise go on.
   */
  method AwaitWake(w: PollWake) returns (stop: bool, steps: seq<Action>)
    ensures stop == EndsWait(w)
    ensures steps == WakeTrace(w)
    ensures stop && w.res >= 0 ==> HasPri(w) && !CgroupEvents.IsCgroupPopulated(w.events)
  {
    steps := [Poll];
    if w.res < 0 {
      return true, steps;
    }
    stop := false;
    if w.revents & PollPri != 0 {
      steps := steps + [ReadEvents];
      if !CgroupEvents.IsCgroupPopulated(w.events) {
        stop := true;
      }
    }
  }

  lemma LoopTraceStep(wakes: seq<PollWake>, i: nat)
    requires i < |wakes|
    ensures LoopTrace(wakes[..i + 1]) == LoopTrace(wakes[..i]) + WakeTrace(wakes[i])
  {
    assert wakes[..i + 1][..i] == wakes[..i];
  }

  /** A wake that ends the wait, preceded only by wakes that do not, is the first exit. */
  lemma FirstExitAt(wakes: seq<PollWake>, i: nat)
    requires i < |wakes| && EndsWait(wakes[i])
    requires forall j :: 0 <= j < i ==> !EndsWait(wakes[j])
    ensures FirstExit(wakes) == Some(i)
  {
  }

  /** Once the monitor has exited, it has removed the directory exactly once, as its last step, after closing the file. */
  lemma RemovesDirOnce(wakes: seq<PollWake>, k: nat)
    requires k < |wakes|
    ensures Count(ExitTrace(wakes, k), RemoveDir) == 1
    ensures Count(ExitTrace(wakes, k), Poll) == k + 1
    ensures ExitTrace(wakes, k)[|ExitTrace(wakes, k)| - 2..] == [CloseEvents, RemoveDir]
  {
    LoopTraceCounts(wakes[..k + 1]);
    var loop := LoopTrace(wakes[..k + 1]);
    CountAppend([OpenEvents], loop, RemoveDir);
    CountAppend([OpenEvents] + loop, [CloseEvents, RemoveDir], RemoveDir);
    CountAppend([OpenEvents], loop, Poll);
    CountAppend([OpenEvents] + loop, [CloseEvents, RemoveDir], Poll);
  }

  /** While the monitor is still waiting, it has neither closed the file nor removed the directory. */
  lemma WaitingRemovesNothing(wakes: seq<PollWake>)
    ensures Count([OpenEvents] + LoopTrace(wakes), RemoveDir) == 0
    ensures Count([OpenEvents] + LoopTrace(wakes), CloseEvents) == 0
  {
    LoopTraceCounts(wakes);
    CountAppend([OpenEvents], LoopTrace(wakes), RemoveDir);
    CountAppend([OpenEvents], LoopTrace(wakes), CloseEvents);
  }

  /**
   * The monitor never gives up on a live group: a wake that ends the wait is
   * either a poll failure, or carries POLLPRI with a re-read whose first
   * `populated` pair holds zero.
   */
  lemma ExitMeansFailureOrEmpty(w: PollWake)
    requires EndsWait(w)
    ensures w.res < 0 || (HasPri(w) && w.events.seekOk && CgroupEvents.BytesRead(w.events) > 0
      && exists i :: CgroupEvents.ReportsEmptyAt(CgroupEvents.Tokens(CgroupEvents.Record(w.events)), i))
  {
    CgroupEvents.ReportsEmptyIff(w.events);
  }

  /** Wakes without POLLPRI, and wakes whose re-read says "populated", keep the monitor waiting. */
  lemma KeepsWaiting(w: PollWake)
    requires w.res >= 0
    requires !HasPri(w) || CgroupEvents.IsCgroupPopulated(w.events)
    ensures !EndsWait(w)
  {
  }
}
