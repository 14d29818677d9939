/**
 * Non-blocking requests: a task is split into subtasks, each is submitted to the disk, and each completes later
 * (Misc.c: FatQueueTask, FatOnAccessComplete, FatDestroySubtask).
 */
module AsyncTask {
  /** An EFI status: 0 is success, the high bit marks an error, anything else is a warning. */
  type Code = nat

  const EFI_SUCCESS: Code := 0
  const ERROR_BIT := 0x8000_0000_0000_0000

  predicate EfiError(c: Code) { c >= ERROR_BIT }

  /**
   * `subtasks` is the task's list.  The first `link` of them are submitted and have not completed; the submission
   * loop stands at position `link`.  `signals` are the statuses with which the token was signalled, `frees` counts
   * how often the task was freed, `done` are the statuses of the completions so far, and `lost` how many there
   * were when a submission failed.
   */
  datatype State = State(subtasks: seq<nat>, link: nat, queueing: bool, result: Code, token: bool, signals: seq<Code>,
                         frees: nat,
                         done: seq<Code>, lost: nat)

  /** The disk answers a submission, or completes the `at`-th of the submitted subtasks. */
  datatype Event = Submit(answer: Code) | Complete(at: nat, code: Code)

  predicate Enabled(s: State, e: Event) {
    match e
    case Submit(_) => s.queueing && s.link < |s.subtasks|
    case Complete(at, _) => at < s.link <= |s.subtasks|
  }

  /** FatQueueTask up to its loop: a task without subtasks is signalled and freed at once. */
  function Start(subtasks: seq<nat>): State {
    if subtasks == [] then State([], 0, false, EFI_SUCCESS, false, [EFI_SUCCESS], 1, [], 0)
    else State(subtasks, 0, true, EFI_SUCCESS, true, [], 0, [], 0)
  }

  /** One turn of the submission loop; a refused submission drops it and all that follow. */
  function AfterSubmit(s: State, answer: Code): State
    requires s.queueing && s.link < |s.subtasks|
  {
    if !EfiError(answer) then s.(link := s.link + 1, queueing := s.link + 1 < |s.subtasks|, result := answer)
    else
      var dropped := s.(subtasks := s.subtasks[..s.link], queueing := false, result := answer, lost := |s.done|);
      if s.link == 0 then dropped.(frees := s.frees + 1) else dropped.(token := false)
  }

  /** FatOnAccessComplete. */
  function AfterComplete(s: State, at: nat, code: Code): State
    requires at < s.link <= |s.subtasks|
  {
    var rest := s.subtasks[..at] + s.subtasks[at + 1..];
    var signal := s.token && (rest == [] || EfiError(code));
    s.(subtasks := rest, link := s.link - 1, done := s.done + [code],
       signals := if signal then s.signals + [code] else s.signals,
       token := s.token && !signal,
       frees := if rest == [] then s.frees + 1 else s.frees)
  }

  function Step(s: State, e: Event): State
    requires Enabled(s, e)
  {
    match e
    case Submit(answer) => AfterSubmit(s, answer)
    case Complete(at, code) => AfterComplete(s, at, code)
  }

  /** The task as the driver's code changes it. */
  class Task {
    var subtasks: seq<nat>
    var link: nat
    var queueing: bool
    var result: Code
    var token: bool
    var signals: seq<Code>
    var frees: nat
    ghost var done: seq<Code>
    ghost var lost: nat

    ghost function Now(): State
      reads this
    {
      State(subtasks, link, queueing, result, token, signals, frees, done, lost)
    }

    /** FatQueueTask begins. */
    constructor (subtasks: seq<nat>)
      ensures Now() == Start(subtasks)
    {
      this.subtasks, link, queueing, result := subtasks, 0, subtasks != [], EFI_SUCCESS;
      token, signals, frees := true, [], 0;
      done, lost := [], 0;
      if subtasks == [] {
        signals, token, frees := [EFI_SUCCESS], false, 1;
      }
    }

    /** FatDestroySubtask: the subtask at position `at` leaves the list. */
    method FatDestroySubtask(at: nat)
      requires at < |subtasks|
      modifies this`subtasks
      ensures subtasks == old(subtasks)[..at] + old(subtasks)[at + 1..]
    {
      subtasks := subtasks[..at] + subtasks[at + 1..];
    }

    /** A turn of the loop of FatQueueTask, and what follows a refused submission. */
    method SubmitNext(answer: Code)
      requires queueing && link < |subtasks|
      modifies this
      ensures Now() == AfterSubmit(old(Now()), answer)
    {
      result := answer;
      if !EfiError(answer) {
        link := link + 1;
        queueing := link < |subtasks|;
        return;
      }
      queueing, lost := false, |done|;
      ghost var before := subtasks;
      while |subtasks| > link
        invariant link <= |subtasks| <= |before| && subtasks[..link] == before[..link]
        invariant Now() == old(Now()).(subtasks := subtasks, queueing := false, result := answer, lost := |done|)
      {
        FatDestroySubtask(link);
      }
      assert subtasks == before[..link];
      if subtasks == [] { frees := frees + 1; } else { token := false; }
    }

    /** FatOnAccessComplete for the subtask at position `at`. */
    method FatOnAccessComplete(at: nat, status: Code)
      requires at < link <= |subtasks|
      modifies this
      ensures Now() == AfterComplete(old(Now()), at, status)
    {
      FatDestroySubtask(at);
      link := link - 1;
      done := done + [status];
      if token && (subtasks == [] || EfiError(status)) {
        signals := signals + [status];
        token := false;
      }
      if subtasks == [] { frees := frees + 1; }
    }

    /** The events that come, in any order; events that cannot happen are passed over. */
    method Execute(events: seq<Event>)
      modifies this
      ensures Now() == Run(old(Now()), events)
    {
      assert events[0..] == events;
      for k := 0 to |events|
        invariant Run(Now(), events[k..]) == Run(old(Now()), events)
      {
        assert events[k..][1..] == events[k + 1..];
        if Enabled(State(subtasks, link, queueing, result, token, signals, frees, [], 0), events[k]) {
          match events[k] {
            case Submit(answer) => SubmitNext(answer);
            case Complete(at, code) => FatOnAccessComplete(at, code);
          }
        }
      }
    }
  }

  // ---------------------------------------------------------------- all runs

  function Run(s: State, events: seq<Event>): State
    decreases events
  {
    if events == [] then s else Run(if Enabled(s, events[0]) then Step(s, events[0]) else s, events[1..])
  }

  /** Whether some status is an error, and the first one that is. */
  predicate Fails(codes: seq<Code>) { exists i :: 0 <= i < |codes| && EfiError(codes[i]) }

  function FirstFailure(codes: seq<Code>): (c: Code)
    requires Fails(codes)
    ensures c in codes && EfiError(c)
  {
    if EfiError(codes[0]) then codes[0] else FirstFailure(codes[1..])
  }

  /** What a task reports: the first error; the last status if there is none. */
  function Outcome(codes: seq<Code>): Code {
    if Fails(codes) then FirstFailure(codes) else if codes == [] then EFI_SUCCESS else codes[|codes| - 1]
  }

  lemma {:induction false} FirstFailureAppend(codes: seq<Code>, c: Code)
    ensures Fails(codes + [c]) <==> Fails(codes) || EfiError(c)
    ensures Fails(codes) ==> FirstFailure(codes + [c]) == FirstFailure(codes)
    ensures !Fails(codes) && EfiError(c) ==> FirstFailure(codes + [c]) == c
  {
    assert (codes + [c])[|codes|] == c;
    assert forall i :: 0 <= i < |codes| ==> (codes + [c])[i] == codes[i];
    if codes != [] {
      assert (codes + [c])[1..] == codes[1..] + [c];
      FirstFailureAppend(codes[1..], c);
    }
  }

  /** FatQueueTask has returned, and nothing is left to complete. */
  predicate Drained(s: State) { !s.queueing && s.subtasks == [] }

  /** A submission was refused. */
  predicate Refused(s: State) { EfiError(s.result) }

  /** The completions whose failure may still be reported: those before a refused submission. */
  function Reported(s: State): seq<Code> {
    if Refused(s) && s.lost <= |s.done| then s.done[..s.lost] else s.done
  }

  /** What every step keeps, for a task that began with `n` subtasks. */
  predicate Invariant(s: State, n: nat) {
    && s.link <= |s.subtasks|
    && (s.queueing ==> s.link < |s.subtasks| && !Refused(s))
    && (!s.queueing ==> s.link == |s.subtasks|)
    && s.frees == (if Drained(s) then 1 else 0)
    && (!Refused(s) ==> |s.done| + |s.subtasks| == n)
    && (Refused(s) ==> s.lost <= |s.done|)
    && s.signals == (if Fails(Reported(s)) || (Drained(s) && !Refused(s)) then [Outcome(Reported(s))] else [])
    && (!Drained(s) ==> (s.token <==> !Refused(s) && s.signals == []))
  }

  lemma StartInvariant(subtasks: seq<nat>)
    ensures Invariant(Start(subtasks), |subtasks|)
  {}

  lemma StepKeepsInvariant(s: State, e: Event, n: nat)
    requires Invariant(s, n) && Enabled(s, e)
    ensures Invariant(Step(s, e), n)
  {
    match e
    case Submit(answer) =>
      assert s.done[..|s.done|] == s.done;
    case Complete(at, code) =>
      FirstFailureAppend(s.done, code);
      if Refused(s) { assert (s.done + [code])[..s.lost] == s.done[..s.lost]; }
  }

  lemma {:induction false} RunKeepsInvariant(s: State, events: seq<Event>, n: nat)
    requires Invariant(s, n)
    ensures Invariant(Run(s, events), n)
    decreases events
  {
    if events != [] {
      if Enabled(s, events[0]) {
        StepKeepsInvariant(s, events[0], n);
        RunKeepsInvariant(Step(s, events[0]), events[1..], n);
      } else {
        RunKeepsInvariant(s, events[1..], n);
      }
    }
  }

  /**
   * However submissions are answered and completions come in: the task is freed once, when all has drained. If no
   * submission is refused, the token is then signalled exactly once, with the first error or else the last status. If
   * one is refused, only a failure that completed before is signalled, and nothing is signalled afterwards.
   */
  lemma EveryRun(subtasks: seq<nat>, events: seq<Event>)
    ensures var s := Run(Start(subtasks), events);
      && |s.signals| <= 1 && s.frees <= 1 && (s.frees == 1 <==> Drained(s))
      && (Drained(s) && !Refused(s) ==> |s.done| == |subtasks| && s.signals == [Outcome(s.done)])
      && (Refused(s) ==> s.lost <= |s.done|)
      && (Refused(s) ==> s.signals == if Fails(s.done[..s.lost]) then [FirstFailure(s.done[..s.lost])] else [])
  {
    StartInvariant(subtasks);
    RunKeepsInvariant(Start(subtasks), events, |subtasks|);
  }

  /** The case of a signal before a refusal: the first subtask fails, then the second is refused. */
  lemma SignalBeforeRefusal()
    ensures var s := Run(Start([0, 1]), [Submit(EFI_SUCCESS), Complete(0, ERROR_BIT), Submit(ERROR_BIT)]);
      Refused(s) && Drained(s) && s.signals == [ERROR_BIT]
  {
    FailsFirst();
    var s := Step(Step(Start([0, 1]), Submit(EFI_SUCCESS)), Complete(0, ERROR_BIT));
    var events := [Submit(EFI_SUCCESS), Complete(0, ERROR_BIT), Submit(ERROR_BIT)];
    hide Step;
    assert events[1..] == [Complete(0, ERROR_BIT), Submit(ERROR_BIT)];
    assert events[1..][1..] == [Submit(ERROR_BIT)];
    assert Run(s, [Submit(ERROR_BIT)]) == Step(s, Submit(ERROR_BIT));
  }

  lemma FailsFirst()
    ensures var s0 := Start([0, 1]);
      var s1 := Step(s0, Submit(EFI_SUCCESS));
      && Enabled(s0, Submit(EFI_SUCCESS)) && Enabled(s1, Complete(0, ERROR_BIT))
      && var s2 := Step(s1, Complete(0, ERROR_BIT));
      && Enabled(s2, Submit(ERROR_BIT))
      && var s3 := Step(s2, Submit(ERROR_BIT));
      && Refused(s3) && Drained(s3) && s3.signals == [ERROR_BIT]
  {
    var s1 := Step(Start([0, 1]), Submit(EFI_SUCCESS));
    assert s1.subtasks[..0] + s1.subtasks[1..] == [1];
  }

  /** What is still to happen. */
  function Pending(s: State): nat
    requires s.link <= |s.subtasks|
  {
    2 * (|s.subtasks| - s.link) + s.link
  }

  /** Until all has drained, some event can happen; and every event brings the end nearer. */
  lemma EveryRunDrains(s: State, n: nat)
    requires Invariant(s, n)
    ensures Drained(s) <==> forall e :: !Enabled(s, e)
    ensures forall e :: Enabled(s, e) ==> Step(s, e).link <= |Step(s, e).subtasks| && Pending(Step(s, e)) < Pending(s)
  {
    if !Drained(s) {
      if s.queueing { assert Enabled(s, Submit(EFI_SUCCESS)); } else { assert Enabled(s, Complete(0, EFI_SUCCESS)); }
    }
    forall e | Enabled(s, e)
      ensures Step(s, e).link <= |Step(s, e).subtasks| && Pending(Step(s, e)) < Pending(s)
    {
      match e
      case Submit(answer) =>
      case Complete(at, code) =>
    }
  }
}
