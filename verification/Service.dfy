/** The start/stop handshake of a service thread: the caller of open and close against the
    worker, each lock section one step, in every interleaving. */
module Service {

  datatype Command = CmdStart | CmdAck | CmdStop
  datatype Status = Ready | Started | Failed | Stopped

  /** What the handler may do: acknowledge, signal an error, ask whether to stop or what the
      status is (all four lock the context), or anything that does not use the context. */
  datatype Action = Ack | Error | CheckBreak | CheckStatus | Work

  /** The worker thread: not created, before its first lock section, in the handler with
      `next` actions done, ended. */
  datatype Worker = None | Entering | Handling(next: nat) | Gone

  /** The caller: about to create the thread, in the loop of open, holding a handle, in the loop
      of close (polled tells whether this call has polled yet), about to free the context,
      without handle. */
  datatype Caller = Creating | Polling | Idle | Closing(timed: bool, polled: bool) | Freeing | Closed

  /** The context, the two threads, and what has happened so far: how often the context was
      freed, whether the worker used it after that, whether open returned a handle, whether
      the handler acknowledged, whether a stop command was overwritten, whether a close gave up. */
  datatype State = State(
    command: Command, status: Status, worker: Worker, caller: Caller,
    freed: nat, usedAfterFree: bool, returned: bool, acked: bool, overwritten: bool, gaveUp: bool)

  datatype Step =
    | CreateThread(ok: bool)
    | Poll                     // the lock section in the loop of open
    | CallClose(timed: bool)
    | ClosePoll                // the lock section in the loop of close
    | GiveUp                   // the timer of a timed close has run out
    | Free
    | WorkerStep               // the next lock section or action of the worker

  const INITIAL: State := State(CmdStart, Ready, None, Creating, 0, false, false, false, false, false)

  predicate Enabled(s: State, step: Step) {
    match step
    case CreateThread(_) => s.caller == Creating
    case Poll => s.caller == Polling
    case CallClose(_) => s.caller == Idle
    case ClosePoll => s.caller.Closing?
    case GiveUp => s.caller == Closing(true, true)
    case Free => s.caller == Freeing
    case WorkerStep => s.worker.Entering? || s.worker.Handling?
  }

  function Next(acts: seq<Action>, s: State, step: Step): State
    requires Enabled(s, step)
  {
    match step
    case CreateThread(ok) =>
      if ok then s.(worker := Entering, caller := Polling) else s.(caller := Closing(false, false))
    case Poll =>
      if s.command != CmdAck || s.status == Ready then s
      else if s.status == Started then s.(caller := Idle, returned := true)
      else s.(caller := Closing(false, false))
    case CallClose(timed) => s.(caller := Closing(timed, false))
    case ClosePoll =>
      if s.status == Started then s.(command := CmdStop, caller := s.caller.(polled := true))
      else s.(caller := Freeing)
    case GiveUp => s.(caller := Idle, gaveUp := true)
    case Free => s.(caller := Closed, freed := s.freed + 1)
    case WorkerStep => WorkerNext(acts, s)
  }

  function WorkerNext(acts: seq<Action>, s: State): State
    requires s.worker.Entering? || s.worker.Handling?
  {
    var used := s.(usedAfterFree := s.usedAfterFree || s.freed > 0);
    match s.worker
    case Entering =>
      used.(command := CmdAck, overwritten := s.overwritten || s.command == CmdStop, worker := Handling(0))
    case Handling(k) =>
      if k >= |acts| then used.(status := if s.status == Failed then Failed else Stopped, worker := Gone)
      else
        match acts[k]
        case Ack => used.(status := Started, acked := true, worker := Handling(k + 1))
        case Error => used.(status := Failed, worker := Handling(k + 1))
        case CheckBreak => used.(worker := Handling(k + 1))
        case CheckStatus => used.(worker := Handling(k + 1))
        case Work => s.(worker := Handling(k + 1))
  }

  predicate Legal(acts: seq<Action>, s: State, steps: seq<Step>)
    decreases |steps|
  {
    steps == [] || (Enabled(s, steps[0]) && Legal(acts, Next(acts, s, steps[0]), steps[1..]))
  }

  /** The state after a run. */
  function Run(acts: seq<Action>, s: State, steps: seq<Step>): State
    requires Legal(acts, s, steps)
    decreases |steps|
  {
    if steps == [] then s else Run(acts, Next(acts, s, steps[0]), steps[1..])
  }

  // ---------------------------------------------------------------- safety

  /** The context is freed at most once and not used by the worker afterwards; open only
      returns a handle once the handler has acknowledged; a stop command stays, also when
      close gives up; and once the caller has lost its handle the worker has finished. */
  predicate Safe(s: State) {
    s.freed <= 1 && !s.usedAfterFree && (s.returned ==> s.acked) && !s.overwritten &&
    (s.gaveUp ==> s.command == CmdStop) && (s.caller == Closed ==> s.worker.None? || s.worker.Gone?)
  }

  /** What holds of the worker in each of its phases. */
  predicate WorkerPhase(acts: seq<Action>, s: State) {
    match s.worker
    case None => s.caller != Polling && s.caller != Idle && s.status == Ready && s.command == CmdStart && !s.returned && !s.acked
    case Entering => s.caller == Polling && s.status == Ready && s.command == CmdStart && !s.returned && !s.acked
    case Handling(k) =>
      k <= |acts| && s.command != CmdStart && (s.caller == Polling || s.caller == Idle || s.caller.Closing?) &&
      (s.status == Started || (s.status == Ready && s.caller == Polling)) && (s.status == Started <==> s.acked)
    case Gone => s.command != CmdStart && s.status == Stopped && s.caller != Creating
  }

  predicate Inv(acts: seq<Action>, s: State) {
    Safe(s) && WorkerPhase(acts, s) && s.freed == (if s.caller == Closed then 1 else 0) &&
    (s.command == CmdStop ==> s.acked) && (s.caller == Idle ==> s.acked) &&
    (s.caller == Closing(true, true) ==> s.command == CmdStop) &&
    (s.caller == Polling ==> s.command != CmdStop && !s.gaveUp) &&
    (s.caller.Freeing? || s.caller == Closed ==> s.worker.None? || s.worker.Gone?)
  }

  lemma StepKeepsInv(acts: seq<Action>, s: State, step: Step)
    requires Error !in acts && Inv(acts, s) && Enabled(s, step)
    ensures Inv(acts, Next(acts, s, step))
  {
  }

  lemma {:induction false} RunKeepsInv(acts: seq<Action>, s: State, steps: seq<Step>)
    requires Error !in acts && Inv(acts, s) && Legal(acts, s, steps)
    ensures Inv(acts, Run(acts, s, steps))
    decreases |steps|
  {
    if steps != [] {
      StepKeepsInv(acts, s, steps[0]);
      RunKeepsInv(acts, Next(acts, s, steps[0]), steps[1..]);
    }
  }

  // ---------------------------------------------------------------- exactness

  lemma {:induction false} RunsJoin(acts: seq<Action>, s: State, a: seq<Step>, b: seq<Step>)
    requires Legal(acts, s, a) && Legal(acts, Run(acts, s, a), b)
    ensures Legal(acts, s, a + b) && Run(acts, s, a + b) == Run(acts, Run(acts, s, a), b)
    decreases |a|
  {
    if a == [] {
      assert a + b == b;
    } else {
      RunsJoin(acts, Next(acts, s, a[0]), a[1..], b);
      assert (a + b)[1..] == a[1..] + b;
    }
  }

  function WorkerSteps(n: nat): (r: seq<Step>)
    ensures |r| == n
  {
    if n == 0 then [] else [WorkerStep] + WorkerSteps(n - 1)
  }

  /** The worker runs on while the caller stands still in the loop of open. */
  lemma {:induction false} WorkerRunsTo(acts: seq<Action>, s: State, k: nat)
    requires s.worker.Handling? && s.worker.next <= k <= |acts| && s.freed == 0
    requires s.command == CmdAck && !s.usedAfterFree
    ensures Legal(acts, s, WorkerSteps(k - s.worker.next))
    ensures var t := Run(acts, s, WorkerSteps(k - s.worker.next));
      t.worker == Handling(k) && t.caller == s.caller && t.freed == 0 && t.command == CmdAck &&
      (k > s.worker.next && acts[k - 1] == Error ==> t.status == Failed)
    decreases k - s.worker.next
  {
    if s.worker.next < k {
      OneAction(acts, s);
      hide WorkerNext, Next;
      WorkerRunsTo(acts, WorkerNext(acts, s), k);
    }
  }

  /** One action of the handler. */
  lemma OneAction(acts: seq<Action>, s: State)
    requires s.worker.Handling? && s.worker.next < |acts|
    ensures Enabled(s, WorkerStep) && Next(acts, s, WorkerStep) == WorkerNext(acts, s)
    ensures var t := WorkerNext(acts, s);
      t.worker == Handling(s.worker.next + 1) && t.caller == s.caller && t.freed == s.freed && t.command == s.command &&
      (s.freed == 0 ==> t.usedAfterFree == s.usedAfterFree) && (acts[s.worker.next] == Error ==> t.status == Failed)
  {
  }

  /** Once the context is freed, a worker that runs on to its end uses it. */
  lemma {:induction false} WorkerUses(acts: seq<Action>, s: State)
    requires s.worker.Handling? && s.worker.next <= |acts| && s.freed > 0
    ensures Legal(acts, s, WorkerSteps(|acts| + 1 - s.worker.next))
    ensures Run(acts, s, WorkerSteps(|acts| + 1 - s.worker.next)).usedAfterFree
    decreases |acts| - s.worker.next
  {
    if s.worker.next < |acts| {
      WorkerUses(acts, WorkerNext(acts, s));
    } else {
      assert WorkerSteps(1) == [WorkerStep];
    }
  }

  /** A handler that signals an error can be overtaken: the caller frees the context while
      the handler is still running. */
  lemma ErrorIsUnsafe(acts: seq<Action>, k: nat) returns (steps: seq<Step>)
    requires k < |acts| && acts[k] == Error
    ensures Legal(acts, INITIAL, steps) && Run(acts, INITIAL, steps).usedAfterFree
  {
    hide Legal, Run, WorkerSteps;
    var entered, failed, closed := [CreateThread(true), WorkerStep], WorkerSteps(k + 1), [Poll, ClosePoll, Free];
    Enters(acts);
    var s0 := Run(acts, INITIAL, entered);
    WorkerRunsTo(acts, s0, k + 1);
    RunsJoin(acts, INITIAL, entered, failed);
    var s1 := Run(acts, s0, failed);
    Closes(acts, s1);
    RunsJoin(acts, INITIAL, entered + failed, closed);
    var s2 := Run(acts, s1, closed);
    WorkerUses(acts, s2);
    RunsJoin(acts, INITIAL, entered + failed + closed, WorkerSteps(|acts| - k));
    steps := entered + failed + closed + WorkerSteps(|acts| - k);
  }

  lemma Enters(acts: seq<Action>)
    ensures Legal(acts, INITIAL, [CreateThread(true), WorkerStep])
    ensures var s := Run(acts, INITIAL, [CreateThread(true), WorkerStep]);
      s.worker == Handling(0) && s.caller == Polling && s.freed == 0 && s.command == CmdAck && !s.usedAfterFree
  {
    var entered := [CreateThread(true), WorkerStep];
    assert entered[1..] == [WorkerStep] && entered[1..][1..] == [];
  }

  /** After an error the caller gives up and frees the context without waiting for the worker. */
  lemma Closes(acts: seq<Action>, s: State)
    requires s.caller == Polling && s.command == CmdAck && s.status == Failed && s.freed == 0
    ensures Legal(acts, s, [Poll, ClosePoll, Free])
    ensures var t := Run(acts, s, [Poll, ClosePoll, Free]); t.worker == s.worker && t.freed == 1
  {
    var closed := [Poll, ClosePoll, Free];
    assert closed[1..] == [ClosePoll, Free] && closed[1..][1..] == [Free] && closed[1..][1..][1..] == [];
  }

  predicate SafeInEveryRun(acts: seq<Action>, steps: seq<Step>) {
    Legal(acts, INITIAL, steps) ==> Safe(Run(acts, INITIAL, steps))
  }

  /** The handshake is safe in every interleaving exactly for handlers that never signal an
      error. */
  lemma SafeExactlyWithoutErrors(acts: seq<Action>)
    ensures (forall steps :: SafeInEveryRun(acts, steps)) <==> Error !in acts
  {
    if Error in acts {
      var k :| 0 <= k < |acts| && acts[k] == Error;
      var steps := ErrorIsUnsafe(acts, k);
      assert !SafeInEveryRun(acts, steps);
    } else {
      forall steps
        ensures SafeInEveryRun(acts, steps)
      {
        if Legal(acts, INITIAL, steps) {
          RunKeepsInv(acts, INITIAL, steps);
        }
      }
    }
  }

  /** Once the handler has finished, close ends at its next poll and frees the context once. */
  lemma CloseEnds(acts: seq<Action>, steps: seq<Step>)
    requires Error !in acts && Legal(acts, INITIAL, steps)
    requires Run(acts, INITIAL, steps).caller.Closing? && Run(acts, INITIAL, steps).worker.Gone?
    ensures Legal(acts, Run(acts, INITIAL, steps), [ClosePoll, Free])
    ensures var t := Run(acts, Run(acts, INITIAL, steps), [ClosePoll, Free]); t.caller == Closed && t.freed == 1
  {
    RunKeepsInv(acts, INITIAL, steps);
    var two := [ClosePoll, Free];
    assert two[1..] == [Free] && two[1..][1..] == [];
  }

  // ---------------------------------------------------------------- the context

  /** The shared context; each method is one lock section and carries out one step. */
  class Context {
    var command: Command
    var status: Status

    constructor ()
      ensures Shows(INITIAL)
    {
      command, status := CmdStart, Ready;
    }

    ghost predicate Shows(s: State)
      reads this
    {
      command == s.command && status == s.status
    }

    /** The first lock section of workload_service_thread. */
    method Enter(ghost acts: seq<Action>, ghost s: State)
      requires Shows(s) && s.worker == Entering
      modifies this
      ensures Shows(Next(acts, s, WorkerStep))
    {
      command := CmdAck;
    }

    /** The last lock section of workload_service_thread. */
    method Leave(ghost acts: seq<Action>, ghost s: State)
      requires Shows(s) && s.worker == Handling(|acts|)
      modifies this
      ensures Shows(Next(acts, s, WorkerStep))
    {
      if status != Failed {
        status := Stopped;
      }
    }

    /** workload_ack_service */
    method AckService(ghost acts: seq<Action>, ghost s: State)
      requires Shows(s) && s.worker.Handling? && s.worker.next < |acts| && acts[s.worker.next] == Ack
      modifies this
      ensures Shows(Next(acts, s, WorkerStep))
    {
      status := Started;
    }

    /** workload_error_service */
    method ErrorService(ghost acts: seq<Action>, ghost s: State)
      requires Shows(s) && s.worker.Handling? && s.worker.next < |acts| && acts[s.worker.next] == Error
      modifies this
      ensures Shows(Next(acts, s, WorkerStep))
    {
      status := Failed;
    }

    /** workload_break_service: has the caller asked to stop? */
    method BreakService(ghost acts: seq<Action>, ghost s: State) returns (stop: bool)
      requires Shows(s) && s.worker.Handling? && s.worker.next < |acts| && acts[s.worker.next] == CheckBreak
      ensures Shows(Next(acts, s, WorkerStep)) && (stop <==> s.command == CmdStop)
    {
      stop := command == CmdStop;
    }

    /** workload_check_service: 1 while started, -1 after an error, else 0. */
    method CheckService(ghost acts: seq<Action>, ghost s: State) returns (r: int)
      requires Shows(s) && s.worker.Handling? && s.worker.next < |acts| && acts[s.worker.next] == CheckStatus
      ensures Shows(Next(acts, s, WorkerStep))
      ensures (r == 1 <==> status == Started) && (r == -1 <==> status == Failed) && -1 <= r <= 1
    {
      if status == Started {
        r := 1;
      } else if status == Failed {
        r := -1;
      } else {
        r := 0;
      }
    }

    /** The lock section in the loop of workload_open_service_ex. */
    method OpenPoll(ghost acts: seq<Action>, ghost s: State) returns (done: bool, error: bool)
      requires Shows(s) && s.caller == Polling
      ensures Shows(Next(acts, s, Poll))
      ensures done <==> Next(acts, s, Poll).caller != Polling
      ensures error <==> Next(acts, s, Poll).caller == Closing(false, false)
      ensures done && !error <==> Next(acts, s, Poll).caller == Idle
    {
      done, error := false, false;
      if command == CmdAck {
        if status == Started {
          done := true;
        } else if status != Ready {
          done, error := true, true;
        }
      }
    }

    /** The lock section in the loop of workload_close_service_ex. */
    method ClosePollOnce(ghost acts: seq<Action>, ghost s: State) returns (stopped: bool)
      requires Shows(s) && s.caller.Closing?
      modifies this
      ensures Shows(Next(acts, s, ClosePoll)) && (stopped <==> Next(acts, s, ClosePoll).caller == Freeing)
    {
      stopped := false;
      if status == Started {
        command := CmdStop;
      } else {
        stopped := true;
      }
    }
  }
}
