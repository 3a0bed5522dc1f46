/** The bounded owner of a route context and its interleavings with callers and drop
    (crates/nodenet-linux-context/src/driver.rs). Every atomic operation of the source is one step. */
module Driver {
  import opened Wire
  import opened SnapshotErrors

  const MAX_PENDING_ROUTE_QUERIES: nat := 1024

  /** Commands are numbered in the order in which callers reserve a place for them. */
  type Command = nat

  datatype Verdict = Succeeded | Refused(error: SnapshotError)

  datatype Answer = Answer(command: Command, verdict: Verdict)

  /** Where the worker thread is. A judgement (`remaining`) first reads the command's token, then the
      shutdown token and the clock; the final one follows a successful execution. */
  datatype Worker =
    | Top
    | Receiving
    | Taken(command: Command)
    | Judging(command: Command, final: bool, tokenClear: bool)
    | Running(command: Command)
    | Responding(command: Command, verdict: Verdict)
    | Clearing(command: Command)
    | Releasing(command: Command)
    | Exiting
    | Stopped

  /** How far the drop of the driver has come. */
  datatype Drop = Alive | Flagged | Signalled | Joined

  datatype State = State(
    pending: nat,
    issued: nat,
    reserved: set<Command>,
    queue: seq<Command>,
    worker: Worker,
    active: Option<Command>,
    shutdown: bool,
    cancelled: set<Command>,
    drop: Drop,
    admitted: seq<Command>,
    answered: seq<Answer>)

  const INITIAL := State(0, 0, {}, [], Top, None, false, {}, Alive, [], [])

  datatype Step =
    | Reserve
    | Send(command: Command)
    | Cancel(command: Command)
    | DropFlag
    | DropSignal
    | DropJoin
    | Work(expired: bool, failure: Option<SnapshotError>)

  datatype SendResult = Sent | Full | Disconnected

  /** The outcome of `try_send` on the bounded channel. */
  function TrySend(s: State): SendResult {
    if s.worker.Stopped? then Disconnected
    else if |s.queue| >= MAX_PENDING_ROUTE_QUERIES then Full
    else Sent
  }

  /** One step of the worker. A receive on an empty queue times out. */
  function Worked(s: State, expired: bool, failure: Option<SnapshotError>): Option<State> {
    match s.worker
    case Top => Some(s.(worker := if s.shutdown then Exiting else Receiving))
    case Receiving =>
      Some(if s.queue == [] then s.(worker := Top) else s.(worker := Taken(s.queue[0]), queue := s.queue[1..]))
    case Taken(c) => Some(s.(active := Some(c), worker := Judging(c, false, false)))
    case Judging(c, final, false) =>
      Some(s.(worker := if c in s.cancelled then Responding(c, Refused(Cancelled)) else Judging(c, final, true)))
    case Judging(c, final, true) =>
      Some(s.(worker := if s.shutdown then Responding(c, Refused(Cancelled))
                        else if expired then Responding(c, Refused(DeadlineExceeded))
                        else if final then Responding(c, Succeeded)
                        else Running(c)))
    case Running(c) =>
      Some(s.(worker := if failure.Some? then Responding(c, Refused(failure.value)) else Judging(c, true, false)))
    case Responding(c, v) => Some(s.(answered := s.answered + [Answer(c, v)], worker := Clearing(c)))
    case Clearing(c) => Some(s.(active := None, worker := Releasing(c)))
    case Releasing(c) => if s.pending == 0 then None else Some(s.(pending := s.pending - 1, worker := Top))
    case Exiting => Some(s.(pending := 0, worker := Stopped))
    case Stopped => None
  }

  /** One step of the system; `None` when the step cannot be taken. Drop needs the driver to itself: it
      starts when no caller is inside `admit`, and none enters afterwards. */
  function Next(s: State, step: Step): Option<State> {
    match step
    case Reserve =>
      if !s.drop.Alive? then None
      else if s.pending >= MAX_PENDING_ROUTE_QUERIES then Some(s)
      else Some(s.(pending := s.pending + 1, issued := s.issued + 1, reserved := s.reserved + {s.issued}))
    case Send(c) =>
      if c !in s.reserved then None
      else
        var left := s.(reserved := s.reserved - {c});
        (match TrySend(s)
         case Sent => Some(left.(queue := s.queue + [c], admitted := s.admitted + [c]))
         case _ => if s.pending == 0 then None else Some(left.(pending := s.pending - 1)))
    case Cancel(c) => if c < s.issued then Some(s.(cancelled := s.cancelled + {c})) else None
    case DropFlag => if s.drop.Alive? && s.reserved == {} then Some(s.(shutdown := true, drop := Flagged)) else None
    case DropSignal =>
      if !s.drop.Flagged? then None
      else if s.active.None? then Some(s.(drop := Signalled))
      else Some(s.(cancelled := s.cancelled + {s.active.value}, drop := Signalled))
    case DropJoin => if s.drop.Signalled? && s.worker.Stopped? then Some(s.(drop := Joined)) else None
    case Work(expired, failure) => Worked(s, expired, failure)
  }

  /** The state after a run, if every step of it can be taken. */
  function Run(s: State, steps: seq<Step>): Option<State>
    decreases |steps|
  {
    if steps == [] then Some(s)
    else
      match Next(s, steps[0])
      case None => None
      case Some(t) => Run(t, steps[1..])
  }

  // ---------------------------------------------------------------------------------------
  // What every step keeps.

  /** Commands taken from the queue whose place has not been given back. */
  function Held(w: Worker): seq<Command> {
    match w
    case Taken(c) => [c]
    case Judging(c, _, _) => [c]
    case Running(c) => [c]
    case Responding(c, _) => [c]
    case Clearing(c) => [c]
    case Releasing(c) => [c]
    case _ => []
  }

  /** Commands taken from the queue and not yet answered. */
  function Unanswered(w: Worker): seq<Command> {
    if w.Clearing? || w.Releasing? then [] else Held(w)
  }

  /** Whether the worker has published its command's token. */
  predicate Published(w: Worker) {
    w.Judging? || w.Running? || w.Responding? || w.Clearing?
  }

  function Commands(answers: seq<Answer>): (cs: seq<Command>)
    ensures |cs| == |answers|
  {
    seq(|answers|, i requires 0 <= i < |answers| => answers[i].command)
  }

  predicate NoneTwice(cs: seq<Command>) {
    forall i, j :: 0 <= i < j < |cs| ==> cs[i] != cs[j]
  }

  /** The admission counter counts what it should. */
  predicate Counted(s: State) {
    && (!s.worker.Stopped? ==> s.pending == |s.reserved| + |s.queue| + |Held(s.worker)|)
    && s.pending <= MAX_PENDING_ROUTE_QUERIES
    && (s.worker.Stopped? ==> s.pending == 0)
  }

  /** Answers come in the order of admission, and nothing is lost between the queue and its answer. */
  predicate Fifo(s: State) {
    s.admitted == Commands(s.answered) + Unanswered(s.worker) + s.queue
  }

  /** Every command was reserved once, and none is both admitted and waiting to be sent. */
  predicate Numbered(s: State) {
    && NoneTwice(s.admitted)
    && (forall c :: c in s.admitted ==> c < s.issued && c !in s.reserved)
    && (forall c :: c in s.reserved ==> c < s.issued)
  }

  /** Shutdown, the published token and the worker agree. */
  predicate Guarded(s: State) {
    && (s.shutdown <==> !s.drop.Alive?)
    && (s.shutdown ==> s.reserved == {})
    && (s.worker.Exiting? || s.worker.Stopped? ==> s.shutdown)
    && s.active == (if Published(s.worker) then Some(s.worker.command) else None)
    && ((s.drop.Signalled? || s.drop.Joined?) && s.worker.Running? ==> s.worker.command in s.cancelled)
    && (s.drop.Joined? ==> s.worker.Stopped?)
  }

  predicate Inv(s: State) {
    Counted(s) && Fifo(s) && Numbered(s) && Guarded(s)
  }

  lemma CountedWork(s: State, expired: bool, failure: Option<SnapshotError>)
    requires Counted(s) && Worked(s, expired, failure).Some?
    ensures Counted(Worked(s, expired, failure).value)
  {
  }

  lemma CountedStep(s: State, step: Step)
    requires Counted(s) && Guarded(s) && Numbered(s) && Next(s, step).Some?
    ensures Counted(Next(s, step).value)
  {
    hide Worked, NoneTwice;
    match step
    case Work(expired, failure) => CountedWork(s, expired, failure);
    case Reserve => assert s.issued !in s.reserved;
    case _ =>
  }

  lemma GuardedStep(s: State, step: Step)
    requires Guarded(s) && Next(s, step).Some?
    ensures Guarded(Next(s, step).value)
  {
  }

  lemma FifoWork(s: State, expired: bool, failure: Option<SnapshotError>)
    requires Fifo(s) && Worked(s, expired, failure).Some?
    ensures Fifo(Worked(s, expired, failure).value)
  {
    hide Commands;
    var t := Worked(s, expired, failure).value;
    if s.worker.Receiving? && s.queue != [] {
      assert s.queue == [s.queue[0]] + s.queue[1..];
    }
    if s.worker.Responding? {
      CommandsStep(s.answered, Answer(s.worker.command, s.worker.verdict));
    }
  }

  lemma CommandsStep(answers: seq<Answer>, a: Answer)
    ensures Commands(answers + [a]) == Commands(answers) + [a.command]
  {
  }

  lemma FifoStep(s: State, step: Step)
    requires Fifo(s) && Next(s, step).Some?
    ensures Fifo(Next(s, step).value)
  {
    hide Worked, Commands;
    match step
    case Work(expired, failure) => FifoWork(s, expired, failure);
    case _ =>
  }

  lemma NumberedStep(s: State, step: Step)
    requires Numbered(s) && Next(s, step).Some?
    ensures Numbered(Next(s, step).value)
  {
  }

  lemma InvStep(s: State, step: Step)
    requires Inv(s) && Next(s, step).Some?
    ensures Inv(Next(s, step).value)
  {
    hide Counted, Fifo, Guarded, Next;
    NumberedStep(s, step);
    FifoStep(s, step);
    GuardedStep(s, step);
    CountedStep(s, step);
  }

  /** The invariant holds in every state of every interleaving. */
  lemma {:induction false} InvRun(s: State, steps: seq<Step>)
    requires Inv(s) && Run(s, steps).Some?
    ensures Inv(Run(s, steps).value)
    decreases |steps|
  {
    hide Inv, Next;
    if steps != [] {
      InvStep(s, steps[0]);
      InvRun(Next(s, steps[0]).value, steps[1..]);
    }
  }

  ghost predicate Reachable(s: State) {
    exists steps :: Run(INITIAL, steps) == Some(s)
  }

  lemma ReachableInv(s: State)
    requires Reachable(s)
    ensures Inv(s)
  {
    var steps :| Run(INITIAL, steps) == Some(s);
    InvRun(INITIAL, steps);
  }

  // ---------------------------------------------------------------------------------------
  // Admission.

  /** As long as the worker has not stopped, the counter is exactly what callers, queue and worker hold. */
  lemma PendingExact(s: State)
    requires Reachable(s)
    ensures !s.worker.Stopped? ==> s.pending == |s.reserved| + |s.queue| + |Held(s.worker)|
    ensures s.pending <= MAX_PENDING_ROUTE_QUERIES
    ensures s.drop.Alive? ==> !s.worker.Stopped?
  {
    ReachableInv(s);
  }

  /** A caller that got a place always finds room: neither failure branch of `admit` can be taken. */
  lemma AdmissionNeverFails(s: State, c: Command)
    requires Reachable(s) && c in s.reserved
    ensures TrySend(s) == Sent
  {
    ReachableInv(s);
    assert s.reserved != {};
    assert |s.reserved| >= 1;
  }

  /** Each admitted command is answered at most once, in the order of admission, and only admitted
      commands are answered. */
  lemma AnsweredOnce(s: State)
    requires Reachable(s)
    ensures Commands(s.answered) <= s.admitted && NoneTwice(Commands(s.answered))
  {
    ReachableInv(s);
    var rest := Unanswered(s.worker) + s.queue;
    assert s.admitted == Commands(s.answered) + rest;
    forall i, j | 0 <= i < j < |s.answered| ensures Commands(s.answered)[i] != Commands(s.answered)[j] {
      assert s.admitted[i] == Commands(s.answered)[i] && s.admitted[j] == Commands(s.answered)[j];
    }
  }

  // ---------------------------------------------------------------------------------------
  // Judgements.

  /** The command is being refused, or has been. */
  ghost predicate Sealed(s: State, c: Command) {
    || (s.worker.Responding? && s.worker.command == c && s.worker.verdict.Refused?)
    || (exists i :: 0 <= i < |s.answered| && s.answered[i].command == c && s.answered[i].verdict.Refused?)
  }

  lemma SealedStep(s: State, step: Step, c: Command)
    requires Sealed(s, c) && Next(s, step).Some?
    ensures Sealed(Next(s, step).value, c)
  {
    var t := Next(s, step).value;
    if exists i :: 0 <= i < |s.answered| && s.answered[i].command == c && s.answered[i].verdict.Refused? {
      var i :| 0 <= i < |s.answered| && s.answered[i].command == c && s.answered[i].verdict.Refused?;
      assert t.answered[i] == s.answered[i];
    } else if step.Work? {
      assert t.answered[|s.answered|] == Answer(c, s.worker.verdict);
    }
  }

  lemma {:induction false} SealedRun(s: State, steps: seq<Step>, c: Command)
    requires Sealed(s, c) && Run(s, steps).Some?
    ensures Sealed(Run(s, steps).value, c)
    decreases |steps|
  {
    hide Sealed, Next;
    if steps != [] {
      SealedStep(s, steps[0], c);
      SealedRun(Next(s, steps[0]).value, steps[1..], c);
    }
  }

  /** What the worker holds unanswered has no answer. */
  lemma HeldUnanswered(s: State, c: Command)
    requires Inv(s) && Unanswered(s.worker) == [c]
    ensures forall i :: 0 <= i < |s.answered| ==> s.answered[i].command != c
  {
    var cs := Commands(s.answered);
    assert s.admitted == cs + ([c] + s.queue);
    assert s.admitted[|cs|] == c;
    forall i | 0 <= i < |s.answered| ensures s.answered[i].command != c { assert s.admitted[i] == cs[i]; }
  }

  /** A command that is sealed is neither run nor answered with success. */
  lemma SealedMeans(s: State, c: Command)
    requires Inv(s) && Sealed(s, c)
    ensures s.worker != Running(c) && Answer(c, Succeeded) !in s.answered
  {
    if Unanswered(s.worker) == [c] {
      HeldUnanswered(s, c);
    } else {
      var i :| 0 <= i < |s.answered| && s.answered[i].command == c && s.answered[i].verdict.Refused?;
      var cs := Commands(s.answered);
      assert s.admitted == cs + (Unanswered(s.worker) + s.queue);
      forall j | 0 <= j < |s.answered| ensures s.answered[j] != Answer(c, Succeeded) {
        assert s.admitted[j] == cs[j] && s.admitted[i] == cs[i];
      }
    }
  }

  /** A command whose deadline has passed when it is judged, before or after its execution, is never run from then on
      and never answered with success, whatever else happens. The same holds of one whose token is found cancelled. */
  lemma JudgedOut(s: State, expired: bool, failure: Option<SnapshotError>, steps: seq<Step>)
    requires Reachable(s) && s.worker.Judging? && Run(s, [Work(expired, failure)] + steps).Some?
    requires if s.worker.tokenClear then expired || s.shutdown else s.worker.command in s.cancelled
    ensures var t, c := Run(s, [Work(expired, failure)] + steps).value, s.worker.command;
            t.worker != Running(c) && Answer(c, Succeeded) !in t.answered
  {
    hide Inv, Sealed, Reachable;
    var all, c := [Work(expired, failure)] + steps, s.worker.command;
    assert all[0] == Work(expired, failure) && all[1..] == steps;
    ReachableInv(s);
    InvRun(s, all);
    var m := Next(s, all[0]).value;
    SealedNow(m, c);
    SealedRun(m, steps, c);
    SealedMeans(Run(s, all).value, c);
  }

  lemma SealedNow(s: State, c: Command)
    requires s.worker.Responding? && s.worker.command == c && s.worker.verdict.Refused?
    ensures Sealed(s, c)
  {
  }

  /** A command that is taken while its token is clear, judged in time before and after an execution that succeeds, and
      undisturbed by shutdown, is answered with success. */
  lemma CleanCommandSucceeds(s: State)
    requires s.worker.Taken? && !s.shutdown && s.worker.command !in s.cancelled
    ensures var t := Run(s, seq(7, _ => Work(false, None)));
            t.Some? && t.value.answered == s.answered + [Answer(s.worker.command, Succeeded)]
  {
    var c := s.worker.command;
    var s2 := s.(active := Some(c), worker := Judging(c, false, false));
    var s3, s4 := s2.(worker := Judging(c, false, true)), s2.(worker := Running(c));
    var s5, s6 := s2.(worker := Judging(c, true, false)), s2.(worker := Judging(c, true, true));
    var s7 := s2.(worker := Responding(c, Succeeded));
    var s8 := s7.(answered := s.answered + [Answer(c, Succeeded)], worker := Clearing(c));
    WorkOnce(s, s2, 6);
    WorkOnce(s2, s3, 5);
    WorkOnce(s3, s4, 4);
    WorkOnce(s4, s5, 3);
    WorkOnce(s5, s6, 2);
    WorkOnce(s6, s7, 1);
    WorkOnce(s7, s8, 0);
    assert seq(0, _ => Work(false, None)) == [];
  }

  lemma WorkOnce(s: State, t: State, n: nat)
    requires Worked(s, false, None) == Some(t)
    ensures Run(s, seq(n + 1, _ => Work(false, None))) == Run(t, seq(n, _ => Work(false, None)))
  {
    var all, rest := seq(n + 1, _ => Work(false, None)), seq(n, _ => Work(false, None));
    assert all[0] == Work(false, None) && all[1..] == rest;
  }

  // ---------------------------------------------------------------------------------------
  // Shutdown.

  lemma ShutdownStays(s: State, step: Step)
    requires Guarded(s) && s.shutdown && Next(s, step).Some?
    ensures Next(s, step).value.shutdown
  {
  }

  /** A command in progress when drop starts: after the drop has signalled, a running command's own token
      is cancelled. */
  lemma InProgressIsStopped(s: State)
    requires Reachable(s) && (s.drop.Signalled? || s.drop.Joined?)
    ensures s.worker.Running? ==> s.worker.command in s.cancelled
  {
    ReachableInv(s);
  }

  /** Once shutdown is flagged, no execution starts. */
  lemma {:induction false} NoLateStart(s: State, steps: seq<Step>)
    requires Guarded(s) && s.shutdown && !s.worker.Running? && Run(s, steps).Some?
    ensures !Run(s, steps).value.worker.Running?
    decreases |steps|
  {
    hide Guarded;
    if steps != [] {
      ShutdownStays(s, steps[0]);
      GuardedStep(s, steps[0]);
      NoLateStart(Next(s, steps[0]).value, steps[1..]);
    }
  }

  /** Worker steps left until it stops, once shutdown is flagged. */
  function Rank(w: Worker): nat {
    match w
    case Receiving => 12
    case Taken(_) => 11
    case Judging(_, final, tokenClear) => (if final then 6 else 9) + (if tokenClear then 0 else 1)
    case Running(_) => 8
    case Responding(_, _) => 5
    case Clearing(_) => 4
    case Releasing(_) => 3
    case Top => 2
    case Exiting => 1
    case Stopped => 0
  }

  /** Every worker step after the flag gets closer to the end, and other steps do not move the worker. */
  lemma RankStep(s: State, step: Step)
    requires Inv(s) && s.shutdown && Next(s, step).Some?
    ensures step.Work? ==> Rank(Next(s, step).value.worker) < Rank(s.worker)
    ensures !step.Work? ==> Next(s, step).value.worker == s.worker
  {
    hide Fifo, Numbered;
  }

  function WorkSteps(steps: seq<Step>): nat {
    if steps == [] then 0 else (if steps[0].Work? then 1 else 0) + WorkSteps(steps[1..])
  }

  /** The worker stops within twelve steps of its own after the flag, however the others interleave. */
  lemma {:induction false} ShutdownBounded(s: State, steps: seq<Step>)
    requires Inv(s) && s.shutdown && Run(s, steps).Some?
    ensures WorkSteps(steps) + Rank(Run(s, steps).value.worker) <= Rank(s.worker) <= 12
    decreases |steps|
  {
    hide Inv, Next, Rank, Guarded;
    RankCeiling(s.worker);
    if steps != [] {
      RankStep(s, steps[0]);
      Shut(s, steps[0]);
      InvStep(s, steps[0]);
      ShutdownBounded(Next(s, steps[0]).value, steps[1..]);
    }
  }

  lemma RankCeiling(w: Worker)
    ensures Rank(w) <= 12
  {
  }

  lemma Shut(s: State, step: Step)
    requires Inv(s) && s.shutdown && Next(s, step).Some?
    ensures Next(s, step).value.shutdown
  {
    ShutdownStays(s, step);
  }

  /** Until then the worker always has a step to take, so `join` returns. */
  lemma ShutdownProgress(s: State)
    requires Reachable(s) && !s.worker.Stopped?
    ensures forall expired, failure :: Next(s, Work(expired, failure)).Some?
  {
    ReachableInv(s);
  }

  /** Successful answers, and the one the worker is about to give. */
  function Successes(answers: seq<Answer>): nat {
    if answers == [] then 0
    else Successes(answers[..|answers| - 1]) + (if answers[|answers| - 1].verdict.Succeeded? then 1 else 0)
  }

  function Granted(s: State): nat {
    Successes(s.answered) + (if s.worker.Responding? && s.worker.verdict.Succeeded? then 1 else 0)
  }

  lemma GrantedStep(s: State, step: Step)
    requires s.shutdown && Next(s, step).Some?
    ensures Granted(Next(s, step).value) == Granted(s)
  {
    var t := Next(s, step).value;
    if step.Work? && s.worker.Responding? {
      assert t.answered[..|t.answered| - 1] == s.answered;
    }
  }

  /** After the flag no further success is granted: the only successful answer still to come is one that
      had already passed its final judgement. */
  lemma {:induction false} NoLateSuccess(s: State, steps: seq<Step>)
    requires Inv(s) && s.shutdown && Run(s, steps).Some?
    ensures Granted(Run(s, steps).value) == Granted(s)
    decreases |steps|
  {
    hide Inv, Next, Granted;
    if steps != [] {
      GrantedStep(s, steps[0]);
      Shut(s, steps[0]);
      InvStep(s, steps[0]);
      NoLateSuccess(Next(s, steps[0]).value, steps[1..]);
    }
  }

  /** After the flag at most one more command leaves the queue. */
  lemma {:induction false} AtMostOneLateCommand(s: State, steps: seq<Step>)
    requires Inv(s) && s.shutdown && Run(s, steps).Some?
    ensures var t := Run(s, steps).value;
            |s.queue| - |t.queue| <= (if s.worker.Receiving? then 1 else 0)
    decreases |steps|
  {
    hide Inv, Guarded, Fifo, Numbered;
    if steps != [] {
      Shut(s, steps[0]);
      InvStep(s, steps[0]);
      NoNewSends(s, steps[0]);
      AtMostOneLateCommand(Next(s, steps[0]).value, steps[1..]);
    }
  }

  lemma NoNewSends(s: State, step: Step)
    requires Inv(s) && s.shutdown && Next(s, step).Some?
    ensures !step.Send? && !step.Reserve?
  {
  }
}
