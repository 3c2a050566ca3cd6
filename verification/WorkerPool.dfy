/** The test driver's worker pool as interleaved steps: a main thread that dispatches jobs and one
    stop job per worker, collects one result per job and joins the workers; workers that take
    jobs from one FIFO queue and report to another; and an interrupt that may come at any time. */
module WorkerPool {
  import opened Wrappers

  /** A job object as it travels through the queues. `id` is its identity. */
  datatype Job = Job(id: int, isSkip: bool, isBreak: bool, returncode: Option<int>)

  /** Where one worker's loop stands: waiting in get, about to look at the interrupt flag, running the
      job, about to put the result, or returned. */
  datatype Worker = Idle | Holding(job: Job) | Running(job: Job) | Reporting(job: Job) | Stopped

  datatype Tally = Tally(passed: nat, failed: nat, valgrind: nat, crashed: nat, skipped: nat)

  /** A job before it is run: whether it is to be skipped, and the return code of its command if that is run. */
  datatype Plan = Plan(skip: bool, code: int)

  /** What is run, and by how many workers. */
  datatype Config = Config(plans: seq<Plan>, workers: nat)

  datatype State = State(
    dispatched: nat,
    input: seq<Job>,
    output: seq<Job>,
    workers: seq<Worker>,
    interrupted: bool,
    collected: seq<Job>,
    tally: Tally,
    joined: nat)

  datatype Step =
    | Interrupt
    | Dispatch
    | Take(w: nat)
    | CheckFlag(w: nat)
    | Execute(w: nat, code: int)
    | Report(w: nat)
    | Collect
    | Join

  function Jobs(c: Config): nat { |c.plans| }

  // Everything the main thread puts into the input queue, in order.
  function Script(c: Config, k: nat): Job {
    if k < Jobs(c) then Job(k, c.plans[k].skip, false, None) else Job(-1, false, true, None)
  }

  function ScriptLength(c: Config): nat { Jobs(c) + c.workers }

  function Init(c: Config): State {
    State(0, [], [], seq(c.workers, _ => Idle), false, [], Tally(0, 0, 0, 0, 0), 0)
  }

  predicate Collecting(c: Config, s: State) { s.dispatched == ScriptLength(c) && |s.collected| < Jobs(c) }

  predicate Joining(c: Config, s: State) {
    s.dispatched == ScriptLength(c) && |s.collected| >= Jobs(c) && s.joined < c.workers
  }

  /** The main thread has joined every worker and is about to return. */
  predicate Final(c: Config, s: State) {
    s.dispatched == ScriptLength(c) && |s.collected| >= Jobs(c) && s.joined >= c.workers
  }

  // Running a job's command gives its own return code.
  predicate Returns(c: Config, job: Job, code: int) { 0 <= job.id < Jobs(c) && code == c.plans[job.id].code }

  predicate Enabled(c: Config, s: State, step: Step) {
    match step
    case Interrupt => !s.interrupted
    case Dispatch => s.dispatched < ScriptLength(c)
    case Take(w) => w < |s.workers| && s.workers[w].Idle? && s.input != []
    case CheckFlag(w) => w < |s.workers| && s.workers[w].Holding?
    case Execute(w, code) => w < |s.workers| && s.workers[w].Running? && Returns(c, s.workers[w].job, code)
    case Report(w) => w < |s.workers| && s.workers[w].Reporting?
    case Collect => Collecting(c, s) && s.output != []
    case Join => Joining(c, s) && s.joined < |s.workers| && s.workers[s.joined].Stopped?
  }

  // After get: a stop job ends the worker.
  function Taken(job: Job): Worker { if job.isBreak then Stopped else Holding(job) }

  // After the flag test and the skip test.
  function Checked(job: Job, interrupted: bool): Worker {
    if interrupted then Reporting(job.(isBreak := true))
    else if job.isSkip then Reporting(job)
    else Running(job)
  }

  /** The result handling of the collecting loop. */
  function Count(t: Tally, job: Job): Tally {
    if job.isBreak then t
    else if job.isSkip then t.(skipped := t.skipped + 1)
    else if job.returncode == Some(0) then t.(passed := t.passed + 1)
    else if job.returncode == Some(1) then t.(failed := t.failed + 1)
    else if job.returncode == Some(2) then t.(valgrind := t.valgrind + 1)
    else t.(crashed := t.crashed + 1)
  }

  function Apply(c: Config, s: State, step: Step): State
    requires Enabled(c, s, step)
  {
    match step
    case Interrupt => s.(interrupted := true)
    case Dispatch => s.(dispatched := s.dispatched + 1, input := s.input + [Script(c, s.dispatched)])
    case Take(w) => s.(input := s.input[1..], workers := s.workers[w := Taken(s.input[0])])
    case CheckFlag(w) => s.(workers := s.workers[w := Checked(s.workers[w].job, s.interrupted)])
    case Execute(w, code) => s.(workers := s.workers[w := Reporting(s.workers[w].job.(returncode := Some(code)))])
    case Report(w) => s.(workers := s.workers[w := Idle], output := s.output + [s.workers[w].job])
    case Collect => s.(output := s.output[1..], collected := s.collected + [s.output[0]], tally := Count(s.tally, s.output[0]))
    case Join => s.(joined := s.joined + 1)
  }

  // ---------- the invariant ----------

  // A total over the workers, and how one worker's change moves it.
  function Total(ws: seq<Worker>, f: Worker -> nat): nat {
    if ws == [] then 0 else f(ws[0]) + Total(ws[1..], f)
  }

  lemma {:induction false} TotalUpdate(ws: seq<Worker>, f: Worker -> nat, w: nat, x: Worker)
    requires w < |ws|
    ensures Total(ws[w := x], f) + f(ws[w]) == Total(ws, f) + f(x)
  {
    if w == 0 {
      assert ws[w := x][1..] == ws[1..];
    } else {
      assert ws[w := x][1..] == ws[1..][w - 1 := x];
      TotalUpdate(ws[1..], f, w - 1, x);
    }
  }

  // The number of copies of job `id` that a worker, a queue or the collected list holds.
  function HeldBy(id: int): Worker -> nat {
    (x: Worker) => if (x.Holding? || x.Running? || x.Reporting?) && x.job.id == id then 1 else 0
  }

  function Copies(q: seq<Job>, id: int): nat {
    if q == [] then 0 else Copies(q[..|q| - 1], id) + if q[|q| - 1].id == id then 1 else 0
  }

  lemma {:induction false} CopiesSplit(q: seq<Job>, id: int)
    requires q != []
    ensures Copies(q, id) == (if q[0].id == id then 1 else 0) + Copies(q[1..], id)
  {
    if |q| > 1 {
      CopiesSplit(q[..|q| - 1], id);
      assert q[..|q| - 1][1..] == q[1..][..|q[1..]| - 1];
    }
  }

  function CopiesInPlay(s: State, id: int): nat {
    Total(s.workers, HeldBy(id)) + Copies(s.output, id) + Copies(s.collected, id)
  }

  function IsStopped(): Worker -> nat { (x: Worker) => if x.Stopped? then 1 else 0 }

  // How many entries of the script have left the input queue.
  function TakenSoFar(s: State): int { s.dispatched - |s.input| }

  predicate Known(c: Config, job: Job) {
    0 <= job.id < Jobs(c) && job.isSkip == c.plans[job.id].skip
  }

  // A result: broken by an interrupt or skipped, and then never run, or run to the return code of its command.
  predicate Finished(c: Config, s: State, job: Job) {
    && Known(c, job) && (job.isBreak ==> s.interrupted)
    && job.returncode == if job.isBreak || job.isSkip then None else Some(c.plans[job.id].code)
  }

  predicate WorkerFine(c: Config, s: State, x: Worker) {
    match x
    case Idle => true
    case Stopped => true
    case Holding(job) => Known(c, job) && !job.isBreak && job.returncode == None
    case Running(job) => Known(c, job) && !job.isBreak && !job.isSkip
    case Reporting(job) => Finished(c, s, job)
  }

  function TallyOf(jobs: seq<Job>): Tally {
    if jobs == [] then Tally(0, 0, 0, 0, 0) else Count(TallyOf(jobs[..|jobs| - 1]), jobs[|jobs| - 1])
  }

  // Queues and main thread.
  predicate Orderly(c: Config, s: State) {
    && |s.workers| == c.workers && |s.input| <= s.dispatched <= ScriptLength(c)
    && (forall i :: 0 <= i < |s.input| ==> s.input[i] == Script(c, TakenSoFar(s) + i))
    && |s.collected| <= Jobs(c) && (s.collected != [] ==> s.dispatched == ScriptLength(c))
    && s.joined <= c.workers && (s.joined > 0 ==> |s.collected| == Jobs(c) && s.dispatched == ScriptLength(c))
    && (forall k :: 0 <= k < s.joined ==> s.workers[k].Stopped?)
    && s.tally == TallyOf(s.collected)
  }

  predicate JobsFine(c: Config, s: State) {
    && (forall k :: 0 <= k < |s.workers| ==> WorkerFine(c, s, s.workers[k]))
    && (forall i :: 0 <= i < |s.output| ==> Finished(c, s, s.output[i]))
    && (forall i :: 0 <= i < |s.collected| ==> Finished(c, s, s.collected[i]))
  }

  // A job that has left the input queue is in exactly one place; one that has not is nowhere else.
  ghost predicate Conserved(c: Config, s: State) {
    && (forall id: nat :: id < Jobs(c) ==> CopiesInPlay(s, id) == if id < TakenSoFar(s) then 1 else 0)
    && Total(s.workers, IsStopped()) == if TakenSoFar(s) > Jobs(c) then TakenSoFar(s) - Jobs(c) else 0
  }

  ghost predicate Inv(c: Config, s: State) {
    Orderly(c, s) && JobsFine(c, s) && Conserved(c, s)
  }

  lemma {:induction false} AllIdle(ws: seq<Worker>, f: Worker -> nat)
    requires f(Idle) == 0 && forall k :: 0 <= k < |ws| ==> ws[k] == Idle
    ensures Total(ws, f) == 0
  {
    if ws != [] {
      AllIdle(ws[1..], f);
    }
  }

  lemma InitInv(c: Config)
    ensures Inv(c, Init(c))
  {
    forall id: nat | id < Jobs(c)
      ensures CopiesInPlay(Init(c), id) == 0
    {
      AllIdle(Init(c).workers, HeldBy(id));
    }
    AllIdle(Init(c).workers, IsStopped());
  }

  lemma TakeOrderly(c: Config, s: State, w: nat)
    requires Orderly(c, s) && Enabled(c, s, Take(w))
    ensures Orderly(c, Apply(c, s, Take(w)))
  {
  }

  lemma MainOrderly(c: Config, s: State, step: Step)
    requires Orderly(c, s) && Enabled(c, s, step) && (step.Dispatch? || step.Collect? || step.Join?)
    ensures Orderly(c, Apply(c, s, step))
  {
    if step.Collect? {
      var s' := Apply(c, s, step);
      assert s'.collected[..|s'.collected| - 1] == s.collected;
    }
  }

  lemma StepOrderly(c: Config, s: State, step: Step)
    requires Orderly(c, s) && Enabled(c, s, step)
    ensures Orderly(c, Apply(c, s, step))
  {
    if step.Take? {
      TakeOrderly(c, s, step.w);
    } else if step.Dispatch? || step.Collect? || step.Join? {
      MainOrderly(c, s, step);
    }
  }

  lemma StepJobsFine(c: Config, s: State, step: Step)
    requires Orderly(c, s) && JobsFine(c, s) && Enabled(c, s, step)
    ensures JobsFine(c, Apply(c, s, step))
  {
  }

  // A step of one worker that takes nothing from the input queue moves its job at most within the worker.
  lemma WorkerMoves(c: Config, s: State, s': State, w: nat, x: Worker)
    requires Conserved(c, s) && w < |s.workers|
    requires s'.workers == s.workers[w := x] && TakenSoFar(s') == TakenSoFar(s)
    requires s.workers[w].Stopped? == x.Stopped?
    requires forall id: nat :: id < Jobs(c) ==>
      Copies(s'.output, id) + Copies(s'.collected, id) + HeldBy(id)(x)
      == Copies(s.output, id) + Copies(s.collected, id) + HeldBy(id)(s.workers[w])
    ensures Conserved(c, s')
  {
    forall id: nat | id < Jobs(c)
      ensures CopiesInPlay(s', id) == CopiesInPlay(s, id)
    {
      TotalUpdate(s.workers, HeldBy(id), w, x);
    }
    TotalUpdate(s.workers, IsStopped(), w, x);
  }

  lemma TakeConserved(c: Config, s: State, w: nat)
    requires Inv(c, s) && Enabled(c, s, Take(w))
    ensures Conserved(c, Apply(c, s, Take(w)))
  {
    var s' := Apply(c, s, Take(w));
    var x := s'.workers[w];
    assert s.input[0] == Script(c, TakenSoFar(s) + 0);
    forall id: nat | id < Jobs(c)
      ensures CopiesInPlay(s', id) == if id < TakenSoFar(s') then 1 else 0
    {
      TotalUpdate(s.workers, HeldBy(id), w, x);
      assert CopiesInPlay(s, id) == if id < TakenSoFar(s) then 1 else 0;
    }
    TotalUpdate(s.workers, IsStopped(), w, x);
  }

  // A step that moves no job that has left the input queue.
  lemma NothingMoves(c: Config, s: State, s': State)
    requires Conserved(c, s) && TakenSoFar(s') == TakenSoFar(s)
    requires s'.workers == s.workers && s'.output == s.output && s'.collected == s.collected
    ensures Conserved(c, s')
  {
    forall id: nat | id < Jobs(c)
      ensures CopiesInPlay(s', id) == CopiesInPlay(s, id)
    {
    }
  }

  lemma CollectConserved(c: Config, s: State)
    requires Conserved(c, s) && Enabled(c, s, Collect)
    ensures Conserved(c, Apply(c, s, Collect))
  {
    var s' := Apply(c, s, Collect);
    assert s'.collected[..|s'.collected| - 1] == s.collected;
    forall id: nat | id < Jobs(c)
      ensures CopiesInPlay(s', id) == CopiesInPlay(s, id)
    {
      CopiesSplit(s.output, id);
    }
  }

  lemma ReportConserved(c: Config, s: State, w: nat)
    requires Conserved(c, s) && Enabled(c, s, Report(w))
    ensures Conserved(c, Apply(c, s, Report(w)))
  {
    var s' := Apply(c, s, Report(w));
    assert s'.output[..|s'.output| - 1] == s.output;
    WorkerMoves(c, s, s', w, Idle);
  }

  lemma StepConserved(c: Config, s: State, step: Step)
    requires Inv(c, s) && Enabled(c, s, step)
    ensures Conserved(c, Apply(c, s, step))
  {
    var s' := Apply(c, s, step);
    match step {
      case Interrupt => NothingMoves(c, s, s');
      case Dispatch => NothingMoves(c, s, s');
      case Join => NothingMoves(c, s, s');
      case Collect => CollectConserved(c, s);
      case Take(w) => TakeConserved(c, s, w);
      case CheckFlag(w) => WorkerMoves(c, s, s', w, s'.workers[w]);
      case Execute(w, _) => WorkerMoves(c, s, s', w, s'.workers[w]);
      case Report(w) => ReportConserved(c, s, w);
    }
  }

  // ---------- runs ----------

  ghost predicate Next(c: Config, s: State, s': State) {
    exists step :: Enabled(c, s, step) && s' == Apply(c, s, step)
  }

  /** Any interleaving, from the start. */
  ghost predicate Run(c: Config, trace: seq<State>) {
    && |trace| > 0 && trace[0] == Init(c)
    && forall i :: 0 <= i < |trace| - 1 ==> NextAt(c, trace, i)
  }

  ghost predicate NextAt(c: Config, trace: seq<State>, i: int)
    requires 0 <= i < |trace| - 1
  {
    Next(c, trace[i], trace[i + 1])
  }

  lemma {:induction false} RunKeepsInv(c: Config, trace: seq<State>, i: nat)
    requires Run(c, trace) && i < |trace|
    ensures Inv(c, trace[i])
  {
    if i == 0 {
      InitInv(c);
    } else {
      RunKeepsInv(c, trace, i - 1);
      assert NextAt(c, trace, i - 1);
      var step :| Enabled(c, trace[i - 1], step) && trace[i] == Apply(c, trace[i - 1], step);
      StepOrderly(c, trace[i - 1], step);
      StepJobsFine(c, trace[i - 1], step);
      StepConserved(c, trace[i - 1], step);
    }
  }

  lemma RunStep(c: Config, trace: seq<State>, i: nat)
    requires Run(c, trace) && i + 1 < |trace|
    ensures Inv(c, trace[i]) && Next(c, trace[i], trace[i + 1])
  {
    RunKeepsInv(c, trace, i);
    assert NextAt(c, trace, i);
  }

  // ---------- progress ----------

  lemma {:induction false} TotalPositive(ws: seq<Worker>, f: Worker -> nat, k: nat)
    requires k < |ws|
    ensures f(ws[k]) <= Total(ws, f)
  {
    if k > 0 {
      TotalPositive(ws[1..], f, k - 1);
    }
  }

  lemma {:induction false} StoppedBound(ws: seq<Worker>, k: nat)
    requires k < |ws| && !ws[k].Stopped?
    ensures Total(ws, IsStopped()) < |ws|
  {
    if k > 0 {
      StoppedBound(ws[1..], k - 1);
    } else {
      StoppedAtMost(ws[1..]);
    }
  }

  lemma {:induction false} StoppedAtMost(ws: seq<Worker>)
    ensures Total(ws, IsStopped()) <= |ws|
  {
    if ws != [] {
      StoppedAtMost(ws[1..]);
    }
  }

  lemma {:induction false} NoneHolds(ws: seq<Worker>, id: int)
    requires forall k :: 0 <= k < |ws| ==> ws[k].Idle? || ws[k].Stopped?
    ensures Total(ws, HeldBy(id)) == 0
  {
    if ws != [] {
      NoneHolds(ws[1..], id);
    }
  }

  // Copies of all ids below n account for a whole list of jobs with such ids.
  function CopiesBelow(q: seq<Job>, n: nat): nat {
    if n == 0 then 0 else CopiesBelow(q, n - 1) + Copies(q, n - 1)
  }

  lemma {:induction false} CopiesBelowSnoc(q: seq<Job>, n: nat)
    requires q != []
    ensures CopiesBelow(q, n) == CopiesBelow(q[..|q| - 1], n) + if 0 <= q[|q| - 1].id < n then 1 else 0
  {
    if n > 0 {
      CopiesBelowSnoc(q, n - 1);
    }
  }

  lemma {:induction false} CopiesBelowAll(q: seq<Job>, n: nat)
    requires forall i :: 0 <= i < |q| ==> 0 <= q[i].id < n
    ensures CopiesBelow(q, n) == |q|
  {
    if q == [] {
      NoCopies(n);
    } else {
      CopiesBelowSnoc(q, n);
      CopiesBelowAll(q[..|q| - 1], n);
    }
  }

  lemma {:induction false} NoCopies(n: nat)
    ensures CopiesBelow([], n) == 0
  {
    if n > 0 {
      NoCopies(n - 1);
    }
  }

  // With nothing in a worker or in the output queue, the jobs taken are the jobs collected.
  lemma QuietMeansCollected(c: Config, s: State)
    requires Inv(c, s) && s.output == [] && forall k :: 0 <= k < |s.workers| ==> s.workers[k].Idle? || s.workers[k].Stopped?
    ensures |s.collected| == if TakenSoFar(s) < Jobs(c) then TakenSoFar(s) else Jobs(c)
  {
    forall id: nat | id < Jobs(c)
      ensures Copies(s.collected, id) == if id < TakenSoFar(s) then 1 else 0
    {
      NoneHolds(s.workers, id);
      assert CopiesInPlay(s, id) == if id < TakenSoFar(s) then 1 else 0;
    }
    BothLists([], s.collected, Jobs(c), TakenSoFar(s));
    NoCopies(Jobs(c));
    CopiesBelowAll(s.collected, Jobs(c));
  }

  /** No deadlock: with at least one worker, or nothing to run, some thread can move in every state the
      pool reaches before the main thread is done. */
  lemma SomeThreadCanMove(c: Config, s: State) returns (step: Step)
    requires Inv(c, s) && !Final(c, s) && (c.workers > 0 || Jobs(c) == 0)
    ensures Enabled(c, s, step) && !step.Interrupt?
  {
    if s.dispatched < ScriptLength(c) {
      return Dispatch;
    }
    if s.output != [] && Collecting(c, s) {
      return Collect;
    }
    if w :| 0 <= w < |s.workers| && !s.workers[w].Idle? && !s.workers[w].Stopped? {
      match s.workers[w] {
        case Holding(_) => return CheckFlag(w);
        case Running(job) => return Execute(w, c.plans[job.id].code);
        case Reporting(_) => return Report(w);
      }
    }
    var w := if Collecting(c, s) then 0 else s.joined;
    if s.workers[w].Stopped? && Joining(c, s) {
      return Join;
    }
    if Collecting(c, s) {
      QuietMeansCollected(c, s);
      TotalPositive(s.workers, IsStopped(), w);
    } else {
      StoppedBound(s.workers, w);
    }
    return Take(w);
  }

  // ---------- termination ----------

  function Work(): Worker -> nat {
    (x: Worker) => match x case Holding(_) => 4 case Running(_) => 3 case Reporting(_) => 2 case _ => 0
  }

  /** The moves that can still be made. */
  function Remaining(c: Config, s: State): int {
    (if s.interrupted then 0 else 1) + 6 * (ScriptLength(c) - s.dispatched) + 5 * |s.input|
    + Total(s.workers, Work()) + |s.output| + (c.workers - s.joined)
  }

  lemma StepUsesWork(c: Config, s: State, step: Step)
    requires Orderly(c, s) && Enabled(c, s, step)
    ensures 0 <= Remaining(c, Apply(c, s, step)) < Remaining(c, s)
  {
    StepOrderly(c, s, step);
    if step.Take? || step.CheckFlag? || step.Execute? || step.Report? {
      var x := Apply(c, s, step).workers[step.w];
      assert Apply(c, s, step).workers == s.workers[step.w := x];
      TotalUpdate(s.workers, Work(), step.w, x);
    }
  }

  lemma NextUsesWork(c: Config, trace: seq<State>, i: nat)
    requires Run(c, trace) && i + 1 < |trace|
    ensures 0 <= Remaining(c, trace[i + 1]) < Remaining(c, trace[i])
  {
    RunStep(c, trace, i);
    var step :| Enabled(c, trace[i], step) && trace[i + 1] == Apply(c, trace[i], step);
    StepUsesWork(c, trace[i], step);
  }

  lemma {:induction false} RunUsesWork(c: Config, trace: seq<State>, i: nat)
    requires Run(c, trace) && i < |trace|
    ensures 0 <= Remaining(c, trace[i]) <= 1 + 6 * ScriptLength(c) + c.workers - i
  {
    if i == 0 {
      AllIdle(Init(c).workers, Work());
    } else {
      RunUsesWork(c, trace, i - 1);
      NextUsesWork(c, trace, i - 1);
    }
  }

  /** No thread can move; only a keyboard interrupt may still come. */
  ghost predicate Stuck(c: Config, s: State) { forall step :: Enabled(c, s, step) ==> step.Interrupt? }

  /** Every run ends: it is no longer than a bound fixed by the jobs and the workers. */
  lemma RunsEnd(c: Config, trace: seq<State>)
    requires Run(c, trace)
    ensures |trace| <= 2 + 6 * ScriptLength(c) + c.workers
  {
    RunUsesWork(c, trace, |trace| - 1);
  }

  /** Where a run can go no further the main thread is done exactly when there was a worker or no job;
      without workers, which is what a negative process limit leaves, it waits for results forever. */
  lemma StuckRunIsDone(c: Config, trace: seq<State>)
    requires Run(c, trace) && Stuck(c, trace[|trace| - 1])
    ensures Final(c, trace[|trace| - 1]) <==> c.workers > 0 || Jobs(c) == 0
  {
    if c.workers > 0 || Jobs(c) == 0 {
      RunKeepsInv(c, trace, |trace| - 1);
      StuckIsFinal(c, trace[|trace| - 1]);
    } else {
      NothingTakenWithoutWorkers(c, trace, |trace| - 1);
    }
  }

  /** Without workers and with one job, the driver blocks after dispatching it, interrupted or not. */
  lemma NoWorkersBlocks(plan: Plan)
    ensures var c := Config([plan], 0);
            var blocked := Init(c).(dispatched := 1, input := [Script(c, 0)]);
            && Run(c, [Init(c), blocked]) && Stuck(c, blocked) && !Final(c, blocked) && !blocked.interrupted
            && Run(c, [Init(c), blocked, blocked.(interrupted := true)]) && Stuck(c, blocked.(interrupted := true))
  {
    var c := Config([plan], 0);
    var start := Init(c);
    var blocked := Apply(c, start, Dispatch);
    assert blocked == start.(dispatched := 1, input := [Script(c, 0)]);
    assert Next(c, start, blocked);
    assert Enabled(c, blocked, Interrupt) && Next(c, blocked, Apply(c, blocked, Interrupt));
  }

  lemma StuckIsFinal(c: Config, s: State)
    requires Inv(c, s) && Stuck(c, s) && (c.workers > 0 || Jobs(c) == 0)
    ensures Final(c, s)
  {
    if !Final(c, s) {
      var step := SomeThreadCanMove(c, s);
    }
  }

  lemma {:induction false} NothingTakenWithoutWorkers(c: Config, trace: seq<State>, i: nat)
    requires Run(c, trace) && i < |trace| && c.workers == 0
    ensures trace[i].output == [] && trace[i].collected == []
  {
    if i > 0 {
      NothingTakenWithoutWorkers(c, trace, i - 1);
      RunStep(c, trace, i - 1);
    }
  }

  // ---------- what holds on the way and at the end ----------

  /** No worker stops, and so no stop job is taken, before every real job has been taken. */
  lemma StopOnlyAfterAllJobs(c: Config, s: State, w: nat)
    requires Inv(c, s) && w < |s.workers| && s.workers[w].Stopped?
    ensures s.dispatched > Jobs(c) && forall i :: 0 <= i < |s.input| ==> s.input[i].isBreak
  {
    TotalPositive(s.workers, IsStopped(), w);
  }

  /** At the end both queues are empty, every worker has taken one stop job and returned, and each job
      has come back exactly once with the outcome its own flags call for. */
  lemma AtTheEnd(c: Config, s: State)
    requires Inv(c, s) && Final(c, s)
    ensures s.input == [] && s.output == []
    ensures forall w :: 0 <= w < |s.workers| ==> s.workers[w].Stopped?
    ensures TakenSoFar(s) - Jobs(c) == c.workers
    ensures |s.collected| == Jobs(c) && forall id: nat :: id < Jobs(c) ==> Copies(s.collected, id) == 1
    ensures forall i :: 0 <= i < |s.collected| ==> Finished(c, s, s.collected[i])
  {
    assert forall w :: 0 <= w < |s.workers| ==> s.workers[w].Stopped?;
    AllStopped(s.workers);
    forall id: nat | id < Jobs(c)
      ensures Copies(s.output, id) + Copies(s.collected, id) == if id < TakenSoFar(s) then 1 else 0
    {
      NoneHolds(s.workers, id);
      assert CopiesInPlay(s, id) == if id < TakenSoFar(s) then 1 else 0;
    }
    BothLists(s.output, s.collected, Jobs(c), TakenSoFar(s));
    CopiesBelowAll(s.collected, Jobs(c));
    CopiesBelowAll(s.output, Jobs(c));
    assert |s.output| == 0 && TakenSoFar(s) >= Jobs(c);
    assert |s.input| == 0;
    assert forall id: nat :: id < Jobs(c) ==> Copies(s.output, id) == 0;
  }

  lemma {:induction false} AllStopped(ws: seq<Worker>)
    requires forall k :: 0 <= k < |ws| ==> ws[k].Stopped?
    ensures Total(ws, IsStopped()) == |ws|
  {
    if ws != [] {
      AllStopped(ws[1..]);
    }
  }

  lemma {:induction false} BothLists(q: seq<Job>, r: seq<Job>, n: nat, m: nat)
    requires forall id: nat :: id < n ==> Copies(q, id) + Copies(r, id) == if id < m then 1 else 0
    ensures CopiesBelow(q, n) + CopiesBelow(r, n) == if m < n then m else n
  {
    if n > 0 {
      BothLists(q, r, n - 1, m);
    }
  }

  // ---------- which jobs an interrupt breaks ----------

  /** Between two states a worker has tested the interrupt flag for job `id`. */
  ghost predicate FlagTested(s: State, s': State, id: int) {
    exists w :: 0 <= w < |s.workers| && w < |s'.workers| && TestedBy(s.workers[w], s'.workers[w], id)
  }

  predicate TestedBy(x: Worker, y: Worker, id: int) { x.Holding? && x.job.id == id && !y.Holding? }

  // Copies of job `id` past the flag test, with the outcome of the test.
  function DecidedBy(id: int, broken: bool): Worker -> nat {
    (x: Worker) => if (x.Running? || x.Reporting?) && x.job.id == id && x.job.isBreak == broken then 1 else 0
  }

  function Outcomes(q: seq<Job>, id: int, broken: bool): nat {
    if q == [] then 0
    else Outcomes(q[..|q| - 1], id, broken) + if q[|q| - 1].id == id && q[|q| - 1].isBreak == broken then 1 else 0
  }

  function Decided(s: State, id: int, broken: bool): nat {
    Total(s.workers, DecidedBy(id, broken)) + Outcomes(s.output, id, broken) + Outcomes(s.collected, id, broken)
  }

  lemma {:induction false} OutcomesSplit(q: seq<Job>, id: int, broken: bool)
    requires q != []
    ensures Outcomes(q, id, broken) == (if q[0].id == id && q[0].isBreak == broken then 1 else 0) + Outcomes(q[1..], id, broken)
  {
    if |q| > 1 {
      OutcomesSplit(q[..|q| - 1], id, broken);
      assert q[..|q| - 1][1..] == q[1..][..|q[1..]| - 1];
    }
  }

  lemma {:induction false} OutcomeCounts(q: seq<Job>, i: nat)
    requires i < |q|
    ensures Outcomes(q, q[i].id, q[i].isBreak) > 0
  {
    if i < |q| - 1 {
      OutcomeCounts(q[..|q| - 1], i);
    }
  }

  lemma {:induction false} OutcomesAreCopies(q: seq<Job>, id: int)
    ensures Outcomes(q, id, false) + Outcomes(q, id, true) == Copies(q, id)
  {
    if q != [] {
      OutcomesAreCopies(q[..|q| - 1], id);
    }
  }

  lemma {:induction false} DecidedAreHeld(ws: seq<Worker>, id: int)
    ensures Total(ws, DecidedBy(id, false)) + Total(ws, DecidedBy(id, true)) <= Total(ws, HeldBy(id))
  {
    if ws != [] {
      DecidedAreHeld(ws[1..], id);
    }
  }

  lemma DecidedOnce(c: Config, s: State, id: nat)
    requires Inv(c, s) && id < Jobs(c)
    ensures Decisions(s, id) <= 1
  {
    OutcomesAreCopies(s.output, id);
    OutcomesAreCopies(s.collected, id);
    DecidedAreHeld(s.workers, id);
    assert CopiesInPlay(s, id) <= 1;
  }

  // Only a flag test decides on a job, as the flag says.
  function NewlyDecided(s: State, step: Step, id: int, broken: bool): nat {
    if step.CheckFlag? && step.w < |s.workers| && s.workers[step.w].Holding? && s.workers[step.w].job.id == id
       && s.interrupted == broken
    then 1 else 0
  }

  lemma StepDecides(c: Config, s: State, step: Step, id: int, broken: bool)
    requires JobsFine(c, s) && Enabled(c, s, step)
    ensures Decided(Apply(c, s, step), id, broken) == Decided(s, id, broken) + NewlyDecided(s, step, id, broken)
  {
    var s' := Apply(c, s, step);
    if step.Take? || step.CheckFlag? || step.Execute? || step.Report? {
      TotalUpdate(s.workers, DecidedBy(id, broken), step.w, s'.workers[step.w]);
    }
    if step.Report? {
      assert s'.output[..|s'.output| - 1] == s.output;
    } else if step.Collect? {
      assert s'.collected[..|s'.collected| - 1] == s.collected;
      OutcomesSplit(s.output, id, broken);
    }
  }

  lemma StepTests(c: Config, s: State, step: Step, id: int)
    requires Enabled(c, s, step)
    ensures FlagTested(s, Apply(c, s, step), id) <==> NewlyDecided(s, step, id, s.interrupted) == 1
  {
    var s' := Apply(c, s, step);
    if NewlyDecided(s, step, id, s.interrupted) == 1 {
      assert TestedBy(s.workers[step.w], s'.workers[step.w], id);
    }
  }

  lemma NextDecides(c: Config, s: State, s': State, id: int, broken: bool)
    requires JobsFine(c, s) && Next(c, s, s')
    ensures Decided(s', id, broken) == Decided(s, id, broken) + if FlagTested(s, s', id) && s.interrupted == broken then 1 else 0
  {
    var step :| Enabled(c, s, step) && s' == Apply(c, s, step);
    StepDecides(c, s, step, id, broken);
    StepTests(c, s, step, id);
  }

  /** The i-th step of a run tests the flag for job `id`. */
  ghost predicate Tests(trace: seq<State>, i: nat, id: int) {
    i + 1 < |trace| && FlagTested(trace[i], trace[i + 1], id)
  }

  lemma {:induction false} DecidedStays(c: Config, trace: seq<State>, i: nat, j: nat, id: int)
    requires Run(c, trace) && i <= j < |trace|
    ensures Decisions(trace[i], id) <= Decisions(trace[j], id)
  {
    if i < j {
      DecidedStays(c, trace, i, j - 1, id);
      DecidedStep(c, trace, j - 1, id);
    }
  }

  function Decisions(s: State, id: int): nat { Decided(s, id, false) + Decided(s, id, true) }

  lemma DecidedStep(c: Config, trace: seq<State>, i: nat, id: int)
    requires Run(c, trace) && i + 1 < |trace|
    ensures Decisions(trace[i + 1], id) == Decisions(trace[i], id) + if Tests(trace, i, id) then 1 else 0
  {
    RunStep(c, trace, i);
    NextDecides(c, trace[i], trace[i + 1], id, false);
    NextDecides(c, trace[i], trace[i + 1], id, true);
  }

  lemma {:induction false} DecidedByTest(c: Config, trace: seq<State>, j: nat, id: int, broken: bool) returns (i: nat)
    requires Run(c, trace) && j < |trace| && Decided(trace[j], id, broken) > 0
    ensures Tests(trace, i, id) && trace[i].interrupted == broken
  {
    if j == 0 {
      AllIdle(Init(c).workers, DecidedBy(id, broken));
    } else {
      RunStep(c, trace, j - 1);
      NextDecides(c, trace[j - 1], trace[j], id, broken);
      i := j - 1;
      if Decided(trace[j - 1], id, broken) > 0 {
        i := DecidedByTest(c, trace, j - 1, id, broken);
      }
    }
  }

  lemma TestedOnce(c: Config, trace: seq<State>, i: nat, j: nat, id: nat)
    requires Run(c, trace) && i < j && id < Jobs(c) && Tests(trace, i, id)
    ensures !Tests(trace, j, id)
  {
    if j + 1 < |trace| {
      DecidedStep(c, trace, i, id);
      DecidedStays(c, trace, i + 1, j, id);
      DecidedStep(c, trace, j, id);
      RunKeepsInv(c, trace, j + 1);
      DecidedOnce(c, trace[j + 1], id);
    }
  }

  /** The flag is tested once for each job that comes back, and the job comes back broken exactly when the interrupt
      came before that test. */
  lemma BrokenMeans(c: Config, trace: seq<State>, k: nat) returns (i: nat)
    requires Run(c, trace) && k < |trace[|trace| - 1].collected|
    ensures var job := trace[|trace| - 1].collected[k];
            && i < |trace| - 1 && (forall j: nat :: Tests(trace, j, job.id) <==> j == i)
            && (job.isBreak <==> trace[i].interrupted)
  {
    var last := |trace| - 1;
    var job := trace[last].collected[k];
    RunKeepsInv(c, trace, last);
    assert Known(c, job);
    OutcomeCounts(trace[last].collected, k);
    i := DecidedByTest(c, trace, last, job.id, job.isBreak);
    forall j: nat
      ensures Tests(trace, j, job.id) <==> j == i
    {
      if j < i {
        OneTest(c, trace, j, i, job.id);
      } else if i < j {
        OneTest(c, trace, i, j, job.id);
      }
    }
  }

  lemma OneTest(c: Config, trace: seq<State>, i: nat, j: nat, id: nat)
    requires Run(c, trace) && i < j && id < Jobs(c)
    ensures !Tests(trace, i, id) || !Tests(trace, j, id)
  {
    if Tests(trace, i, id) {
      TestedOnce(c, trace, i, j, id);
    }
  }

  // ---------- the exit status ----------

  function ExitStatus(t: Tally, total: nat): int {
    if t.passed + t.skipped == total then 0 else 1
  }

  predicate Good(job: Job) { !job.isBreak && (job.isSkip || job.returncode == Some(0)) }

  /** The collecting loop and the exit status on the results it gets. */
  method CollectResults(results: seq<Job>) returns (t: Tally, status: int)
    ensures t == TallyOf(results) && status == ExitStatus(t, |results|)
    ensures status == 0 <==> forall i :: 0 <= i < |results| ==> Good(results[i])
  {
    t := Tally(0, 0, 0, 0, 0);
    for i := 0 to |results|
      invariant t == TallyOf(results[..i])
    {
      assert results[..i + 1][..i] == results[..i];
      t := Count(t, results[i]);
    }
    assert results[..|results|] == results;
    GoodCount(results);
    status := ExitStatus(t, |results|);
  }

  lemma {:induction false} GoodCount(results: seq<Job>)
    ensures var t := TallyOf(results);
            && t.passed + t.skipped <= t.passed + t.failed + t.valgrind + t.crashed + t.skipped <= |results|
            && (t.passed + t.skipped == |results| <==> forall i :: 0 <= i < |results| ==> Good(results[i]))
  {
    if results != [] {
      var front := results[..|results| - 1];
      GoodCount(front);
      assert results == front + [results[|results| - 1]];
    }
  }

  lemma {:induction false} FindCopy(q: seq<Job>, id: int) returns (i: nat)
    requires Copies(q, id) > 0
    ensures i < |q| && q[i].id == id
  {
    i := |q| - 1;
    if q[i].id != id {
      i := FindCopy(q[..i], id);
    }
  }

  predicate Succeeds(plan: Plan) { plan.skip || plan.code == 0 }

  /** The status of any finished run is 0 exactly when the interrupt broke no job and each job is skipped or has a command
      that returns 0; without an interrupt the jobs decide alone. */
  lemma ExitStatusMeans(c: Config, s: State)
    requires Inv(c, s) && Final(c, s)
    ensures ExitStatus(s.tally, Jobs(c)) == 0
            <==> (forall i :: 0 <= i < |s.collected| ==> !s.collected[i].isBreak)
                 && forall k :: 0 <= k < Jobs(c) ==> Succeeds(c.plans[k])
    ensures !s.interrupted ==> (ExitStatus(s.tally, Jobs(c)) == 0 <==> forall k :: 0 <= k < Jobs(c) ==> Succeeds(c.plans[k]))
  {
    AtTheEnd(c, s);
    GoodCount(s.collected);
    forall k | 0 <= k < Jobs(c)
      ensures CameBack(s, k)
    {
      assert Copies(s.collected, k) == 1;
      var i := FindCopy(s.collected, k);
    }
    forall i | 0 <= i < |s.collected|
      ensures Known(c, s.collected[i])
      ensures Good(s.collected[i]) <==> !s.collected[i].isBreak && Succeeds(c.plans[s.collected[i].id])
    {
      assert Finished(c, s, s.collected[i]);
    }
    if forall i :: 0 <= i < |s.collected| ==> Good(s.collected[i]) {
      forall k | 0 <= k < Jobs(c)
        ensures Succeeds(c.plans[k])
      {
        assert CameBack(s, k);
      }
    }
  }

  ghost predicate CameBack(s: State, k: int) { exists i :: 0 <= i < |s.collected| && s.collected[i].id == k }

  /** So the status of a finished run is 0 exactly when every job would succeed and no flag test came after the
      interrupt. */
  lemma RunStatusMeans(c: Config, trace: seq<State>)
    requires Run(c, trace) && Final(c, trace[|trace| - 1])
    ensures ExitStatus(trace[|trace| - 1].tally, Jobs(c)) == 0
            <==> (forall k :: 0 <= k < Jobs(c) ==> Succeeds(c.plans[k]))
                 && forall i: nat, k: nat :: k < Jobs(c) && Tests(trace, i, k) ==> !trace[i].interrupted
  {
    var s := trace[|trace| - 1];
    RunKeepsInv(c, trace, |trace| - 1);
    ExitStatusMeans(c, s);
    AtTheEnd(c, s);
    forall n | 0 <= n < |s.collected|
      ensures 0 <= s.collected[n].id < Jobs(c)
      ensures exists i: nat :: Tests(trace, i, s.collected[n].id) && trace[i].interrupted == s.collected[n].isBreak
    {
      assert Finished(c, s, s.collected[n]);
      var i := BrokenMeans(c, trace, n);
      assert Tests(trace, i, s.collected[n].id);
    }
    forall i: nat, k: nat | k < Jobs(c) && Tests(trace, i, k)
      ensures exists n :: 0 <= n < |s.collected| && s.collected[n].isBreak == trace[i].interrupted
    {
      assert Copies(s.collected, k) == 1;
      var n := FindCopy(s.collected, k);
      var j := BrokenMeans(c, trace, n);
    }
  }

  // ---------- the tally ----------

  datatype Verdict = Broken | Skipped | Passed | Failed | ValgrindError | Crashed

  function OfCode(code: int): Verdict {
    if code == 0 then Passed else if code == 1 then Failed else if code == 2 then ValgrindError else Crashed
  }

  /** What becomes of job k in a run that ends in s. */
  ghost function VerdictOn(c: Config, s: State, k: nat): Verdict
    requires k < Jobs(c)
  {
    if exists i :: 0 <= i < |s.collected| && s.collected[i].id == k && s.collected[i].isBreak then Broken
    else if c.plans[k].skip then Skipped
    else OfCode(c.plans[k].code)
  }

  ghost function Verdicts(c: Config, s: State): seq<Verdict> {
    seq(Jobs(c), k requires 0 <= k < Jobs(c) => VerdictOn(c, s, k))
  }

  // Results whose id has verdict v, summed over the ids below n or over the results.
  function ByIds(q: seq<Job>, vs: seq<Verdict>, n: nat, v: Verdict): nat
    requires n <= |vs|
  {
    if n == 0 then 0 else ByIds(q, vs, n - 1, v) + if vs[n - 1] == v then Copies(q, n - 1) else 0
  }

  function ByResults(q: seq<Job>, vs: seq<Verdict>, v: Verdict): nat
    requires forall i :: 0 <= i < |q| ==> 0 <= q[i].id < |vs|
  {
    if q == [] then 0 else ByResults(q[..|q| - 1], vs, v) + if vs[q[|q| - 1].id] == v then 1 else 0
  }

  lemma {:induction false} ByIdsSnoc(q: seq<Job>, vs: seq<Verdict>, n: nat, v: Verdict)
    requires q != [] && n <= |vs|
    ensures var id := q[|q| - 1].id;
            ByIds(q, vs, n, v) == ByIds(q[..|q| - 1], vs, n, v) + if 0 <= id < n && vs[id] == v then 1 else 0
  {
    if n > 0 {
      ByIdsSnoc(q, vs, n - 1, v);
    }
  }

  lemma {:induction false} NoneById(vs: seq<Verdict>, n: nat, v: Verdict)
    requires n <= |vs|
    ensures ByIds([], vs, n, v) == 0
  {
    if n > 0 {
      NoneById(vs, n - 1, v);
    }
  }

  lemma {:induction false} ByIdsIsByResults(q: seq<Job>, vs: seq<Verdict>, v: Verdict)
    requires forall i :: 0 <= i < |q| ==> 0 <= q[i].id < |vs|
    ensures ByIds(q, vs, |vs|, v) == ByResults(q, vs, v)
  {
    if q == [] {
      NoneById(vs, |vs|, v);
    } else {
      ByIdsSnoc(q, vs, |vs|, v);
      ByIdsIsByResults(q[..|q| - 1], vs, v);
    }
  }

  lemma {:induction false} EachIdOnce(q: seq<Job>, vs: seq<Verdict>, n: nat, v: Verdict)
    requires n <= |vs| && forall id: nat :: id < n ==> Copies(q, id) == 1
    ensures ByIds(q, vs, n, v) == multiset(vs[..n])[v]
  {
    if n > 0 {
      EachIdOnce(q, vs, n - 1, v);
      assert vs[..n] == vs[..n - 1] + [vs[n - 1]];
    }
  }

  function Says(job: Job): Verdict {
    if job.isBreak then Broken else if job.isSkip then Skipped
    else if job.returncode.Some? then OfCode(job.returncode.value) else Crashed
  }

  lemma {:induction false} TallyByResults(q: seq<Job>, vs: seq<Verdict>)
    requires forall i :: 0 <= i < |q| ==> 0 <= q[i].id < |vs| && Says(q[i]) == vs[q[i].id]
    ensures TallyOf(q) == Tally(ByResults(q, vs, Passed), ByResults(q, vs, Failed), ByResults(q, vs, ValgrindError),
                                ByResults(q, vs, Crashed), ByResults(q, vs, Skipped))
  {
    if q != [] {
      TallyByResults(q[..|q| - 1], vs);
    }
  }

  lemma {:induction false} OnlyCopy(q: seq<Job>, i: nat, j: nat)
    requires i < j < |q| && q[i].id == q[j].id
    ensures Copies(q, q[i].id) >= 2
  {
    if j < |q| - 1 {
      OnlyCopy(q[..|q| - 1], i, j);
    } else {
      CopyCounts(q[..j], i);
    }
  }

  lemma {:induction false} CopyCounts(q: seq<Job>, i: nat)
    requires i < |q|
    ensures Copies(q, q[i].id) >= 1
  {
    if i < |q| - 1 {
      CopyCounts(q[..|q| - 1], i);
    }
  }

  /** The tally of a finished run counts each job once, under the code of its command unless it is skipped, and
      leaves out only the jobs that came back broken. */
  lemma TallyMeans(c: Config, s: State)
    requires Inv(c, s) && Final(c, s)
    ensures var n := multiset(Verdicts(c, s));
            s.tally == Tally(n[Passed], n[Failed], n[ValgrindError], n[Crashed], n[Skipped])
  {
    AtTheEnd(c, s);
    var vs := Verdicts(c, s);
    forall i | 0 <= i < |s.collected|
      ensures 0 <= s.collected[i].id < |vs| && Says(s.collected[i]) == vs[s.collected[i].id]
    {
      SaysItsVerdict(c, s, i);
    }
    TallyByResults(s.collected, vs);
    assert vs[..|vs|] == vs;
    forall v: Verdict
      ensures ByResults(s.collected, vs, v) == multiset(vs)[v]
    {
      ByIdsIsByResults(s.collected, vs, v);
      EachIdOnce(s.collected, vs, |vs|, v);
    }
  }

  lemma SaysItsVerdict(c: Config, s: State, i: nat)
    requires i < |s.collected| && Finished(c, s, s.collected[i])
    requires forall id: nat :: id < Jobs(c) ==> Copies(s.collected, id) == 1
    ensures Says(s.collected[i]) == VerdictOn(c, s, s.collected[i].id)
  {
    var k := s.collected[i].id;
    assert Copies(s.collected, k) == 1;
    forall j | 0 <= j < |s.collected| && s.collected[j].id == k
      ensures j == i
    {
      if j < i {
        OnlyCopy(s.collected, j, i);
      } else if i < j {
        OnlyCopy(s.collected, i, j);
      }
    }
  }
}
