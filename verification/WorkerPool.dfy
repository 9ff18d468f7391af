/** The worker pool of test.py: the main thread starts the workers, dispatches
    the jobs, sends one break job per worker, collects one result per dispatched
    job, joins the workers and computes the exit status, while the workers run
    concurrently and a signal may set thread_exit at any moment.

    The pool is a transition system. An event is one atomic action of one thread
    (a queue operation, one test of the shared flag, the end of a job process);
    a schedule is any sequence of events, each enabled when it happens. */
module WorkerPool {

  /** What run_tests starts from: for each job, in dispatch order, whether it is
      to be skipped; and the number of worker threads. */
  datatype Config = Config(skip: seq<bool>, processors: nat)

  /** A Job object. `id` is the dispatch number; a break job has no number, -1. */
  datatype Job = Job(id: int, isBreak: bool, isSkip: bool, returncode: int)

  datatype Worker =
    | Waiting                // at input_queue.get()
    | Holding(job: Job)      // got a job, has not looked at it yet
    | Running(job: Job)      // in run_job_synchronously
    | Reporting(job: Job)    // at output_queue.put(job)
    | Exited

  datatype Tally = Tally(passed: nat, failed: nat, valgrind: nat, crashed: nat, skipped: nat)

  datatype ExitStatus = Pending | Status(code: int)

  /** `runs` is a history: the return code of every job process that has ended. */
  datatype State = State(
    workers: seq<Worker>, dispatched: nat, pills: nat, joined: nat,
    inQ: seq<Job>, outQ: seq<Job>, collected: seq<Job>, tally: Tally,
    threadExit: bool, status: ExitStatus, runs: map<int, int>)

  datatype Event =
    | Interrupt
    | Spawn | Dispatch | SendBreak | Collect | Join | Finish
    | Get(w: nat) | Look(w: nat) | JobEnds(w: nat, returncode: int) | Put(w: nat)

  // ---------- The transitions ----------

  function FreshJob(c: Config, id: nat): Job
    requires id < |c.skip|
  {
    Job(id, false, c.skip[id], 0)
  }

  const BREAK_JOB := Job(-1, true, false, 0)

  function Init(): State {
    State([], 0, 0, 0, [], [], [], Tally(0, 0, 0, 0, 0), false, Pending, map[])
  }

  predicate AllDispatched(c: Config, s: State) {
    |s.workers| == c.processors && s.dispatched == |c.skip|
  }

  predicate Enabled(c: Config, s: State, e: Event) {
    match e
    case Interrupt => true
    case Spawn => |s.workers| < c.processors
    case Dispatch => |s.workers| == c.processors && s.dispatched < |c.skip|
    case SendBreak => AllDispatched(c, s) && s.pills < c.processors
    case Collect => AllDispatched(c, s) && s.pills == c.processors && |s.collected| < |c.skip| && s.outQ != []
    case Join =>
      && AllDispatched(c, s) && s.pills == c.processors && |s.collected| == |c.skip|
      && s.joined < c.processors && s.workers[s.joined].Exited?
    case Finish =>
      && AllDispatched(c, s) && s.pills == c.processors && |s.collected| == |c.skip|
      && s.joined == c.processors && s.status.Pending?
    case Get(w) => w < |s.workers| && s.workers[w].Waiting? && s.inQ != []
    case Look(w) => w < |s.workers| && s.workers[w].Holding?
    case JobEnds(w, _) => w < |s.workers| && s.workers[w].Running?
    case Put(w) => w < |s.workers| && s.workers[w].Reporting?
  }

  /** Lines 974-999 of test.py: what a worker does with the job it holds. */
  function LookAt(job: Job, threadExit: bool): Worker {
    if job.isBreak then Exited
    else if threadExit then Reporting(job.(isBreak := true))
    else if job.isSkip then Reporting(job)
    else Running(job)
  }

  /** Lines 1690-1722: how one collected job is counted. */
  function Count(t: Tally, job: Job): Tally {
    if job.isBreak then t
    else if job.isSkip then t.(skipped := t.skipped + 1)
    else if job.returncode == 0 then t.(passed := t.passed + 1)
    else if job.returncode == 1 then t.(failed := t.failed + 1)
    else if job.returncode == 2 then t.(valgrind := t.valgrind + 1)
    else t.(crashed := t.crashed + 1)
  }

  function Next(c: Config, s: State, e: Event): State
    requires Enabled(c, s, e)
  {
    match e
    case Interrupt => s.(threadExit := true)
    case Spawn => s.(workers := s.workers + [Waiting])
    case Dispatch => s.(inQ := s.inQ + [FreshJob(c, s.dispatched)], dispatched := s.dispatched + 1)
    case SendBreak => s.(inQ := s.inQ + [BREAK_JOB], pills := s.pills + 1)
    case Collect =>
      s.(collected := s.collected + [s.outQ[0]], outQ := s.outQ[1..], tally := Count(s.tally, s.outQ[0]))
    case Join => s.(joined := s.joined + 1)
    case Finish =>
      s.(status := Status(if s.tally.passed + s.tally.skipped == s.dispatched then 0 else 1))
    case Get(w) => s.(workers := s.workers[w := Holding(s.inQ[0])], inQ := s.inQ[1..])
    case Look(w) => s.(workers := s.workers[w := LookAt(s.workers[w].job, s.threadExit)])
    case JobEnds(w, rc) =>
      var job := s.workers[w].job;
      s.(workers := s.workers[w := Reporting(job.(returncode := rc))], runs := s.runs[job.id := rc])
    case Put(w) => s.(outQ := s.outQ + [s.workers[w].job], workers := s.workers[w := Waiting])
  }

  // ---------- Counting over the workers ----------

  ghost function Total(ws: seq<Worker>, f: Worker -> nat): nat {
    if ws == [] then 0 else Total(ws[..|ws| - 1], f) + f(ws[|ws| - 1])
  }

  lemma TotalNone(f: Worker -> nat)
    ensures Total([], f) == 0
  {
  }

  lemma TotalUpdate(ws: seq<Worker>, f: Worker -> nat, i: nat, w: Worker)
    requires i < |ws|
    ensures Total(ws[i := w], f) + f(ws[i]) == Total(ws, f) + f(w)
  {
    var front := ws[..|ws| - 1];
    if i == |ws| - 1 {
      assert ws[i := w][..|ws| - 1] == front;
    } else {
      assert ws[i := w][..|ws| - 1] == front[i := w];
      TotalUpdate(front, f, i, w);
    }
  }

  lemma TotalAppend(ws: seq<Worker>, f: Worker -> nat, w: Worker)
    ensures Total(ws + [w], f) == Total(ws, f) + f(w)
  {
    assert (ws + [w])[..|ws|] == ws;
  }

  lemma TotalPositive(ws: seq<Worker>, f: Worker -> nat)
    requires Total(ws, f) > 0
    ensures exists i :: 0 <= i < |ws| && f(ws[i]) > 0
  {
    var front := ws[..|ws| - 1];
    if f(ws[|ws| - 1]) == 0 {
      TotalPositive(front, f);
      var i :| 0 <= i < |front| && f(front[i]) > 0;
      assert ws[i] == front[i];
    }
  }

  lemma TotalMember(ws: seq<Worker>, f: Worker -> nat, i: nat)
    requires i < |ws|
    ensures f(ws[i]) <= Total(ws, f)
  {
    if i < |ws| - 1 {
      assert ws[..|ws| - 1][i] == ws[i];
      TotalMember(ws[..|ws| - 1], f, i);
    }
  }

  /** When f is at most 1, a total of |ws| means every worker counts. */
  lemma TotalFull(ws: seq<Worker>, f: Worker -> nat, i: nat)
    requires forall w :: f(w) <= 1
    ensures Total(ws, f) <= |ws|
    ensures Total(ws, f) == |ws| && i < |ws| ==> f(ws[i]) == 1
  {
    if ws != [] { TotalFull(ws[..|ws| - 1], f, i); }
  }

  /** The worker has taken a break job. */
  function TookBreak(w: Worker): nat {
    if w.Exited? || (w.Holding? && w.job.isBreak) then 1 else 0
  }

  /** The worker has a dispatched job in its hands. */
  function Busy(w: Worker): nat {
    if w.Running? || w.Reporting? || (w.Holding? && !w.job.isBreak) then 1 else 0
  }

  /** How many more actions the worker's hands are good for. */
  function Effort(w: Worker): nat {
    match w
    case Holding(_) => 4
    case Running(_) => 3
    case Reporting(_) => 2
    case _ => 0
  }

  // ---------- The invariant ----------

  /** Break jobs still queued, and dispatched jobs still queued. */
  ghost function QueuedBreaks(s: State): int { s.pills - Total(s.workers, TookBreak) }
  ghost function Unclaimed(s: State): int { |s.inQ| - QueuedBreaks(s) }
  ghost function Claimed(s: State): int { s.dispatched - Unclaimed(s) }

  /** Everything put on the output queue so far, in order. */
  ghost function Reported(s: State): seq<Job> { s.collected + s.outQ }

  /** The main thread's program order. */
  ghost predicate InOrder(c: Config, s: State) {
    && |s.workers| <= c.processors && s.dispatched <= |c.skip| && s.pills <= c.processors
    && |s.collected| <= |c.skip| && s.joined <= c.processors
    && (s.dispatched > 0 ==> |s.workers| == c.processors)
    && (s.pills > 0 ==> AllDispatched(c, s))
    && (s.collected != [] ==> s.pills == c.processors && AllDispatched(c, s))
    && (s.joined > 0 ==> |s.collected| == |c.skip| && s.pills == c.processors && AllDispatched(c, s))
    && (forall i :: 0 <= i < s.joined ==> s.workers[i].Exited?)
    && (s.status.Status? ==>
          && s.joined == c.processors && |s.collected| == |c.skip|
          && s.pills == c.processors && AllDispatched(c, s))
  }

  /** The input queue: the unclaimed jobs in dispatch order, untouched, and then
      the break jobs; nobody has a break job while a job is unclaimed. */
  ghost predicate InputShape(c: Config, s: State) {
    && 0 <= QueuedBreaks(s) && 0 <= Unclaimed(s) <= s.dispatched <= |c.skip|
    && (forall i :: 0 <= i < Unclaimed(s) ==> s.inQ[i] == FreshJob(c, Claimed(s) + i))
    && (forall i :: Unclaimed(s) <= i < |s.inQ| ==> s.inQ[i] == BREAK_JOB)
    && (Total(s.workers, TookBreak) > 0 ==> Unclaimed(s) == 0)
    && (Unclaimed(s) + Claimed(s) < |c.skip| ==> s.pills == 0)
  }

  /** The job is what was dispatched under its number. */
  ghost predicate Genuine(c: Config, s: State, job: Job) {
    && 0 <= job.id < Claimed(s) && job.id < |c.skip|
    && job.isSkip == c.skip[job.id]
  }

  /** What a reported job says is what happened to it. */
  ghost predicate Truthful(c: Config, s: State, job: Job) {
    && Genuine(c, s, job)
    && (job.isBreak ==> s.threadExit && job.id !in s.runs)
    && (!job.isBreak && job.isSkip ==> job.id !in s.runs)
    && (!job.isBreak && !job.isSkip ==> job.id in s.runs && s.runs[job.id] == job.returncode)
  }

  ghost predicate WorkerOk(c: Config, s: State, w: Worker) {
    match w
    case Waiting => true
    case Exited => true
    case Holding(job) => job == BREAK_JOB || (Genuine(c, s, job) && !job.isBreak && job.id !in s.runs)
    case Running(job) => Genuine(c, s, job) && !job.isBreak && !job.isSkip && job.id !in s.runs
    case Reporting(job) => Truthful(c, s, job)
  }

  /** The number of the dispatched job in the worker's hands, -1 for none. */
  function InHand(w: Worker): int {
    if Busy(w) == 1 then w.job.id else -1
  }

  /** No two places hold the same dispatched job. */
  ghost predicate NoSharing(s: State) {
    && (forall i, j :: 0 <= i < j < |Reported(s)| ==> Reported(s)[i].id != Reported(s)[j].id)
    && (forall v, w :: 0 <= v < w < |s.workers| && InHand(s.workers[v]) != -1 ==>
                         InHand(s.workers[v]) != InHand(s.workers[w]))
    && (forall w, j :: 0 <= w < |s.workers| && 0 <= j < |Reported(s)| && InHand(s.workers[w]) != -1 ==>
                         InHand(s.workers[w]) != Reported(s)[j].id)
  }

  ghost predicate WorkersOk(c: Config, s: State) {
    forall w :: 0 <= w < |s.workers| ==> WorkerOk(c, s, s.workers[w])
  }

  ghost predicate ReportsOk(c: Config, s: State) {
    forall j :: 0 <= j < |Reported(s)| ==> Truthful(c, s, Reported(s)[j])
  }

  /** Every claimed job is in a worker's hands or reported; only they have run. */
  ghost predicate Accounted(s: State) {
    && |Reported(s)| + Total(s.workers, Busy) == Claimed(s)
    && (forall id :: id in s.runs ==> 0 <= id < Claimed(s))
  }

  ghost predicate Scored(s: State) {
    && s.tally == TallyOf(s.collected)
    && (s.status.Status? ==>
          s.status.code == if s.tally.passed + s.tally.skipped == s.dispatched then 0 else 1)
  }

  ghost predicate Inv(c: Config, s: State) {
    && InOrder(c, s)
    && InputShape(c, s)
    && WorkersOk(c, s)
    && ReportsOk(c, s)
    && NoSharing(s)
    && Accounted(s)
    && Scored(s)
  }

  ghost function TallyOf(jobs: seq<Job>): Tally {
    if jobs == [] then Tally(0, 0, 0, 0, 0)
    else Count(TallyOf(jobs[..|jobs| - 1]), jobs[|jobs| - 1])
  }

  lemma InitQueues(c: Config)
    ensures InOrder(c, Init()) && InputShape(c, Init()) && Scored(Init())
  {
    hide Total;
    TotalNone(TookBreak);
  }

  lemma InitPlaces(c: Config)
    ensures WorkersOk(c, Init()) && ReportsOk(c, Init()) && NoSharing(Init())
  {
    hide Total, Claimed, WorkerOk, Truthful, InHand;
  }

  lemma InitAccounted()
    ensures Accounted(Init())
  {
    hide Total, Claimed;
    TotalNone(Busy);
    InitClaimed();
  }

  lemma InitClaimed()
    ensures Claimed(Init()) == 0
  {
    hide Total;
    TotalNone(TookBreak);
  }

  lemma InitInv(c: Config)
    ensures Inv(c, Init())
  {
    hide InOrder, InputShape, WorkersOk, ReportsOk, NoSharing, Accounted, Scored;
    InitQueues(c);
    InitPlaces(c);
    InitAccounted();
  }

  /** How one event moves the totals. */
  lemma StepTotals(c: Config, s: State, e: Event)
    requires Enabled(c, s, e) && InputShape(c, s)
    requires e.Look? ==> WorkerOk(c, s, s.workers[e.w])
    ensures var s' := Next(c, s, e);
      && QueuedBreaks(s') == QueuedBreaks(s)
           + (if e.SendBreak? then 1 else if e.Get? && Unclaimed(s) == 0 then -1 else 0)
      && Unclaimed(s') == Unclaimed(s)
           + (if e.Dispatch? then 1 else if e.Get? && Unclaimed(s) > 0 then -1 else 0)
      && Claimed(s') == Claimed(s) + (if e.Get? && Unclaimed(s) > 0 then 1 else 0)
      && Total(s'.workers, Busy) == Total(s.workers, Busy)
           + (if e.Get? && Unclaimed(s) > 0 then 1 else if e.Put? then -1 else 0)
      && Total(s'.workers, TookBreak) == Total(s.workers, TookBreak)
           + (if e.Get? && Unclaimed(s) == 0 then 1 else 0)
      && Reported(s') == Reported(s) + (if e.Put? then [s.workers[e.w].job] else [])
  {
    hide Total, WorkerOk;
    var s' := Next(c, s, e);
    StepWorkerTotals(c, s, e);
    match e {
      case Get(w) => assert s.inQ[0].isBreak <==> Unclaimed(s) == 0;
      case Put(w) => assert Reported(s') == Reported(s) + [s.workers[w].job];
      case Collect => assert Reported(s') == Reported(s);
      case _ =>
    }
  }

  lemma StepWorkerTotals(c: Config, s: State, e: Event)
    requires Enabled(c, s, e)
    requires e.Look? ==> WorkerOk(c, s, s.workers[e.w])
    ensures var s' := Next(c, s, e);
      && Total(s'.workers, Busy) == Total(s.workers, Busy)
           + (if e.Get? && !s.inQ[0].isBreak then 1 else if e.Put? then -1 else 0)
      && Total(s'.workers, TookBreak) == Total(s.workers, TookBreak)
           + (if e.Get? && s.inQ[0].isBreak then 1 else 0)
  {
    hide Total, Genuine, Truthful;
    var s' := Next(c, s, e);
    if e.Get? || e.Look? || e.JobEnds? || e.Put? {
      TotalUpdate(s.workers, TookBreak, e.w, s'.workers[e.w]);
      TotalUpdate(s.workers, Busy, e.w, s'.workers[e.w]);
    } else if e.Spawn? {
      TotalAppend(s.workers, TookBreak, Waiting);
      TotalAppend(s.workers, Busy, Waiting);
    }
  }

  lemma StepInOrder(c: Config, s: State, e: Event)
    requires InOrder(c, s) && Enabled(c, s, e)
    ensures InOrder(c, Next(c, s, e))
  {
  }

  lemma StepInputShape(c: Config, s: State, e: Event)
    requires InOrder(c, s) && InputShape(c, s) && WorkersOk(c, s) && Enabled(c, s, e)
    ensures InputShape(c, Next(c, s, e))
  {
    hide Total, Reported, WorkerOk, QueuedBreaks, Unclaimed, Claimed;
    StepTotals(c, s, e);
    QueueSizes(s);
    QueueSizes(Next(c, s, e));
  }

  lemma QueueSizes(s: State)
    ensures |s.inQ| == Unclaimed(s) + QueuedBreaks(s) && s.dispatched == Unclaimed(s) + Claimed(s)
    ensures QueuedBreaks(s) == s.pills - Total(s.workers, TookBreak)
  {
  }

  /** Nothing recorded about job `id` differs. */
  ghost predicate SameRun(s: State, s': State, id: int) {
    (id in s.runs <==> id in s'.runs) && (id in s.runs ==> s.runs[id] == s'.runs[id])
  }

  /** Later in the schedule: more jobs claimed, the flag never cleared. */
  ghost predicate Later(s: State, s': State) {
    Claimed(s) <= Claimed(s') && (s.threadExit ==> s'.threadExit)
  }

  lemma StepLater(c: Config, s: State, e: Event)
    requires InputShape(c, s) && WorkersOk(c, s) && Enabled(c, s, e)
    ensures Later(s, Next(c, s, e))
    ensures forall id :: (e.JobEnds? ==> id != s.workers[e.w].job.id) ==> SameRun(s, Next(c, s, e), id)
  {
    hide Total, Unclaimed, Claimed, Reported, InputShape, Genuine;
    StepTotals(c, s, e);
  }

  lemma TruthfulKept(c: Config, s: State, s': State, job: Job)
    requires Truthful(c, s, job) && Later(s, s') && SameRun(s, s', job.id)
    ensures Truthful(c, s', job)
  {
    hide Claimed;
  }

  lemma WorkerOkKept(c: Config, s: State, s': State, w: Worker)
    requires WorkerOk(c, s, w) && Later(s, s') && (InHand(w) != -1 ==> SameRun(s, s', InHand(w)))
    ensures WorkerOk(c, s', w)
  {
    hide Claimed;
  }

  /** The worker that acts is in order afterwards. */
  lemma ActorOk(c: Config, s: State, e: Event)
    requires InputShape(c, s) && WorkersOk(c, s) && Accounted(s) && Enabled(c, s, e)
    requires e.Get? || e.Look? || e.JobEnds? || e.Put?
    ensures WorkerOk(c, Next(c, s, e), Next(c, s, e).workers[e.w])
  {
    hide Total, Unclaimed, Claimed, Reported, InputShape, Accounted;
    StepTotals(c, s, e);
    assert WorkerOk(c, s, s.workers[e.w]);
    if e.Get? { HeadOk(c, s); }
  }

  lemma HeadOk(c: Config, s: State)
    requires InputShape(c, s) && Accounted(s) && s.inQ != []
    ensures if Unclaimed(s) == 0 then s.inQ[0] == BREAK_JOB
            else Claimed(s) < |c.skip| && s.inQ[0] == FreshJob(c, Claimed(s)) && Claimed(s) !in s.runs
    ensures 0 <= Unclaimed(s) && 0 <= Claimed(s)
  {
    hide Total, Reported;
    assert Unclaimed(s) > 0 ==> s.inQ[0] == FreshJob(c, Claimed(s) + 0);
  }

  lemma StepWorkersOk(c: Config, s: State, e: Event)
    requires InputShape(c, s) && WorkersOk(c, s) && NoSharing(s) && Accounted(s) && Enabled(c, s, e)
    ensures WorkersOk(c, Next(c, s, e))
  {
    hide InputShape, Accounted, Later, SameRun, WorkerOk;
    var s' := Next(c, s, e);
    StepLater(c, s, e);
    if e.Get? || e.Look? || e.JobEnds? || e.Put? { ActorOk(c, s, e); }
    forall w | 0 <= w < |s'.workers| ensures WorkerOk(c, s', s'.workers[w]) {
      if w == |s.workers| {
        IdleOk(c, s');
      } else if s'.workers[w] == s.workers[w] {
        if e.JobEnds? { OtherHands(s, e.w, w); }
        WorkerOkKept(c, s, s', s.workers[w]);
      }
    }
  }

  lemma IdleOk(c: Config, s: State)
    ensures WorkerOk(c, s, Waiting)
  {
  }

  lemma OtherHands(s: State, v: nat, w: nat)
    requires NoSharing(s) && v < |s.workers| && w < |s.workers| && s.workers[v].Running?
    requires v != w
    ensures InHand(s.workers[w]) == -1 || InHand(s.workers[w]) != s.workers[v].job.id
  {
    hide Reported;
  }

  lemma RunnerUnreported(c: Config, s: State, w: nat, j: nat)
    requires WorkersOk(c, s) && NoSharing(s)
    requires w < |s.workers| && s.workers[w].Running? && j < |Reported(s)|
    ensures s.workers[w].job.id != Reported(s)[j].id
  {
    hide Claimed, Reported;
    assert WorkerOk(c, s, s.workers[w]);
    assert InHand(s.workers[w]) != Reported(s)[j].id;
  }

  lemma StepReportsOk(c: Config, s: State, e: Event)
    requires InputShape(c, s) && WorkersOk(c, s) && ReportsOk(c, s) && NoSharing(s) && Enabled(c, s, e)
    ensures ReportsOk(c, Next(c, s, e))
  {
    hide InputShape, Later, SameRun, Truthful, Genuine, Total, Claimed, Unclaimed, Reported;
    var s' := Next(c, s, e);
    StepTotals(c, s, e);
    StepLater(c, s, e);
    forall j | 0 <= j < |Reported(s')| ensures Truthful(c, s', Reported(s')[j]) {
      if j < |Reported(s)| {
        if e.JobEnds? { RunnerUnreported(c, s, e.w, j); }
        TruthfulKept(c, s, s', Reported(s)[j]);
      } else {
        assert WorkerOk(c, s, s.workers[e.w]);
        TruthfulKept(c, s, s', s.workers[e.w].job);
      }
    }
  }

  /** A newly claimed job is nowhere else yet. */
  lemma ClaimedIsNew(c: Config, s: State, w: nat)
    requires InputShape(c, s) && WorkersOk(c, s) && ReportsOk(c, s) && Enabled(c, s, Get(w)) && Unclaimed(s) > 0
    ensures s.inQ[0].id == Claimed(s)
    ensures forall v :: 0 <= v < |s.workers| ==> InHand(s.workers[v]) < Claimed(s)
    ensures forall j :: 0 <= j < |Reported(s)| ==> Reported(s)[j].id < Claimed(s)
  {
    hide Total, Reported;
    assert s.inQ[0] == FreshJob(c, Claimed(s) + 0);
    forall v | 0 <= v < |s.workers| ensures InHand(s.workers[v]) < Claimed(s) {
      assert WorkerOk(c, s, s.workers[v]);
    }
  }

  /** How one event moves the jobs in hand. */
  lemma StepInHand(c: Config, s: State, e: Event)
    requires InputShape(c, s) && WorkersOk(c, s) && Enabled(c, s, e)
    ensures var s' := Next(c, s, e);
      && |s.workers| <= |s'.workers|
      && (forall v :: |s.workers| <= v < |s'.workers| ==> InHand(s'.workers[v]) == -1)
      && (forall v :: 0 <= v < |s.workers| ==>
            InHand(s'.workers[v]) ==
              if e.Get? && v == e.w && Unclaimed(s) > 0 then s.inQ[0].id
              else if e.Put? && v == e.w then -1
              else InHand(s.workers[v]))
      && (e.Put? ==> InHand(s.workers[e.w]) == s.workers[e.w].job.id != -1)
  {
    hide Total;
    if e.Look? || e.Put? { assert WorkerOk(c, s, s.workers[e.w]); }
    if e.Get? && Unclaimed(s) > 0 { assert s.inQ[0] == FreshJob(c, Claimed(s) + 0); }
  }

  lemma StepNoSharing(c: Config, s: State, e: Event)
    requires InputShape(c, s) && WorkersOk(c, s) && ReportsOk(c, s) && NoSharing(s) && Enabled(c, s, e)
    ensures NoSharing(Next(c, s, e))
  {
    hide Total, Reported, WorkerOk, ReportsOk, InputShape, Claimed, Unclaimed, QueuedBreaks, InHand, Next;
    StepTotals(c, s, e);
    StepInHand(c, s, e);
    if e.Get? && Unclaimed(s) > 0 { ClaimedIsNew(c, s, e.w); }
  }

  lemma StepAccounted(c: Config, s: State, e: Event)
    requires InputShape(c, s) && WorkersOk(c, s) && Accounted(s) && Enabled(c, s, e)
    ensures Accounted(Next(c, s, e))
  {
    hide Total, Claimed, Unclaimed, Reported, InputShape, Truthful;
    StepTotals(c, s, e);
    assert e.JobEnds? ==> WorkerOk(c, s, s.workers[e.w]);
  }

  lemma StepScored(c: Config, s: State, e: Event)
    requires InOrder(c, s) && Scored(s) && Enabled(c, s, e)
    ensures Scored(Next(c, s, e))
  {
    var s' := Next(c, s, e);
    if e.Collect? { assert s'.collected[..|s'.collected| - 1] == s.collected; }
  }

  lemma StepInv(c: Config, s: State, e: Event)
    requires Inv(c, s) && Enabled(c, s, e)
    ensures Inv(c, Next(c, s, e))
  {
    hide InOrder, InputShape, WorkersOk, ReportsOk, NoSharing, Accounted, Scored, Next;
    StepInOrder(c, s, e);
    StepInputShape(c, s, e);
    StepWorkersOk(c, s, e);
    StepReportsOk(c, s, e);
    StepNoSharing(c, s, e);
    StepAccounted(c, s, e);
    StepScored(c, s, e);
  }

  // ---------- Schedules ----------

  /** Every event of the schedule is enabled when it happens. */
  ghost predicate Feasible(c: Config, es: seq<Event>)
    decreases |es|, 0
  {
    es != [] ==> var front := es[..|es| - 1]; Feasible(c, front) && Enabled(c, After(c, front), es[|es| - 1])
  }

  ghost function After(c: Config, es: seq<Event>): State
    requires Feasible(c, es)
    decreases |es|, 1
  {
    if es == [] then Init() else Next(c, After(c, es[..|es| - 1]), es[|es| - 1])
  }

  /** The invariant holds after every schedule. */
  lemma AlwaysInv(c: Config, es: seq<Event>)
    requires Feasible(c, es)
    ensures Inv(c, After(c, es))
  {
    hide Inv;
    if es == [] {
      InitInv(c);
    } else {
      AlwaysInv(c, es[..|es| - 1]);
      StepInv(c, After(c, es[..|es| - 1]), es[|es| - 1]);
    }
  }

  // ---------- Conservation ----------

  datatype Place = InputQueue(i: nat) | InWorker(w: nat) | OutputQueue(i: nat) | Collected(i: nat)

  ghost predicate IsAt(s: State, id: nat, p: Place) {
    match p
    case InputQueue(i) => i < |s.inQ| && s.inQ[i].id == id
    case InWorker(w) => w < |s.workers| && InHand(s.workers[w]) == id
    case OutputQueue(i) => i < |s.outQ| && s.outQ[i].id == id
    case Collected(i) => i < |s.collected| && s.collected[i].id == id
  }

  /** The numbers in hand, and the numbers reported. */
  ghost function HandIds(ws: seq<Worker>): set<int> {
    set w | 0 <= w < |ws| && InHand(ws[w]) != -1 :: InHand(ws[w])
  }

  ghost function JobIds(jobs: seq<Job>): set<int> {
    set j | 0 <= j < |jobs| :: jobs[j].id
  }

  lemma HandIdsSplit(ws: seq<Worker>)
    requires ws != []
    ensures var last := ws[|ws| - 1];
            HandIds(ws) == HandIds(ws[..|ws| - 1]) + if InHand(last) == -1 then {} else {InHand(last)}
  {
    hide InHand;
    var front := ws[..|ws| - 1];
    forall x | x in HandIds(ws) ensures x in HandIds(front) || x == InHand(ws[|ws| - 1]) {
      var w :| 0 <= w < |ws| && InHand(ws[w]) != -1 && InHand(ws[w]) == x;
      if w < |front| { assert front[w] == ws[w]; }
    }
    forall x | x in HandIds(front) ensures x in HandIds(ws) {
      var w :| 0 <= w < |front| && InHand(front[w]) != -1 && InHand(front[w]) == x;
      assert ws[w] == front[w];
    }
  }

  lemma HandIdsCount(ws: seq<Worker>)
    requires forall w :: 0 <= w < |ws| && Busy(ws[w]) == 1 ==> ws[w].job.id >= 0
    requires forall v, w :: 0 <= v < w < |ws| && InHand(ws[v]) != -1 ==> InHand(ws[v]) != InHand(ws[w])
    ensures |HandIds(ws)| == Total(ws, Busy)
  {
    if ws != [] {
      HandIdsCount(ws[..|ws| - 1]);
      HandIdsSplit(ws);
    }
  }

  lemma JobIdsCount(jobs: seq<Job>)
    requires forall i, j :: 0 <= i < j < |jobs| ==> jobs[i].id != jobs[j].id
    ensures |JobIds(jobs)| == |jobs|
  {
    if jobs == [] {
      assert JobIds(jobs) == {};
    } else {
      var front := jobs[..|jobs| - 1];
      JobIdsCount(front);
      assert JobIds(jobs) == JobIds(front) + {jobs[|jobs| - 1].id};
    }
  }

  ghost function Range(n: int): (r: set<int>)
    ensures forall i :: i in r <==> 0 <= i < n
    ensures n >= 0 ==> |r| == n
  {
    if n <= 0 then {} else Range(n - 1) + {n - 1}
  }

  /** Pigeonhole: the claimed jobs are those in hand and those reported. */
  lemma ClaimedIds(c: Config, s: State)
    requires Inv(c, s)
    ensures HandIds(s.workers) + JobIds(Reported(s)) == Range(Claimed(s))
  {
    hide Total, Claimed, Range, InOrder, InputShape, WorkersOk, Scored, Reported, InHand;
    var hands, reports, claimed := HandIds(s.workers), JobIds(Reported(s)), Range(Claimed(s));
    HandsClaimed(c, s);
    HandIdsCount(s.workers);
    JobIdsCount(Reported(s));
    assert hands !! reports;
    assert hands + reports <= claimed;
    SubsetFull(hands + reports, claimed);
  }

  lemma HandsClaimed(c: Config, s: State)
    requires WorkersOk(c, s)
    ensures forall w :: 0 <= w < |s.workers| && Busy(s.workers[w]) == 1 ==> 0 <= s.workers[w].job.id < Claimed(s)
    ensures forall w :: 0 <= w < |s.workers| && InHand(s.workers[w]) != -1 ==> 0 <= InHand(s.workers[w]) < Claimed(s)
  {
    hide Claimed;
    forall w | 0 <= w < |s.workers|
      ensures Busy(s.workers[w]) == 1 ==> 0 <= s.workers[w].job.id < Claimed(s)
    {
      assert WorkerOk(c, s, s.workers[w]);
    }
  }

  lemma SubsetFull(a: set<int>, b: set<int>)
    requires a <= b && |a| == |b|
    ensures a == b
  {
    assert b == a + (b - a);
    assert |b| == |a| + |b - a|;
  }

  lemma FindPlace(c: Config, s: State, id: nat) returns (p: Place)
    requires Inv(c, s) && id < s.dispatched
    ensures IsAt(s, id, p)
  {
    hide Inv, IsAt, Claimed, HandIds, JobIds;
    ClaimedIds(c, s);
    if id >= Claimed(s) {
      p := FindUnclaimed(c, s, id);
    } else {
      assert id in HandIds(s.workers) + JobIds(Reported(s));
      p := FindClaimed(s, id);
    }
  }

  lemma FindUnclaimed(c: Config, s: State, id: nat) returns (p: Place)
    requires Inv(c, s) && Claimed(s) <= id < s.dispatched
    ensures IsAt(s, id, p)
  {
    hide Total, WorkersOk, ReportsOk, NoSharing, Accounted, Scored;
    p := InputQueue(id - Claimed(s));
    assert s.inQ[p.i] == FreshJob(c, Claimed(s) + p.i);
  }

  lemma FindClaimed(s: State, id: nat) returns (p: Place)
    requires id in HandIds(s.workers) + JobIds(Reported(s))
    ensures IsAt(s, id, p)
  {
    hide InHand;
    if id in HandIds(s.workers) {
      var w :| 0 <= w < |s.workers| && InHand(s.workers[w]) == id;
      p := InWorker(w);
    } else {
      var j :| 0 <= j < |Reported(s)| && Reported(s)[j].id == id;
      p := if j < |s.collected| then Collected(j) else OutputQueue(j - |s.collected|);
    }
  }

  /** In every reachable state each dispatched job is in exactly one place. */
  lemma ExactlyOnePlace(c: Config, es: seq<Event>, id: nat)
    requires Feasible(c, es) && id < After(c, es).dispatched
    ensures var s := After(c, es);
            exists p :: IsAt(s, id, p) && forall q :: IsAt(s, id, q) ==> q == p
  {
    hide Inv, IsAt;
    AlwaysInv(c, es);
    var s := After(c, es);
    var p := FindPlace(c, s, id);
    forall q | IsAt(s, id, q) ensures q == p { PlacesAgree(c, s, id, p, q); }
  }

  lemma PlaceBelow(c: Config, s: State, id: nat, p: Place)
    requires Inv(c, s) && IsAt(s, id, p)
    ensures p.InputQueue? ==> id == Claimed(s) + p.i
    ensures !p.InputQueue? ==> id < Claimed(s)
    ensures p.Collected? ==> Reported(s)[p.i].id == id
    ensures p.OutputQueue? ==> Reported(s)[|s.collected| + p.i].id == id
  {
    hide Total;
    match p {
      case InWorker(w) => assert WorkerOk(c, s, s.workers[w]);
      case OutputQueue(i) => assert Truthful(c, s, Reported(s)[|s.collected| + i]);
      case Collected(i) => assert Truthful(c, s, Reported(s)[i]);
      case InputQueue(i) =>
    }
  }

  lemma PlacesAgree(c: Config, s: State, id: nat, p: Place, q: Place)
    requires Inv(c, s) && IsAt(s, id, p) && IsAt(s, id, q)
    ensures p == q
  {
    hide Total, Claimed, WorkersOk, ReportsOk, InputShape;
    PlaceBelow(c, s, id, p);
    PlaceBelow(c, s, id, q);
  }

  /** A job that an interrupt turned into a break is never where it could stop a
      worker: break jobs on the input queue or in a worker that has not looked
      yet are the main thread's own. */
  lemma InterruptedJobsStopNobody(c: Config, es: seq<Event>, job: Job)
    requires Feasible(c, es) && job.isBreak
    requires var s := After(c, es); job in s.inQ || Holding(job) in s.workers
    ensures job == BREAK_JOB
  {
    AlwaysInv(c, es);
    var s := After(c, es);
    if Holding(job) in s.workers {
      var w :| 0 <= w < |s.workers| && s.workers[w] == Holding(job);
      assert WorkerOk(c, s, s.workers[w]);
    }
  }

  /** FIFO: once some worker has taken a break job, no dispatched job is waiting. */
  lemma NobodyLeavesEarly(c: Config, es: seq<Event>, w: nat, j: nat)
    requires Feasible(c, es) && w < |After(c, es).workers| && j < |After(c, es).inQ|
    requires TookBreak(After(c, es).workers[w]) == 1
    ensures After(c, es).inQ[j] == BREAK_JOB
  {
    AlwaysInv(c, es);
    TotalMember(After(c, es).workers, TookBreak, w);
  }

  // ---------- The interrupt ----------

  ghost predicate AtWork(w: Worker) { w.Running? || (w.Reporting? && !w.job.isBreak) }

  /** Some worker has accepted job `id`, to run it or to skip it. */
  ghost predicate Accepted(s: State, id: int) {
    || (exists j :: 0 <= j < |Reported(s)| && !Reported(s)[j].isBreak && Reported(s)[j].id == id)
    || (exists w :: 0 <= w < |s.workers| && AtWork(s.workers[w]) && s.workers[w].job.id == id)
  }

  lemma StepAccepted(c: Config, s: State, e: Event, id: int)
    requires Enabled(c, s, e) && s.threadExit && Accepted(Next(c, s, e), id)
    ensures Accepted(s, id)
  {
    var s' := Next(c, s, e);
    if j :| 0 <= j < |Reported(s')| && !Reported(s')[j].isBreak && Reported(s')[j].id == id {
      if j < |Reported(s)| {
        assert Reported(s)[j] == Reported(s')[j];
      } else {
        assert AtWork(s.workers[e.w]) && s.workers[e.w].job.id == id;
      }
    } else {
      var w :| 0 <= w < |s'.workers| && AtWork(s'.workers[w]) && s'.workers[w].job.id == id;
      assert AtWork(s.workers[w]) && s.workers[w].job.id == id;
    }
  }

  /** After an interrupt, in any continuation, no worker accepts another job: what
      is reported without a break then had been accepted before. */
  lemma {:induction false} InterruptStopsTheRest(c: Config, es: seq<Event>, rest: seq<Event>, id: int)
    requires Feasible(c, es) && Feasible(c, es + rest) && Interrupt in es
    ensures Accepted(After(c, es + rest), id) ==> Accepted(After(c, es), id)
    decreases |rest|
  {
    hide Enabled, Accepted;
    if rest == [] {
      assert es + rest == es;
    } else {
      var front, e := rest[..|rest| - 1], rest[|rest| - 1];
      assert (es + rest)[..|es + rest| - 1] == es + front;
      InterruptStopsTheRest(c, es, front, id);
      FlagIsInterrupt(c, es + front);
      var s := After(c, es + front);
      if Accepted(Next(c, s, e), id) { StepAccepted(c, s, e, id); }
    }
  }

  /** The flag says whether there has been an interrupt. */
  lemma {:induction false} FlagIsInterrupt(c: Config, es: seq<Event>)
    requires Feasible(c, es)
    ensures After(c, es).threadExit <==> Interrupt in es
  {
    if es != [] {
      FlagIsInterrupt(c, es[..|es| - 1]);
      assert es == es[..|es| - 1] + [es[|es| - 1]];
    }
  }

  // ---------- The history of a job ----------

  lemma {:induction false} PrefixFeasible(c: Config, es: seq<Event>, i: nat)
    requires Feasible(c, es) && i <= |es|
    ensures Feasible(c, es[..i])
    decreases |es|
  {
    hide Enabled;
    if i == |es| {
      assert es[..i] == es;
    } else {
      PrefixFeasible(c, es[..|es| - 1], i);
      assert es[..|es| - 1][..i] == es[..i];
    }
  }

  /** The state in which event i happens. */
  ghost function Before(c: Config, es: seq<Event>, i: nat): State
    requires Feasible(c, es) && i <= |es|
  {
    PrefixFeasible(c, es, i);
    After(c, es[..i])
  }

  /** In state s, event e is the end of the process of job `id`, with return code rc. */
  ghost predicate EndsNow(s: State, e: Event, id: int, rc: int) {
    && e.JobEnds? && e.returncode == rc
    && e.w < |s.workers| && s.workers[e.w].Running? && s.workers[e.w].job.id == id
  }

  /** In state s, event e is a worker's first look at the dispatched job `id`. */
  ghost predicate LooksNow(s: State, e: Event, id: int) {
    && e.Look? && e.w < |s.workers| && s.workers[e.w].Holding?
    && !s.workers[e.w].job.isBreak && s.workers[e.w].job.id == id
  }

  /** The process of job `id` has ended, with return code rc. */
  ghost predicate Returned(c: Config, es: seq<Event>, id: int, rc: int)
    requires Feasible(c, es)
  {
    exists i :: 0 <= i < |es| && EndsNow(Before(c, es, i), es[i], id, rc)
  }

  /** Job `id` was first looked at after an interrupt. */
  ghost predicate TurnedAway(c: Config, es: seq<Event>, id: int)
    requires Feasible(c, es)
  {
    exists i :: 0 <= i < |es| && Interrupt in es[..i] && LooksNow(Before(c, es, i), es[i], id)
  }

  lemma BeforeSame(c: Config, es: seq<Event>, i: nat)
    requires Feasible(c, es) && es != [] && i < |es|
    ensures Feasible(c, es[..|es| - 1])
    ensures Before(c, es, i) == Before(c, es[..|es| - 1], i) && es[..|es| - 1][..i] == es[..i]
    ensures Before(c, es, |es| - 1) == After(c, es[..|es| - 1])
  {
    hide Enabled, Next;
    PrefixFeasible(c, es[..|es| - 1], i);
    assert es[..|es| - 1][..i] == es[..i];
  }

  lemma ReturnedStep(c: Config, es: seq<Event>, id: int, rc: int)
    requires Feasible(c, es) && es != []
    ensures var front := es[..|es| - 1];
      && Feasible(c, front)
      && (Returned(c, es, id, rc) <==>
            Returned(c, front, id, rc) || EndsNow(After(c, front), es[|es| - 1], id, rc))
  {
    hide Before, After, EndsNow, Feasible;
    var front := es[..|es| - 1];
    BeforeSame(c, es, |es| - 1);
    forall i | 0 <= i < |front| ensures Before(c, es, i) == Before(c, front, i) && es[i] == front[i] {
      BeforeSame(c, es, i);
    }
    if i :| 0 <= i < |front| && EndsNow(Before(c, front, i), front[i], id, rc) {
      assert EndsNow(Before(c, es, i), es[i], id, rc);
    }
  }

  lemma TurnedAwayStep(c: Config, es: seq<Event>, id: int)
    requires Feasible(c, es) && es != []
    ensures var front := es[..|es| - 1];
      && Feasible(c, front)
      && (TurnedAway(c, es, id) <==>
            TurnedAway(c, front, id) || (Interrupt in front && LooksNow(After(c, front), es[|es| - 1], id)))
  {
    hide Before, After, LooksNow, Feasible;
    var front := es[..|es| - 1];
    BeforeSame(c, es, |es| - 1);
    forall i | 0 <= i < |front|
      ensures Before(c, es, i) == Before(c, front, i) && es[i] == front[i] && es[..i] == front[..i]
    {
      BeforeSame(c, es, i);
    }
    if i :| 0 <= i < |front| && Interrupt in front[..i] && LooksNow(Before(c, front, i), front[i], id) {
      assert Interrupt in es[..i] && LooksNow(Before(c, es, i), es[i], id);
    }
  }

  /** The recorded return codes are those with which the processes ended. */
  lemma {:induction false} RunsAreTheEvents(c: Config, es: seq<Event>, id: int, rc: int)
    requires Feasible(c, es)
    ensures id in After(c, es).runs && After(c, es).runs[id] == rc <==> Returned(c, es, id, rc)
  {
    hide Inv, Returned, EndsNow, Enabled;
    if es == [] {
      NothingReturned(c, id, rc);
    } else {
      var front, e := es[..|es| - 1], es[|es| - 1];
      ReturnedStep(c, es, id, rc);
      RunsAreTheEvents(c, front, id, rc);
      AlwaysInv(c, front);
      StepRuns(c, After(c, front), e, id, rc);
    }
  }

  lemma NothingReturned(c: Config, id: int, rc: int)
    ensures !Returned(c, [], id, rc) && !TurnedAway(c, [], id)
  {
  }

  lemma StepRuns(c: Config, s: State, e: Event, id: int, rc: int)
    requires Inv(c, s) && Enabled(c, s, e)
    ensures var s' := Next(c, s, e);
      id in s'.runs && s'.runs[id] == rc <==> (id in s.runs && s.runs[id] == rc) || EndsNow(s, e, id, rc)
  {
    hide InOrder, InputShape, ReportsOk, NoSharing, Accounted, Scored, Genuine, Truthful;
    if e.JobEnds? { assert WorkerOk(c, s, s.workers[e.w]); }
  }

  /** Job `id` has been given back, or is about to be, as a break. */
  ghost predicate HandedBack(s: State, id: int) {
    || (exists j :: 0 <= j < |Reported(s)| && Reported(s)[j].isBreak && Reported(s)[j].id == id)
    || (exists w :: 0 <= w < |s.workers| && s.workers[w].Reporting? && s.workers[w].job.isBreak && s.workers[w].job.id == id)
  }

  lemma StepHandedBack(c: Config, s: State, e: Event, id: int)
    requires WorkersOk(c, s) && Enabled(c, s, e)
    ensures HandedBack(Next(c, s, e), id) <==> HandedBack(s, id) || (s.threadExit && LooksNow(s, e, id))
  {
    hide Genuine, Truthful, HandedBack;
    if e.JobEnds? { assert WorkerOk(c, s, s.workers[e.w]); }
    if HandedBack(s, id) { StaysHandedBack(c, s, e, id); }
    if s.threadExit && LooksNow(s, e, id) { NowHandedBack(c, s, e, id); }
    if HandedBack(Next(c, s, e), id) { WasHandedBack(c, s, e, id); }
  }

  lemma StaysHandedBack(c: Config, s: State, e: Event, id: int)
    requires Enabled(c, s, e) && HandedBack(s, id)
    ensures HandedBack(Next(c, s, e), id)
  {
    var s' := Next(c, s, e);
    if j :| 0 <= j < |Reported(s)| && Reported(s)[j].isBreak && Reported(s)[j].id == id {
      assert Reported(s')[j] == Reported(s)[j];
    } else {
      var w :| 0 <= w < |s.workers| && s.workers[w].Reporting? && s.workers[w].job.isBreak && s.workers[w].job.id == id;
      if e == Put(w) {
        assert Reported(s')[|Reported(s)|] == s.workers[w].job;
      } else {
        assert s'.workers[w] == s.workers[w];
      }
    }
  }

  lemma NowHandedBack(c: Config, s: State, e: Event, id: int)
    requires Enabled(c, s, e) && s.threadExit && LooksNow(s, e, id)
    ensures HandedBack(Next(c, s, e), id)
  {
    var s' := Next(c, s, e);
    assert s'.workers[e.w] == Reporting(s.workers[e.w].job.(isBreak := true));
  }

  lemma WasHandedBack(c: Config, s: State, e: Event, id: int)
    requires Enabled(c, s, e) && HandedBack(Next(c, s, e), id)
    requires e.JobEnds? ==> !s.workers[e.w].job.isBreak
    requires e.Look? ==> WorkerOk(c, s, s.workers[e.w])
    ensures HandedBack(s, id) || (s.threadExit && LooksNow(s, e, id))
  {
    hide Genuine, Truthful;
    var s' := Next(c, s, e);
    if j :| 0 <= j < |Reported(s')| && Reported(s')[j].isBreak && Reported(s')[j].id == id {
      if j < |Reported(s)| {
        assert Reported(s)[j] == Reported(s')[j];
      } else {
        assert s.workers[e.w].Reporting? && s.workers[e.w].job.isBreak && s.workers[e.w].job.id == id;
      }
    } else {
      var w :| 0 <= w < |s'.workers| && s'.workers[w].Reporting? && s'.workers[w].job.isBreak && s'.workers[w].job.id == id;
      if !(e.Look? && w == e.w) {
        assert s.workers[w] == s'.workers[w];
      }
    }
  }

  /** A job comes back as a break exactly when it was first looked at after an interrupt. */
  lemma {:induction false} HandedBackIff(c: Config, es: seq<Event>, id: int)
    requires Feasible(c, es)
    ensures HandedBack(After(c, es), id) <==> TurnedAway(c, es, id)
  {
    hide InOrder, InputShape, WorkersOk, ReportsOk, NoSharing, Accounted, Scored, HandedBack, TurnedAway, LooksNow, Enabled;
    if es == [] {
      NothingReturned(c, id, 0);
      NothingHandedBack(id);
    } else {
      var front, e := es[..|es| - 1], es[|es| - 1];
      TurnedAwayStep(c, es, id);
      HandedBackIff(c, front, id);
      AlwaysInv(c, front);
      FlagIsInterrupt(c, front);
      StepHandedBack(c, After(c, front), e, id);
    }
  }

  lemma NothingHandedBack(id: int)
    ensures !HandedBack(Init(), id)
  {
  }

  // ---------- Termination ----------

  /** What is left to do; every event but an interrupt lowers it. */
  ghost function Measure(c: Config, s: State): int {
    (c.processors - |s.workers|) + 6 * (|c.skip| - s.dispatched) + 6 * (c.processors - s.pills)
    + 5 * |s.inQ| + Total(s.workers, Effort) + |s.outQ|
    + (c.processors - s.joined) + (if s.status.Pending? then 1 else 0)
  }

  lemma StepMeasure(c: Config, s: State, e: Event)
    requires Enabled(c, s, e)
    ensures e.Interrupt? ==> Measure(c, Next(c, s, e)) == Measure(c, s)
    ensures !e.Interrupt? ==> Measure(c, Next(c, s, e)) < Measure(c, s)
  {
    hide Total;
    var s' := Next(c, s, e);
    if e.Get? || e.Look? || e.JobEnds? || e.Put? {
      TotalUpdate(s.workers, Effort, e.w, s'.workers[e.w]);
    } else if e.Spawn? {
      TotalAppend(s.workers, Effort, Waiting);
    }
  }

  ghost function Actions(es: seq<Event>): nat {
    if es == [] then 0 else Actions(es[..|es| - 1]) + if es[|es| - 1].Interrupt? then 0 else 1
  }

  /** Whatever the interleaving and the interrupts, the pool takes at most
      8 * processors + 6 * jobs + 1 actions. */
  lemma BoundedActions(c: Config, es: seq<Event>)
    requires Feasible(c, es)
    ensures Actions(es) + Measure(c, After(c, es)) <= 8 * c.processors + 6 * |c.skip| + 1
    ensures Measure(c, After(c, es)) >= 0
  {
    hide Inv;
    if es != [] {
      var front := es[..|es| - 1];
      BoundedActions(c, front);
      StepMeasure(c, After(c, front), es[|es| - 1]);
    }
    AlwaysInv(c, es);
    MeasureNatural(c, After(c, es));
  }

  lemma MeasureNatural(c: Config, s: State)
    requires Inv(c, s)
    ensures Measure(c, s) >= 0
  {
  }

  // ---------- Deadlock freedom ----------

  /** Some thread of the program, not just a signal, can act. */
  ghost predicate CanAct(c: Config, s: State) {
    exists e: Event :: !e.Interrupt? && Enabled(c, s, e)
  }

  lemma BusyCanAct(c: Config, s: State)
    requires Total(s.workers, Busy) > 0
    ensures CanAct(c, s)
  {
    TotalPositive(s.workers, Busy);
    var w :| 0 <= w < |s.workers| && Busy(s.workers[w]) > 0;
    match s.workers[w] {
      case Holding(_) => assert Enabled(c, s, Look(w));
      case Running(_) => assert Enabled(c, s, JobEnds(w, 0));
      case Reporting(_) => assert Enabled(c, s, Put(w));
    }
  }

  /** Any worker that has not left can act as soon as the input queue is not empty. */
  lemma PresentCanAct(c: Config, s: State, w: nat)
    requires w < |s.workers| && !s.workers[w].Exited? && s.inQ != []
    ensures CanAct(c, s)
  {
    match s.workers[w] {
      case Waiting => assert Enabled(c, s, Get(w));
      case Holding(_) => assert Enabled(c, s, Look(w));
      case Running(_) => assert Enabled(c, s, JobEnds(w, 0));
      case Reporting(_) => assert Enabled(c, s, Put(w));
    }
  }

  /** Waiting for a result: some job is on its way and someone can move it. */
  lemma CollectingCanAct(c: Config, s: State)
    requires Inv(c, s) && c.processors > 0 && AllDispatched(c, s)
    requires |s.collected| < |c.skip| && s.outQ == []
    ensures CanAct(c, s)
  {
    hide Total, WorkersOk, ReportsOk, NoSharing, Scored, CanAct;
    if Total(s.workers, Busy) > 0 {
      BusyCanAct(c, s);
    } else {
      assert Unclaimed(s) > 0;
      if s.workers[0].Exited? { TotalMember(s.workers, TookBreak, 0); }
      PresentCanAct(c, s, 0);
    }
  }

  /** Waiting to join a worker: it can act, or a break job is waiting for it. */
  lemma JoiningCanAct(c: Config, s: State)
    requires Inv(c, s) && AllDispatched(c, s) && s.pills == c.processors
    requires s.joined < c.processors && !s.workers[s.joined].Exited?
    ensures CanAct(c, s)
  {
    hide Total, WorkersOk, ReportsOk, NoSharing, Accounted, Scored;
    var w := s.joined;
    if s.workers[w].Waiting? {
      TotalFull(s.workers, TookBreak, w);
      assert QueuedBreaks(s) > 0;
      PresentCanAct(c, s, w);
    } else {
      match s.workers[w] {
        case Holding(_) => assert Enabled(c, s, Look(w));
        case Running(_) => assert Enabled(c, s, JobEnds(w, 0));
        case Reporting(_) => assert Enabled(c, s, Put(w));
      }
    }
  }

  /** With a worker, or without jobs, an unfinished pool is never stuck. */
  lemma NeverStuck(c: Config, es: seq<Event>)
    requires Feasible(c, es) && (c.processors > 0 || c.skip == [])
    requires After(c, es).status.Pending?
    ensures CanAct(c, After(c, es))
  {
    hide Inv, CanAct;
    AlwaysInv(c, es);
    PendingCanAct(c, After(c, es));
  }

  lemma PendingCanAct(c: Config, s: State)
    requires Inv(c, s) && (c.processors > 0 || c.skip == []) && s.status.Pending?
    ensures CanAct(c, s)
  {
    hide InputShape, WorkersOk, ReportsOk, NoSharing, Accounted, Scored;
    if |s.workers| < c.processors { assert Enabled(c, s, Spawn); }
    else if s.dispatched < |c.skip| { assert Enabled(c, s, Dispatch); }
    else if s.pills < c.processors { assert Enabled(c, s, SendBreak); }
    else if |s.collected| < |c.skip| {
      if s.outQ != [] { assert Enabled(c, s, Collect); } else { CollectingCanAct(c, s); }
    }
    else if s.joined < c.processors {
      if s.workers[s.joined].Exited? { assert Enabled(c, s, Join); } else { JoiningCanAct(c, s); }
    }
    else { assert Enabled(c, s, Finish); }
  }

  /** From wherever a schedule has got to, the program's own threads can run it
      to its exit status. */
  lemma CanBeFinished(c: Config, es: seq<Event>) returns (rest: seq<Event>)
    requires Feasible(c, es) && (c.processors > 0 || c.skip == [])
    ensures Feasible(c, es + rest) && After(c, es + rest).status.Status?
    ensures forall i :: 0 <= i < |rest| ==> !rest[i].Interrupt?
    decreases 8 * c.processors + 6 * |c.skip| + 1 - Actions(es)
  {
    hide Enabled, Next, Measure;
    rest := [];
    assert es + rest == es;
    if After(c, es).status.Pending? {
      NeverStuck(c, es);
      var e: Event :| !e.Interrupt? && Enabled(c, After(c, es), e);
      assert (es + [e])[..|es|] == es;
      BoundedActions(c, es + [e]);
      var more := CanBeFinished(c, es + [e]);
      rest := [e] + more;
      assert es + rest == es + [e] + more;
    }
  }

  /** Without a worker the pool dispatches its jobs and waits forever. */
  lemma StuckWithoutWorkers(c: Config) returns (es: seq<Event>)
    requires c.processors == 0 && c.skip != []
    ensures Feasible(c, es) && After(c, es).status.Pending? && !CanAct(c, After(c, es))
  {
    es := DispatchSome(c, |c.skip|);
  }

  lemma DispatchSome(c: Config, n: nat) returns (es: seq<Event>)
    requires c.processors == 0 && n <= |c.skip|
    ensures Feasible(c, es)
    ensures var s := After(c, es);
            s.workers == [] && s.dispatched == n && s.outQ == [] && s.collected == [] && s.status.Pending?
  {
    if n == 0 {
      es := [];
    } else {
      var front := DispatchSome(c, n - 1);
      es := front + [Dispatch];
      assert es[..|es| - 1] == front;
    }
  }

  /** The pool is free of deadlock exactly when there is a worker or no job. */
  lemma DeadlockFreeIff(c: Config)
    ensures (forall es :: Feasible(c, es) && After(c, es).status.Pending? ==> CanAct(c, After(c, es))) <==>
            c.processors > 0 || c.skip == []
  {
    if c.processors > 0 || c.skip == [] {
      forall es | Feasible(c, es) && After(c, es).status.Pending? ensures CanAct(c, After(c, es)) {
        NeverStuck(c, es);
      }
    } else {
      var es := StuckWithoutWorkers(c);
    }
  }

  /** When it is over, each worker has taken exactly one break job and left, and
      nothing is queued anywhere. */
  lemma CleanFinish(c: Config, es: seq<Event>)
    requires Feasible(c, es) && After(c, es).status.Status?
    ensures var s := After(c, es);
      && |s.workers| == c.processors && (forall w :: 0 <= w < |s.workers| ==> s.workers[w].Exited?)
      && s.inQ == [] && s.outQ == [] && |s.collected| == |c.skip|
  {
    hide Inv;
    AlwaysInv(c, es);
    FinishedIsClean(c, After(c, es));
  }

  lemma FinishedIsClean(c: Config, s: State)
    requires Inv(c, s) && s.status.Status?
    ensures |s.workers| == c.processors && (forall w :: 0 <= w < |s.workers| ==> s.workers[w].Exited?)
    ensures s.inQ == [] && s.outQ == [] && |s.collected| == |c.skip|
    ensures Claimed(s) == s.dispatched == |c.skip|
  {
    hide Total, WorkersOk, ReportsOk, NoSharing, Scored;
    AllExited(s.workers);
  }

  lemma AllExited(ws: seq<Worker>)
    requires forall w :: 0 <= w < |ws| ==> ws[w].Exited?
    ensures Total(ws, TookBreak) == |ws| && Total(ws, Busy) == 0
  {
    if ws != [] { AllExited(ws[..|ws| - 1]); }
  }

  // ---------- The exit status ----------

  ghost function Interrupted(jobs: seq<Job>): nat {
    if jobs == [] then 0 else Interrupted(jobs[..|jobs| - 1]) + if jobs[|jobs| - 1].isBreak then 1 else 0
  }

  /** The job counts as a success: skipped, or run to return code 0. */
  predicate Good(job: Job) {
    !job.isBreak && (job.isSkip || job.returncode == 0)
  }

  lemma CountOne(t: Tally, job: Job)
    ensures var t' := Count(t, job);
      && t'.passed + t'.failed + t'.valgrind + t'.crashed + t'.skipped
           == t.passed + t.failed + t.valgrind + t.crashed + t.skipped + (if job.isBreak then 0 else 1)
      && t'.passed + t'.skipped == t.passed + t.skipped + (if Good(job) then 1 else 0)
  {
  }

  lemma {:induction false} TallyAddsUp(jobs: seq<Job>)
    ensures var t := TallyOf(jobs);
      && t.passed + t.failed + t.valgrind + t.crashed + t.skipped + Interrupted(jobs) == |jobs|
      && t.passed + t.skipped <= |jobs|
      && (t.passed + t.skipped == |jobs| <==> forall j :: 0 <= j < |jobs| ==> Good(jobs[j]))
  {
    hide Good, Count;
    if jobs != [] {
      var front, job := jobs[..|jobs| - 1], jobs[|jobs| - 1];
      TallyAddsUp(front);
      CountOne(TallyOf(front), job);
      assert jobs == front + [job];
    }
  }

  /** In every reachable state the five counters account for the collected jobs
      that were not interrupted. */
  lemma CountersAddUp(c: Config, es: seq<Event>)
    requires Feasible(c, es)
    ensures var s := After(c, es);
      s.tally.passed + s.tally.failed + s.tally.valgrind + s.tally.crashed + s.tally.skipped
        == |s.collected| - Interrupted(s.collected)
  {
    AlwaysInv(c, es);
    TallyAddsUp(After(c, es).collected);
  }

  ghost function HowMany(jobs: seq<Job>, p: Job -> bool): nat {
    if jobs == [] then 0 else HowMany(jobs[..|jobs| - 1], p) + if p(jobs[|jobs| - 1]) then 1 else 0
  }

  predicate Skipped(job: Job) { !job.isBreak && job.isSkip }
  predicate Ran(job: Job) { !job.isBreak && !job.isSkip }
  predicate Passed(job: Job) { Ran(job) && job.returncode == 0 }
  predicate Failed(job: Job) { Ran(job) && job.returncode == 1 }
  predicate ValgrindError(job: Job) { Ran(job) && job.returncode == 2 }
  predicate Crashed(job: Job) { Ran(job) && job.returncode !in {0, 1, 2} }

  ghost function Census(jobs: seq<Job>): Tally {
    Tally(HowMany(jobs, Passed), HowMany(jobs, Failed), HowMany(jobs, ValgrindError), HowMany(jobs, Crashed),
          HowMany(jobs, Skipped))
  }

  lemma {:induction false} TallyIsCensus(jobs: seq<Job>)
    ensures TallyOf(jobs) == Census(jobs)
  {
    if jobs != [] { TallyIsCensus(jobs[..|jobs| - 1]); }
  }

  /** The job says what the schedule did to it: a break if it was first looked at
      after an interrupt, skipped if it was to be, and otherwise run to its code. */
  ghost predicate TellsItsStory(c: Config, es: seq<Event>, job: Job)
    requires Feasible(c, es)
  {
    && 0 <= job.id < |c.skip|
    && (job.isBreak <==> TurnedAway(c, es, job.id))
    && (!job.isBreak ==> job.isSkip == c.skip[job.id])
    && (Ran(job) ==> Returned(c, es, job.id, job.returncode))
  }

  /** In every reachable state each counter is the number of collected jobs of its
      kind, and every collected job tells what the schedule did to it. */
  lemma CountersAreExact(c: Config, es: seq<Event>)
    requires Feasible(c, es)
    ensures var s := After(c, es);
      && s.tally == Census(s.collected)
      && forall j :: 0 <= j < |s.collected| ==> TellsItsStory(c, es, s.collected[j])
  {
    hide Inv, TallyOf, Census, TellsItsStory;
    AlwaysInv(c, es);
    var s := After(c, es);
    InvScored(c, s);
    TallyIsCensus(s.collected);
    forall j | 0 <= j < |s.collected| ensures TellsItsStory(c, es, s.collected[j]) {
      CollectedTells(c, es, j);
    }
  }

  lemma InvScored(c: Config, s: State)
    requires Inv(c, s)
    ensures s.tally == TallyOf(s.collected)
  {
    hide InOrder, InputShape, WorkersOk, ReportsOk, NoSharing, Accounted, TallyOf;
  }

  lemma CollectedTells(c: Config, es: seq<Event>, j: nat)
    requires Feasible(c, es) && j < |After(c, es).collected|
    ensures TellsItsStory(c, es, After(c, es).collected[j])
  {
    hide Inv, After, Feasible, Returned, TurnedAway, HandedBack;
    var s := After(c, es);
    var job := s.collected[j];
    AlwaysInv(c, es);
    CollectedIsTruthful(c, s, j);
    HandedBackIff(c, es, job.id);
    if Ran(job) { RunsAreTheEvents(c, es, job.id, job.returncode); }
  }

  /** No other copy of a collected job says otherwise. */
  lemma CollectedIsTruthful(c: Config, s: State, j: nat)
    requires Inv(c, s) && j < |s.collected|
    ensures Truthful(c, s, s.collected[j])
    ensures s.collected[j].isBreak <==> HandedBack(s, s.collected[j].id)
  {
    hide Total, Claimed, InOrder, InputShape, Accounted, Scored;
    var job := s.collected[j];
    assert Reported(s)[j] == job;
    forall w | 0 <= w < |s.workers| && s.workers[w].Reporting? ensures s.workers[w].job.id != job.id {
      assert WorkerOk(c, s, s.workers[w]);
      assert InHand(s.workers[w]) != Reported(s)[j].id;
    }
  }

  /** What the exit status is about: the job was not turned away by an interrupt,
      and it was to be skipped or its process has ended with return code 0. */
  ghost predicate Succeeded(c: Config, es: seq<Event>, id: nat)
    requires Feasible(c, es) && id < |c.skip|
  {
    !TurnedAway(c, es, id) && (c.skip[id] || Returned(c, es, id, 0))
  }

  /** The exit status is 0 exactly when every dispatched job succeeded. */
  lemma ExitStatusIsHonest(c: Config, es: seq<Event>)
    requires Feasible(c, es) && After(c, es).status.Status?
    ensures After(c, es).status.code == 0 <==> forall id: nat :: id < |c.skip| ==> Succeeded(c, es, id)
  {
    hide Inv, Succeeded, Good, After, Feasible;
    AlwaysInv(c, es);
    var s := After(c, es);
    FinishedScore(c, s);
    forall j | 0 <= j < |s.collected|
      ensures 0 <= s.collected[j].id < |c.skip| && (Good(s.collected[j]) <==> Succeeded(c, es, s.collected[j].id))
    {
      GoodIsSuccess(c, es, j);
    }
    SuccessForAll(c, es, s.collected);
  }

  lemma FinishedScore(c: Config, s: State)
    requires Inv(c, s) && s.status.Status?
    ensures s.status.code == 0 <==> forall j :: 0 <= j < |s.collected| ==> Good(s.collected[j])
    ensures JobIds(s.collected) == Range(|c.skip|)
  {
    hide InOrder, InputShape, WorkersOk, ReportsOk, NoSharing, Accounted, Good, Claimed, TallyOf;
    FinishedIsClean(c, s);
    TallyAddsUp(s.collected);
    assert Reported(s) == s.collected;
    ClaimedIds(c, s);
    assert HandIds(s.workers) == {};
  }

  /** Every collected job is good exactly when every dispatched job succeeded. */
  lemma SuccessForAll(c: Config, es: seq<Event>, jobs: seq<Job>)
    requires Feasible(c, es) && JobIds(jobs) == Range(|c.skip|)
    requires forall j :: 0 <= j < |jobs| ==>
               0 <= jobs[j].id < |c.skip| && (Good(jobs[j]) <==> Succeeded(c, es, jobs[j].id))
    ensures (forall j :: 0 <= j < |jobs| ==> Good(jobs[j])) <==>
            (forall id: nat :: id < |c.skip| ==> Succeeded(c, es, id))
  {
    hide Good, Succeeded, Feasible;
    if forall j :: 0 <= j < |jobs| ==> Good(jobs[j]) {
      forall id: nat | id < |c.skip| ensures Succeeded(c, es, id) {
        assert id in Range(|c.skip|);
        var j :| 0 <= j < |jobs| && jobs[j].id == id;
        assert Good(jobs[j]);
      }
    }
  }

  lemma GoodIsSuccess(c: Config, es: seq<Event>, j: nat)
    requires Feasible(c, es) && j < |After(c, es).collected|
    ensures var job := After(c, es).collected[j];
      0 <= job.id < |c.skip| && (Good(job) <==> Succeeded(c, es, job.id))
  {
    hide Inv, After, Feasible, Returned, TurnedAway, HandedBack;
    var s := After(c, es);
    var job := s.collected[j];
    AlwaysInv(c, es);
    CollectedIsTruthful(c, s, j);
    HandedBackIff(c, es, job.id);
    RunsAreTheEvents(c, es, job.id, 0);
  }

  // ---------- The world is free ----------

  /** An interrupt can come at any moment and a process can end with any code. */
  lemma WorldIsFree(c: Config, es: seq<Event>, w: nat, rc: int)
    requires Feasible(c, es)
    ensures Feasible(c, es + [Interrupt])
    ensures w < |After(c, es).workers| && After(c, es).workers[w].Running? ==> Feasible(c, es + [JobEnds(w, rc)])
  {
    assert (es + [Interrupt])[..|es|] == es && (es + [JobEnds(w, rc)])[..|es|] == es;
  }

  predicate ActsAs(e: Event, w: nat) {
    (e.Get? || e.Look? || e.JobEnds? || e.Put?) && e.w == w
  }

  /** A worker that has not left waits for nothing but a job on the input queue. */
  lemma WorkersWaitForJobsOnly(c: Config, es: seq<Event>, w: nat)
    requires Feasible(c, es) && w < |After(c, es).workers| && !After(c, es).workers[w].Exited?
    ensures (exists e :: ActsAs(e, w) && Enabled(c, After(c, es), e)) <==>
            !(After(c, es).workers[w].Waiting? && After(c, es).inQ == [])
  {
    hide Feasible, After;
    var s := After(c, es);
    match s.workers[w] {
      case Waiting => if s.inQ != [] { assert ActsAs(Get(w), w) && Enabled(c, s, Get(w)); }
      case Holding(_) => assert ActsAs(Look(w), w) && Enabled(c, s, Look(w));
      case Running(_) => assert ActsAs(JobEnds(w, 0), w) && Enabled(c, s, JobEnds(w, 0));
      case Reporting(_) => assert ActsAs(Put(w), w) && Enabled(c, s, Put(w));
    }
  }

  predicate ActsAsMain(e: Event) {
    e.Spawn? || e.Dispatch? || e.SendBreak? || e.Collect? || e.Join? || e.Finish?
  }

  /** The main thread waits for nothing but a result to collect or a worker to join. */
  lemma MainWaitsForWorkersOnly(c: Config, es: seq<Event>)
    requires Feasible(c, es) && After(c, es).status.Pending?
    ensures var s := After(c, es);
      (exists e :: ActsAsMain(e) && Enabled(c, s, e)) <==>
      !(AllDispatched(c, s) && s.pills == c.processors
        && if |s.collected| < |c.skip| then s.outQ == []
           else s.joined < c.processors && !s.workers[s.joined].Exited?)
  {
    hide Inv;
    AlwaysInv(c, es);
    MainCanActIff(c, After(c, es));
  }

  lemma MainCanActIff(c: Config, s: State)
    requires Inv(c, s) && s.status.Pending?
    ensures (exists e :: ActsAsMain(e) && Enabled(c, s, e)) <==>
      !(AllDispatched(c, s) && s.pills == c.processors
        && if |s.collected| < |c.skip| then s.outQ == []
           else s.joined < c.processors && !s.workers[s.joined].Exited?)
  {
    hide InputShape, WorkersOk, ReportsOk, NoSharing, Accounted, Scored;
    var e := if |s.workers| < c.processors then Spawn
             else if s.dispatched < |c.skip| then Dispatch
             else if s.pills < c.processors then SendBreak
             else if |s.collected| < |c.skip| then Collect
             else if s.joined < c.processors then Join else Finish;
    assert ActsAsMain(e);
    assert Enabled(c, s, e) <==>
      !(AllDispatched(c, s) && s.pills == c.processors
        && if |s.collected| < |c.skip| then s.outQ == []
           else s.joined < c.processors && !s.workers[s.joined].Exited?);
  }

  // ---------- Two runs ----------

  lemma OneMore(c: Config, es: seq<Event>, e: Event)
    requires Feasible(c, es) && Enabled(c, After(c, es), e)
    ensures Feasible(c, es + [e]) && After(c, es + [e]) == Next(c, After(c, es), e)
  {
    hide Enabled, Next;
    assert (es + [e])[..|es|] == es;
  }

  /** One job, one worker: the process's own return code decides the status. */
  lemma OneJobRun(rc: int) returns (es: seq<Event>)
    ensures es == [Spawn, Dispatch, SendBreak, Get(0), Look(0), JobEnds(0, rc), Put(0), Collect, Get(0), Look(0), Join, Finish]
    ensures Feasible(Config([false], 1), es)
    ensures var s := After(Config([false], 1), es);
      && s.status == Status(if rc == 0 then 0 else 1)
      && s.tally == Tally(if rc == 0 then 1 else 0, if rc == 1 then 1 else 0, if rc == 2 then 1 else 0,
                          if rc !in {0, 1, 2} then 1 else 0, 0)
  {
    hide Feasible, After;
    var c := Config([false], 1);
    es := QueuedUp(c);
    OneMore(c, es, Get(0)); es := es + [Get(0)];
    OneMore(c, es, Look(0)); es := es + [Look(0)];
    OneMore(c, es, JobEnds(0, rc)); es := es + [JobEnds(0, rc)];
    OneMore(c, es, Put(0)); es := es + [Put(0)];
    es := WoundUp(c, es);
  }

  /** The same with an interrupt before the worker looks: the job is not run. */
  lemma InterruptedRun() returns (es: seq<Event>)
    ensures es == [Spawn, Dispatch, SendBreak, Interrupt, Get(0), Look(0), Put(0), Collect, Get(0), Look(0), Join, Finish]
    ensures Feasible(Config([false], 1), es)
    ensures var s := After(Config([false], 1), es);
      s.status == Status(1) && s.tally == Tally(0, 0, 0, 0, 0) && s.collected == [Job(0, true, false, 0)]
  {
    hide Feasible, After;
    var c := Config([false], 1);
    es := QueuedUp(c);
    OneMore(c, es, Interrupt); es := es + [Interrupt];
    OneMore(c, es, Get(0)); es := es + [Get(0)];
    OneMore(c, es, Look(0)); es := es + [Look(0)];
    OneMore(c, es, Put(0)); es := es + [Put(0)];
    es := WoundUp(c, es);
  }

  lemma QueuedUp(c: Config) returns (es: seq<Event>)
    requires c == Config([false], 1)
    ensures es == [Spawn, Dispatch, SendBreak] && Feasible(c, es)
    ensures After(c, es) == Init().(workers := [Waiting], dispatched := 1, pills := 1, inQ := [Job(0, false, false, 0), BREAK_JOB])
  {
    hide Feasible, After;
    es := [];
    NoEvents(c);
    OneMore(c, es, Spawn); es := es + [Spawn];
    OneMore(c, es, Dispatch); es := es + [Dispatch];
    OneMore(c, es, SendBreak); es := es + [SendBreak];
  }

  lemma NoEvents(c: Config)
    ensures Feasible(c, []) && After(c, []) == Init()
  {
  }

  /** The end of both runs: the only result is collected and the worker leaves. */
  lemma WoundUp(c: Config, before: seq<Event>) returns (es: seq<Event>)
    requires c == Config([false], 1) && Feasible(c, before)
    requires var s := After(c, before);
      && s.workers == [Waiting] && s.dispatched == 1 && s.pills == 1 && s.joined == 0 && s.inQ == [BREAK_JOB]
      && |s.outQ| == 1 && s.collected == [] && s.tally == Tally(0, 0, 0, 0, 0) && s.status.Pending?
    ensures es == before + [Collect, Get(0), Look(0), Join, Finish] && Feasible(c, es)
    ensures var s, s' := After(c, before), After(c, es);
      && s'.collected == s.outQ && s'.tally == Count(s.tally, s.outQ[0])
      && s'.status == Status(if s'.tally.passed + s'.tally.skipped == 1 then 0 else 1)
  {
    hide Feasible, After, Count;
    es := before;
    OneMore(c, es, Collect); es := es + [Collect];
    OneMore(c, es, Get(0)); es := es + [Get(0)];
    OneMore(c, es, Look(0)); es := es + [Look(0)];
    OneMore(c, es, Join); es := es + [Join];
    OneMore(c, es, Finish); es := es + [Finish];
  }
}
