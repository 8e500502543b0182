/** The database methods inside runs: with the steps of other tasks in their gaps, a finish and a
    cancel are steps of a run, so what holds over all runs holds of their replies. */
module JobService {
  import opened Collections
  import opened JobTables
  import opened JobRuns
  import opened JobGuarantees
  import opened JobDatabase

  /** The statements among the steps. */
  function StmtsOf(steps: seq<Step>): seq<Stmt> {
    if steps == [] then []
    else (if steps[0].Sql? then [steps[0].stmt] else []) + StmtsOf(steps[1..])
  }

  lemma NextTable(s: System, step: Step)
    ensures Next(s, step).t == if step.Sql? then Exec(s.t, step.stmt) else s.t
  {
  }

  /** The tables after a run are the tables after its statements. */
  lemma {:induction false} TablesAfter(s: System, steps: seq<Step>)
    ensures After(s, steps).t == ExecAll(s.t, StmtsOf(steps))
    decreases |steps|
  {
    if steps != [] {
      NextTable(s, steps[0]);
      TablesAfter(Next(s, steps[0]), steps[1..]);
      assert if steps[0].Sql? then StmtsOf(steps)[1..] == StmtsOf(steps[1..]) else StmtsOf(steps) == StmtsOf(steps[1..]);
    }
  }

  // ------------------------------------------------------------------ finishing

  /** The step is taken by this worker. */
  predicate StepBy(step: Step, w: WorkerId) {
    match step
    case Leave(worker) => worker == w
    case Sql(stmt) => (stmt.Claim? || stmt.Finish? || stmt.Guarded?) && stmt.worker == w
    case _ => false
  }

  predicate Apart(steps: seq<Step>, w: WorkerId) { forall k :: 0 <= k < |steps| ==> !StepBy(steps[k], w) }

  lemma {:induction false} HeldStays(s: System, steps: seq<Step>, w: WorkerId)
    requires Apart(steps, w) && w in s.held
    ensures w in After(s, steps).held && After(s, steps).held[w] == s.held[w]
    decreases |steps|
  {
    if steps != [] {
      assert !StepBy(steps[0], w);
      HeldStays(Next(s, steps[0]), steps[1..], w);
    }
  }

  function FinishStmt(t: Tables, job: JobId, worker: WorkerId, attempt: nat, outcome: JobOutcome, now: Time): Stmt
    requires job in t.jobs
  {
    var flag := t.jobs[job].cancelRequested;
    Finish(job, worker, attempt, FinishTarget(flag, outcome).0, FinishTarget(flag, outcome).1, now, flag)
  }

  /** A finish by a worker that holds the job, in any reachable state, with any allowed steps of others in
      its gaps, continues the run by those steps and its own finish. It reports success only if the
      worker made the latest claim of the job when the finish was written. */
  method FinishInRun(db: Database, ghost run: seq<Step>, job: JobId, worker: WorkerId, attempt: nat, outcome: JobOutcome,
                     now: Time, gap1: seq<Step>, gap2: seq<Step>)
    returns (reply: FinishReply, ghost more: seq<Step>)
    requires AllowedRun(INIT, run + gap1 + gap2) && db.View() == After(INIT, run).t
    requires Holds(After(INIT, run), worker, job, attempt) && Apart(gap1 + gap2, worker)
    requires now <= After(INIT, run + gap1 + gap2).clock
    modifies db
    ensures AllowedRun(INIT, run + more) && db.View() == After(INIT, run + more).t
    ensures reply.FinishedAs? || reply.NoLongerFinishable? ==>
              && job in After(INIT, run + gap1).t.jobs
              && more == gap1 + gap2 + [Sql(FinishStmt(After(INIT, run + gap1).t, job, worker, attempt, outcome, now))]
    ensures reply.FinishedAs? ==>
              var u := After(INIT, run + gap1 + gap2);
              HasStatus(u.t, job, Running) && worker in u.held && LatestOf(u.claims, job) == u.held[worker].claim
    ensures reply.OwnershipChanged? ==> more == []
    ensures reply.JobMissing? ==> more == gap1
  {
    ghost var s0, s1, s2 := After(INIT, run), After(INIT, run + gap1), After(INIT, run + gap1 + gap2);
    GapTables(run, gap1, gap2);
    reply := db.FinishJob(job, worker, attempt, outcome, now, StmtsOf(gap1), StmtsOf(gap2));
    if reply.OwnershipChanged? {
      more := [];
      assert run + [] == run;
    } else if reply.JobMissing? {
      more := gap1;
    } else {
      var finish := Sql(FinishStmt(s1.t, job, worker, attempt, outcome, now));
      RunSplit(INIT, run, gap1 + gap2);
      assert run + gap1 + gap2 == run + (gap1 + gap2);
      HeldStays(s0, gap1 + gap2, worker);
      FinishStep(s2, finish, worker, job, attempt);
      Extend(INIT, run + gap1 + gap2, finish);
      more := gap1 + gap2 + [finish];
      assert run + more == run + gap1 + gap2 + [finish];
      if reply.FinishedAs? {
        Reachable(run + gap1 + gap2);
        OwnershipIsLatestClaim(s2, worker);
      }
    }
  }

  lemma GapTables(run: seq<Step>, gap1: seq<Step>, gap2: seq<Step>)
    requires AllowedRun(INIT, run + gap1 + gap2)
    ensures AllowedRun(INIT, run) && AllowedRun(INIT, run + gap1)
    ensures After(INIT, run + gap1).t == ExecAll(After(INIT, run).t, StmtsOf(gap1))
    ensures After(INIT, run + gap1 + gap2).t == ExecAll(After(INIT, run + gap1).t, StmtsOf(gap2))
  {
    RunSplit(INIT, run + gap1, gap2);
    RunSplit(INIT, run, gap1);
    TablesAfter(After(INIT, run), gap1);
    TablesAfter(After(INIT, run + gap1), gap2);
  }

  lemma FinishStep(s: System, step: Step, worker: WorkerId, job: JobId, attempt: nat)
    requires step.Sql? && step.stmt.Finish? && step.stmt.worker == worker && step.stmt.job == job && step.stmt.attempt == attempt
    requires Holds(s, worker, job, attempt) && step.stmt.now <= s.clock && WellCalled(s.t, step.stmt)
    ensures Allowed(s, step) && Next(s, step).t == Exec(s.t, step.stmt)
  {
  }

  // ------------------------------------------------------------------ cancelling

  function RoundSteps(status: Status, job: JobId, now: Time, before: seq<Step>, after: seq<Step>, reread: bool): seq<Step> {
    before + [Sql(CancelOf(status, job, now))] + if reread then after else []
  }

  /** The steps of the first `n` rounds of a cancel loop, those of other tasks included. */
  ghost function CancelSteps(rs: Rounds, n: nat, job: JobId, now: nat -> Time, gaps: nat -> seq<Step>): seq<Step>
    requires n <= |rs.read|
  {
    if n == 0 then []
    else
      var k := n - 1;
      CancelSteps(rs, k, job, now, gaps)
      + RoundSteps(rs.read[k], job, now(k), gaps(2 * k), gaps(2 * k + 1), k < |rs.read| - 1 || rs.reread)
  }

  /** All of them, and the observation that a last re-read amounts to. */
  ghost function CancelTrace(rs: Rounds, job: JobId, now: nat -> Time, gaps: nat -> seq<Step>): seq<Step> {
    CancelSteps(rs, |rs.read|, job, now, gaps) + if rs.reread then [ObserveCancel(job)] else []
  }

  function Stmts(gaps: nat -> seq<Step>): nat -> seq<Stmt> { (k: nat) => StmtsOf(gaps(k)) }

  lemma RoundTablesAfter(s: System, status: Status, job: JobId, now: Time, before: seq<Step>, after: seq<Step>, reread: bool)
    ensures After(s, RoundSteps(status, job, now, before, after, reread)).t ==
            RoundTables(s.t, status, job, now, StmtsOf(before), StmtsOf(after), reread)
  {
    var cancel := Sql(CancelOf(status, job, now));
    var u := After(s, before);
    TablesAfter(s, before);
    RunSplit(s, before, [cancel]);
    OneStep(u, cancel);
    NextTable(u, cancel);
    if reread {
      RunSplit(s, before + [cancel], after);
      TablesAfter(Next(u, cancel), after);
    } else {
      assert before + [cancel] + [] == before + [cancel];
    }
  }

  lemma OneStep(s: System, step: Step)
    ensures After(s, [step]) == Next(s, step)
  {
    assert [step][1..] == [];
    assert After(Next(s, step), []) == Next(s, step);
  }

  lemma {:induction false} CancelTablesAfter(s: System, rs: Rounds, n: nat, job: JobId, now: nat -> Time, gaps: nat -> seq<Step>)
    requires rs.Valid(job, now, Stmts(gaps)) && rs.tables[0] == s.t && n <= |rs.read|
    ensures After(s, CancelSteps(rs, n, job, now, gaps)).t == rs.tables[n]
    decreases n
  {
    if 0 < n {
      var k := n - 1;
      CancelTablesAfter(s, rs, k, job, now, gaps);
      assert rs.RoundIs(k, job, now, Stmts(gaps));
      var last := k < |rs.read| - 1 || rs.reread;
      RunSplit(s, CancelSteps(rs, k, job, now, gaps), RoundSteps(rs.read[k], job, now(k), gaps(2 * k), gaps(2 * k + 1), last));
      RoundTablesAfter(After(s, CancelSteps(rs, k, job, now, gaps)), rs.read[k], job, now(k), gaps(2 * k), gaps(2 * k + 1), last);
    }
  }

  /** A cancel statement that finds the status it was made for is acknowledged in the history. */
  lemma HitIsAcked(s: System, status: Status, job: JobId, now: Time)
    requires HasStatus(s.t, job, status) && !status.Terminal()
    ensures job in Next(s, Sql(CancelOf(status, job, now))).acked
  {
  }

  lemma SightIsAcked(s: System, job: JobId)
    requires HasStatus(s.t, job, Running) && s.t.jobs[job].cancelRequested
    ensures job in Next(s, ObserveCancel(job)).acked && Next(s, ObserveCancel(job)).t == s.t
  {
  }

  lemma ConfirmedIsAcked(s: System, rs: Rounds, job: JobId, now: nat -> Time, gaps: nat -> seq<Step>)
    requires rs.Valid(job, now, Stmts(gaps)) && rs.tables[0] == s.t && rs.Confirmed(job, Stmts(gaps))
    ensures job in After(s, CancelTrace(rs, job, now, gaps)).acked
  {
    if rs.reread { SeenIsAcked(s, rs, job, now, gaps); } else { LastHitIsAcked(s, rs, job, now, gaps); }
  }

  lemma SeenIsAcked(s: System, rs: Rounds, job: JobId, now: nat -> Time, gaps: nat -> seq<Step>)
    requires rs.Valid(job, now, Stmts(gaps)) && rs.tables[0] == s.t && rs.Confirmed(job, Stmts(gaps)) && rs.reread
    ensures job in After(s, CancelTrace(rs, job, now, gaps)).acked
  {
    var steps := CancelSteps(rs, |rs.read|, job, now, gaps);
    CancelTablesAfter(s, rs, |rs.read|, job, now, gaps);
    RunSplit(s, steps, [ObserveCancel(job)]);
    OneStep(After(s, steps), ObserveCancel(job));
    SightIsAcked(After(s, steps), job);
  }

  lemma LastHitIsAcked(s: System, rs: Rounds, job: JobId, now: nat -> Time, gaps: nat -> seq<Step>)
    requires rs.Valid(job, now, Stmts(gaps)) && rs.tables[0] == s.t && rs.Confirmed(job, Stmts(gaps)) && !rs.reread
    ensures job in After(s, CancelTrace(rs, job, now, gaps)).acked
  {
    var k := |rs.read| - 1;
    var before, last := CancelSteps(rs, k, job, now, gaps), gaps(2 * k) + [Sql(CancelOf(rs.read[k], job, now(k)))];
    CancelTablesAfter(s, rs, k, job, now, gaps);
    HitInGap(After(s, before), gaps(2 * k), rs.read[k], job, now(k));
    RunSplit(s, before, last);
    TraceEndsWithHit(rs, job, now, gaps);
  }

  lemma TraceEndsWithHit(rs: Rounds, job: JobId, now: nat -> Time, gaps: nat -> seq<Step>)
    requires rs.read != [] && !rs.reread
    ensures var k := |rs.read| - 1;
            CancelTrace(rs, job, now, gaps) ==
            CancelSteps(rs, k, job, now, gaps) + (gaps(2 * k) + [Sql(CancelOf(rs.read[k], job, now(k)))])
  {
  }

  lemma HitInGap(s: System, gap: seq<Step>, status: Status, job: JobId, now: Time)
    requires HasStatus(ExecAll(s.t, StmtsOf(gap)), job, status) && !status.Terminal()
    ensures job in After(s, gap + [Sql(CancelOf(status, job, now))]).acked
  {
    TablesAfter(s, gap);
    RunSplit(s, gap, [Sql(CancelOf(status, job, now))]);
    OneStep(After(s, gap), Sql(CancelOf(status, job, now)));
    HitIsAcked(After(s, gap), status, job, now);
  }

  lemma TraceTables(s: System, rs: Rounds, job: JobId, now: nat -> Time, gaps: nat -> seq<Step>)
    requires rs.Valid(job, now, Stmts(gaps)) && rs.tables[0] == s.t
    ensures After(s, CancelTrace(rs, job, now, gaps)).t == rs.tables[|rs.read|]
  {
    var steps := CancelSteps(rs, |rs.read|, job, now, gaps);
    CancelTablesAfter(s, rs, |rs.read|, job, now, gaps);
    if rs.reread {
      RunSplit(s, steps, [ObserveCancel(job)]);
      OneStep(After(s, steps), ObserveCancel(job));
      NextTable(After(s, steps), ObserveCancel(job));
    } else {
      assert steps + [] == steps;
    }
  }

  /** A cancel after any run, with any steps of others in its gaps, continues the run by those steps and
      its own cancels. When it reports success the cancel is acknowledged in the history, so as long as
      the whole is a run of steps the code can take, it is never lost: up to a user retry the job is
      cancelled, or running with its flag up. */
  method CancelInRun(db: Database, ghost run: seq<Step>, job: JobId, first: Status, now: nat -> Time, gaps: nat -> seq<Step>, rounds: nat)
    returns (reply: CancelReply, ghost rs: Rounds)
    requires db.View() == After(INIT, run).t
    modifies db
    ensures rs.Valid(job, now, Stmts(gaps))
    ensures db.View() == After(INIT, run + CancelTrace(rs, job, now, gaps)).t
    ensures reply.Acknowledged? ==> job in After(INIT, run + CancelTrace(rs, job, now, gaps)).acked
    ensures reply.Acknowledged? ==>
              forall after :: NoRetry(after, job) && AllowedRun(INIT, run + CancelTrace(rs, job, now, gaps) + after) ==>
                CancelStands(After(INIT, run + CancelTrace(rs, job, now, gaps) + after).t, job)
  {
    ghost var refused;
    reply, refused, rs := db.CancelJobFromStatus(job, first, now, Stmts(gaps), rounds);
    ghost var trace := CancelTrace(rs, job, now, gaps);
    RunSplit(INIT, run, trace);
    TraceTables(After(INIT, run), rs, job, now, gaps);
    if reply.Acknowledged? {
      ConfirmedIsAcked(After(INIT, run), rs, job, now, gaps);
      forall after | NoRetry(after, job) && AllowedRun(INIT, run + trace + after)
        ensures CancelStands(After(INIT, run + trace + after).t, job)
      {
        CancelIsNeverLost(run + trace, after, job);
      }
    }
  }
}
