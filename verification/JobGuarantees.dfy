/** What the image-job protocol promises over every run: fencing of stale workers, live
    leases that nobody steals, acknowledged cancels that are never lost. */
module JobGuarantees {
  import opened Collections
  import opened JobTables
  import opened JobRuns

  // ------------------------------------------------------------------------ fencing

  /** In a reachable state a guarded statement of a worker passes its ownership test exactly
      when the job is running and the worker's claim is the latest claim of that job. */
  lemma OwnershipIsLatestClaim(s: System, w: WorkerId)
    requires Inv(s) && w in s.held
    ensures var h := s.held[w];
            Owns(s.t, h.job, w, h.attempt) <==>
            HasStatus(s.t, h.job, Running) && LatestOf(s.claims, h.job) == h.claim
  {
    var h := s.held[w];
    assert HeldIsLast(s, w) && OwnerIsLatest(s, h.job) && RowOk(s.t, h.job);
    LatestOfIsLatest(s.claims, h.job);
    LatestByIsLatest(s.claims, w);
  }

  /** Fencing over whole runs. After any run, a write of a worker takes effect exactly when the
      worker made the latest claim of the job and the job is running, and a write that does not
      take effect changes nothing. A finish takes effect exactly when also the cancel flag is
      unchanged; then it ends the job, drops the owner row and hands the digest on. */
  lemma Fencing(steps: seq<Step>, w: WorkerId, write: Write, finish: Stmt)
    requires AllowedRun(INIT, steps) && w in After(INIT, steps).held
    requires var h := After(INIT, steps).held[w];
             finish.Finish? && finish.job == h.job && finish.worker == w && finish.attempt == h.attempt
    ensures var s := After(INIT, steps); var h := s.held[w];
            var current := HasStatus(s.t, h.job, Running) && LatestOf(s.claims, h.job) == h.claim;
            var t := Exec(s.t, Guarded(h.job, w, h.attempt, write));
            && (current ==> t == s.t.(jobs := s.t.jobs[h.job := Written(s.t.jobs[h.job], write)]))
            && (!current ==> t == s.t)
            && (if current && s.t.jobs[h.job].cancelRequested == finish.cancelRequested
                then Exec(s.t, finish) ==
                     Tables(s.t.jobs[h.job := Finished(s.t.jobs[h.job], finish.status, finish.error, finish.now)],
                            s.t.owners - {h.job}, s.t.lineage, RulesAfterFinish(s.t, h.job, finish.status, finish.now))
                else Exec(s.t, finish) == s.t)
  {
    Reachable(steps);
    OwnershipIsLatestClaim(After(INIT, steps), w);
  }

  lemma {:induction false} HistoryGrows(s: System, steps: seq<Step>)
    ensures s.claims <= After(s, steps).claims
    decreases |steps|
  {
    if steps != [] { HistoryGrows(Next(s, steps[0]), steps[1..]); }
  }

  /** After a takeover the old claim is dead: once a later claim of the job exists, no worker
      still holding the old claim passes the ownership test, in any continuation of the run. */
  lemma TakeoverIsFinal(s: System, steps: seq<Step>, stale: nat)
    requires Inv(s) && AllowedRun(s, steps)
    requires stale < |s.claims| && stale < LatestOf(s.claims, s.claims[stale].job)
    ensures var u := After(s, steps);
            forall w :: w in u.held && u.held[w].claim == stale ==>
              !Owns(u.t, u.held[w].job, w, u.held[w].attempt)
  {
    var u := After(s, steps);
    RunKeepsInv(s, steps);
    HistoryGrows(s, steps);
    var job := s.claims[stale].job;
    LatestOfIsLatest(s.claims, job);
    LatestOfIsLatest(u.claims, job);
    forall w | w in u.held && u.held[w].claim == stale
      ensures !Owns(u.t, u.held[w].job, w, u.held[w].attempt)
    {
      assert HeldIsLast(u, w);
      assert u.held[w].job == job;
      OwnershipIsLatestClaim(u, w);
    }
  }

  /** Between two finishes of a job its attempt tokens strictly increase, up to saturation. */
  lemma AttemptsIncreaseBetweenFinishes(steps: seq<Step>, i: nat, k: nat)
    requires AllowedRun(INIT, steps)
    requires i < k < |After(INIT, steps).claims|
    requires var c := After(INIT, steps).claims; c[i].job == c[k].job && c[i].epoch == c[k].epoch
    ensures var c := After(INIT, steps).claims; c[i].attempt < c[k].attempt || c[k].attempt == I64_MAX
  {
    Reachable(steps);
    assert AttemptsOrdered(After(INIT, steps), i, k);
  }

  predicate PositiveAttempts(s: System) { forall i :: 0 <= i < |s.claims| ==> 1 <= s.claims[i].attempt }

  lemma {:induction false} AttemptsStayPositive(s: System, steps: seq<Step>)
    requires PositiveAttempts(s)
    ensures PositiveAttempts(After(s, steps))
    decreases |steps|
  {
    if steps != [] { AttemptsStayPositive(Next(s, steps[0]), steps[1..]); }
  }

  /** The token of claim `k` against the claim of the same job before it: the next number while no
      finish came in between, 1 after a finish. */
  predicate TokenLaw(claims: seq<ClaimEvent>, k: nat) {
    k < |claims| ==>
      var i := LatestOf(claims[..k], claims[k].job);
      0 <= i < k ==>
        claims[k].attempt == if claims[i].epoch == claims[k].epoch then Min(claims[i].attempt + 1, I64_MAX) else 1
  }

  lemma ClaimKeepsTokenLaw(s: System, step: Step)
    requires Inv(s) && step.Sql? && step.stmt.Claim? && HasStatus(s.t, step.stmt.job, Pending)
    ensures TokenLaw(Next(s, step).claims, |s.claims|)
  {
    var j := step.stmt.job;
    var i := LatestOf(s.claims, j);
    var u := Next(s, step);
    assert u.claims[..|s.claims|] == s.claims;
    LatestOfIsLatest(s.claims, j);
    if 0 <= i { assert ClaimRanked(s, i); }
    assert OwnerIsLatest(s, j);
  }

  lemma {:induction false} RunKeepsTokenLaw(s: System, steps: seq<Step>)
    requires Inv(s) && AllowedRun(s, steps) && forall k :: TokenLaw(s.claims, k)
    ensures forall k :: TokenLaw(After(s, steps).claims, k)
    decreases |steps|
  {
    if steps != [] {
      var u := Next(s, steps[0]);
      forall k: nat ensures TokenLaw(u.claims, k) {
        if k < |s.claims| {
          assert TokenLaw(s.claims, k);
          assert s.claims <= u.claims;
          assert u.claims[..k] == s.claims[..k] && u.claims[k] == s.claims[k];
        } else if k < |u.claims| {
          ClaimKeepsTokenLaw(s, steps[0]);
        }
      }
      StepKeepsInv(s, steps[0]);
      RunKeepsTokenLaw(u, steps[1..]);
    }
  }

  /** Exactly when tokens grow over a history: of two consecutive claims of a job the later has the
      larger token if and only if no finish came between them and the counter was not saturated. */
  lemma TokensGrowExactly(steps: seq<Step>, i: nat, k: nat)
    requires AllowedRun(INIT, steps) && i < k < |After(INIT, steps).claims|
    requires var c := After(INIT, steps).claims; LatestOf(c[..k], c[k].job) == i
    ensures var c := After(INIT, steps).claims;
            && c[i].job == c[k].job
            && (c[i].attempt < c[k].attempt <==> c[i].epoch == c[k].epoch && c[i].attempt < I64_MAX)
  {
    var c := After(INIT, steps).claims;
    Reachable([]);
    RunKeepsTokenLaw(INIT, steps);
    assert TokenLaw(c, k);
    LatestOfIsLatest(c[..k], c[k].job);
    AttemptsStayPositive(INIT, steps);
  }

  /** Exactly when the next token outranks the last one: in every reachable state a further claim gets
      a larger token than the latest claim of the job if and only if the owner row is still there
      (no finish came since) and its counter is not saturated. The claimer reads both in the row. */
  lemma NextTokenGrowsExactly(steps: seq<Step>, j: JobId)
    requires AllowedRun(INIT, steps) && LatestOf(After(INIT, steps).claims, j) >= 0
    ensures var s := After(INIT, steps); var n := LatestOf(s.claims, j);
            && n < |s.claims|
            && (NextAttempt(s.t, j) > s.claims[n].attempt <==> j in s.t.owners && s.t.owners[j].attempt < I64_MAX)
            && (j in s.t.owners ==> s.t.owners[j].attempt == s.claims[n].attempt)
  {
    Reachable(steps);
    var s := After(INIT, steps);
    assert OwnerIsLatest(s, j);
    LatestOfIsLatest(s.claims, j);
    AttemptsStayPositive(INIT, steps);
  }

  // A worker claims job 7, fails it, the user retries, and the same worker claims it again.
  lemma FirstClaim() returns (steps: seq<Step>)
    ensures AllowedRun(INIT, steps)
    ensures var u := After(INIT, steps);
            && HasStatus(u.t, 7, Running) && !u.t.jobs[7].cancelRequested
            && u.t.owners == map[7 := Owner(1, 1)] && u.held == map[1 := Held(7, 1, 0)]
            && u.claims == [ClaimEvent(1, 7, 1, 0)] && u.epochs == map[] && u.clock == 0
  {
    var create, claim := Sql(CreateJob(7, None, 0)), Sql(Claim(7, 1, 0, JOB_LEASE));
    steps := [];
    Extend(INIT, steps, create);
    steps := steps + [create];
    assert HasStatus(After(INIT, steps).t, 7, Pending);
    Extend(INIT, steps, claim);
    steps := steps + [claim];
  }

  lemma FailAndRetry(before: seq<Step>) returns (steps: seq<Step>)
    requires AllowedRun(INIT, before)
    requires var u := After(INIT, before);
             && HasStatus(u.t, 7, Running) && !u.t.jobs[7].cancelRequested
             && u.t.owners == map[7 := Owner(1, 1)] && u.held == map[1 := Held(7, 1, 0)]
             && u.claims == [ClaimEvent(1, 7, 1, 0)] && u.epochs == map[] && u.clock == 0
    ensures AllowedRun(INIT, steps)
    ensures var u := After(INIT, steps);
            && HasStatus(u.t, 7, Pending) && u.t.owners == map[] && u.held == map[]
            && u.claims == [ClaimEvent(1, 7, 1, 0)] && u.epochs == map[7 := 1] && u.clock == 0
  {
    var finish, retry := Sql(Finish(7, 1, 1, Failed, None, 0, false)), Sql(Retry(7, Failed, 0));
    var s := After(INIT, before);
    FailStep(s, finish);
    Extend(INIT, before, finish);
    RetryStep(Next(s, finish), retry);
    Extend(INIT, before + [finish], retry);
    steps := before + [finish] + [retry];
  }

  lemma FailStep(s: System, finish: Step)
    requires finish == Sql(Finish(7, 1, 1, Failed, None, 0, false))
    requires HasStatus(s.t, 7, Running) && !s.t.jobs[7].cancelRequested && s.clock == 0 && s.epochs == map[]
    requires s.t.owners == map[7 := Owner(1, 1)] && s.held == map[1 := Held(7, 1, 0)]
    ensures Allowed(s, finish)
    ensures var u := Next(s, finish);
            && HasStatus(u.t, 7, Failed) && u.t.owners == map[] && u.held == map[]
            && u.claims == s.claims && u.epochs == map[7 := 1] && u.clock == 0
  {
  }

  lemma RetryStep(s: System, retry: Step)
    requires retry == Sql(Retry(7, Failed, 0)) && HasStatus(s.t, 7, Failed)
    ensures Allowed(s, retry)
    ensures var u := Next(s, retry);
            && HasStatus(u.t, 7, Pending) && u.t.owners == s.t.owners && u.held == s.held
            && u.claims == s.claims && u.epochs == s.epochs && u.clock == s.clock
  {
  }

  lemma RestartRun() returns (steps: seq<Step>)
    ensures AllowedRun(INIT, steps)
    ensures var u := After(INIT, steps);
            && u.claims == [ClaimEvent(1, 7, 1, 0), ClaimEvent(1, 7, 1, 1)]
            && u.t.owners == map[7 := Owner(1, 1)]
            && HasStatus(u.t, 7, Running)
  {
    var first := FirstClaim();
    var retried := FailAndRetry(first);
    var claim := Sql(Claim(7, 1, 0, JOB_LEASE));
    Extend(INIT, retried, claim);
    steps := retried + [claim];
  }

  /** Attempt tokens are not monotonic over the life of a job, and a token alone does not fence:
      a finish deletes the owner row, the next attempt is 1 again, and the token of the first
      claim passes the ownership test of the second. What fences is that a worker drops one
      claim before it makes the next. */
  lemma TokensRestartAfterFinish()
    ensures exists steps :: AllowedRun(INIT, steps) &&
              var u := After(INIT, steps);
              && |u.claims| == 2 && u.claims[0].job == u.claims[1].job
              && LatestOf(u.claims, u.claims[0].job) == 1
              && u.claims[1].attempt <= u.claims[0].attempt
              && Owns(u.t, u.claims[0].job, u.claims[0].worker, u.claims[0].attempt)
  {
    var steps := RestartRun();
    assert AllowedRun(INIT, steps);
  }

  // -------------------------------------------------------------------- cancellation

  predicate IsRetry(step: Step, j: JobId) {
    step.Sql? && step.stmt.Retry? && step.stmt.job == j
  }

  ghost predicate NoRetry(steps: seq<Step>, j: JobId) {
    forall k :: 0 <= k < |steps| ==> !IsRetry(steps[k], j)
  }

  lemma {:induction false} AckPersists(s: System, steps: seq<Step>, j: JobId)
    requires j in s.acked && NoRetry(steps, j)
    ensures j in After(s, steps).acked
    decreases |steps|
  {
    if steps != [] {
      assert !IsRetry(steps[0], j);
      AckPersists(Next(s, steps[0]), steps[1..], j);
    }
  }

  /** An acknowledged cancel is never lost: in every later state up to a user retry the job is
      cancelled, or running with its cancel flag up. In particular it is never completed,
      skipped, failed or pending again, however recovery and finish interleave. */
  lemma CancelIsNeverLost(before: seq<Step>, after: seq<Step>, j: JobId)
    requires AllowedRun(INIT, before + after)
    requires j in After(INIT, before).acked && NoRetry(after, j)
    ensures CancelStands(After(INIT, before + after).t, j)
  {
    RunSplit(INIT, before, after);
    AckPersists(After(INIT, before), after, j);
    Reachable(before + after);
    assert AckStands(After(INIT, before + after), j);
  }

  // -------------------------------------------------------------- leases, completion

  predicate LeaseLive(s: System, j: JobId) {
    HasStatus(s.t, j, Running) && s.t.jobs[j].leaseUntil.Some? && s.clock < s.t.jobs[j].leaseUntil.value
  }

  /** The step is a finish that its ownership test lets through. */
  predicate FinishesJob(s: System, step: Step, j: JobId) {
    step.Sql? && step.stmt.Finish? && step.stmt.job == j && Finishes(s.t, step.stmt)
  }

  /** While a lease lies in the future, the only step that can change the status of the job is
      a finish by the worker that made the latest claim. */
  lemma LiveLeaseIsNotStolen(s: System, step: Step, j: JobId)
    requires Inv(s) && Allowed(s, step) && LeaseLive(s, j)
    ensures !HasStatus(Next(s, step).t, j, Running) ==>
              && FinishesJob(s, step, j)
              && step.stmt.worker in s.held
              && s.held[step.stmt.worker].claim == LatestOf(s.claims, j)
  {
    if step.Sql? {
      assert Next(s, step).t == Exec(s.t, step.stmt);
      LiveRowRuns(s.t, step.stmt, j, s.clock);
    }
    if FinishesJob(s, step, j) { OwnershipIsLatestClaim(s, step.stmt.worker); }
  }

  /** No statement made by `clock` but a finish of the job ends the running status of a live row. */
  lemma LiveRowRuns(t: Tables, stmt: Stmt, j: JobId, clock: Time)
    requires HasStatus(t, j, Running) && t.jobs[j].leaseUntil.Some? && clock < t.jobs[j].leaseUntil.value
    requires WellCalled(t, stmt)
    requires stmt.RecoverCancelled? || stmt.RecoverPending? ==> stmt.now <= clock
    ensures HasStatus(Exec(t, stmt), j, Running) || (stmt.Finish? && stmt.job == j && Finishes(t, stmt))
  {
  }

  ghost predicate LiveAndUnfinished(s: System, steps: seq<Step>, j: JobId)
    decreases |steps|
  {
    steps == [] ||
    (LeaseLive(s, j) && !FinishesJob(s, steps[0], j) && LiveAndUnfinished(Next(s, steps[0]), steps[1..], j))
  }

  /** A job whose lease stays in the future keeps running until its owner finishes it. */
  lemma {:induction false} LiveLeaseKeepsRunning(s: System, steps: seq<Step>, j: JobId)
    requires Inv(s) && AllowedRun(s, steps) && HasStatus(s.t, j, Running)
    requires LiveAndUnfinished(s, steps, j)
    ensures HasStatus(After(s, steps).t, j, Running)
    decreases |steps|
  {
    if steps != [] {
      LiveLeaseIsNotStolen(s, steps[0], j);
      StepKeepsInv(s, steps[0]);
      LiveLeaseKeepsRunning(Next(s, steps[0]), steps[1..], j);
    }
  }

  /** Every status change of every step is one the transition table allows, or the recovery of an
      abandoned running job to pending. */
  lemma StatusFollowsTable(s: System, step: Step, j: JobId)
    requires Allowed(s, step) && j in s.t.jobs
    ensures j in Next(s, step).t.jobs
    ensures var a, b := s.t.jobs[j].status, Next(s, step).t.jobs[j].status;
            a == b || a.CanTransitionTo(b) ||
            (a.Running? && b.Pending? && step.Sql? && step.stmt.RecoverPending? && Abandoned(s.t.jobs[j], s.clock))
  {
    if step.Sql? { ExecStatus(s.t, step.stmt, j); }
  }

  /** Completed is absorbing over every run. */
  lemma {:induction false} CompletedIsAbsorbing(s: System, steps: seq<Step>, j: JobId)
    requires Inv(s) && AllowedRun(s, steps) && HasStatus(s.t, j, Completed)
    ensures HasStatus(After(s, steps).t, j, Completed)
    decreases |steps|
  {
    if steps != [] {
      StatusFollowsTable(s, steps[0], j);
      StepKeepsInv(s, steps[0]);
      CompletedIsAbsorbing(Next(s, steps[0]), steps[1..], j);
    }
  }

  /** In every reachable state: pending means no lease, start, finish or cancel flag; running
      means lease, start and owner row present and no finish; terminal means finished without a
      lease, with the cancel flag exactly on cancelled jobs. */
  lemma JobRecords(steps: seq<Step>, j: JobId)
    requires AllowedRun(INIT, steps) && j in After(INIT, steps).t.jobs
    ensures var t := After(INIT, steps).t; var r := t.jobs[j];
            && (r.status.Pending? ==>
                  r.leaseUntil.None? && r.startedAt.None? && r.finishedAt.None? && !r.cancelRequested)
            && (r.status.Running? ==>
                  r.leaseUntil.Some? && r.startedAt.Some? && r.finishedAt.None? && j in t.owners)
            && (r.status.Terminal() ==>
                  r.leaseUntil.None? && r.finishedAt.Some? && (r.cancelRequested <==> r.status.Cancelled?))
  {
    Reachable(steps);
    assert RowOk(After(INIT, steps).t, j);
  }
}
