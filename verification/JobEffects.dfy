/** What each statement does to the rows, column by column, and what that means for leases, recovery
    and retries. */
module JobEffects {
  import opened Collections
  import opened JobTables
  import opened JobRuns
  import opened JobGuarantees

  /** No job row but this one differs. */
  ghost predicate OnlyJob(t: Tables, u: Tables, j: JobId) {
    && t.jobs.Keys == u.jobs.Keys && t.lineage == u.lineage
    && forall k :: k in t.jobs && k != j ==> u.jobs[k] == t.jobs[k]
  }

  /** What was asked for and found out so far: the digests, the artifact and the key. */
  predicate SameWork(a: Job, b: Job) {
    a.resolvedDigest == b.resolvedDigest && a.indexDigest == b.indexDigest && SameArtifact(a, b) && a.key == b.key
  }

  predicate SameArtifact(a: Job, b: Job) { a.artifactPath == b.artifactPath && a.artifactName == b.artifactName }

  predicate SameTimes(a: Job, b: Job) { a.startedAt == b.startedAt && a.finishedAt == b.finishedAt }

  predicate SameProgress(a: Job, b: Job) { a.stage == b.stage && a.progress == b.progress && a.total == b.total }

  // ------------------------------------------------------------------ guarded writes

  /** Every guarded write of an owner: the columns it sets, and every other column kept. */
  lemma WriteColumns(t: Tables, job: JobId, worker: WorkerId, attempt: nat, w: Write)
    requires Owns(t, job, worker, attempt)
    ensures var u := Exec(t, Guarded(job, worker, attempt, w));
            && OnlyJob(t, u, job) && u.owners == t.owners && u.rules == t.rules
            && var a, b := t.jobs[job], u.jobs[job];
               && b.status == Running && b.error == a.error && b.cancelRequested == a.cancelRequested
               && b.key == a.key && SameTimes(a, b) && b.updatedAt == w.now
               && (w.Renew? ==> b.leaseUntil == Some(w.lease) && SameWork(a, b) && SameProgress(a, b))
               && (w.SetManifest? ==>
                     && b.resolvedDigest == Some(w.resolved) && b.indexDigest == w.index && b.total == w.total
                     && b.leaseUntil == a.leaseUntil && SameArtifact(a, b) && b.stage == a.stage && b.progress == a.progress)
               && (w.SetProgress? ==>
                     && b.stage == w.stage && b.progress == w.progress && b.total == w.total
                     && b.leaseUntil == Some(w.lease) && SameWork(a, b))
               && (w.SetStage? ==>
                     && b.stage == w.stage && b.leaseUntil == Some(w.lease)
                     && b.progress == a.progress && b.total == a.total && SameWork(a, b))
               && (w.SetArtifact? ==>
                     && b.artifactPath == Some(w.path) && b.artifactName == Some(w.name) && b.leaseUntil == a.leaseUntil
                     && b.resolvedDigest == a.resolvedDigest && b.indexDigest == a.indexDigest && SameProgress(a, b))
  {
  }

  /** A lease-carrying write of the worker with the latest claim keeps the job safe from recovery: after
      it the lease is live exactly if the lease written lies in the future. */
  lemma WriteExtendsLease(run: seq<Step>, w: WorkerId, write: Write)
    requires AllowedRun(INIT, run) && w in After(INIT, run).held
    requires write.Renew? || write.SetProgress? || write.SetStage?
    requires var s := After(INIT, run); var h := s.held[w];
             HasStatus(s.t, h.job, Running) && LatestOf(s.claims, h.job) == h.claim
    ensures var s := After(INIT, run); var h := s.held[w];
            var step := Sql(Guarded(h.job, w, h.attempt, write));
            Allowed(s, step) && (LeaseLive(Next(s, step), h.job) <==> s.clock < write.lease)
  {
    var s := After(INIT, run);
    Reachable(run);
    OwnershipIsLatestClaim(s, w);
    WriteColumns(s.t, s.held[w].job, w, s.held[w].attempt, write);
  }

  // ------------------------------------------------------------------ claim and finish

  lemma ClaimColumns(t: Tables, job: JobId, worker: WorkerId, now: Time, lease: Time)
    requires HasStatus(t, job, Pending)
    ensures var u := Exec(t, Claim(job, worker, now, lease));
            && OnlyJob(t, u, job) && u.rules == t.rules
            && u.owners.Keys == t.owners.Keys + {job} && u.owners[job].worker == worker
            && (forall k :: k in t.owners && k != job ==> u.owners[k] == t.owners[k])
            && var a, b := t.jobs[job], u.jobs[job];
               && b.status == Running && b.stage == "resolving" && b.leaseUntil == Some(lease) && b.startedAt == Some(now)
               && b.updatedAt == now && b.finishedAt == a.finishedAt && b.cancelRequested == a.cancelRequested
               && b.error == a.error && SameWork(a, b) && b.progress == a.progress && b.total == a.total
  {
  }

  /** A claim made in time starts with a live lease. */
  lemma ClaimStartsLive(s: System, step: Step)
    requires Allowed(s, step) && step.Sql? && step.stmt.Claim? && HasStatus(s.t, step.stmt.job, Pending)
    ensures LeaseLive(Next(s, step), step.stmt.job) <==> s.clock < step.stmt.now + JOB_LEASE
  {
    ClaimColumns(s.t, step.stmt.job, step.stmt.worker, step.stmt.now, step.stmt.lease);
  }

  lemma FinishColumns(t: Tables, s: Stmt)
    requires s.Finish? && Finishes(t, s)
    ensures var u := Exec(t, s);
            && OnlyJob(t, u, s.job)
            && u.owners.Keys == t.owners.Keys - {s.job} && (forall k :: k in u.owners ==> u.owners[k] == t.owners[k])
            && u.rules.Keys == t.rules.Keys
            && var a, b := t.jobs[s.job], u.jobs[s.job];
               && b.status == s.status && b.error == s.error && b.leaseUntil == None && b.finishedAt == Some(s.now)
               && b.updatedAt == s.now && b.startedAt == a.startedAt && b.cancelRequested == a.cancelRequested
               && SameWork(a, b) && SameProgress(a, b)
  {
  }

  /** A finish hands the job's digest to a rule exactly when it takes effect as a completion and the rule
      is the one in the job's lineage; every other rule stays as it was. */
  lemma DigestHandedOnExactly(t: Tables, s: Stmt, r: RuleId)
    requires s.Finish? && r in t.rules
    ensures var u := Exec(t, s);
            && r in u.rules
            && u.rules[r] ==
               if Finishes(t, s) && s.status == Completed && s.job in t.lineage && t.lineage[s.job].rule == r
               then Rule(t.rules[r].enabled, t.rules[r].nextRunAt, t.jobs[s.job].resolvedDigest, Some(s.now))
               else t.rules[r]
  {
  }

  // ------------------------------------------------------------------ recovery

  /** The row is free to be claimed again, with nothing lost of what was found out. */
  predicate Requeued(a: Job, b: Job, now: Time) {
    && b.status == Pending && b.stage == "recovered" && b.error == None && !b.cancelRequested
    && b.leaseUntil == None && b.startedAt == None && b.finishedAt == None && b.updatedAt == now
    && SameWork(a, b) && b.progress == a.progress && b.total == a.total
  }

  /** The row is cancelled. */
  predicate CancelledRow(a: Job, b: Job, now: Time) {
    && b.status == Cancelled && b.stage == "cancelled" && b.error == None && b.cancelRequested
    && b.leaseUntil == None && b.finishedAt == Some(now) && b.updatedAt == now && b.startedAt == a.startedAt
    && SameWork(a, b) && b.progress == a.progress && b.total == a.total
  }

  lemma RecoverCancelledRow(t: Tables, now: Time, j: JobId)
    requires j in t.jobs
    ensures var u := Exec(t, RecoverCancelled(now));
            && u.jobs.Keys == t.jobs.Keys && u.owners == t.owners && u.lineage == t.lineage && u.rules == t.rules
            && if Abandoned(t.jobs[j], now) && t.jobs[j].cancelRequested then CancelledRow(t.jobs[j], u.jobs[j], now)
               else u.jobs[j] == t.jobs[j]
  {
  }

  lemma RecoverPendingRow(t: Tables, now: Time, j: JobId)
    requires j in t.jobs
    ensures var u := Exec(t, RecoverPending(now));
            && u.jobs.Keys == t.jobs.Keys && u.owners == t.owners && u.lineage == t.lineage && u.rules == t.rules
            && (if Abandoned(t.jobs[j], now) && !t.jobs[j].cancelRequested then Requeued(t.jobs[j], u.jobs[j], now)
                else u.jobs[j] == t.jobs[j])
            && (Abandoned(u.jobs[j], now) <==> Abandoned(t.jobs[j], now) && t.jobs[j].cancelRequested)
  {
  }

  /** An undisturbed recovery pass leaves no abandoned job: each becomes cancelled if its flag was up and
      pending otherwise, and every other row stays as it was. */
  lemma RecoveryLeavesNoneAbandoned(t: Tables, now: Time, j: JobId)
    requires j in t.jobs
    ensures var u := Exec(Exec(t, RecoverCancelled(now)), RecoverPending(now));
            && j in u.jobs && !Abandoned(u.jobs[j], now)
            && (Abandoned(t.jobs[j], now) && t.jobs[j].cancelRequested ==> CancelledRow(t.jobs[j], u.jobs[j], now))
            && (Abandoned(t.jobs[j], now) && !t.jobs[j].cancelRequested ==> Requeued(t.jobs[j], u.jobs[j], now))
            && (!Abandoned(t.jobs[j], now) ==> u.jobs[j] == t.jobs[j])
  {
    RecoverCancelledRow(t, now, j);
    RecoverPendingRow(Exec(t, RecoverCancelled(now)), now, j);
  }

  /** A recovered job can be taken over: from every state, after the pass of recovery a claim by any worker
      succeeds and outranks the abandoned attempt. */
  lemma RecoveredIsClaimable(t: Tables, now: Time, j: JobId, worker: WorkerId, at: Time, lease: Time)
    requires j in t.jobs && Abandoned(t.jobs[j], now) && !t.jobs[j].cancelRequested && j in t.owners && t.owners[j].attempt < I64_MAX
    ensures var u := Exec(t, RecoverPending(now)); var v := Exec(u, Claim(j, worker, at, lease));
            && j in v.owners && Owns(v, j, worker, v.owners[j].attempt) && v.owners[j].attempt == t.owners[j].attempt + 1
            && !Owns(v, j, t.owners[j].worker, t.owners[j].attempt)
  {
    RecoverPendingRow(t, now, j);
    var u := Exec(t, RecoverPending(now));
    ClaimColumns(u, j, worker, at, lease);
    assert NextAttempt(u, j) == t.owners[j].attempt + 1;
  }

  // ------------------------------------------------------------------ users

  lemma CancelColumns(t: Tables, job: JobId, now: Time)
    ensures HasStatus(t, job, Pending) ==>
              var u := Exec(t, CancelPending(job, now));
              OnlyJob(t, u, job) && u.owners == t.owners && u.rules == t.rules && CancelledRow(t.jobs[job], u.jobs[job], now)
    ensures HasStatus(t, job, Running) ==>
              var u := Exec(t, CancelRunning(job, now)); var a := t.jobs[job];
              && OnlyJob(t, u, job) && u.owners == t.owners && u.rules == t.rules
              && var b := u.jobs[job];
                 && b.status == Running && b.cancelRequested && b.updatedAt == now && b.error == a.error
                 && b.leaseUntil == a.leaseUntil && SameTimes(a, b) && SameWork(a, b) && SameProgress(a, b)
    ensures !HasStatus(t, job, Pending) ==> Exec(t, CancelPending(job, now)) == t
    ensures !HasStatus(t, job, Running) ==> Exec(t, CancelRunning(job, now)) == t
  {
  }

  /** A retry starts a job over: queued again, without progress, lease, times, error or cancel flag. */
  lemma RetryColumns(t: Tables, job: JobId, from: Status, now: Time)
    requires HasStatus(t, job, from) && (from == Failed || from == Cancelled || from == Skipped)
    ensures var u := Exec(t, Retry(job, from, now)); var a := t.jobs[job];
            && OnlyJob(t, u, job) && u.owners == t.owners && u.rules == t.rules
            && var b := u.jobs[job];
               && b.status == Pending && b.stage == "queued" && b.error == None && !b.cancelRequested
               && b.progress == 0 && b.total == 0 && b.leaseUntil == None && b.startedAt == None && b.finishedAt == None
               && b.updatedAt == now && SameWork(a, b)
  {
  }

  /** A clean-up drops a job's artifact and key and nothing else. */
  lemma ClearColumns(t: Tables, job: JobId)
    requires job in t.jobs
    ensures var u := Exec(t, ClearStorage(job)); var a := t.jobs[job];
            && OnlyJob(t, u, job) && u.owners == t.owners && u.rules == t.rules
            && var b := u.jobs[job];
               && b.artifactPath == None && b.artifactName == None && b.key == None
               && b.status == a.status && b.error == a.error && b.cancelRequested == a.cancelRequested
               && b.leaseUntil == a.leaseUntil && b.updatedAt == a.updatedAt && SameTimes(a, b) && SameProgress(a, b)
               && b.resolvedDigest == a.resolvedDigest && b.indexDigest == a.indexDigest
  {
  }

  predicate NewRow(b: Job, key: Option<Key>, now: Time) {
    && b.status == Pending && b.stage == "queued" && b.key == key && b.updatedAt == now
    && b.error == None && b.resolvedDigest == None && b.indexDigest == None && b.artifactPath == None && b.artifactName == None
    && b.progress == 0 && b.total == 0 && !b.cancelRequested && b.leaseUntil == None && b.startedAt == None && b.finishedAt == None
  }

  /** A scheduled tick, exactly: a due slot whose key is free gets a new job with that key and a lineage row; a
      due slot whose key is taken gets none; either way the rule moves on; a slot that is not due changes
      nothing. */
  lemma TickExactly(t: Tables, rule: RuleId, slot: Time, job: JobId, now: Time, next: Time)
    requires job !in t.jobs
    ensures var u := Exec(t, EnqueueRule(rule, Some(slot), Schedule, job, now, next));
            var due := rule in t.rules && t.rules[rule].enabled && t.rules[rule].nextRunAt == Some(slot) && slot <= now;
            && u.owners == t.owners
            && (!due ==> u == t)
            && (due ==>
                  && u.rules == t.rules[rule := t.rules[rule].(nextRunAt := Some(next))]
                  && if KeyTaken(t, SlotKey(rule, slot)) then u.jobs == t.jobs && u.lineage == t.lineage
                     else && job in u.jobs && NewRow(u.jobs[job], Some(SlotKey(rule, slot)), now)
                          && u.jobs == t.jobs[job := u.jobs[job]]
                          && u.lineage == t.lineage[job := Lineage(rule, Some(slot), Schedule)])
  {
  }

  /** A manual run inserts a job without a key and leaves the schedule alone. */
  lemma ManualRunExactly(t: Tables, rule: RuleId, job: JobId, now: Time, next: Time)
    requires job !in t.jobs
    ensures var u := Exec(t, EnqueueRule(rule, None, Manual, job, now, next));
            && u.owners == t.owners && u.rules == t.rules
            && (if rule in t.rules then
                  && job in u.jobs && NewRow(u.jobs[job], None, now) && u.jobs == t.jobs[job := u.jobs[job]]
                  && u.lineage == t.lineage[job := Lineage(rule, None, Manual)]
                else u == t)
  {
  }
}
