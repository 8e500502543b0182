/** The job database as an object: claiming, the guarded writes, finishing, recovery, cancelling,
    retrying and rule runs, step by step, proved against `Exec`. Functions that run several
    statements let other tasks run between them: their `others` parameters are the statements that
    land in each gap. Plain inserts, edits and deletes are only statements of other tasks here. */
module JobDatabase {
  import opened Collections
  import opened JobTables
  import opened JobEffects

  /** The tables after a sequence of statements. */
  function ExecAll(t: Tables, stmts: seq<Stmt>): Tables
    decreases |stmts|
  {
    if stmts == [] then t else ExecAll(Exec(t, stmts[0]), stmts[1..])
  }

  datatype JobOutcome = CompletedRun | SkippedRun | FailedRun(error: string)

  /** The status a finish asks for, from the cancel flag it read and how the work ended. */
  function FinishTarget(cancelRequested: bool, outcome: JobOutcome): (r: (Status, Option<string>))
    ensures r.0.Terminal() && (r.0.Cancelled? <==> cancelRequested)
    ensures r.1.Some? <==> r.0.Failed?
    ensures !cancelRequested ==>
              && (outcome.CompletedRun? <==> r.0.Completed?) && (outcome.SkippedRun? <==> r.0.Skipped?)
              && (outcome.FailedRun? ==> r.0.Failed? && r.1 == Some(outcome.error))
  {
    if cancelRequested then (Cancelled, None)
    else match outcome
         case CompletedRun => (Completed, None)
         case SkippedRun => (Skipped, None)
         case FailedRun(error) => (Failed, Some(error))
  }

  datatype FinishReply = FinishedAs(status: Status) | OwnershipChanged | JobMissing | NoLongerFinishable

  datatype RetryReply = Retried | NotRetryable | Unknown

  datatype CancelReply = Acknowledged | NotFound | NotCancellable | StillTrying

  /** The cancel statement for a job read in this status. */
  function CancelOf(status: Status, job: JobId, now: Time): Stmt {
    if status.Pending? then CancelPending(job, now) else CancelRunning(job, now)
  }

  /** The tables after one round of the cancel loop, with or without the re-read. */
  function RoundTables(t: Tables, status: Status, job: JobId, now: Time, before: seq<Stmt>, after: seq<Stmt>, reread: bool): Tables {
    var u := Exec(ExecAll(t, before), CancelOf(status, job, now));
    if reread then ExecAll(u, after) else u
  }

  /** The rounds of a cancel loop: the status each acted on, and the tables before the first and after
      each. Only the last may have gone without its re-read. */
  datatype Rounds = Rounds(read: seq<Status>, tables: seq<Tables>, reread: bool) {
    ghost predicate Shaped() { |tables| == |read| + 1 && forall i :: 0 <= i < |read| ==> !read[i].Terminal() }

    predicate RoundIs(i: nat, job: JobId, now: nat -> Time, others: nat -> seq<Stmt>)
      requires i < |read| && |tables| == |read| + 1
    {
      tables[i + 1] == RoundTables(tables[i], read[i], job, now(i), others(2 * i), others(2 * i + 1), i < |read| - 1 || reread)
    }

    /** What the loop did is exactly one cancel statement per round among the statements of others. */
    ghost predicate Valid(job: JobId, now: nat -> Time, others: nat -> seq<Stmt>) {
      Shaped() && forall i :: 0 <= i < |read| ==> RoundIs(i, job, now, others)
    }

    /** The last update hit, or the last re-read saw a running job with its flag up. */
    ghost predicate Confirmed(job: JobId, others: nat -> seq<Stmt>) {
      && Shaped() && read != []
      && var n, last := |read| - 1, tables[|read|];
         if reread then HasStatus(last, job, Running) && last.jobs[job].cancelRequested
         else HasStatus(ExecAll(tables[n], others(2 * n)), job, read[n])
    }
  }

  lemma NextRound(rs: Rounds, status: Status, t: Tables, reread: bool, job: JobId, now: nat -> Time, others: nat -> seq<Stmt>)
    requires rs.Valid(job, now, others) && rs.reread && !status.Terminal()
    requires var n := |rs.read|;
             t == RoundTables(rs.tables[n], status, job, now(n), others(2 * n), others(2 * n + 1), reread)
    ensures Rounds(rs.read + [status], rs.tables + [t], reread).Valid(job, now, others)
  {
    var next := Rounds(rs.read + [status], rs.tables + [t], reread);
    forall i | 0 <= i < |next.read| ensures next.RoundIs(i, job, now, others) {
      if i < |rs.read| { assert rs.RoundIs(i, job, now, others); }
    }
  }

  lemma CancelSurvivesFinish(t: Tables, finish: Stmt)
    requires finish.Finish? && (finish.status.Cancelled? <==> finish.cancelRequested)
    ensures CancelStands(t, finish.job) ==> CancelStands(Exec(t, finish), finish.job)
  {
  }

  predicate AnyAbandoned(t: Tables, now: Time) { exists j :: j in t.jobs && Abandoned(t.jobs[j], now) }

  /** After the second update: standing cancels stand, what is still abandoned is flagged, and what was
      abandoned without a flag is free to be claimed. */
  ghost predicate PassDone(t: Tables, u: Tables, now: Time) {
    && t.jobs.Keys == u.jobs.Keys
    && (forall j :: CancelStands(t, j) ==> CancelStands(u, j))
    && (forall j :: j in u.jobs && Abandoned(u.jobs[j], now) ==> t.jobs[j].cancelRequested && u.jobs[j] == t.jobs[j])
    && (forall j :: j in t.jobs && Abandoned(t.jobs[j], now) && !t.jobs[j].cancelRequested ==> Requeued(t.jobs[j], u.jobs[j], now))
  }

  lemma PassIsDone(t: Tables, now: Time)
    ensures PassDone(t, Exec(t, RecoverPending(now)), now)
  {
    var u := Exec(t, RecoverPending(now));
    forall j | j in t.jobs
      ensures CancelStands(t, j) ==> CancelStands(u, j)
      ensures Abandoned(u.jobs[j], now) ==> t.jobs[j].cancelRequested && u.jobs[j] == t.jobs[j]
      ensures Abandoned(t.jobs[j], now) && !t.jobs[j].cancelRequested ==> Requeued(t.jobs[j], u.jobs[j], now)
    {
      RecoverPendingRow(t, now, j);
    }
  }

  lemma UndisturbedPass(t: Tables, now: Time)
    ensures !AnyAbandoned(Exec(Exec(t, RecoverCancelled(now)), RecoverPending(now)), now)
  {
    var u := Exec(Exec(t, RecoverCancelled(now)), RecoverPending(now));
    forall j | j in u.jobs ensures !Abandoned(u.jobs[j], now) { RecoveryLeavesNoneAbandoned(t, now, j); }
  }

  class Database {
    var jobs: map<JobId, Job>
    var owners: map<JobId, Owner>
    var lineage: map<JobId, Lineage>
    var rules: map<RuleId, Rule>

    constructor ()
      ensures View() == Tables(map[], map[], map[], map[])
    {
      jobs, owners, lineage, rules := map[], map[], map[], map[];
    }

    function View(): Tables
      reads this
    {
      Tables(jobs, owners, lineage, rules)
    }

    /** Statements of other tasks. */
    method Others(stmts: seq<Stmt>)
      modifies this
      ensures View() == ExecAll(old(View()), stmts)
    {
      var t := ExecAll(View(), stmts);
      jobs, owners, lineage, rules := t.jobs, t.owners, t.lineage, t.rules;
    }

    method ClaimImageJob(job: JobId, worker: WorkerId, now: Time, lease: Time) returns (attempt: Option<nat>)
      modifies this
      ensures View() == Exec(old(View()), Claim(job, worker, now, lease))
      ensures attempt == if HasStatus(old(View()), job, Pending) then Some(owners[job].attempt) else None
      ensures attempt.Some? ==> Owns(View(), job, worker, attempt.value)
    {
      var previous := if job in owners then owners[job].attempt else 0;
      var next := Min(previous + 1, I64_MAX);
      if job !in jobs || jobs[job].status != Pending { return None; }
      jobs := jobs[job := jobs[job].(status := Running, stage := "resolving", leaseUntil := Some(lease),
                                     startedAt := Some(now), updatedAt := now)];
      owners := owners[job := Owner(worker, next)];
      return Some(next);
    }

    /** One guarded update: renewal, manifest, progress, stage or artifact. */
    method UpdateOwned(job: JobId, worker: WorkerId, attempt: nat, write: Write) returns (changed: bool)
      modifies this
      ensures View() == Exec(old(View()), Guarded(job, worker, attempt, write))
      ensures changed == Owns(old(View()), job, worker, attempt)
      ensures changed && (write.Renew? || write.SetProgress? || write.SetStage?) ==> jobs[job].leaseUntil == Some(write.lease)
    {
      changed := job in jobs && jobs[job].status == Running && job in owners
                 && owners[job].worker == worker && owners[job].attempt == attempt;
      if changed {
        var j := jobs[job];
        match write {
          case Renew(lease, now) => j := j.(leaseUntil := Some(lease), updatedAt := now);
          case SetManifest(d, i, total, now) =>
            j := j.(resolvedDigest := Some(d), indexDigest := i, total := total, updatedAt := now);
          case SetProgress(stage, p, total, lease, now) =>
            j := j.(stage := stage, progress := p, total := total, updatedAt := now, leaseUntil := Some(lease));
          case SetStage(stage, lease, now) => j := j.(stage := stage, updatedAt := now, leaseUntil := Some(lease));
          case SetArtifact(path, name, now) =>
            j := j.(artifactPath := Some(path), artifactName := Some(name), updatedAt := now);
        }
        jobs := jobs[job := j];
      }
    }

    method FinishImageJobOwned(job: JobId, worker: WorkerId, attempt: nat, status: Status,
                               error: Option<string>, now: Time, cancelRequested: bool)
      returns (finished: bool)
      modifies this
      ensures View() == Exec(old(View()), Finish(job, worker, attempt, status, error, now, cancelRequested))
      ensures finished == Finishes(old(View()), Finish(job, worker, attempt, status, error, now, cancelRequested))
    {
      finished := job in jobs && jobs[job].status == Running && jobs[job].cancelRequested == cancelRequested
                  && job in owners && owners[job] == Owner(worker, attempt);
      if finished {
        if status == Completed && job in lineage {
          var rule := lineage[job].rule;
          if rule in rules {
            rules := rules[rule := rules[rule].(lastDigest := jobs[job].resolvedDigest, lastRunAt := Some(now))];
          }
        }
        jobs := jobs[job := jobs[job].(status := status, error := error, leaseUntil := None,
                                       finishedAt := Some(now), updatedAt := now)];
        if job in owners && owners[job] == Owner(worker, attempt) { owners := owners - {job}; }
      }
    }

    /** Ends a job in three database accesses. The status asked for comes from the cancel flag as read;
        the write goes through exactly when the job is still owned and the flag still the same, so a
        cancel that lands in between survives: the finish is refused, not the cancel. */
    method FinishJob(job: JobId, worker: WorkerId, attempt: nat, outcome: JobOutcome, now: Time,
                     others1: seq<Stmt>, others2: seq<Stmt>)
      returns (reply: FinishReply)
      modifies this
      ensures var t0 := old(View()); var t1 := ExecAll(t0, others1); var t2 := ExecAll(t1, others2);
              if !(job in t0.owners && t0.owners[job] == Owner(worker, attempt)) then
                reply.OwnershipChanged? && View() == t0
              else if job !in t1.jobs then
                reply.JobMissing? && View() == t1
              else
                var flag := t1.jobs[job].cancelRequested;
                var (status, error) := FinishTarget(flag, outcome);
                var finish := Finish(job, worker, attempt, status, error, now, flag);
                && View() == Exec(t2, finish)
                && reply == (if Finishes(t2, finish) then FinishedAs(status) else NoLongerFinishable)
                && (CancelStands(t2, job) ==> CancelStands(View(), job))
    {
      if job !in owners || owners[job] != Owner(worker, attempt) { return OwnershipChanged; }
      Others(others1);
      if job !in jobs { return JobMissing; }
      var flag := jobs[job].cancelRequested;
      var (target, error) := FinishTarget(flag, outcome);
      Others(others2);
      ghost var before := View();
      var finished := FinishImageJobOwned(job, worker, attempt, target, error, now, flag);
      CancelSurvivesFinish(before, Finish(job, worker, attempt, target, error, now, flag));
      reply := if finished then FinishedAs(target) else NoLongerFinishable;
    }

    /** The first bulk update of recovery: abandoned jobs with their flag up are cancelled. */
    method RecoverFlagged(now: Time)
      modifies this
      ensures View() == Exec(old(View()), RecoverCancelled(now))
    {
      jobs := map j | j in jobs ::
                if Abandoned(jobs[j], now) && jobs[j].cancelRequested
                then Transition(jobs[j], Cancelled, now, None) else jobs[j];
    }

    /** The second: the other abandoned jobs are queued again. */
    method RecoverRest(now: Time)
      modifies this
      ensures View() == Exec(old(View()), RecoverPending(now))
    {
      jobs := map j | j in jobs ::
                if Abandoned(jobs[j], now) && !jobs[j].cancelRequested
                then Recovered(jobs[j], now) else jobs[j];
    }

    /** Expiry recovery: two separate bulk updates, made when any job looks abandoned. No cancel that
        stands is lost, also when it lands between the two. Afterwards a job is still abandoned only if
        its flag went up between the two updates; an undisturbed pass leaves none. */
    method RecoverAbandonedJobs(now: Time, others1: seq<Stmt>, others2: seq<Stmt>)
      modifies this
      ensures !AnyAbandoned(old(View()), now) ==> View() == old(View())
      ensures AnyAbandoned(old(View()), now) ==>
                var t2 := ExecAll(Exec(ExecAll(old(View()), others1), RecoverCancelled(now)), others2);
                View() == Exec(t2, RecoverPending(now)) && PassDone(t2, View(), now)
      ensures others1 == [] && others2 == [] ==> !AnyAbandoned(View(), now)
    {
      if !AnyAbandoned(View(), now) { return; }
      Others(others1);
      RecoverFlagged(now);
      Others(others2);
      ghost var t2 := View();
      RecoverRest(now);
      PassIsDone(t2, now);
      if others1 == [] && others2 == [] { UndisturbedPass(old(View()), now); }
    }

    /** One conditional update of the cancel loop. */
    method TryCancel(status: Status, job: JobId, now: Time) returns (changed: bool)
      requires !status.Terminal()
      modifies this
      ensures View() == Exec(old(View()), CancelOf(status, job, now))
      ensures changed == HasStatus(old(View()), job, status)
      ensures changed ==> CancelStands(View(), job)
    {
      if status == Pending {
        changed := job in jobs && jobs[job].status == Pending;
        if changed { jobs := jobs[job := Transition(jobs[job], Cancelled, now, None)]; }
      } else {
        changed := job in jobs && jobs[job].status == Running;
        if changed { jobs := jobs[job := jobs[job].(cancelRequested := true, updatedAt := now)]; }
      }
    }

    /** One round of the cancel loop: the update that fits the status read, and a re-read if it missed. */
    method CancelRound(status: Status, job: JobId, now: nat -> Time, others: nat -> seq<Stmt>, k: nat, ghost rs: Rounds)
      returns (reply: Option<CancelReply>, next: Status, ghost rs': Rounds)
      requires !status.Terminal() && rs.Valid(job, now, others) && rs.reread && |rs.read| == k && rs.tables[k] == View()
      modifies this
      ensures rs'.Valid(job, now, others) && rs'.read == rs.read + [status] && rs'.tables == rs.tables + [View()]
      ensures HasStatus(ExecAll(old(View()), others(2 * k)), job, status) ==> reply == Some(Acknowledged)
      ensures reply == Some(Acknowledged) ==> CancelStands(View(), job) && rs'.Confirmed(job, others)
      ensures reply == Some(NotFound) ==> job !in View().jobs
      ensures reply.Some? ==> reply.value.Acknowledged? || reply.value.NotFound?
      ensures reply.None? ==> HasStatus(View(), job, next) && rs'.reread
    {
      next := status;
      Others(others(2 * k));
      var changed := TryCancel(status, job, now(k));
      if changed {
        NextRound(rs, status, View(), false, job, now, others);
        return Some(Acknowledged), next, Rounds(rs.read + [status], rs.tables + [View()], false);
      }
      Others(others(2 * k + 1));
      NextRound(rs, status, View(), true, job, now, others);
      rs' := Rounds(rs.read + [status], rs.tables + [View()], true);
      if job !in jobs { return Some(NotFound), next, rs'; }
      if jobs[job].status == Running && jobs[job].cancelRequested { return Some(Acknowledged), next, rs'; }
      next, reply := jobs[job].status, None;
    }

    /** The cancel loop: try the update that fits the last status read, re-read on a miss, try
        again. `rs` says what it did, round by round. When it reports success the cancel stands, because
        its last update hit or its last re-read saw the flag; when it refuses, the job was read in a
        terminal status. Other tasks run before every database access: `others(2 * k)` before the
        k-th update and `others(2 * k + 1)` before the re-read that follows it. The source loops until
        it has an answer; `StillTrying` is no answer after `rounds` rounds, which takes another task
        writing between every re-read and the update after it. */
    method CancelJobFromStatus(job: JobId, first: Status, now: nat -> Time, others: nat -> seq<Stmt>, rounds: nat)
      returns (reply: CancelReply, ghost refused: Status, ghost rs: Rounds)
      modifies this
      ensures rs.Valid(job, now, others) && rs.tables[0] == old(View()) && rs.tables[|rs.read|] == View()
      ensures reply.Acknowledged? ==> CancelStands(View(), job) && rs.Confirmed(job, others)
      ensures reply.NotCancellable? ==>
                refused.Terminal() && (refused == first || HasStatus(View(), job, refused))
      ensures reply.NotFound? ==> job !in View().jobs
      ensures first.Terminal() && 0 < rounds ==> reply.NotCancellable? && rs.read == []
      ensures reply.StillTrying? ==> forall k :: 1 <= k < rounds ==> others(2 * k) != []
      ensures 0 < rounds && !first.Terminal() && HasStatus(ExecAll(old(View()), others(0)), job, first) ==> reply.Acknowledged?
    {
      var status := first;
      refused, rs := first, Rounds([], [View()], true);
      ghost var hit := HasStatus(ExecAll(View(), others(0)), job, first);
      for k := 0 to rounds
        invariant rs.Valid(job, now, others) && rs.reread && |rs.read| == k
        invariant rs.tables[0] == old(View()) && rs.tables[k] == View()
        invariant if k == 0 then status == first else HasStatus(View(), job, status)
        invariant forall i :: 1 <= i < k ==> others(2 * i) != []
        invariant 0 < k ==> !first.Terminal() && !hit
      {
        if status.Terminal() { return NotCancellable, status, rs; }
        var answer, next;
        answer, next, rs := CancelRound(status, job, now, others, k, rs);
        if answer.Some? { return answer.value, refused, rs; }
        status := next;
      }
      reply := StillTrying;
    }

    /** A retry: the status is read, and written as pending only if it is still the same. */
    method RetryJob(job: JobId, now: Time, others: seq<Stmt>, others2: seq<Stmt>) returns (reply: RetryReply)
      modifies this
      ensures job !in old(jobs) ==> reply.Unknown? && View() == old(View())
      ensures job in old(jobs) && !old(jobs)[job].status.CanTransitionTo(Pending) ==> reply.NotRetryable? && View() == old(View())
      ensures job in old(jobs) && old(jobs)[job].status.CanTransitionTo(Pending) ==>
                var t := ExecAll(old(View()), others); var retry := Retry(job, old(jobs)[job].status, now);
                if HasStatus(t, job, retry.from) then reply.Retried? && View() == Exec(t, retry)
                else View() == ExecAll(t, others2) && reply == (if job in jobs then NotRetryable else Unknown)
    {
      if job !in jobs { return Unknown; }
      var status := jobs[job].status;
      if !status.CanTransitionTo(Pending) { return NotRetryable; }
      Others(others);
      if job in jobs && jobs[job].status == status {
        jobs := jobs[job := Transition(jobs[job], Pending, now, None)];
        return Retried;
      }
      Others(others2);
      reply := if job in jobs then NotRetryable else Unknown;
    }

    /** The transaction that turns a due slot, or a manual run, into a job. */
    method CreateRuleJob(rule: RuleId, scheduledFor: Option<Time>, trigger: Trigger, newId: JobId,
                         now: Time, next: Time)
      returns (created: bool)
      modifies this
      ensures View() == Exec(old(View()), EnqueueRule(rule, scheduledFor, trigger, newId, now, next))
      ensures created == Inserts(old(View()), EnqueueRule(rule, scheduledFor, trigger, newId, now, next))
    {
      created := false;
      if rule !in rules { return; }
      var r := rules[rule];
      if trigger == Schedule && (!r.enabled || r.nextRunAt != scheduledFor || r.nextRunAt.None? || r.nextRunAt.value > now) {
        return;
      }
      var key := if trigger == Schedule then Some(SlotKey(rule, scheduledFor.value)) else None;
      var existing := key.Some? && KeyTaken(View(), key.value);
      if !existing {
        jobs := jobs[newId := PendingJob(key, now)];
        lineage := lineage[newId := Lineage(rule, scheduledFor, trigger)];
        created := true;
      }
      if trigger == Schedule { rules := rules[rule := r.(nextRunAt := Some(next))]; }
    }
  }
}
