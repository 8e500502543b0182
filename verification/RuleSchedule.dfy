/** Exactly-once scheduling of sync rules, over every run of the image-job protocol. */
module RuleSchedule {
  import opened Collections
  import opened JobTables
  import opened JobRuns

  /** The slots enqueued for one rule strictly increase, so each slot has at most one job. */
  ghost predicate SlotsIncrease(s: System) {
    forall i, k :: 0 <= i < k < |s.slots| && s.slots[i].rule == s.slots[k].rule ==>
      s.slots[i].slot < s.slots[k].slot
  }

  /** Every slot enqueued so far lies before `next`. */
  ghost predicate AllBefore(s: System, rule: RuleId, next: Time) {
    forall i :: 0 <= i < |s.slots| && s.slots[i].rule == rule ==> s.slots[i].slot < next
  }

  /** An enabled rule will next run at a slot it has not enqueued yet. */
  ghost predicate Ahead(s: System) {
    && (forall r :: r in s.t.rules && s.t.rules[r].enabled && s.t.rules[r].nextRunAt.Some? ==>
          AllBefore(s, r, s.t.rules[r].nextRunAt.value))
    && (forall i :: 0 <= i < |s.slots| ==> s.slots[i].slot <= s.clock)
  }

  /** A rule edit reads the rule and computes its next slot first, and writes later. It is fresh
      when what it writes still lies after every slot enqueued meanwhile, or disables the rule. */
  ghost predicate EditFresh(s: System, stmt: Stmt) {
    stmt.EditRule? && stmt.enabled ==> AllBefore(s, stmt.rule, stmt.next)
  }

  ghost predicate FreshEdits(s: System, steps: seq<Step>)
    decreases |steps|
  {
    steps == [] ||
    ((steps[0].Sql? ==> EditFresh(s, steps[0].stmt)) && FreshEdits(Next(s, steps[0]), steps[1..]))
  }

  lemma StepKeepsSchedule(s: System, step: Step)
    requires Allowed(s, step) && Ahead(s) && SlotsIncrease(s)
    requires step.Sql? ==> EditFresh(s, step.stmt)
    ensures Ahead(Next(s, step)) && SlotsIncrease(Next(s, step))
  {
    var u := Next(s, step);
    forall r | r in u.t.rules && u.t.rules[r].enabled && u.t.rules[r].nextRunAt.Some?
      ensures AllBefore(u, r, u.t.rules[r].nextRunAt.value)
    {
      RuleStays(s, step, r);
    }
  }

  lemma RuleStays(s: System, step: Step, r: RuleId)
    requires Allowed(s, step) && Ahead(s) && (step.Sql? ==> EditFresh(s, step.stmt))
    requires var u := Next(s, step); r in u.t.rules && u.t.rules[r].enabled && u.t.rules[r].nextRunAt.Some?
    ensures AllBefore(Next(s, step), r, Next(s, step).t.rules[r].nextRunAt.value)
  {
    NextSlots(s, step);
    if step.Sql? {
      NextTables(s, step);
      RuleMoves(s.t, step.stmt, r);
    }
  }

  /** How the next slot of a rule comes about. */
  lemma RuleMoves(t: Tables, stmt: Stmt, r: RuleId)
    requires r in Exec(t, stmt).rules
    ensures var now := Exec(t, stmt).rules[r];
            || (r in t.rules && now.enabled == t.rules[r].enabled && now.nextRunAt == t.rules[r].nextRunAt
                && !(stmt.EnqueueRule? && stmt.rule == r && stmt.trigger.Schedule? && Inserts(t, stmt)))
            || (stmt.CreateRule? && stmt.rule == r)
            || (stmt.EditRule? && stmt.rule == r && now.enabled == stmt.enabled && now.nextRunAt == Some(stmt.next))
            || (stmt.EnqueueRule? && stmt.rule == r && stmt.trigger.Schedule? && Due(t, r, stmt.scheduledFor, stmt.now)
                && now.nextRunAt == Some(stmt.next) && now.enabled == t.rules[r].enabled)
  {
  }

  lemma {:induction false} RunKeepsSchedule(s: System, steps: seq<Step>)
    requires AllowedRun(s, steps) && FreshEdits(s, steps) && Ahead(s) && SlotsIncrease(s)
    ensures Ahead(After(s, steps)) && SlotsIncrease(After(s, steps))
    decreases |steps|
  {
    if steps != [] {
      StepKeepsSchedule(s, steps[0]);
      RunKeepsSchedule(Next(s, steps[0]), steps[1..]);
    }
  }

  /** Over every run of ticks, edits, deletes, manual runs and clean-ups whose edits are fresh,
      the slots enqueued for each rule strictly increase. */
  lemma SlotsIncreaseOverRuns(steps: seq<Step>)
    requires AllowedRun(INIT, steps) && FreshEdits(INIT, steps)
    ensures SlotsIncrease(After(INIT, steps))
  {
    RunKeepsSchedule(INIT, steps);
  }

  lemma {:induction false} NoEditsAreFresh(s: System, steps: seq<Step>)
    requires forall k :: 0 <= k < |steps| ==> steps[k].Sql? ==> !steps[k].stmt.EditRule?
    ensures FreshEdits(s, steps)
    decreases |steps|
  {
    if steps != [] {
      assert steps[0].Sql? ==> !steps[0].stmt.EditRule?;
      NoEditsAreFresh(Next(s, steps[0]), steps[1..]);
    }
  }

  // ------------------------------------------------------------------ freshness in the tables

  /** A slot of an existing rule has its lineage row. */
  predicate SlotHasRow(s: System, i: nat) {
    i < |s.slots| && s.slots[i].rule in s.t.rules ==>
      var e := s.slots[i];
      e.job in s.t.lineage && s.t.lineage[e.job] == Lineage(e.rule, Some(e.slot), Schedule)
  }

  /** No slot is enqueued before its time. */
  predicate SlotPast(s: System, i: nat) { i < |s.slots| ==> s.slots[i].slot <= s.clock }

  predicate IsSlot(s: System, e: SlotEvent) { exists i :: 0 <= i < |s.slots| && s.slots[i] == e }

  /** A scheduled lineage row is a slot that was enqueued. */
  predicate RowIsSlot(s: System, j: JobId) {
    j in s.t.lineage && s.t.lineage[j].trigger.Schedule? ==>
      var l := s.t.lineage[j];
      l.scheduledFor.Some? && IsSlot(s, SlotEvent(l.rule, l.scheduledFor.value, j))
  }

  ghost predicate Recorded(s: System) {
    (forall i :: SlotHasRow(s, i)) && (forall i :: SlotPast(s, i)) && (forall j :: RowIsSlot(s, j))
  }

  /** Which statements touch lineage rows, and how. */
  lemma LineageMoves(t: Tables, stmt: Stmt, j: JobId)
    ensures var u := Exec(t, stmt);
            j in u.lineage ==>
              || (j in t.lineage && u.lineage[j] == t.lineage[j] && (stmt.DeleteRule? ==> t.lineage[j].rule != stmt.rule))
              || (stmt.EnqueueRule? && Inserts(t, stmt) && stmt.job == j
                  && u.lineage[j] == Lineage(stmt.rule, stmt.scheduledFor, stmt.trigger))
  {
  }

  lemma LineageStays(t: Tables, stmt: Stmt, j: JobId)
    requires j in t.lineage && t.lineage[j].rule in Exec(t, stmt).rules && j in t.jobs && WellCalled(t, stmt)
    ensures j in Exec(t, stmt).lineage && Exec(t, stmt).lineage[j] == t.lineage[j]
  {
  }

  lemma NextSlots(s: System, step: Step)
    ensures var u := Next(s, step);
            if step.Sql? && step.stmt.EnqueueRule? && step.stmt.trigger.Schedule? && Inserts(s.t, step.stmt)
            then u.slots == s.slots + [SlotEvent(step.stmt.rule, step.stmt.scheduledFor.value, step.stmt.job)]
            else u.slots == s.slots
  {
  }

  lemma StepKeepsRow(s: System, step: Step, j: JobId)
    requires Allowed(s, step) && RowIsSlot(s, j)
    ensures RowIsSlot(Next(s, step), j)
  {
    var u := Next(s, step);
    NextSlots(s, step);
    if j in u.t.lineage && u.t.lineage[j].trigger.Schedule? {
      if step.Sql? {
        NextTables(s, step);
        LineageMoves(s.t, step.stmt, j);
      }
      SlotsGrow(s, u, u.t.lineage[j], j);
    }
  }

  lemma SlotsGrow(s: System, u: System, l: Lineage, j: JobId)
    requires l.scheduledFor.Some? && s.slots <= u.slots
    ensures IsSlot(s, SlotEvent(l.rule, l.scheduledFor.value, j)) ==> IsSlot(u, SlotEvent(l.rule, l.scheduledFor.value, j))
    ensures |s.slots| < |u.slots| && u.slots[|s.slots|] == SlotEvent(l.rule, l.scheduledFor.value, j) ==>
              IsSlot(u, SlotEvent(l.rule, l.scheduledFor.value, j))
  {
    if i :| 0 <= i < |s.slots| && s.slots[i] == SlotEvent(l.rule, l.scheduledFor.value, j) {
      assert u.slots[i] == s.slots[i];
    }
  }

  /** A rule that appears is new, and has no slots. */
  lemma RulesAppear(t: Tables, stmt: Stmt, r: RuleId)
    requires r in Exec(t, stmt).rules
    ensures r in t.rules || (stmt.CreateRule? && stmt.rule == r)
  {
  }

  lemma StepKeepsSlot(s: System, step: Step, i: nat)
    requires Allowed(s, step) && SlotHasRow(s, i) && LinksOk(s.t)
    ensures SlotHasRow(Next(s, step), i)
  {
    var u := Next(s, step);
    NextSlots(s, step);
    if i < |u.slots| && u.slots[i].rule in u.t.rules && step.Sql? {
      NextTables(s, step);
      if i < |s.slots| {
        RulesAppear(s.t, step.stmt, s.slots[i].rule);
        assert LineageOk(s.t, s.slots[i].job);
        LineageStays(s.t, step.stmt, s.slots[i].job);
      }
    }
  }

  lemma StepKeepsPast(s: System, step: Step, i: nat)
    requires Allowed(s, step) && SlotPast(s, i)
    ensures SlotPast(Next(s, step), i)
  {
    NextSlots(s, step);
    assert s.clock <= Next(s, step).clock;
  }

  lemma {:induction false} RunKeepsRecorded(s: System, steps: seq<Step>)
    requires AllowedRun(s, steps) && Inv(s) && Recorded(s)
    ensures Recorded(After(s, steps))
    decreases |steps|
  {
    if steps != [] {
      var u := Next(s, steps[0]);
      forall i ensures SlotHasRow(u, i) { StepKeepsSlot(s, steps[0], i); }
      forall i ensures SlotPast(u, i) { StepKeepsPast(s, steps[0], i); }
      forall j ensures RowIsSlot(u, j) { StepKeepsRow(s, steps[0], j); }
      StepKeepsInv(s, steps[0]);
      RunKeepsRecorded(u, steps[1..]);
    }
  }

  /** Every scheduled run of the rule that the lineage table knows lies before `next`. */
  ghost predicate RowsBefore(t: Tables, rule: RuleId, next: Time) {
    forall j :: j in t.lineage && t.lineage[j].rule == rule && t.lineage[j].trigger.Schedule? && t.lineage[j].scheduledFor.Some? ==>
      t.lineage[j].scheduledFor.value < next
  }

  /** Freshness is visible in the tables: in every reachable state an edit of an existing rule is fresh
      if and only if it disables the rule or its slot lies after every scheduled lineage row of the
      rule. A slot still in the future always does. */
  lemma FreshByRows(steps: seq<Step>, e: Stmt)
    requires AllowedRun(INIT, steps) && e.EditRule? && e.rule in After(INIT, steps).t.rules
    ensures var s := After(INIT, steps);
            && (EditFresh(s, e) <==> (e.enabled ==> RowsBefore(s.t, e.rule, e.next)))
            && (s.clock < e.next ==> EditFresh(s, e))
  {
    var s := After(INIT, steps);
    Reachable([]);
    RunKeepsRecorded(INIT, steps);
    if s.clock < e.next {
      forall i | 0 <= i < |s.slots| && s.slots[i].rule == e.rule ensures s.slots[i].slot < e.next {
        assert SlotPast(s, i);
      }
    }
    if AllBefore(s, e.rule, e.next) {
      forall j | j in s.t.lineage && s.t.lineage[j].rule == e.rule && s.t.lineage[j].trigger.Schedule? && s.t.lineage[j].scheduledFor.Some?
        ensures s.t.lineage[j].scheduledFor.value < e.next
      {
        assert RowIsSlot(s, j);
      }
    }
    if RowsBefore(s.t, e.rule, e.next) {
      forall i | 0 <= i < |s.slots| && s.slots[i].rule == e.rule ensures s.slots[i].slot < e.next {
        assert SlotHasRow(s, i);
      }
    }
  }

  function Tick(rule: RuleId, slot: Time, job: JobId, now: Time): Step {
    Sql(EnqueueRule(rule, Some(slot), Schedule, job, now, now + 1))
  }

  /** A tick enqueues a due slot whose key is free. */
  lemma TickEnqueues(u: System, rule: RuleId, slot: Time, job: JobId)
    requires rule in u.t.rules && u.t.rules[rule].enabled && u.t.rules[rule].nextRunAt == Some(slot)
    requires slot <= u.clock && !KeyTaken(u.t, SlotKey(rule, slot))
    requires job !in u.t.jobs
    ensures Allowed(u, Tick(rule, slot, job, u.clock))
    ensures Next(u, Tick(rule, slot, job, u.clock)).slots == u.slots + [SlotEvent(rule, slot, job)]
    ensures rule in Next(u, Tick(rule, slot, job, u.clock)).t.rules
  {
  }

  /** Clean-up of the job that holds a key frees the key and nothing else. */
  lemma FreeKey(u: System, key: Key, fallback: JobId) returns (clear: Step)
    requires LinksOk(u.t) && fallback !in u.t.jobs
    ensures clear.Sql? && clear.stmt.ClearStorage? && Allowed(u, clear)
    ensures var v := Next(u, clear);
            && !KeyTaken(v.t, key) && v.t.jobs.Keys == u.t.jobs.Keys && v.clock == u.clock && v.slots == u.slots
            && v.t.rules == u.t.rules
    ensures forall j :: j in u.t.jobs && u.t.jobs[j].key == Some(key) ==> clear == Sql(ClearStorage(j))
  {
    var holder := if KeyTaken(u.t, key) then (var j :| j in u.t.jobs && u.t.jobs[j].key == Some(key); j) else fallback;
    clear := Sql(ClearStorage(holder));
    var v := Next(u, clear);
    forall j | j in v.t.jobs ensures v.t.jobs[j].key != Some(key) {
      assert KeysDiffer(u.t, holder, j);
    }
    forall j | j in u.t.jobs && u.t.jobs[j].key == Some(key) ensures j == holder {
      assert KeysDiffer(u.t, holder, j);
    }
  }

  /** The slot of an edited rule is enqueued again: its key is freed if a job still has it, the clock
      reaches the slot, and the scheduler ticks. */
  lemma Replay(u: System, e: Stmt) returns (steps: seq<Step>, job: JobId)
    requires e.EditRule? && e.rule in u.t.rules && LinksOk(u.t)
    requires u.t.rules[e.rule].enabled && u.t.rules[e.rule].nextRunAt == Some(e.next)
    ensures AllowedRun(u, steps) && FreshEdits(u, steps)
    ensures After(u, steps).slots == u.slots + [SlotEvent(e.rule, e.next, job)]
    ensures forall j :: j in u.t.jobs && u.t.jobs[j].key == Some(SlotKey(e.rule, e.next)) ==> Sql(ClearStorage(j)) in steps
    ensures job !in u.t.jobs
  {
    job := FreshId(u.t.jobs.Keys);
    var clear := FreeKey(u, SlotKey(e.rule, e.next), job);
    var wait := Advance(Max(u.clock, e.next));
    Extend(u, [], clear);
    Extend(u, [] + [clear], wait);
    var u2 := Next(Next(u, clear), wait);
    TickEnqueues(u2, e.rule, e.next, job);
    Extend(u, [] + [clear] + [wait], Tick(e.rule, e.next, job, u2.clock));
    steps := [] + [clear] + [wait] + [Tick(e.rule, e.next, job, u2.clock)];
    assert steps[0] == clear;
    NoEditsAreFresh(u, steps);
  }

  /** The slots stay increasing in every continuation with fresh edits if and only if this edit
      is fresh. The edit handler does not check it: it writes what it computed before. */
  lemma EditIsSafeExactlyWhenFresh(s: System, e: Stmt)
    requires Inv(s) && Ahead(s) && SlotsIncrease(s)
    requires e.EditRule? && e.rule in s.t.rules && Allowed(s, Sql(e))
    ensures EditFresh(s, e) <==>
            var u := Next(s, Sql(e));
            forall steps :: AllowedRun(u, steps) && FreshEdits(u, steps) ==> SlotsIncrease(After(u, steps))
  {
    var u := Next(s, Sql(e));
    if EditFresh(s, e) {
      StepKeepsSchedule(s, Sql(e));
      forall steps | AllowedRun(u, steps) && FreshEdits(u, steps) ensures SlotsIncrease(After(u, steps)) {
        RunKeepsSchedule(u, steps);
      }
    } else {
      var i :| 0 <= i < |s.slots| && s.slots[i].rule == e.rule && e.next <= s.slots[i].slot;
      StepKeepsInv(s, Sql(e));
      var steps, _ := Replay(u, e);
      var v := After(u, steps);
      assert v.slots[i] == s.slots[i] && v.slots[|s.slots|].slot == e.next;
      assert !SlotsIncrease(v);
    }
  }

  lemma FirstRule(create: Step, wait: Step)
    requires create == Sql(CreateRule(3, true, 10)) && wait == Advance(20)
    ensures Allowed(INIT, create) && Allowed(Next(INIT, create), wait)
    ensures var u := Next(Next(INIT, create), wait);
            && u.t.rules == map[3 := Rule(true, Some(10), None, None)] && u.t.jobs == map[] && u.slots == [] && u.clock == 20
  {
  }

  lemma RuleRuns() returns (steps: seq<Step>)
    ensures AllowedRun(INIT, steps) && FreshEdits(INIT, steps)
    ensures var u := After(INIT, steps);
            3 in u.t.rules && u.slots == [SlotEvent(3, 10, 1)] && 0 <= u.clock && KeyHeld(u, 0)
  {
    var create, wait := Sql(CreateRule(3, true, 10)), Advance(20);
    FirstRule(create, wait);
    var u2 := Next(Next(INIT, create), wait);
    Extend(INIT, [], create);
    Extend(INIT, [] + [create], wait);
    TickEnqueues(u2, 3, 10, 1);
    NewSlotHoldsKey(u2, Tick(3, 10, 1, 20));
    Extend(INIT, [] + [create] + [wait], Tick(3, 10, 1, 20));
    steps := [] + [create] + [wait] + [Tick(3, 10, 1, 20)];
    NoEditsAreFresh(INIT, steps);
  }

  /** A stale edit exists: rule 3 is scheduled for 10, an edit computes slot 5 at time 0, the
      scheduler enqueues slot 10, then the edit is written and slot 5 is enqueued after slot 10. */
  lemma StaleEditReordersSlots()
    ensures exists steps :: AllowedRun(INIT, steps) && !SlotsIncrease(After(INIT, steps))
  {
    var run := RuleRuns();
    var s, e := After(INIT, run), EditRule(3, true, 0, 5);
    Reachable(run);
    RunKeepsSchedule(INIT, run);
    assert s.slots[0].rule == 3 && !AllBefore(s, 3, 5);
    EditIsSafeExactlyWhenFresh(s, e);
    var u := Next(s, Sql(e));
    var rest :| AllowedRun(u, rest) && FreshEdits(u, rest) && !SlotsIncrease(After(u, rest));
    Extend(INIT, run, Sql(e));
    RunSplit(INIT, run + [Sql(e)], rest);
    assert AllowedRun(INIT, run + [Sql(e)] + rest);
  }

  // ------------------------------------------------------------------ one job per slot

  /** The job of slot event `i` still holds the idempotency key of its slot. */
  predicate KeyHeld(s: System, i: nat) {
    i < |s.slots| && var e := s.slots[i]; e.job in s.t.jobs && s.t.jobs[e.job].key == Some(SlotKey(e.rule, e.slot))
  }

  predicate SameSlot(a: SlotEvent, b: SlotEvent) { a.rule == b.rule && a.slot == b.slot }

  /** Only a clean-up of the job takes its key. */
  lemma KeyStays(t: Tables, stmt: Stmt, j: JobId)
    requires j in t.jobs && WellCalled(t, stmt) && stmt != ClearStorage(j)
    ensures j in Exec(t, stmt).jobs && Exec(t, stmt).jobs[j].key == t.jobs[j].key
  {
  }

  lemma StepKeepsKey(s: System, step: Step, i: nat)
    requires Allowed(s, step) && KeyHeld(s, i) && step != Sql(ClearStorage(s.slots[i].job))
    ensures KeyHeld(Next(s, step), i) && Next(s, step).slots[i] == s.slots[i]
    ensures var u := Next(s, step);
            |s.slots| < |u.slots| ==> |u.slots| == |s.slots| + 1 && !SameSlot(s.slots[i], u.slots[|s.slots|])
  {
    NextSlots(s, step);
    if step.Sql? {
      NextTables(s, step);
      KeyStays(s.t, step.stmt, s.slots[i].job);
    } else {
      assert Next(s, step).t == s.t;
    }
  }

  lemma NewSlotHoldsKey(s: System, step: Step)
    requires Allowed(s, step) && |s.slots| < |Next(s, step).slots|
    ensures KeyHeld(Next(s, step), |s.slots|) && |Next(s, step).slots| == |s.slots| + 1
  {
    NextSlots(s, step);
    NextTables(s, step);
  }

  lemma {:induction false} SlotsExtend(s: System, steps: seq<Step>)
    ensures s.slots <= After(s, steps).slots
    decreases |steps|
  {
    if steps != [] {
      NextSlots(s, steps[0]);
      SlotsExtend(Next(s, steps[0]), steps[1..]);
    }
  }

  /** Step `n` of the run cleans up the job, after slot event `i` and before slot event `k`. */
  ghost predicate CleanedBetween(s: System, steps: seq<Step>, n: nat, job: JobId, i: int, k: nat) {
    n < |steps| && steps[n] == Sql(ClearStorage(job)) && i < |After(s, steps[..n]).slots| <= k
  }

  lemma LaterStep(s: System, steps: seq<Step>, n: nat, job: JobId, i: int, k: nat)
    requires steps != [] && CleanedBetween(Next(s, steps[0]), steps[1..], n, job, i, k)
    ensures CleanedBetween(s, steps, n + 1, job, i, k)
  {
    assert steps[..n + 1][0] == steps[0] && steps[..n + 1][1..] == steps[1..][..n];
  }

  /** While the key is held, the slot is enqueued again only after a clean-up of its job. */
  lemma {:induction false} HeldUntilCleaned(s: System, steps: seq<Step>, i: nat, k: nat)
    requires AllowedRun(s, steps) && KeyHeld(s, i) && |s.slots| <= k < |After(s, steps).slots|
    requires SameSlot(s.slots[i], After(s, steps).slots[k])
    ensures exists n: nat :: CleanedBetween(s, steps, n, s.slots[i].job, i, k)
    decreases |steps|
  {
    var u := Next(s, steps[0]);
    if steps[0] == Sql(ClearStorage(s.slots[i].job)) {
      assert steps[..0] == [];
      assert CleanedBetween(s, steps, 0, s.slots[i].job, i, k);
    } else {
      StepKeepsKey(s, steps[0], i);
      SlotsExtend(u, steps[1..]);
      HeldUntilCleaned(u, steps[1..], i, k);
      var n: nat :| CleanedBetween(u, steps[1..], n, s.slots[i].job, i, k);
      LaterStep(s, steps, n, s.slots[i].job, i, k);
    }
  }

  lemma {:induction false} CleanedFrom(s: System, steps: seq<Step>, i: nat, k: nat)
    requires AllowedRun(s, steps) && |s.slots| <= i < k < |After(s, steps).slots|
    requires SameSlot(After(s, steps).slots[i], After(s, steps).slots[k])
    ensures exists n: nat :: CleanedBetween(s, steps, n, After(s, steps).slots[i].job, i, k)
    decreases |steps|
  {
    var u, z := Next(s, steps[0]), After(s, steps).slots;
    NextSlots(s, steps[0]);
    SlotsExtend(u, steps[1..]);
    if i < |u.slots| {
      NewSlotHoldsKey(s, steps[0]);
      HeldUntilCleaned(u, steps[1..], i, k);
    } else {
      CleanedFrom(u, steps[1..], i, k);
    }
    var n: nat :| CleanedBetween(u, steps[1..], n, z[i].job, i, k);
    LaterStep(s, steps, n, z[i].job, i, k);
  }

  /** At most one job per slot, over every run, whatever edits do: if a slot of a rule was enqueued
      twice, the first job was cleaned up in between, which gave its idempotency key away. */
  lemma OneJobPerSlot(steps: seq<Step>, i: nat, k: nat)
    requires AllowedRun(INIT, steps) && i < k < |After(INIT, steps).slots|
    requires SameSlot(After(INIT, steps).slots[i], After(INIT, steps).slots[k])
    ensures exists n: nat :: CleanedBetween(INIT, steps, n, After(INIT, steps).slots[i].job, i, k)
  {
    CleanedFrom(INIT, steps, i, k);
  }

  ghost predicate Repeats(s: System, steps: seq<Step>, i: nat) {
    && i < |s.slots|
    && exists k :: |s.slots| <= k < |After(s, steps).slots| && SameSlot(s.slots[i], After(s, steps).slots[k])
  }

  /** The clean-up is needed and enough. From every reachable state, for every slot whose rule is still
      there and whose job still holds the key: no continuation without a clean-up of that job
      enqueues the slot again, not even one that edits the rule back to it; and some continuation with
      such an edit and a clean-up does, with another job. */
  lemma SecondJobExactlyAfterCleanUp(run: seq<Step>, i: nat)
    requires AllowedRun(INIT, run) && KeyHeld(After(INIT, run), i)
    requires After(INIT, run).slots[i].rule in After(INIT, run).t.rules
    ensures var s := After(INIT, run); var clean := Sql(ClearStorage(s.slots[i].job));
            && (forall steps :: AllowedRun(s, steps) && Repeats(s, steps, i) ==> clean in steps)
            && (exists steps :: AllowedRun(s, steps) && Repeats(s, steps, i) && clean in steps)
  {
    var s := After(INIT, run);
    var clean := Sql(ClearStorage(s.slots[i].job));
    forall steps | AllowedRun(s, steps) && Repeats(s, steps, i) ensures clean in steps {
      var k :| |s.slots| <= k < |After(s, steps).slots| && SameSlot(s.slots[i], After(s, steps).slots[k]);
      HeldUntilCleaned(s, steps, i, k);
    }
    var steps := EditAndReplay(run, i);
  }

  /** An edit back to an enqueued slot, and the slot replayed. */
  lemma EditAndReplay(run: seq<Step>, i: nat) returns (steps: seq<Step>)
    requires AllowedRun(INIT, run) && KeyHeld(After(INIT, run), i)
    requires After(INIT, run).slots[i].rule in After(INIT, run).t.rules
    ensures var s := After(INIT, run);
            && AllowedRun(s, steps) && Repeats(s, steps, i) && Sql(ClearStorage(s.slots[i].job)) in steps
            && |After(s, steps).slots| == |s.slots| + 1 && After(s, steps).slots[|s.slots|].job != s.slots[i].job
  {
    var s := After(INIT, run);
    var slot := s.slots[i];
    Reachable([]);
    RunKeepsRecorded(INIT, run);
    assert SlotPast(s, i);
    var e := EditRule(slot.rule, true, slot.slot - 1, slot.slot);
    var edit := Sql(e);
    Reachable(run);
    StepKeepsInv(s, edit);
    StepKeepsKey(s, edit, i);
    var u := Next(s, edit);
    var rest, job := Replay(u, e);
    steps := [edit] + rest;
    assert steps[1..] == rest;
    assert After(s, steps) == After(u, rest);
    assert After(s, steps).slots[|s.slots|] == SlotEvent(slot.rule, slot.slot, job);
  }

  /** A concrete run enqueues slot 10 of rule 3 twice, for two jobs. */
  lemma SlotEnqueuedTwice()
    ensures exists steps :: AllowedRun(INIT, steps) &&
              var z := After(INIT, steps).slots;
              |z| == 2 && z[0] == SlotEvent(3, 10, 1) && SameSlot(z[0], z[1]) && z[1].job != z[0].job
  {
    var run := RuleRuns();
    var s := After(INIT, run);
    var rest := EditAndReplay(run, 0);
    RunSplit(INIT, run, rest);
    SlotsExtend(s, rest);
    assert AllowedRun(INIT, run + rest);
  }

  lemma FinishDigest(t: Tables, stmt: Stmt, r: RuleId)
    requires stmt.Finish? && r in t.rules
    ensures var u := Exec(t, stmt);
            && r in u.rules
            && (u.rules[r].lastDigest != t.rules[r].lastDigest ==>
                  && stmt.status.Completed? && Finishes(t, stmt)
                  && stmt.job in t.lineage && t.lineage[stmt.job].rule == r
                  && u.rules[r].lastDigest == t.jobs[stmt.job].resolvedDigest)
  {
  }

  lemma OtherDigest(t: Tables, stmt: Stmt, r: RuleId)
    requires !stmt.Finish? && r in t.rules && WellCalled(t, stmt)
    ensures var u := Exec(t, stmt); r in u.rules ==> u.rules[r].lastDigest == t.rules[r].lastDigest
  {
  }

  /** A rule's last digest changes only when a job of that rule completes, and then to the digest
      that job resolved. */
  lemma DigestComesFromOwnJob(s: System, step: Step, r: RuleId)
    requires Allowed(s, step) && r in s.t.rules && r in Next(s, step).t.rules
    ensures Next(s, step).t.rules[r].lastDigest != s.t.rules[r].lastDigest ==>
              && step.Sql? && step.stmt.Finish? && step.stmt.status.Completed?
              && Finishes(s.t, step.stmt)
              && step.stmt.job in s.t.lineage && s.t.lineage[step.stmt.job].rule == r
              && Next(s, step).t.rules[r].lastDigest == s.t.jobs[step.stmt.job].resolvedDigest
  {
    if step.Sql? {
      NextTables(s, step);
      if step.stmt.Finish? { FinishDigest(s.t, step.stmt, r); } else { OtherDigest(s.t, step.stmt, r); }
    }
  }

  lemma NextTables(s: System, step: Step)
    requires step.Sql?
    ensures Next(s, step).t == Exec(s.t, step.stmt)
  {
  }
}
