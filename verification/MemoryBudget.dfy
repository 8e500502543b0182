/** Stream memory: every stream has its own byte budget and all streams share a global one. A
    reservation takes local bytes, then global bytes, is shared by clones and queued frames, and
    gives everything back when the last of them goes. */
module MemoryBudget {
  import opened Collections

  type StreamId = nat
  type LeaseId = nat

  const STREAM_BYTES: nat := 64 * 1024 * 1024
  const GLOBAL_BYTES: nat := 256 * 1024 * 1024

  /** How far a reservation is: local bytes only, fully held by `refs` clones and frames, or local
      bytes given back and global ones about to be. */
  datatype Stage = LocalOnly | Held(refs: nat) | Returning

  datatype Lease = Lease(stream: StreamId, bytes: nat, stage: Stage)

  datatype Memory = Memory(available: nat, streams: map<StreamId, nat>, leases: map<LeaseId, Lease>)

  datatype Step =
    | Open(stream: StreamId)
    | AcquireLocal(lease: LeaseId, stream: StreamId, bytes: nat)
    | AcquireGlobal(lease: LeaseId)
    | Abandon(lease: LeaseId)        // the pending acquisition is dropped
    | Clone(lease: LeaseId)          // another handle or queued frame
    | DropRef(lease: LeaseId)        // a handle or frame goes
    | ReturnGlobal(lease: LeaseId)

  const INIT := Memory(GLOBAL_BYTES, map[], map[])

  predicate InStage(m: Memory, l: LeaseId, local: bool) {
    l in m.leases && (if local then m.leases[l].stage.LocalOnly? else m.leases[l].stage.Held?)
  }

  /** Requests above the per-stream budget are refused before they wait. */
  predicate Enabled(m: Memory, s: Step) {
    match s
    case Open(sid) => sid !in m.streams
    case AcquireLocal(l, sid, bytes) =>
      l !in m.leases && sid in m.streams && bytes <= STREAM_BYTES && bytes <= m.streams[sid]
    case AcquireGlobal(l) => InStage(m, l, true) && m.leases[l].bytes <= m.available
    case Abandon(l) => InStage(m, l, true) && m.leases[l].stream in m.streams
    case Clone(l) => InStage(m, l, false)
    case DropRef(l) => InStage(m, l, false) && m.leases[l].stage.refs > 0 && m.leases[l].stream in m.streams
    case ReturnGlobal(l) => l in m.leases && m.leases[l].stage.Returning?
  }

  function Next(m: Memory, s: Step): Memory
    requires Enabled(m, s)
  {
    match s
    case Open(sid) => m.(streams := m.streams[sid := STREAM_BYTES])
    case AcquireLocal(l, sid, bytes) =>
      m.(streams := m.streams[sid := m.streams[sid] - bytes], leases := m.leases[l := Lease(sid, bytes, LocalOnly)])
    case AcquireGlobal(l) =>
      m.(available := m.available - m.leases[l].bytes, leases := m.leases[l := m.leases[l].(stage := Held(1))])
    case Abandon(l) =>
      var x := m.leases[l];
      m.(streams := m.streams[x.stream := m.streams[x.stream] + x.bytes], leases := m.leases - {l})
    case Clone(l) => m.(leases := m.leases[l := m.leases[l].(stage := Held(m.leases[l].stage.refs + 1))])
    case DropRef(l) =>
      var x := m.leases[l];
      if x.stage.refs > 1 then m.(leases := m.leases[l := x.(stage := Held(x.stage.refs - 1))])
      else m.(streams := m.streams[x.stream := m.streams[x.stream] + x.bytes], leases := m.leases[l := x.(stage := Returning)])
    case ReturnGlobal(l) => m.(available := m.available + m.leases[l].bytes, leases := m.leases - {l})
  }

  ghost predicate Run(m: Memory, steps: seq<Step>, end: Memory)
    decreases |steps|
  {
    if steps == [] then m == end else Enabled(m, steps[0]) && Run(Next(m, steps[0]), steps[1..], end)
  }

  // --------------------------------------------------------------------- accounting

  function GlobalShare(x: Lease): nat { if x.stage.LocalOnly? then 0 else x.bytes }

  function LocalShare(x: Lease, sid: StreamId): nat { if x.stage.Returning? || x.stream != sid then 0 else x.bytes }

  function GlobalShares(m: Memory): map<LeaseId, nat> { map l | l in m.leases :: GlobalShare(m.leases[l]) }

  function LocalShares(m: Memory, sid: StreamId): map<LeaseId, nat> { map l | l in m.leases :: LocalShare(m.leases[l], sid) }

  ghost predicate StreamExact(m: Memory, sid: StreamId) {
    sid in m.streams ==> m.streams[sid] + Total(LocalShares(m, sid)) == STREAM_BYTES
  }

  ghost predicate LeaseOk(m: Memory, l: LeaseId) {
    l in m.leases ==>
      && m.leases[l].stream in m.streams && m.leases[l].bytes <= STREAM_BYTES
      && (m.leases[l].stage.Held? ==> m.leases[l].stage.refs >= 1)
  }

  ghost predicate Inv(m: Memory) {
    && m.available + Total(GlobalShares(m)) == GLOBAL_BYTES
    && (forall sid :: StreamExact(m, sid))
    && (forall l :: LeaseOk(m, l))
  }

  lemma GlobalMoves(m: Memory, s: Step)
    requires Enabled(m, s) && m.available + Total(GlobalShares(m)) == GLOBAL_BYTES
    ensures var n := Next(m, s); n.available + Total(GlobalShares(n)) == GLOBAL_BYTES
  {
    var n := Next(m, s);
    if !s.Open? {
      var l := s.lease;
      if l in n.leases {
        TotalPut(GlobalShares(m), l, GlobalShare(n.leases[l]));
        assert GlobalShares(n) == GlobalShares(m)[l := GlobalShare(n.leases[l])];
      } else {
        TotalSplit(GlobalShares(m), l);
        assert GlobalShares(n) == GlobalShares(m) - {l};
      }
    } else {
      assert GlobalShares(n) == GlobalShares(m);
    }
  }

  lemma LocalMoves(m: Memory, s: Step, sid: StreamId)
    requires Enabled(m, s) && StreamExact(m, sid) && (forall l :: LeaseOk(m, l))
    ensures StreamExact(Next(m, s), sid)
  {
    if s.Open? { OpenIsEmpty(m, s, sid); } else { LeaseMoves(m, s, sid); }
  }

  lemma LeaseMoves(m: Memory, s: Step, sid: StreamId)
    requires !s.Open? && Enabled(m, s) && StreamExact(m, sid) && LeaseOk(m, s.lease)
    ensures StreamExact(Next(m, s), sid)
  {
    var n, l := Next(m, s), s.lease;
    SharesMove(m, s, sid);
    if l in n.leases {
      TotalPut(LocalShares(m, sid), l, LocalShare(n.leases[l], sid));
    } else {
      TotalSplit(LocalShares(m, sid), l);
    }
  }

  lemma SharesMove(m: Memory, s: Step, sid: StreamId)
    requires !s.Open? && Enabled(m, s)
    ensures var n := Next(m, s);
            && (s.lease !in n.leases ==> s.lease in m.leases)
            && LocalShares(n, sid) == if s.lease in n.leases then LocalShares(m, sid)[s.lease := LocalShare(n.leases[s.lease], sid)]
                                      else LocalShares(m, sid) - {s.lease}
  {
  }

  lemma OpenIsEmpty(m: Memory, s: Step, sid: StreamId)
    requires s.Open? && Enabled(m, s) && StreamExact(m, sid) && (forall l :: LeaseOk(m, l))
    ensures StreamExact(Next(m, s), sid)
  {
    assert LocalShares(Next(m, s), sid) == LocalShares(m, sid);
    if s.stream == sid {
      forall l | l in m.leases ensures LocalShares(m, sid)[l] == 0 {
        assert LeaseOk(m, l);
      }
      TotalZero(LocalShares(m, sid));
    }
  }

  lemma StepKeepsInv(m: Memory, s: Step)
    requires Inv(m) && Enabled(m, s)
    ensures Inv(Next(m, s))
  {
    GlobalMoves(m, s);
    forall sid ensures StreamExact(Next(m, s), sid) { LocalMoves(m, s, sid); }
    forall l ensures LeaseOk(Next(m, s), l) { assert LeaseOk(m, l); }
  }

  lemma {:induction false} RunKeepsInv(m: Memory, steps: seq<Step>, end: Memory)
    requires Inv(m) && Run(m, steps, end)
    ensures Inv(end)
    decreases |steps|
  {
    if steps != [] {
      StepKeepsInv(m, steps[0]);
      RunKeepsInv(Next(m, steps[0]), steps[1..], end);
    }
  }

  /** Conservation over every run: global bytes available and reserved add up to 256 MiB, each stream's
      local bytes to 64 MiB, half-acquired and half-returned reservations included. */
  lemma BytesConserved(steps: seq<Step>, m: Memory)
    requires Run(INIT, steps, m)
    ensures m.available + Total(GlobalShares(m)) == GLOBAL_BYTES
    ensures forall sid :: sid in m.streams ==> m.streams[sid] + Total(LocalShares(m, sid)) == STREAM_BYTES
    ensures forall l :: l in m.leases ==> m.leases[l].stream in m.streams && m.leases[l].bytes <= STREAM_BYTES
    ensures m.leases == map[] ==> m.available == GLOBAL_BYTES && forall sid :: sid in m.streams ==> m.streams[sid] == STREAM_BYTES
  {
    assert Inv(INIT) by { assert GlobalShares(INIT) == map[]; }
    RunKeepsInv(INIT, steps, m);
    forall sid | sid in m.streams ensures m.streams[sid] + Total(LocalShares(m, sid)) == STREAM_BYTES {
      assert StreamExact(m, sid);
    }
    forall l | l in m.leases ensures m.leases[l].stream in m.streams && m.leases[l].bytes <= STREAM_BYTES {
      assert LeaseOk(m, l);
    }
    if m.leases == map[] {
      assert GlobalShares(m) == map[];
      forall sid ensures LocalShares(m, sid) == map[] {}
    }
  }

  /** Handles and frames of one reservation that a run adds or drops. */
  function RefChange(steps: seq<Step>, l: LeaseId): int {
    if steps == [] then 0
    else (if steps[0] == Clone(l) then 1 else if steps[0] == DropRef(l) then -1 else 0) + RefChange(steps[1..], l)
  }

  /** The last handle is never dropped on the way. */
  ghost predicate StaysReferenced(refs: int, steps: seq<Step>, l: LeaseId) {
    forall k :: 0 <= k <= |steps| ==> refs + RefChange(steps[..k], l) >= 1
  }

  /** A reservation is returned exactly when its last handle or frame goes: as long as one is left it
      stays fully held, with as many references as were cloned and not dropped; and the drop of the
      last one gives its local bytes back, and then its global ones. */
  lemma {:induction false} HeldUntilLastRef(m: Memory, steps: seq<Step>, end: Memory, l: LeaseId)
    requires Run(m, steps, end) && InStage(m, l, false)
    requires StaysReferenced(m.leases[l].stage.refs, steps, l)
    ensures InStage(end, l, false)
    ensures end.leases[l].stream == m.leases[l].stream && end.leases[l].bytes == m.leases[l].bytes
    ensures end.leases[l].stage.refs == m.leases[l].stage.refs + RefChange(steps, l)
    ensures Enabled(end, DropRef(l)) && end.leases[l].stage.refs == 1 ==>
              var after := Next(end, DropRef(l)); var sid := m.leases[l].stream;
              && after.leases[l].stage.Returning? && after.streams[sid] == end.streams[sid] + m.leases[l].bytes
              && after.available == end.available && Enabled(after, ReturnGlobal(l))
              && var gone := Next(after, ReturnGlobal(l));
                 l !in gone.leases && gone.available == end.available + m.leases[l].bytes && gone.streams == after.streams
    decreases |steps|
  {
    if steps != [] {
      var n := Next(m, steps[0]);
      assert steps[..1][0] == steps[0] && steps[..1][1..] == [];
      assert RefChange(steps[..1], l) == if steps[0] == Clone(l) then 1 else if steps[0] == DropRef(l) then -1 else 0;
      assert steps[0] == DropRef(l) ==> m.leases[l].stage.refs >= 2;
      assert InStage(n, l, false);
      forall k | 0 <= k <= |steps[1..]| ensures n.leases[l].stage.refs + RefChange(steps[1..][..k], l) >= 1 {
        assert steps[..k + 1][0] == steps[0] && steps[..k + 1][1..] == steps[1..][..k];
        assert m.leases[l].stage.refs + RefChange(steps[..k + 1], l) >= 1;
      }
      HeldUntilLastRef(n, steps[1..], end, l);
    }
  }

  datatype Acquire = Granted | TooLarge | WaitsForStream | WaitsForAll

  /** The shared object behind all streams. */
  class StreamMemory {
    var available: nat
    var streams: map<StreamId, nat>
    var leases: map<LeaseId, Lease>

    constructor ()
      ensures View() == INIT
    {
      available, streams, leases := GLOBAL_BYTES, map[], map[];
    }

    function View(): Memory
      reads this
    {
      Memory(available, streams, leases)
    }

    /** An acquisition polled once: it takes local bytes, then global ones, and keeps the local ones
        while it waits for the global ones. */
    method PollAcquire(lease: LeaseId, stream: StreamId, bytes: nat) returns (r: Acquire)
      requires stream in streams && (lease in leases ==> leases[lease] == Lease(stream, bytes, LocalOnly))
      modifies this
      ensures r.TooLarge? <==> STREAM_BYTES < bytes && lease !in old(leases)
      ensures r.WaitsForStream? <==> lease !in old(leases) && old(streams[stream]) < bytes <= STREAM_BYTES
      ensures r.Granted? <==>
                bytes <= old(available) && (lease in old(leases) || (bytes <= STREAM_BYTES && bytes <= old(streams[stream])))
      ensures r.TooLarge? || r.WaitsForStream? ==> View() == old(View())
      ensures r.WaitsForAll? || r.Granted? ==>
                && (lease !in old(leases) ==> Enabled(old(View()), AcquireLocal(lease, stream, bytes)))
                && var local := if lease in old(leases) then old(View()) else Next(old(View()), AcquireLocal(lease, stream, bytes));
                   if r.WaitsForAll? then View() == local && available < bytes
                   else Enabled(local, AcquireGlobal(lease)) && View() == Next(local, AcquireGlobal(lease))
    {
      if lease !in leases {
        if bytes > STREAM_BYTES { return TooLarge; }
        if bytes > streams[stream] { return WaitsForStream; }
        streams := streams[stream := streams[stream] - bytes];
        leases := leases[lease := Lease(stream, bytes, LocalOnly)];
      }
      if bytes > available { return WaitsForAll; }
      available := available - bytes;
      leases := leases[lease := Lease(stream, bytes, Held(1))];
      r := Granted;
    }

    /** Drops one handle or queued frame; the last one gives back local bytes, then global ones. */
    method DropHandle(lease: LeaseId) returns (last: bool)
      requires lease in leases && leases[lease].stage.Held? && leases[lease].stage.refs > 0
      requires leases[lease].stream in streams
      modifies this
      ensures last <==> old(leases[lease].stage.refs) == 1
      ensures !last ==> View() == Next(old(View()), DropRef(lease))
      ensures last ==>
                var middle := Next(old(View()), DropRef(lease));
                Enabled(middle, ReturnGlobal(lease)) && View() == Next(middle, ReturnGlobal(lease))
    {
      var x := leases[lease];
      last := x.stage.refs == 1;
      if last {
        streams := streams[x.stream := streams[x.stream] + x.bytes];
        available := available + x.bytes;
        leases := leases - {lease};
      } else {
        leases := leases[lease := x.(stage := Held(x.stage.refs - 1))];
      }
    }
  }
}
