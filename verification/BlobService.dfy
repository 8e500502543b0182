/** Whole blob requests, and histories of them over one partial directory. */
module BlobService {
  import opened Collections
  import opened Wire
  import opened Chunking
  import opened Downloads
  import opened Failover
  import opened Relay

  datatype RelayResult = RelayResult(outcome: Outcome, sent: Bytes, admitted: Option<Bytes>)

  /** What a streaming request meets: its first response, what later resumes and parallel ranges
      are offered, and when client or process go away. */
  datatype Stream = Stream(
    first: Response,
    window: Window,
    parallel: Option<nat>,
    attempts: nat -> seq<Reply>,
    resume: nat -> seq<Response>,
    patience: Patience,
    digest: Option<string>,
    admits: bool)

  ghost predicate HonestStream(blob: Bytes, s: Stream) {
    && Honest(blob, true, s.first) && s.window.total == |blob|
    && (forall k :: HonestAll(blob, s.resume(k)))
    && (forall i :: HonestReplies(blob, s.attempts(i)))
  }

  /** A stream as the handler starts it: the window is the first response's, and ranges run in
      parallel only for a whole blob. */
  predicate Started(s: Stream) {
    StreamWindow(s.first) == Some(s.window) && (s.parallel.Some? ==> s.window.Complete())
  }

  predicate DigestMatches(hash: Bytes -> string, data: Bytes, digest: Option<string>) {
    digest.Some? ==> digest.value == "sha256:" + hash(data)
  }

  /** The first response covers its window, and client and process stay for it. */
  predicate CoversWindow(s: Stream) {
    && s.parallel.None? && s.window.start <= s.window.end
    && |Body(s.first)| == s.window.end + 1 - s.window.start && Patient(s.patience, s.first)
  }

  lemma FirstBodyFits(blob: Bytes, s: Stream)
    requires Started(s) && HonestStream(blob, s)
    ensures s.window.Valid() && Body(s.first) <= blob[s.window.start..s.window.end + 1]
  {
    if s.first.status != 206 { assert blob[0..|blob|] == blob; }
  }

  lemma CompleteCut(blob: Bytes, w: Window, p: Progress)
    requires w.Complete() && CutExact(blob, w, p)
    ensures p.file <= blob && p.sent <= p.file
  {
    assert blob[0..|blob|] == blob;
  }

  /** How the relay of a window went: to its end, or not, and then why. */
  datatype Tale =
    | Told
    | ReplayCut
    | NothingContinues
    | Sequential(bodies: seq<Response>, why: SequentialEnd)
    | Ranges(done: nat)

  /** The tale is true of a stream that found `saved` in its partial file. A replay is cut only if the client
      leaves; what is missing after it must be offered exactly; a sequential relay ends for a justified
      reason; parallel ranges end when the client or the process leaves or the next range is not
      answered. */
  ghost predicate True(s: Stream, saved: Bytes, tale: Tale) {
    var w, at := s.window, s.window.start + |saved|;
    match tale
    case Told => true
    case ReplayCut => s.patience.sends < |saved|
    case NothingContinues => saved != [] && at <= w.end && NoneExact(s.resume(0), at, w)
    case Sequential(bodies, why) =>
      && !why.Finished? && s.parallel.None? && bodies != []
      && (if saved == [] then bodies[0] == s.first else Resumes(s.resume(0), at, w, bodies[0]))
      && Chained(w, at, bodies[0], s.resume, bodies)
      && exists q: Patience :: q.life == s.patience.life && s.patience.sends <= q.sends + |saved|
                               && Justified(w, at, q, s.resume, bodies, why)
    case Ranges(done) =>
      && s.parallel.Some?
      && (|| s.patience.sends <= done + |saved|
          || s.patience.life < w.end + 1 - at
          || var next := at + done * Max(s.parallel.value, 1);
             next <= w.end && Unanswered(s.attempts(done), NextRange(w, next, s.parallel.value, done)))
  }

  /** If anything is missing, the response to relay is the first one, or after a replay the one that continues it. */
  ghost predicate Opened(s: Stream, saved: Bytes, response: Option<Response>) {
    s.window.start + |saved| <= s.window.end ==>
      && response.Some?
      && if saved == [] then response.value == s.first
         else Resumes(s.resume(0), s.window.start + |saved|, s.window, response.value)
  }

  /** Replays a saved partial file and opens the response that continues it. */
  method ReplayAndResume(saved: Bytes, s: Stream, ghost blob: Bytes)
    returns (p: Progress, q: Patience, response: Option<Response>, outcome: Outcome, ghost tale: Tale)
    requires Started(s)
    requires if s.window.Complete() then |saved| <= s.window.total else saved == []
    ensures p.file == saved && p.sent <= saved && True(s, saved, tale)
    ensures outcome.Ok? <==> tale.Told?
    ensures outcome.Ok? ==>
              && AtRest(s.window, p) && p.offset == s.window.start + |saved|
              && q.life == s.patience.life && s.patience.sends <= q.sends + |saved|
              && Opened(s, saved, response)
    ensures saved == [] ==> outcome.Ok? && p.offset == s.window.start && response == Some(s.first) && q == s.patience
    ensures HonestStream(blob, s) && saved <= blob && outcome.Ok? ==>
              && Exact(blob, s.window, p)
              && (p.offset <= s.window.end ==> Body(response.value) <= blob[p.offset..s.window.end + 1])
  {
    var w := s.window;
    ghost var honest := HonestStream(blob, s) && saved <= blob;
    if honest { FirstBodyFits(blob, s); }
    p, q, response, outcome, tale := Progress(w.start, [], [], []), s.patience, Some(s.first), Ok, Told;
    if saved != [] {
      p, q, outcome := Replay(w, saved, q, blob);
      if outcome != Ok { return p, q, response, outcome, ReplayCut; }
      response := None;
      if p.offset <= w.end {
        response := ResumeResponse(s.resume(0), p.offset, w);
        if response.None? { outcome, tale := Err(Upstream), NothingContinues; }
      }
    }
  }

  /** Relays what is missing of the window, in parallel ranges or body after body. */
  method RelayRest(p: Progress, q: Patience, response: Option<Response>, s: Stream, ghost saved: Bytes, ghost blob: Bytes)
    returns (p': Progress, outcome: Outcome, ghost tale: Tale)
    requires Started(s) && AtRest(s.window, p) && p.offset == s.window.start + |saved|
    requires q.life == s.patience.life && s.patience.sends <= q.sends + |saved|
    requires Opened(s, saved, response)
    ensures True(s, saved, tale) && (outcome.Ok? <==> tale.Told?)
    ensures outcome.Ok? ==> AtRest(s.window, p') && p'.offset == s.window.end + 1
    ensures CoversWindow(s) && p.offset == s.window.start && response == Some(s.first) && q == s.patience ==>
              outcome.Ok? && p'.file == p.file + Body(s.first)
    ensures HonestStream(blob, s) && Exact(blob, s.window, p) ==>
            (p.offset <= s.window.end ==> Body(response.value) <= blob[p.offset..s.window.end + 1]) ==>
              CutExact(blob, s.window, p') && (outcome.Ok? ==> Exact(blob, s.window, p'))
  {
    var w := s.window;
    p', outcome, tale := p, Ok, Told;
    if Exact(blob, w, p) { ExactIsCut(blob, w, p); }
    if p.offset <= w.end {
      if s.parallel.Some? {
        var q';
        ghost var done;
        p', q', outcome, done := RelayParallelRanges(w, p, s.parallel.value, s.attempts, q, blob);
        if outcome != Ok {
          tale := Ranges(done);
          RangesAreTrue(s, saved, q, outcome, done);
        }
      } else {
        p', outcome, tale := RelayBodies(p, q, response.value, s, saved, blob);
      }
    }
  }

  /** Relays what is missing of the window body after body. */
  method RelayBodies(p: Progress, q: Patience, r: Response, s: Stream, ghost saved: Bytes, ghost blob: Bytes)
    returns (p': Progress, outcome: Outcome, ghost tale: Tale)
    requires AtRest(s.window, p) && p.offset == s.window.start + |saved| <= s.window.end
    requires q.life == s.patience.life && s.patience.sends <= q.sends + |saved|
    requires s.parallel.None? && Opened(s, saved, Some(r))
    ensures True(s, saved, tale) && (outcome.Ok? <==> tale.Told?)
    ensures outcome.Ok? ==> AtRest(s.window, p') && p'.offset == s.window.end + 1
    ensures CoversRest(s.window, p, q, r) ==> outcome.Ok? && p'.file == p.file + Body(r)
    ensures Continues(blob, s.window, p, r) && (forall k :: HonestAll(blob, s.resume(k))) ==>
              CutExact(blob, s.window, p') && (outcome.Ok? ==> Exact(blob, s.window, p'))
  {
    ghost var bodies, why;
    p', outcome, bodies, why := RelaySequential(s.window, p, r, s.resume, q, blob);
    if CoversRest(s.window, p, q, r) { CoveringBodySuffices(s.window, p, q, r, s.resume, bodies, why); }
    tale := Told;
    if outcome != Ok {
      tale := Sequential(bodies, why);
      SequentialIsTrue(s, saved, r, q, bodies, why);
    }
  }

  lemma RangesAreTrue(s: Stream, saved: Bytes, q: Patience, outcome: Outcome, done: nat)
    requires s.parallel.Some? && q.life == s.patience.life && s.patience.sends <= q.sends + |saved| && outcome != Ok
    requires var at, size := s.window.start + |saved|, s.parallel.value;
             && (outcome.Dropped? ==> q.life < s.window.end + 1 - at)
             && (outcome.Err? ==>
                   || q.sends <= done
                   || (at + done * Max(size, 1) <= s.window.end
                       && Unanswered(s.attempts(done), NextRange(s.window, at + done * Max(size, 1), size, done))))
    ensures True(s, saved, Ranges(done))
  {
  }

  lemma SequentialIsTrue(s: Stream, saved: Bytes, response: Response, q: Patience, bodies: seq<Response>, why: SequentialEnd)
    requires s.parallel.None? && bodies != [] && !why.Finished? && s.window.start + |saved| <= s.window.end
    requires Opened(s, saved, Some(response)) && q.life == s.patience.life && s.patience.sends <= q.sends + |saved|
    requires Chained(s.window, s.window.start + |saved|, response, s.resume, bodies)
    requires Justified(s.window, s.window.start + |saved|, q, s.resume, bodies, why)
    ensures True(s, saved, Sequential(bodies, why))
  {
    assert Link(s.window, s.window.start + |saved|, response, s.resume, bodies, 0);
  }

  /** The streaming relay of one request. It either reaches the end of the window, and then fails only for
      a digest that does not match or an object the cache refuses, or it ends for a reason that `True`
      names. With honest responses the client is sent only bytes of its window, exactly the window on
      success, and the directory stays sound wherever the relay is cut. With any responses at all, an
      object is admitted only under the digest of its bytes. */
  method RelayStreamBlob(dir: PartialDir, s: Stream, hash: Bytes -> string, ghost blob: Bytes)
    returns (result: RelayResult, ghost tale: Tale)
    requires Started(s)
    modifies dir`merged
    ensures True(s, Saved(old(dir.merged), s.window), tale)
    ensures !tale.Told? ==> !result.outcome.Ok? && result.admitted.None?
    ensures tale.Told? ==>
              && |result.sent| == s.window.end + 1 - s.window.start
              && (result.outcome.Ok? <==> !s.window.Complete() || (DigestMatches(hash, result.sent, s.digest) && s.admits))
              && (result.admitted == if s.window.Complete() && result.outcome.Ok? then Some(result.sent) else None)
    ensures result.admitted.Some? && s.digest.Some? ==> s.digest.value == "sha256:" + hash(result.admitted.value)
    ensures HonestStream(blob, s) && old(PrefixOf(dir.merged, blob)) ==>
              && PrefixOf(dir.merged, blob)
              && s.window.Valid()
              && result.sent <= blob[s.window.start..s.window.end + 1]
              && (result.outcome.Ok? ==> result.sent == blob[s.window.start..s.window.end + 1])
              && (result.admitted.Some? ==> result.admitted.value == blob)
    ensures Saved(old(dir.merged), s.window) == [] && CoversWindow(s) ==> tale.Told? && result.sent == Body(s.first)
  {
    var w := s.window;
    ghost var honest := HonestStream(blob, s) && PrefixOf(dir.merged, blob);
    if honest { FirstBodyFits(blob, s); }
    var saved := [];
    if w.Complete() {
      if dir.merged.Some? && |dir.merged.value| > w.total { dir.merged := None; }
      saved := dir.merged.GetOr([]);
      dir.merged := Some(saved); // opened for appending, created if missing
    }
    var p, q, response, outcome;
    p, q, response, outcome, tale := ReplayAndResume(saved, s, blob);
    if honest && w.Complete() { assert blob[0..|blob|] == blob; }
    if outcome != Ok { return RelayResult(outcome, p.sent, None), tale; }
    p, outcome, tale := RelayRest(p, q, response, s, saved, blob);
    if w.Complete() {
      if honest { CompleteCut(blob, w, p); }
      dir.merged := Some(p.file);
    }
    if outcome != Ok || !w.Complete() { return RelayResult(outcome, p.sent, None), tale; }
    if !DigestMatches(hash, p.hashed, s.digest) {
      dir.merged := None;
      return RelayResult(Err(Integrity), p.sent, None), tale;
    }
    if !s.admits { return RelayResult(Err(BadRequest), p.sent, None), tale; }
    dir.merged := None;
    result := RelayResult(Ok, p.sent, Some(p.file));
  }

  /** The bytes a stream replays: those of a partial file that is not too long, for a whole blob. */
  function Saved(file: Option<Bytes>, w: Window): Bytes {
    if w.Complete() && file.Some? && |file.value| <= w.total then file.value else []
  }

  /** The file that a relay without a window leaves when it is dropped after `life` bytes, if it is. */
  function LeftBehind(r: Response, life: nat): Option<Bytes> {
    if life <= |Body(r)| then Some(Body(r)[..life]) else None
  }

  /** Not a range response, or one that carries the blob from its first byte, or no bytes at all. */
  predicate StartsAtZero(r: Response) {
    r.status != 206 || Body(r) == [] || (r.range.Some? && r.range.value.first == 0)
  }

  lemma LeftIsPrefix(r: Response, life: nat, blob: Bytes)
    requires r.Success() && Honest(blob, true, r) && StartsAtZero(r)
    ensures Body(r) <= blob && PrefixOf(LeftBehind(r, life), blob)
  {
    if r.status == 206 && r.range.Some? && Body(r) != [] {
      SliceJoin(blob, 0, r.range.value.last + 1, |blob|);
      assert blob[0..|blob|] == blob;
    }
  }

  /** The relay of a response that offers no window: it rewrites `object.partial` from its start,
      whatever the response is, and removes it unless the body ends cleanly under the digest. A
      task dropped on the way leaves what it wrote. */
  method RelayUnknownBlob(dir: PartialDir, r: Response, life: nat, hash: Bytes -> string, digest: Option<string>, admits: bool,
                          ghost blob: Bytes)
    returns (outcome: Outcome, admitted: Option<Bytes>)
    requires r.Success() && StreamWindow(r).None?
    modifies dir
    ensures admitted.Some? <==> Delivers(r, None, life) && DigestMatches(hash, Body(r), digest) && admits
    ensures admitted.Some? ==> admitted.value == Body(r) && (digest.Some? ==> digest.value == "sha256:" + hash(Body(r)))
    ensures outcome.Ok? <==> admitted.Some?
    ensures dir.parts == if admitted.Some? then map[] else old(dir.parts)
    ensures dir.merged == LeftBehind(r, life) && (outcome.Dropped? <==> life <= |Body(r)|)
    ensures Honest(blob, true, r) && StartsAtZero(r) ==> PrefixOf(dir.merged, blob) && PrefixOf(admitted, blob)
  {
    var data;
    data, outcome := WriteBody([], r, None, life);
    CutUnbounded(r, life);
    assert [] + Body(r) == Body(r) && (life <= |Body(r)| ==> [] + Body(r)[..life] == Body(r)[..life]);
    if Honest(blob, true, r) && StartsAtZero(r) { LeftIsPrefix(r, life, blob); }
    admitted := None;
    dir.merged := Some(data);
    if outcome.Dropped? { return; }
    dir.merged := None;
    if outcome.Ok? {
      if !DigestMatches(hash, data, digest) { return Err(Integrity), None; }
      if !admits { return Err(BadRequest), None; }
      admitted := Some(data);
      dir.parts := map[];
    }
  }

  /** A blob that holds `body` at the labelled range and `filler` everywhere else. */
  ghost function Elsewhere(l: RangeLabel, body: Bytes, filler: Byte): (blob: Bytes)
    requires l.first <= l.last < l.total && |body| <= l.last - l.first + 1
    ensures |blob| == l.total && body <= blob[l.first..l.last + 1] && (0 < l.first ==> blob[0] == filler)
  {
    var before, after := seq(l.first, _ => filler), seq(l.total - l.first - |body|, _ => filler);
    var blob := before + body + after;
    assert blob[l.first..l.last + 1] == body + after[..l.last + 1 - l.first - |body|];
    blob
  }

  /** No blob fits the label and the body of this range response. */
  predicate Impossible(r: Response) {
    r.range.Some? && var l := r.range.value; !(l.first <= l.last < l.total) || |Body(r)| > l.last - l.first + 1
  }

  lemma PossibleExactly(r: Response)
    requires r.status == 206
    ensures (exists blob :: Honest(blob, true, r)) <==> !Impossible(r)
  {
    if !Impossible(r) {
      if r.range.None? {
        assert Honest([], true, r);
      } else {
        assert Honest(Elsewhere(r.range.value, Body(r), 0), true, r);
      }
    }
  }

  /** Exactly which range responses a relay without a window may be given: whatever blob such a
      response is honest for and wherever the relay is dropped, the file it leaves is a prefix of the
      blob, if and only if the response starts at byte 0 or is empty, or fits no blob at all. */
  lemma WindowlessPartial(r: Response)
    requires r.status == 206 && StreamWindow(r).None?
    ensures (forall blob, life: nat :: Honest(blob, true, r) ==> PrefixOf(LeftBehind(r, life), blob))
            <==> StartsAtZero(r) || Impossible(r)
  {
    if StartsAtZero(r) || Impossible(r) {
      forall blob, life: nat | Honest(blob, true, r) ensures PrefixOf(LeftBehind(r, life), blob) {
        PossibleExactly(r);
        LeftIsPrefix(r, life, blob);
      }
    } else {
      var blob := StrayBlob(r);
      assert LeftBehind(r, |Body(r)|) == Some(Body(r)) by { assert Body(r)[..|Body(r)|] == Body(r); }
      assert !PrefixOf(LeftBehind(r, |Body(r)|), blob);
    }
  }

  lemma StrayBlob(r: Response) returns (blob: Bytes)
    requires r.status == 206 && !StartsAtZero(r) && !Impossible(r)
    ensures Honest(blob, true, r) && !(Body(r) <= blob)
  {
    if r.range.None? {
      blob := [];
    } else {
      blob := Elsewhere(r.range.value, Body(r), if Body(r)[0] == 0 then 1 else 0);
      assert blob[0] != Body(r)[0];
    }
  }

  /** A concrete case: bytes 1 to 2 of a blob of three, sent without a length. The relay is dropped
      after one byte and leaves a file that is not a prefix of the blob. */
  method StrayPartial(hash: Bytes -> string) returns (dir: PartialDir, r: Response, ghost blob: Bytes)
    ensures blob == [9, 7, 8] && Honest(blob, true, r) && StreamWindow(r).None?
    ensures dir.merged == Some([7]) && !PrefixOf(dir.merged, blob)
  {
    blob := [9, 7, 8];
    r := Response(206, Some(RangeLabel(1, 2, 3)), None, [[7, 8]], Eof);
    assert r.chunks[..0] == [] && Body(r) == [7, 8];
    assert blob[1..3] == [7, 8];
    dir := new PartialDir();
    var _, _ := RelayUnknownBlob(dir, r, 1, hash, None, true, blob);
    assert [7, 8][..1] == [7];
    assert dir.merged.value[0] != blob[0];
  }

  /** One request of a history. */
  datatype Request =
    | Fetch(plan: FetchPlan, chunkNodes: nat -> seq<Node>, order: seq<nat>, mergeLife: nat, fetchAdmits: bool)
    | Relayed(stream: Stream)
    | Unknown(response: Response, life: nat, digest: Option<string>, unknownAdmits: bool)

  /** As the handlers build requests. A fetch splits into chunks whose ends can be computed. */
  predicate WellFormed(q: Request) {
    match q
    case Fetch(p, _, _, _, _) =>
      p.parallel.Some? ==> p.size.Some? && EndsFit(p.size.value, p.parallel.value)
    case Relayed(s) => Started(s)
    case Unknown(r, _, _, _) => r.Success() && StreamWindow(r).None?
  }

  ghost predicate HonestRequest(blob: Bytes, q: Request) {
    match q
    case Fetch(p, nodes, _, _, _) => HonestPlan(blob, p) && forall i :: HonestNodes(blob, nodes(i))
    case Relayed(s) => HonestStream(blob, s)
    case Unknown(r, _, _, _) => Honest(blob, true, r) && StartsAtZero(r)
  }

  /** Any history of fetches and streams over one directory, each with its own chunk layout, nodes and
      interruption: the partial file and every part stay prefixes of what they are for, and every
      admitted object is a prefix of the blob. Relays without a window are those that
      `WindowlessPartial` finds safe. */
  method Serve(dir: PartialDir, requests: seq<Request>, hash: Bytes -> string, ghost blob: Bytes)
    returns (admitted: seq<Bytes>)
    requires forall i :: 0 <= i < |requests| ==> WellFormed(requests[i]) && HonestRequest(blob, requests[i])
    requires dir.Sound(blob)
    modifies dir
    ensures dir.Sound(blob)
    ensures forall i :: 0 <= i < |admitted| ==> admitted[i] <= blob
  {
    admitted := [];
    for i := 0 to |requests|
      invariant dir.Sound(blob)
      invariant forall i :: 0 <= i < |admitted| ==> admitted[i] <= blob
    {
      match requests[i] {
        case Fetch(p, nodes, order, life, admits) =>
          var r;
          ghost var transfer, tried, got;
          r, transfer, tried, got := dir.FetchUncached(p, hash, nodes, order, life, admits, blob);
          if r.Admitted? { admitted := admitted + [r.content]; }
        case Relayed(s) =>
          var r;
          ghost var tale;
          r, tale := RelayStreamBlob(dir, s, hash, blob);
          if r.admitted.Some? { admitted := admitted + [r.admitted.value]; }
        case Unknown(r, life, digest, admits) =>
          var _, a := RelayUnknownBlob(dir, r, life, hash, digest, admits, blob);
          if a.Some? { admitted := admitted + [a.value]; }
      }
    }
  }
}
