/** The streaming relay: one window of a blob goes to the client and to the partial file at the
    same time, through replay, parallel ranges and any number of failovers. */
module Relay {
  import opened Collections
  import opened Wire
  import opened Chunking
  import opened Downloads

  const MAX_STALLED: nat := 4
  const READ_BYTES: nat := 64 * 1024

  datatype Window = Window(start: nat, end: nat, total: nat) {
    predicate Valid() { start <= end < total }
    predicate Complete() { start == 0 && end + 1 == total }
  }

  /** The window a first response offers: its labelled range if the declared length agrees, or
      the whole body of a plain success with a positive length. */
  function StreamWindow(r: Response): (w: Option<Window>)
    ensures w.Some? && r.status != 206 ==> w.value.Complete() && w.value.Valid()
    ensures w.Some? && r.status == 206 ==>
              r.Labelled(w.value.start, w.value.end, w.value.total) && w.value.start <= w.value.end
  {
    if r.status == 206 then
      if r.range.Some? && r.range.value.first <= r.range.value.last &&
         r.length == Some(r.range.value.last - r.range.value.first + 1)
      then Some(Window(r.range.value.first, r.range.value.last, r.range.value.total)) else None
    else if r.Success() && r.length.Some? && r.length.value > 0 then
      Some(Window(0, r.length.value - 1, r.length.value))
    else None
  }

  /** Exactly which responses offer which window: a range response its labelled range, if its declared
      length is that of the range; any other success of positive declared length all of it. */
  lemma StreamWindowExactly(r: Response, w: Window)
    ensures StreamWindow(r) == Some(w) <==>
            || (r.Labelled(w.start, w.end, w.total) && w.start <= w.end && r.length == Some(w.end - w.start + 1))
            || (r.Success() && r.status != 206 && r.length == Some(w.total) && w.start == 0 && w.end + 1 == w.total)
  {
  }

  function RemainingWindowBytes(end: nat, offset: nat): Option<nat> {
    if end < offset then None else Some(end - offset + 1)
  }

  /** Where a relay stands: how far it got, what the client received, what went into the hasher,
      and what the partial file holds. */
  datatype Progress = Progress(offset: nat, sent: Bytes, hashed: Bytes, file: Bytes)

  /** At rest between two chunks: the client and the file have the same bytes, as many as the
      offset says, and for a whole blob the hasher has them too. */
  ghost predicate AtRest(w: Window, p: Progress) {
    && w.start <= p.offset <= w.end + 1
    && |p.file| == p.offset - w.start
    && p.sent == p.file
    && (w.Complete() ==> p.hashed == p.file)
  }

  /** And those bytes are the blob's. */
  ghost predicate Exact(blob: Bytes, w: Window, p: Progress) {
    AtRest(w, p) && w.total == |blob| && w.Valid() && p.file == blob[w.start..p.offset]
  }

  /** After an interruption anywhere: the file is the blob's up to some byte of the window, and the
      client got no more than the file. */
  ghost predicate CutExact(blob: Bytes, w: Window, p: Progress) {
    w.total == |blob| && w.Valid() && p.file <= blob[w.start..w.end + 1] && p.sent <= p.file
  }

  lemma ExactIsCut(blob: Bytes, w: Window, p: Progress)
    requires Exact(blob, w, p)
    ensures CutExact(blob, w, p)
  {
    assert blob[w.start..w.end + 1][..p.offset - w.start] == blob[w.start..p.offset];
  }

  /** How one body ended. */
  datatype BodyResult = Drained(transferred: nat) | Stopped(outcome: Outcome)

  /** What the client and the process do during a relay: the client takes `sends` more chunks and
      the process writes `life` more bytes before it is dropped. */
  datatype Patience = Patience(sends: nat, life: nat)

  /** The chunk is what the blob holds at `offset`. */
  ghost predicate NextBytes(blob: Bytes, offset: nat, chunk: Bytes) {
    offset + |chunk| <= |blob| && chunk == blob[offset..offset + |chunk|]
  }

  /** Any part of the next chunk extends the file by the blob's next bytes. */
  lemma EmitPart(blob: Bytes, w: Window, p: Progress, chunk: Bytes, n: nat)
    requires Exact(blob, w, p) && p.offset + |chunk| <= w.end + 1 && n <= |chunk|
    requires NextBytes(blob, p.offset, chunk)
    ensures p.file + chunk[..n] == blob[w.start..p.offset + n] <= blob[w.start..w.end + 1]
  {
    SliceOfSlice(blob, p.offset, p.offset + |chunk|, 0, n);
    assert chunk[..n] == chunk[0..n];
    SliceJoin(blob, w.start, p.offset, p.offset + n);
    SliceJoin(blob, w.start, p.offset + n, w.end + 1);
  }

  /** Writes one chunk to hasher, file and client, in that order. */
  method Emit(w: Window, p: Progress, chunk: Bytes, q: Patience, ghost blob: Bytes)
    returns (p': Progress, q': Patience, outcome: Outcome)
    requires AtRest(w, p) && p.offset + |chunk| <= w.end + 1
    ensures outcome.Ok? <==> |chunk| <= q.life && 0 < q.sends
    ensures !outcome.Ok? ==> q' == q && outcome == (if |chunk| > q.life then Dropped else Err(Upstream))
    ensures outcome.Ok? ==>
              && AtRest(w, p')
              && p'.offset == p.offset + |chunk| && p'.file == p.file + chunk
              && q' == Patience(q.sends - 1, q.life - |chunk|)
    ensures Exact(blob, w, p) && NextBytes(blob, p.offset, chunk) ==>
              CutExact(blob, w, p') && (outcome.Ok? ==> Exact(blob, w, p'))
    ensures p.file <= p'.file
  {
    ghost var honest := Exact(blob, w, p) && NextBytes(blob, p.offset, chunk);
    var hashed := if w.Complete() then p.hashed + chunk else p.hashed;
    if |chunk| > q.life {
      p' := p.(hashed := hashed, file := p.file + chunk[..q.life]);
      if honest { EmitPart(blob, w, p, chunk, q.life); }
      return p', q, Dropped;
    }
    p' := Progress(p.offset + |chunk|, p.sent, hashed, p.file + chunk);
    assert chunk[..|chunk|] == chunk;
    if honest { EmitPart(blob, w, p, chunk, |chunk|); }
    if q.sends == 0 { return p', q, Err(Upstream); }
    p' := p'.(sent := p.sent + chunk);
    q' := Patience(q.sends - 1, q.life - |chunk|);
    outcome := Ok;
  }

  /** Replays the file of an earlier, interrupted request to the client and the hasher. */
  method Replay(w: Window, saved: Bytes, q: Patience, ghost blob: Bytes)
    returns (p: Progress, q': Patience, outcome: Outcome)
    requires w.Complete() && |saved| <= w.total
    ensures outcome.Ok? ==> AtRest(w, p) && p.offset == |saved|
    ensures |saved| <= q.sends ==> outcome.Ok?
    ensures outcome.Ok? ==> q'.life == q.life && q.sends <= q'.sends + |saved|
    ensures !outcome.Dropped?
    ensures p.file == saved && p.sent <= saved
    ensures w.total == |blob| && saved <= blob && outcome.Ok? ==> Exact(blob, w, p)
  {
    q' := q;
    p := Progress(0, [], [], saved);
    while p.offset < |saved|
      invariant p.offset <= |saved| && p.file == saved
      invariant p.sent == saved[..p.offset] && p.hashed == saved[..p.offset]
      invariant q.sends <= q'.sends + p.offset && q'.life == q.life
      decreases |saved| - p.offset
    {
      var read := Min(READ_BYTES, |saved| - p.offset);
      var chunk := saved[p.offset..p.offset + read];
      assert saved[..p.offset] + chunk == saved[..p.offset + read];
      p := p.(hashed := p.hashed + chunk, offset := p.offset + read);
      if q'.sends == 0 { return p, q', Err(Upstream); }
      p := p.(sent := p.sent + chunk);
      q' := q'.(sends := q'.sends - 1);
    }
    outcome := Ok;
  }

  /** The response carries exactly the rest of the window from `offset`. */
  predicate ExactRange(r: Response, offset: nat, w: Window) {
    r.status == 206 && StreamWindow(r) == Some(Window(offset, w.end, w.total))
  }

  predicate NoneExact(candidates: seq<Response>, offset: nat, w: Window) {
    forall i :: 0 <= i < |candidates| ==> !ExactRange(candidates[i], offset, w)
  }

  /** The first candidate that carries exactly the rest. */
  predicate Resumes(candidates: seq<Response>, offset: nat, w: Window, r: Response) {
    exists i :: 0 <= i < |candidates| && candidates[i] == r && ExactRange(r, offset, w) && NoneExact(candidates[..i], offset, w)
  }

  /** Picks the first candidate that answers exactly the missing range. */
  method ResumeResponse(candidates: seq<Response>, offset: nat, w: Window) returns (r: Option<Response>)
    ensures r.Some? ==> Resumes(candidates, offset, w, r.value) && r.value in candidates && r.value.Labelled(offset, w.end, w.total)
    ensures r.None? <==> NoneExact(candidates, offset, w)
  {
    for i := 0 to |candidates|
      invariant NoneExact(candidates[..i], offset, w)
    {
      if candidates[i].status == 206 && StreamWindow(candidates[i]) == Some(Window(offset, w.end, w.total)) {
        assert ExactRange(candidates[i], offset, w);
        return Some(candidates[i]);
      }
    }
    assert candidates[..|candidates|] == candidates;
    r := None;
  }

  /** Client and process stay for the whole body. */
  predicate Patient(q: Patience, r: Response) { |r.chunks| <= q.sends && |Body(r)| <= q.life }

  /** The body continues the blob from where the relay stands. */
  ghost predicate Continues(blob: Bytes, w: Window, p: Progress, r: Response) {
    Exact(blob, w, p) && p.offset <= w.end && Body(r) <= blob[p.offset..w.end + 1]
  }

  /** Relays one piece of a body: nothing for an empty one, a refusal for one that passes the window. */
  method RelayChunk(w: Window, p: Progress, chunk: Bytes, q: Patience, ghost blob: Bytes)
    returns (p': Progress, q': Patience, outcome: Outcome)
    requires AtRest(w, p)
    ensures outcome.Ok? ==> AtRest(w, p') && p'.offset == p.offset + |chunk| && p'.file == p.file + chunk
    ensures outcome.Ok? ==> q'.sends + 1 >= q.sends && q'.life == q.life - |chunk|
    ensures p.offset + |chunk| <= w.end + 1 && |chunk| <= q.life && 0 < q.sends ==> outcome.Ok?
    ensures outcome.Ok? ==> p.offset + |chunk| <= w.end + 1
    ensures p.file <= p'.file
    ensures Exact(blob, w, p) && NextBytes(blob, p.offset, chunk) ==>
              CutExact(blob, w, p') && (outcome.Ok? ==> Exact(blob, w, p'))
  {
    if Exact(blob, w, p) { ExactIsCut(blob, w, p); }
    if chunk == [] { return p, q, Ok; }
    var remaining := RemainingWindowBytes(w.end, p.offset);
    if remaining.None? || |chunk| > remaining.value { return p, q, Err(Integrity); }
    p', q', outcome := Emit(w, p, chunk, q, blob);
  }

  /** Relays one response body. */
  method RelayBody(w: Window, p: Progress, r: Response, q: Patience, ghost blob: Bytes)
    returns (p': Progress, q': Patience, end: BodyResult)
    requires AtRest(w, p)
    ensures end.Drained? ==> AtRest(w, p') && p'.file == p.file + Body(r) && end.transferred == |Body(r)|
    ensures end.Drained? ==> p'.offset == p.offset + end.transferred
    ensures p.offset + |Body(r)| <= w.end + 1 && Patient(q, r) ==> end.Drained?
    ensures end.Drained? ==> q.sends <= q'.sends + |r.chunks| && q'.life == q.life - |Body(r)|
    ensures end.Stopped? ==> end.outcome != Ok
    ensures p.file <= p'.file
    ensures Continues(blob, w, p, r) ==> CutExact(blob, w, p') && (end.Drained? ==> Exact(blob, w, p'))
  {
    ghost var honest := Continues(blob, w, p, r);
    p', q' := p, q;
    for i := 0 to |r.chunks|
      invariant AtRest(w, p') && p'.file == p.file + Flatten(r.chunks[..i])
      invariant p'.offset == p.offset + |Flatten(r.chunks[..i])|
      invariant q.sends <= q'.sends + i && q'.life == q.life - |Flatten(r.chunks[..i])|
      invariant honest ==> Exact(blob, w, p')
    {
      NextPiece(p.file, r, i);
      if honest { ChunkOfBlob(r, i, blob, p.offset, w.end); }
      ghost var before := p';
      var outcome;
      p', q', outcome := RelayChunk(w, p', r.chunks[i], q', blob);
      if outcome != Ok {
        PrefixTransitive(p.file, before.file, p'.file);
        return p', q', Stopped(outcome);
      }
    }
    assert r.chunks[..|r.chunks|] == r.chunks;
    if honest { ExactIsCut(blob, w, p'); }
    end := Drained(p'.offset - p.offset);
  }

  lemma ChunkOfBlob(r: Response, i: nat, blob: Bytes, offset: nat, end: nat)
    requires i < |r.chunks| && offset <= end < |blob| && Body(r) <= blob[offset..end + 1]
    ensures NextBytes(blob, offset + |Flatten(r.chunks[..i])|, r.chunks[i])
  {
    FlattenPrefix(r.chunks, i);
    FlattenPrefix(r.chunks, i + 1);
    PieceOfSlice(Flatten(r.chunks[..i]), r.chunks[i], blob, offset, end + 1);
  }

  lemma PieceOfSlice(done: Bytes, piece: Bytes, blob: Bytes, a: nat, b: nat)
    requires a <= b <= |blob| && done + piece <= blob[a..b]
    ensures piece == blob[a + |done|..a + |done| + |piece|]
  {
    var n := |done| + |piece|;
    assert (done + piece)[|done|..n] == piece;
    assert blob[a..b][|done|..n] == (done + piece)[|done|..n];
    SliceOfSlice(blob, a, b, |done|, n);
  }

  /** The reply is the range, labelled and declared as such, in full. */
  predicate Answers(a: Reply, c: Chunk) {
    && c.start <= c.end && a.Got? && a.response.status == 206
    && StreamWindow(a.response) == Some(Window(c.start, c.end, c.total))
    && Delivers(a.response, Some(c.end - c.start + 1), c.end - c.start + 2)
  }

  /** Fetches one range of a parallel relay: the first attempt that answers exactly the range with
      exactly its bytes. */
  method FetchParallelChunk(attempts: seq<Reply>, c: Chunk, ghost blob: Bytes) returns (bytes: Option<Bytes>)
    requires c.start <= c.end < c.total
    ensures bytes.Some? ==> |bytes.value| == c.end - c.start + 1 && FirstAnswer(attempts, c, bytes.value)
    ensures c.total == |blob| && HonestReplies(blob, attempts) && bytes.Some? ==> bytes.value == blob[c.start..c.end + 1]
    ensures bytes.None? <==> Unanswered(attempts, c)
  {
    for i := 0 to |attempts|
      invariant forall k :: 0 <= k < i ==> !Answers(attempts[k], c)
    {
      if attempts[i].SendFailed? { continue; }
      var r := attempts[i].response;
      if r.status != 206 || StreamWindow(r) != Some(Window(c.start, c.end, c.total)) { continue; }
      var body, outcome := WriteBody([], r, Some(c.end - c.start + 1), c.end - c.start + 2);
      if outcome.Ok? {
        assert Answers(attempts[i], c) && body == Body(r);
        return Some(body);
      }
    }
    bytes := None;
  }

  /** The bytes of the first attempt that answers. */
  ghost predicate FirstAnswer(attempts: seq<Reply>, c: Chunk, bytes: Bytes) {
    exists i :: 0 <= i < |attempts| && Answers(attempts[i], c) && bytes == Body(attempts[i].response)
                && forall k :: 0 <= k < i ==> !Answers(attempts[k], c)
  }

  ghost predicate HonestReplies(blob: Bytes, attempts: seq<Reply>) {
    forall i :: 0 <= i < |attempts| ==> HonestReply(blob, true, attempts[i])
  }

  /** The range a parallel relay asks for next. */
  function NextRange(w: Window, offset: nat, size: nat, sequence: nat): Chunk {
    Chunk(sequence, offset, Min(offset + Max(size - 1, 0), w.end), w.total)
  }

  predicate Unanswered(attempts: seq<Reply>, c: Chunk) { forall i :: 0 <= i < |attempts| ==> !Answers(attempts[i], c) }

  /** Relays the rest of a window as parallel ranges, delivered in order. It fails only when the client
      leaves, or when the range after the `done` ranges delivered so far goes unanswered. */
  method RelayParallelRanges(w: Window, p: Progress, size: nat, attempts: nat -> seq<Reply>, q: Patience, ghost blob: Bytes)
    returns (p': Progress, q': Patience, outcome: Outcome, ghost done: nat)
    requires AtRest(w, p) && w.end < w.total
    ensures outcome.Ok? ==> AtRest(w, p') && p'.offset == w.end + 1
    ensures outcome.Err? ==>
              || q.sends <= done
              || (Unanswered(attempts(done), NextRange(w, p'.offset, size, done))
                  && p'.offset == p.offset + done * Max(size, 1) <= w.end)
    ensures outcome.Dropped? ==> q.life < w.end + 1 - p.offset
    ensures p.file <= p'.file
    ensures Exact(blob, w, p) && (forall i :: HonestReplies(blob, attempts(i))) ==>
              CutExact(blob, w, p') && (outcome.Ok? ==> Exact(blob, w, p'))
  {
    ghost var honest := Exact(blob, w, p) && forall i :: HonestReplies(blob, attempts(i));
    p', q' := p, q;
    var sequence: nat := 0;
    done := 0;
    while p'.offset <= w.end
      invariant AtRest(w, p') && p.file <= p'.file && done == sequence
      invariant p'.offset <= w.end ==> p'.offset == p.offset + done * Max(size, 1)
      invariant p.offset <= p'.offset && q'.life == q.life - (p'.offset - p.offset) && q'.sends == q.sends - done
      invariant honest ==> Exact(blob, w, p')
      decreases w.end + 1 - p'.offset
    {
      ghost var before := p';
      p', q', outcome := RelayRange(w, p', size, sequence, attempts(sequence), q', blob);
      PrefixTransitive(p.file, before.file, p'.file);
      if outcome != Ok { return; }
      NextOffset(w, p.offset, before.offset, size, done);
      sequence, done := sequence + 1, done + 1;
    }
    if honest { ExactIsCut(blob, w, p'); }
    outcome := Ok;
  }

  /** Fetches and delivers one range. */
  method RelayRange(w: Window, p: Progress, size: nat, sequence: nat, attempts: seq<Reply>, q: Patience, ghost blob: Bytes)
    returns (p': Progress, q': Patience, outcome: Outcome)
    requires AtRest(w, p) && p.offset <= w.end < w.total
    ensures outcome.Ok? ==>
              && AtRest(w, p') && p'.offset == NextRange(w, p.offset, size, sequence).end + 1
              && q'.sends == q.sends - 1 && q'.life == q.life - (p'.offset - p.offset)
    ensures outcome.Err? ==> q.sends == 0 || (p' == p && Unanswered(attempts, NextRange(w, p.offset, size, sequence)))
    ensures outcome.Dropped? ==> q.life < NextRange(w, p.offset, size, sequence).end + 1 - p.offset
    ensures p.file <= p'.file
    ensures Exact(blob, w, p) && HonestReplies(blob, attempts) ==>
              CutExact(blob, w, p') && (outcome.Ok? ==> Exact(blob, w, p'))
  {
    var c := NextRange(w, p.offset, size, sequence);
    var bytes := FetchParallelChunk(attempts, c, blob);
    if Exact(blob, w, p) { ExactIsCut(blob, w, p); }
    if bytes.None? { return p, q, Err(Upstream); }
    p', q', outcome := Emit(w, p, bytes.value, q, blob);
  }

  /** After one more range the offset is one range on, unless that was the last. */
  lemma NextOffset(w: Window, start: nat, offset: nat, size: nat, done: nat)
    requires offset == start + done * Max(size, 1) <= w.end
    ensures NextRange(w, offset, size, done).end < w.end ==>
              NextRange(w, offset, size, done).end + 1 == start + (done + 1) * Max(size, 1)
  {
    assert (done + 1) * Max(size, 1) == done * Max(size, 1) + Max(size, 1);
  }

  ghost predicate HonestAll(blob: Bytes, rs: seq<Response>) {
    forall i :: 0 <= i < |rs| ==> Honest(blob, true, rs[i])
  }

  /** All bytes of a sequence of bodies. */
  function Joined(bodies: seq<Response>): Bytes {
    if bodies == [] then [] else Joined(bodies[..|bodies| - 1]) + Body(bodies[|bodies| - 1])
  }

  /** All pieces of a sequence of bodies. */
  function Pieces(bodies: seq<Response>): nat {
    if bodies == [] then 0 else Pieces(bodies[..|bodies| - 1]) + |bodies[|bodies| - 1].chunks|
  }

  /** The bodies of a sequential relay: the first response, and then always the first one offered that
      carries exactly what is missing. */
  ghost predicate Chained(w: Window, offset: nat, first: Response, resume: nat -> seq<Response>, bodies: seq<Response>) {
    forall i :: 0 <= i < |bodies| ==> Link(w, offset, first, resume, bodies, i)
  }

  ghost predicate Link(w: Window, offset: nat, first: Response, resume: nat -> seq<Response>, bodies: seq<Response>, i: nat)
    requires i < |bodies|
  {
    if i == 0 then bodies[0] == first else Resumes(resume(i), offset + |Joined(bodies[..i])|, w, bodies[i])
  }

  /** Everything in the bodies was relayed, and client and process spent that much patience. */
  ghost predicate Relayed(p: Progress, q: Patience, bodies: seq<Response>, p': Progress, q': Patience) {
    && p'.file == p.file + Joined(bodies) && p'.offset == p.offset + |Joined(bodies)|
    && q'.life == q.life - |Joined(bodies)| && q.sends <= q'.sends + Pieces(bodies)
  }

  /** Why a sequential relay ended. */
  datatype SequentialEnd = Finished | CutShort | Stalled | Unresumed

  /** The last four bodies were empty. */
  ghost predicate AllEmpty(bodies: seq<Response>, n: nat) {
    n <= |bodies| && forall i :: |bodies| - n <= i < |bodies| ==> Body(bodies[i]) == []
  }

  /** An end is justified. It is cut short only by a body that passes the window, or because the client
      or the process did not stay for all the bodies; it stalls only after four empty bodies in a
      row; and it goes unresumed only if nobody offers exactly what is missing. */
  ghost predicate Justified(w: Window, offset: nat, q: Patience, resume: nat -> seq<Response>, bodies: seq<Response>, why: SequentialEnd) {
    match why
    case Finished => offset + |Joined(bodies)| == w.end + 1
    case CutShort => offset + |Joined(bodies)| > w.end + 1 || Pieces(bodies) > q.sends || |Joined(bodies)| > q.life
    case Stalled => offset + |Joined(bodies)| <= w.end && AllEmpty(bodies, MAX_STALLED)
    case Unresumed => offset + |Joined(bodies)| <= w.end && NoneExact(resume(|bodies|), offset + |Joined(bodies)|, w)
  }

  lemma NextJoined(bodies: seq<Response>, r: Response)
    ensures Joined(bodies + [r]) == Joined(bodies) + Body(r) && Pieces(bodies + [r]) == Pieces(bodies) + |r.chunks|
  {
    assert (bodies + [r])[..|bodies|] == bodies;
  }

  lemma LinkStays(w: Window, offset: nat, first: Response, resume: nat -> seq<Response>, bodies: seq<Response>, r: Response, i: nat)
    requires i < |bodies| && Link(w, offset, first, resume, bodies, i)
    ensures Link(w, offset, first, resume, bodies + [r], i)
  {
    assert (bodies + [r])[..i] == bodies[..i];
  }

  lemma NewLink(w: Window, offset: nat, first: Response, resume: nat -> seq<Response>, bodies: seq<Response>, r: Response)
    requires if bodies == [] then r == first else Resumes(resume(|bodies|), offset + |Joined(bodies)|, w, r)
    ensures Link(w, offset, first, resume, bodies + [r], |bodies|)
  {
    assert (bodies + [r])[..|bodies|] == bodies;
  }

  lemma NextBody(w: Window, offset: nat, first: Response, resume: nat -> seq<Response>, bodies: seq<Response>, r: Response)
    requires Chained(w, offset, first, resume, bodies)
    requires if bodies == [] then r == first else Resumes(resume(|bodies|), offset + |Joined(bodies)|, w, r)
    ensures Chained(w, offset, first, resume, bodies + [r])
  {
    forall i | 0 <= i < |bodies + [r]| ensures Link(w, offset, first, resume, bodies + [r], i) {
      if i < |bodies| {
        LinkStays(w, offset, first, resume, bodies, r, i);
      } else {
        NewLink(w, offset, first, resume, bodies, r);
      }
    }
  }

  /** A sequential relay under way: the bodies so far were relayed in full, and `r` comes next. */
  ghost predicate UnderWay(w: Window, p: Progress, q: Patience, first: Response, resume: nat -> seq<Response>,
                           bodies: seq<Response>, p': Progress, q': Patience, r: Response) {
    && Chained(w, p.offset, first, resume, bodies) && Relayed(p, q, bodies, p', q')
    && if bodies == [] then r == first else Resumes(resume(|bodies|), p'.offset, w, r)
  }

  /** One more body, relayed in full. */
  lemma FullBody(w: Window, p: Progress, q: Patience, first: Response, resume: nat -> seq<Response>, bodies: seq<Response>,
                 a: Progress, qa: Patience, r: Response, b: Progress, qb: Patience)
    requires UnderWay(w, p, q, first, resume, bodies, a, qa, r)
    requires b.file == a.file + Body(r) && b.offset == a.offset + |Body(r)| && qb.life == qa.life - |Body(r)| && qa.sends <= qb.sends + |r.chunks|
    ensures Chained(w, p.offset, first, resume, bodies + [r]) && Relayed(p, q, bodies + [r], b, qb)
  {
    NextBody(w, p.offset, first, resume, bodies, r);
    NextJoined(bodies, r);
    assert p.file + Joined(bodies) + Body(r) == p.file + (Joined(bodies) + Body(r));
  }

  /** One more body, cut short because it does not fit or nobody stays for it. */
  lemma CutBody(w: Window, p: Progress, q: Patience, first: Response, resume: nat -> seq<Response>, bodies: seq<Response>,
                a: Progress, qa: Patience, r: Response)
    requires UnderWay(w, p, q, first, resume, bodies, a, qa, r) && !(a.offset + |Body(r)| <= w.end + 1 && Patient(qa, r))
    ensures Chained(w, p.offset, first, resume, bodies + [r]) && Justified(w, p.offset, q, resume, bodies + [r], CutShort)
  {
    NextBody(w, p.offset, first, resume, bodies, r);
    NextJoined(bodies, r);
  }

  datatype Leg = Leg(p: Progress, q: Patience, next: Response, stalled: nat) | Over(p: Progress, outcome: Outcome)

  /** One turn of the sequential relay: a body, and then the next response offered for what is missing. */
  method RelayLeg(w: Window, a: Progress, qa: Patience, r: Response, stalled: nat, candidates: seq<Response>, ghost p: Progress,
                  ghost q: Patience, ghost first: Response, ghost resume: nat -> seq<Response>, ghost bodies: seq<Response>, ghost blob: Bytes)
    returns (leg: Leg, ghost why: SequentialEnd)
    requires AtRest(w, a) && a.offset <= w.end && UnderWay(w, p, q, first, resume, bodies, a, qa, r)
    requires stalled < MAX_STALLED && AllEmpty(bodies, stalled) && candidates == resume(|bodies| + 1)
    ensures Chained(w, p.offset, first, resume, bodies + [r]) && a.file <= leg.p.file
    ensures leg.Leg? ==>
              && AtRest(w, leg.p) && a.offset <= leg.p.offset <= w.end && leg.stalled < MAX_STALLED
              && leg.stalled == (if leg.p.offset == a.offset then stalled + 1 else 0) && AllEmpty(bodies + [r], leg.stalled)
              && UnderWay(w, p, q, first, resume, bodies + [r], leg.p, leg.q, leg.next)
    ensures leg.Over? ==>
              && Justified(w, p.offset, q, resume, bodies + [r], why) && (leg.outcome.Ok? <==> why.Finished?)
              && (!why.CutShort? ==> leg.p.file == p.file + Joined(bodies + [r]) && leg.p.offset == p.offset + |Joined(bodies + [r])|)
              && (leg.outcome.Ok? ==> AtRest(w, leg.p) && leg.p.offset == w.end + 1)
    ensures Continues(blob, w, a, r) && HonestAll(blob, candidates) ==>
              && (leg.Leg? ==> Continues(blob, w, leg.p, leg.next))
              && (leg.Over? ==> CutExact(blob, w, leg.p) && (leg.outcome.Ok? ==> Exact(blob, w, leg.p)))
  {
    why := Finished;
    var b, qb, end := RelayBody(w, a, r, qa, blob);
    if end.Stopped? {
      CutBody(w, p, q, first, resume, bodies, a, qa, r);
      return Over(b, end.outcome), CutShort;
    }
    FullBody(w, p, q, first, resume, bodies, a, qa, r, b, qb);
    EmptyCounted(bodies, r, stalled);
    leg, why := AfterBody(w, b, qb, if end.transferred == 0 then stalled + 1 else 0, candidates, p, q, first, resume, bodies + [r], blob);
  }

  lemma EmptyCounted(bodies: seq<Response>, r: Response, stalled: nat)
    requires AllEmpty(bodies, stalled)
    ensures AllEmpty(bodies + [r], if Body(r) == [] then stalled + 1 else 0)
  {
  }

  /** After a body relayed in full: the relay is finished, gives up, or goes on with the next response. */
  method AfterBody(w: Window, b: Progress, qb: Patience, stalled: nat, candidates: seq<Response>, ghost p: Progress, ghost q: Patience,
                   ghost first: Response, ghost resume: nat -> seq<Response>, ghost bodies: seq<Response>, ghost blob: Bytes)
    returns (leg: Leg, ghost why: SequentialEnd)
    requires AtRest(w, b) && b.offset <= w.end + 1 && bodies != []
    requires Chained(w, p.offset, first, resume, bodies) && Relayed(p, q, bodies, b, qb)
    requires stalled <= MAX_STALLED && AllEmpty(bodies, stalled) && candidates == resume(|bodies|)
    ensures leg.p == b
    ensures leg.Leg? ==>
              leg.q == qb && leg.stalled == stalled < MAX_STALLED && b.offset <= w.end && Resumes(candidates, b.offset, w, leg.next)
    ensures leg.Over? ==>
              && Justified(w, p.offset, q, resume, bodies, why) && (leg.outcome.Ok? <==> why.Finished?) && !why.CutShort?
              && (leg.outcome.Ok? ==> b.offset == w.end + 1)
    ensures Exact(blob, w, b) && HonestAll(blob, candidates) && leg.Leg? ==> Continues(blob, w, b, leg.next)
  {
    why := Finished;
    if b.offset > w.end { return Over(b, Ok), Finished; }
    if stalled >= MAX_STALLED { return Over(b, Err(Upstream)), Stalled; }
    var next := ResumeResponse(candidates, b.offset, w);
    if next.None? { return Over(b, Err(Upstream)), Unresumed; }
    if Exact(blob, w, b) && HonestAll(blob, candidates) { ResumeContinues(blob, w, b, candidates, next.value); }
    leg := Leg(b, qb, next.value, stalled);
  }

  /** The sequential relay loop. It ends against every upstream: `resume(k)` may offer any finite
      responses for ever, and the loop still consumes at most four bodies per missing byte. A body that
      falls short is followed by the next one offered, and the relay fails only for a reason that
      `Justified` names. With honest responses, what was sent and what was written is the blob at every
      loop head. */
  method RelaySequential(w: Window, p: Progress, first: Response, resume: nat -> seq<Response>, q: Patience, ghost blob: Bytes)
    returns (p': Progress, outcome: Outcome, ghost bodies: seq<Response>, ghost why: SequentialEnd)
    requires AtRest(w, p) && p.offset <= w.end
    ensures 0 < |bodies| <= MAX_STALLED * (w.end + 1 - p.offset)
    ensures Chained(w, p.offset, first, resume, bodies) && Justified(w, p.offset, q, resume, bodies, why)
    ensures outcome.Ok? <==> why.Finished?
    ensures !why.CutShort? ==> p'.file == p.file + Joined(bodies) && p'.offset == p.offset + |Joined(bodies)|
    ensures outcome.Ok? ==> AtRest(w, p') && p'.offset == w.end + 1
    ensures p.file <= p'.file
    ensures Continues(blob, w, p, first) && (forall k :: HonestAll(blob, resume(k))) ==>
              CutExact(blob, w, p') && (outcome.Ok? ==> Exact(blob, w, p'))
  {
    ghost var honest := Continues(blob, w, p, first) && forall k :: HonestAll(blob, resume(k));
    p', bodies := p, [];
    var q', r, stalled: nat, consumed: nat := q, first, 0, 0;
    while true
      invariant AtRest(w, p') && p.offset <= p'.offset <= w.end && p.file <= p'.file
      invariant stalled < MAX_STALLED && AllEmpty(bodies, stalled)
      invariant |bodies| == consumed && UnderWay(w, p, q, first, resume, bodies, p', q', r)
      invariant consumed <= MAX_STALLED * (p'.offset - p.offset) + stalled
      invariant honest ==> Continues(blob, w, p', r)
      decreases w.end + 1 - p'.offset, MAX_STALLED - stalled
    {
      var leg;
      leg, why := RelayLeg(w, p', q', r, stalled, resume(consumed + 1), p, q, first, resume, bodies, blob);
      PrefixTransitive(p.file, p'.file, leg.p.file);
      bodies := bodies + [r];
      if leg.Over? { return leg.p, leg.outcome, bodies, why; }
      p', q', r, stalled, consumed := leg.p, leg.q, leg.next, leg.stalled, consumed + 1;
    }
  }

  /** A body that alone brings the relay to the end of the window, with both ends staying for it. */
  predicate CoversRest(w: Window, p: Progress, q: Patience, r: Response) {
    p.offset + |Body(r)| == w.end + 1 && Patient(q, r)
  }

  /** One body that covers the rest, with both ends staying for it, is enough. */
  lemma CoveringBodySuffices(w: Window, p: Progress, q: Patience, first: Response, resume: nat -> seq<Response>,
                             bodies: seq<Response>, why: SequentialEnd)
    requires CoversRest(w, p, q, first) && bodies != []
    requires Chained(w, p.offset, first, resume, bodies) && Justified(w, p.offset, q, resume, bodies, why)
    ensures why.Finished? && bodies == [first] && Joined(bodies) == Body(first)
  {
    ChainStarts(w, p.offset, first, resume, bodies);
    JustOne(w, p, q, first, resume, bodies, why);
  }

  lemma ChainStarts(w: Window, offset: nat, first: Response, resume: nat -> seq<Response>, bodies: seq<Response>)
    requires Chained(w, offset, first, resume, bodies) && bodies != []
    ensures bodies[0] == first && (1 < |bodies| ==> offset + |Joined(bodies[..1])| <= w.end)
  {
    assert Link(w, offset, first, resume, bodies, 0);
    assert 1 < |bodies| ==> Link(w, offset, first, resume, bodies, 1);
  }

  lemma JustOne(w: Window, p: Progress, q: Patience, first: Response, resume: nat -> seq<Response>,
                bodies: seq<Response>, why: SequentialEnd)
    requires CoversRest(w, p, q, first) && bodies != [] && bodies[0] == first
    requires 1 < |bodies| ==> p.offset + |Joined(bodies[..1])| <= w.end
    requires Justified(w, p.offset, q, resume, bodies, why)
    ensures why.Finished? && bodies == [first] && Joined(bodies) == Body(first)
  {
    NextJoined([], first);
    assert bodies[..1] == [first] == [] + [first];
  }

  lemma ResumeContinues(blob: Bytes, w: Window, p: Progress, candidates: seq<Response>, r: Response)
    requires Exact(blob, w, p) && p.offset <= w.end && HonestAll(blob, candidates)
    requires r in candidates && r.Labelled(p.offset, w.end, w.total)
    ensures Continues(blob, w, p, r)
  {
    var i :| 0 <= i < |candidates| && candidates[i] == r;
    assert Honest(blob, true, candidates[i]);
  }
}
