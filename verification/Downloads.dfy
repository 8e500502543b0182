/** The scheduler's download paths over one partial directory: a shared `object.partial` and
    range-keyed part files, both of which survive across requests. */
module Downloads {
  import opened Collections
  import opened Wire
  import opened Chunking
  import opened Failover

  /** A part file is named by the total size and the byte range it is for. */
  datatype PartKey = PartKey(total: nat, start: nat, end: nat)

  /** A part holds a prefix of exactly the range in its name. */
  ghost predicate PartOk(key: PartKey, data: Bytes, blob: Bytes) {
    key.total == |blob| && key.start <= key.end < key.total ==> data <= blob[key.start..key.end + 1]
  }

  /** `sha256:` and 64 hexadecimal digits. */
  predicate ValidDigest(digest: string) {
    && |digest| == 71
    && digest[..7] == "sha256:"
    && forall i :: 7 <= i < 71 ==>
         '0' <= digest[i] <= '9' || 'a' <= digest[i] <= 'f' || 'A' <= digest[i] <= 'F'
  }

  /** The file check before admission; `hash` gives the hexadecimal SHA-256 of a file. */
  function VerifyFile(hash: Bytes -> string, data: Bytes, digest: string): Outcome {
    if !ValidDigest(digest) then Err(BadRequest)
    else if hash(data) != digest[7..] then Err(Integrity)
    else Ok
  }

  /** A file verifies exactly if the digest is well formed and names the hash of its bytes. */
  lemma VerifiesExactly(hash: Bytes -> string, data: Bytes, digest: string)
    ensures VerifyFile(hash, data, digest).Ok? <==> ValidDigest(digest) && digest == "sha256:" + hash(data)
    ensures VerifyFile(hash, data, digest) == Err(BadRequest) <==> !ValidDigest(digest)
  {
    if ValidDigest(digest) { assert digest == digest[..7] + digest[7..]; }
  }

  datatype FetchPlan = FetchPlan(
    size: Option<nat>,                 // size detected upstream, if any
    digest: Option<string>,
    parallel: Option<nat>,             // chunk size when the planner chose parallel ranges
    resumable: bool,                   // range nodes exist and the blob is large enough
    rangeNodes: seq<Node>,             // attempts of a resume
    wholeNodes: seq<Node>,             // attempts of a whole download
    pendingNodes: seq<Node>,
    recovery1: seq<Node>,              // attempts of the two recovery passes
    recovery2: seq<Node>,
    alternates: nat)                   // how many fallback nodes there are

  datatype FetchResult = Admitted(content: Bytes) | Refused(error: Error) | CutOff

  ghost predicate HonestPlan(blob: Bytes, p: FetchPlan) {
    && (p.size.Some? ==> p.size.value == |blob|)
    && HonestNodes(blob, p.rangeNodes) && HonestNodes(blob, p.wholeNodes) && HonestNodes(blob, p.pendingNodes)
    && HonestNodes(blob, p.recovery1) && HonestNodes(blob, p.recovery2)
  }

  /** The path a transfer without parallel ranges takes: a resumption of the partial file, or a whole download. */
  predicate ResumesPartial(p: FetchPlan, file: Option<Bytes>) {
    p.resumable && 0 < Length(file) < p.size.GetOr(0)
  }

  function AimOf(p: FetchPlan, file: Option<Bytes>): Aim {
    if ResumesPartial(p, file) then Rest(p.size.GetOr(0)) else Whole(p.size)
  }

  function Asked(p: FetchPlan, file: Option<Bytes>): seq<Node> {
    (if ResumesPartial(p, file) then p.rangeNodes else p.wholeNodes) + p.pendingNodes
  }

  /** A recovery meets the file it is given once; every failed node's file is removed. */
  function Afresh(file: Option<Bytes>, k: nat): Option<Bytes> { if k == 0 then file else None }

  /** The node brings about a file that verifies. */
  predicate Recovers(n: Node, file: Option<Bytes>, total: Option<nat>, hash: Bytes -> string, digest: string) {
    && Suffices(Whole(total), n, file)
    && VerifyFile(hash, FileAfter(Whole(total), n, file).GetOr([]), digest).Ok?
  }

  /** Neither did the first `k` nodes of a recovery bring about a file that verifies, nor were they dropped. */
  ghost predicate Unrecovered(file: Option<Bytes>, nodes: seq<Node>, total: Option<nat>, hash: Bytes -> string, digest: string, k: nat)
    requires k <= |nodes|
  {
    forall j :: 0 <= j < k ==>
      !Recovers(nodes[j], Afresh(file, j), total, hash, digest) && !Drops(Whole(total), nodes[j], Afresh(file, j))
  }

  /** How a recovery ends after `tried` nodes failed. */
  ghost predicate Recovery(file: Option<Bytes>, nodes: seq<Node>, total: Option<nat>, hash: Bytes -> string, digest: string,
                           tried: nat, file': Option<Bytes>, outcome: Outcome) {
    && tried <= |nodes| && Unrecovered(file, nodes, total, hash, digest, tried)
    && match outcome
       case Err(_) => tried == |nodes| && file' == Afresh(file, tried)
       case Dropped => tried < |nodes| && Drops(Whole(total), nodes[tried], Afresh(file, tried))
       case Ok =>
         && tried < |nodes| && Recovers(nodes[tried], Afresh(file, tried), total, hash, digest)
         && file' == FileAfter(Whole(total), nodes[tried], Afresh(file, tried))
  }

  class PartialDir {
    var merged: Option<Bytes>
    var parts: map<PartKey, Bytes>

    constructor ()
      ensures merged == None && parts == map[]
    {
      merged, parts := None, map[];
    }

    /** Everything on disk is a prefix of what its name promises. */
    ghost predicate Sound(blob: Bytes)
      reads this
    {
      && PrefixOf(merged, blob)
      && forall k :: k in parts ==> PartOk(k, parts[k], blob)
    }

    /** Resumes `object.partial` from its length, node after node, until one completes it. */
    method DownloadResume(nodes: seq<Node>, pending: seq<Node>, total: nat, ghost blob: Bytes)
      returns (outcome: Outcome, ghost tried: nat)
      modifies this`merged
      ensures Course(Rest(total), old(merged), nodes + pending, tried, merged, outcome)
      ensures total == |blob| && HonestNodes(blob, nodes + pending) && old(PrefixOf(merged, blob)) ==>
                PrefixOf(merged, blob) && (outcome.Ok? && 0 < total ==> merged == Some(blob))
    {
      ghost var aim, before := Rest(total), merged;
      var all := nodes + pending;
      outcome, tried := Err(Upstream), |all|;
      for i := 0 to |all|
        invariant merged == Met(aim, before, all, i) && Failed(aim, before, all, i)
        invariant outcome == Err(Blame(aim, before, all, i)) && tried == |all|
        invariant 0 < i ==> Length(merged) <= total
      {
        // The first node of each group repeats the check without a verdict on longer files.
        var offset := if merged.Some? then |merged.value| else 0;
        if offset >= total {
          outcome, tried := if i == 0 || i == |nodes| || offset == total then Ok else Err(Integrity), i;
          break;
        }
        var result;
        merged, result := RestAttempt(merged, all[i], total);
        outcome := result;
        if !result.Err? { tried := i; break; }
        if result.error == Integrity { merged := None; }
      }
      if total == |blob| && HonestNodes(blob, all) && PrefixOf(before, blob) {
        CourseFits(aim, blob, before, all, tried, merged, outcome);
      }
    }

    /** Downloads the whole object from one node after another, resuming a shorter file, until one can
        finish. */
    method DownloadWhole(nodes: seq<Node>, pending: seq<Node>, total: Option<nat>, ghost blob: Bytes)
      returns (outcome: Outcome, ghost tried: nat)
      modifies this`merged
      ensures Course(Whole(total), old(merged), nodes + pending, tried, merged, outcome)
      ensures outcome.Err? && total.None? ==> forall k :: 0 <= k < |nodes + pending| ==> !Supplies((nodes + pending)[k])
      ensures outcome.Ok? ==> merged.Some?
      ensures (total.Some? ==> total.value == |blob|) && HonestNodes(blob, nodes + pending) ==>
                old(PrefixOf(merged, blob)) ==> PrefixOf(merged, blob)
    {
      ghost var aim, before := Whole(total), merged;
      var all := nodes + pending;
      outcome, tried := Err(Upstream), |all|;
      for i := 0 to |all|
        invariant merged == Met(aim, before, all, i) && Failed(aim, before, all, i)
        invariant outcome == Err(Blame(aim, before, all, i)) && tried == |all|
      {
        var result;
        merged, result := WholeAttempt(merged, all[i], total);
        outcome := result;
        if !result.Err? { tried := i; break; }
        if result.error == Integrity { merged := None; }
      }
      WholeFailsExactly(before, all, total, tried, merged, outcome);
      if (total.Some? ==> total.value == |blob|) && HonestNodes(blob, all) && PrefixOf(before, blob) {
        CourseFits(aim, blob, before, all, tried, merged, outcome);
      }
    }

    /** Fetches all chunks, finishing in any `order`, and merges them by index. Part files of
        other layouts stay as they are, and are used again only for the same byte range. */
    method DownloadParallel(total: nat, size: nat, nodes: nat -> seq<Node>, order: seq<nat>, mergeLife: nat, ghost blob: Bytes)
      returns (outcome: Outcome)
      requires EndsFit(total, size)
      modifies this
      ensures total == |blob| && (forall i :: HonestNodes(blob, nodes(i))) && old(Sound(blob)) ==>
                Sound(blob) && (outcome.Ok? ==> merged == Some(blob))
      ensures outcome.Ok? ==> merged.Some? && |merged.value| == total
      ensures total <= mergeLife && Prepared(old(parts), nodes, order, total, size) ==> outcome.Ok?
      ensures NoDup(order) ==> ParallelEnd(old(parts), nodes, order, total, size, mergeLife, outcome)
    {
      var cs := SplitChunks(total, size);
      if Prepared(parts, nodes, order, total, size) { PreparedChunks(parts, nodes, order, total, size, cs); }
      var data;
      assert cs == seq(DivCeil(total, size), k requires 0 <= k => ChunkAt(total, size, k));
      parts, data, outcome := FetchAndMerge(parts, cs, total, nodes, order, mergeLife, blob);
      if data.Some? { merged := data; }
    }

    /** Tries one node after another until the whole file verifies; a file that does not is removed. */
    method RecoverVerifiedBlob(nodes: seq<Node>, total: Option<nat>, hash: Bytes -> string, digest: string, ghost blob: Bytes)
      returns (outcome: Outcome, ghost tried: nat)
      modifies this`merged
      ensures outcome.Ok? ==> merged.Some? && VerifyFile(hash, merged.value, digest).Ok? && digest == "sha256:" + hash(merged.value)
      ensures Recovery(old(merged), nodes, total, hash, digest, tried, merged, outcome)
      ensures (total.Some? ==> total.value == |blob|) && HonestNodes(blob, nodes) ==>
                old(PrefixOf(merged, blob)) ==> PrefixOf(merged, blob)
    {
      ghost var honest := (total.Some? ==> total.value == |blob|) && HonestNodes(blob, nodes) && PrefixOf(merged, blob);
      var last := Integrity;
      for i := 0 to |nodes|
        invariant honest ==> PrefixOf(merged, blob)
        invariant merged == Afresh(old(merged), i) && Unrecovered(old(merged), nodes, total, hash, digest, i)
      {
        tried := i;
        assert honest ==> HonestNode(blob, nodes[i]);
        assert [nodes[i]] + [] == [nodes[i]];
        ghost var before, at := merged, 0;
        var result;
        result, at := DownloadWhole([nodes[i]], [], total, blob);
        OneNode(Whole(total), before, nodes[i], at, merged, result);
        if result.Ok? {
          result := VerifyFile(hash, merged.value, digest);
          VerifiesExactly(hash, merged.value, digest);
        }
        match result {
          case Ok => return Ok, tried;
          case Dropped => return Dropped, tried;
          case Err(e) =>
            merged := None;
            last := e;
        }
      }
      outcome, tried := Err(last), |nodes|;
    }

    /** The transfer of a cache miss: parallel with a whole download to fall back on, a resumption of
        the partial file, or a whole download. */
    method Transfer(p: FetchPlan, chunkNodes: nat -> seq<Node>, order: seq<nat>, mergeLife: nat, ghost blob: Bytes)
      returns (outcome: Outcome, ghost tried: nat)
      requires p.parallel.Some? ==>
                 p.size.Some? && EndsFit(p.size.value, p.parallel.value)
      modifies this
      ensures HonestPlan(blob, p) && (forall i :: HonestNodes(blob, chunkNodes(i))) && old(Sound(blob)) ==> Sound(blob)
      ensures outcome.Ok? && 0 < p.size.GetOr(1) ==> merged.Some?
      ensures p.parallel.None? ==>
                Course(AimOf(p, old(merged)), old(merged), Asked(p, old(merged)), tried, merged, outcome)
      ensures p.parallel.Some? && NoDup(order) ==>
                || (!outcome.Err? && Parallel(p, old(parts), chunkNodes, order, mergeLife, outcome))
                || (&& (exists e :: Parallel(p, old(parts), chunkNodes, order, mergeLife, Err(e)))
                    && Course(Whole(p.size), None, p.wholeNodes + p.pendingNodes, tried, merged, outcome))
    {
      var size := p.size.GetOr(0);
      if p.parallel.Some? {
        outcome := DownloadParallel(size, p.parallel.value, chunkNodes, order, mergeLife, blob);
        tried := 0;
        if outcome.Err? {
          merged := None;
          outcome, tried := DownloadWhole(p.wholeNodes, p.pendingNodes, p.size, blob);
        }
      } else if p.resumable && merged.Some? && 0 < |merged.value| < size {
        outcome, tried := DownloadResume(p.rangeNodes, p.pendingNodes, size, blob);
      } else {
        outcome, tried := DownloadWhole(p.wholeNodes, p.pendingNodes, p.size, blob);
      }
    }

    /** A cache miss, end to end. Whatever the nodes send, an object is admitted under a digest only
        if it verifies. If they are honest but cut anywhere, the directory stays sound, and an
        admitted object of known size is the blob, unless a shorter file has the same digest. Whatever
        the result is, `Explained` gives the reason for it. */
    method FetchUncached(p: FetchPlan, hash: Bytes -> string, chunkNodes: nat -> seq<Node>, order: seq<nat>,
                         mergeLife: nat, admits: bool, ghost blob: Bytes)
      returns (result: FetchResult, ghost transfer: Outcome, ghost tried: nat, ghost got: Option<Bytes>)
      requires p.parallel.Some? ==>
                 p.size.Some? && EndsFit(p.size.value, p.parallel.value)
      modifies this
      ensures result.Admitted? && p.digest.Some? ==> p.digest.value == "sha256:" + hash(result.content)
      ensures result.Admitted? && p.digest.None? && p.size.Some? ==> |result.content| == p.size.value
      ensures HonestPlan(blob, p) && (forall i :: HonestNodes(blob, chunkNodes(i))) && old(Sound(blob)) ==>
                && Sound(blob)
                && (result.Admitted? ==> result.content <= blob)
                && (result.Admitted? && p.size.Some? && |result.content| != |blob| ==> p.digest.Some?)
      ensures p.parallel.None? ==>
                Course(AimOf(p, old(merged)), old(merged), Asked(p, old(merged)), tried, got, transfer)
      ensures p.parallel.Some? && NoDup(order) ==>
                || (!transfer.Err? && Parallel(p, old(parts), chunkNodes, order, mergeLife, transfer))
                || (&& (exists e :: Parallel(p, old(parts), chunkNodes, order, mergeLife, Err(e)))
                    && Course(Whole(p.size), None, p.wholeNodes + p.pendingNodes, tried, got, transfer))
      ensures Explained(p, hash, admits, transfer, got, result)
      ensures result.Admitted? ==> merged.None? && parts == map[]
    {
      var outcome;
      outcome, tried := Transfer(p, chunkNodes, order, mergeLife, blob);
      transfer, got := outcome, merged;
      match outcome {
        case Dropped => result := CutOff;
        case Err(e) => result := Refused(e);
        case Ok =>
          if merged.None? { result := Refused(Missing); } else { result := Settle(p, hash, admits, blob); }
      }
    }

    /** Checks the transferred file, recovers a bad one from other nodes, and admits it. */
    method Settle(p: FetchPlan, hash: Bytes -> string, admits: bool, ghost blob: Bytes)
      returns (result: FetchResult)
      requires merged.Some?
      modifies this
      ensures result.Admitted? && p.digest.Some? ==> p.digest.value == "sha256:" + hash(result.content)
      ensures result.Admitted? && p.digest.None? && p.size.Some? ==> |result.content| == p.size.value
      ensures HonestPlan(blob, p) && old(Sound(blob)) ==>
                && Sound(blob)
                && (result.Admitted? ==> result.content <= blob)
                && (result.Admitted? && p.size.Some? && |result.content| != |blob| ==> p.digest.Some?)
      ensures Explained(p, hash, admits, Ok, old(merged), result)
      ensures if result.Admitted? then merged.None? && parts == map[] else parts == old(parts)
    {
      ghost var tried;
      if p.size.Some? && |merged.value| != p.size.value {
        if p.digest.None? || p.alternates <= 1 { return Refused(Integrity); }
        var outcome;
        outcome, tried := RecoverVerifiedBlob(p.recovery1, p.size, hash, p.digest.value, blob);
        PassEnds(p, hash, old(merged).value, tried, merged, outcome);
        if outcome.Dropped? { return CutOff; }
        if outcome.Err? { return Refused(outcome.error); }
      }
      if p.digest.Some? {
        var verdict := VerifyFile(hash, merged.value, p.digest.value);
        VerifiesExactly(hash, merged.value, p.digest.value);
        if verdict.Err? {
          if p.alternates < 2 { return Refused(verdict.error); }
          var outcome;
          outcome, tried := RecoverVerifiedBlob(p.recovery2, p.size, hash, p.digest.value, blob);
          PassEnds(p, hash, old(merged).value, tried, merged, outcome);
          if outcome.Dropped? { return CutOff; }
          if outcome.Err? { return Refused(outcome.error); }
        }
      }
      if !admits { return Refused(BadRequest); }
      var content := merged.value;
      merged, parts := None, map[];
      return Admitted(content);
    }
  }

  lemma OneNode(aim: Aim, file: Option<Bytes>, n: Node, tried: nat, file': Option<Bytes>, outcome: Outcome)
    requires Course(aim, file, [n], tried, file', outcome)
    ensures outcome.Ok? <==> Suffices(aim, n, file)
    ensures outcome.Dropped? <==> Drops(aim, n, file)
    ensures outcome.Ok? ==> file' == FileAfter(aim, n, file)
  {
    CourseEnds(aim, file, [n], tried, file', outcome);
    assert SufficesAt(aim, file, [n], 0) == Suffices(aim, n, file) && DropsAt(aim, file, [n], 0) == Drops(aim, n, file);
  }

  /** The transferred file has the detected size and the digest asked for. */
  predicate Good(p: FetchPlan, hash: Bytes -> string, file: Bytes) {
    && (p.size.Some? ==> |file| == p.size.value)
    && (p.digest.Some? ==> VerifyFile(hash, file, p.digest.value).Ok?)
  }

  /** What is wrong with a file that is not good. */
  function Flaw(p: FetchPlan, file: Bytes): Error {
    if (p.size.None? || |file| == p.size.value) && p.digest.Some? && !ValidDigest(p.digest.value)
    then BadRequest else Integrity
  }

  /** The nodes that are asked again: one pass after a wrong length, the other after a wrong digest. */
  function Pass(p: FetchPlan, file: Bytes): seq<Node> {
    if p.size.Some? && |file| != p.size.value then p.recovery1 else p.recovery2
  }

  /** A recovery follows a bad file if there is a digest to check against and another node to ask. */
  predicate Recoverable(p: FetchPlan) { p.digest.Some? && 2 <= p.alternates }

  /** Some recovery of the bad file ends so. */
  ghost predicate Recovering(p: FetchPlan, hash: Bytes -> string, file: Bytes, file': Option<Bytes>, outcome: Outcome) {
    && Recoverable(p)
    && exists tried :: Recovery(Some(file), Pass(p, file), p.size, hash, p.digest.value, tried, file', outcome)
  }

  lemma PassEnds(p: FetchPlan, hash: Bytes -> string, file: Bytes, tried: nat, file': Option<Bytes>, outcome: Outcome)
    requires Recoverable(p) && Recovery(Some(file), Pass(p, file), p.size, hash, p.digest.value, tried, file', outcome)
    ensures Recovering(p, hash, file, file', outcome)
  {
  }

  /** Why a fetch ends as it does. An object is admitted if the transfer, or the recovery of a bad file,
      gives it, and the cache takes it. Otherwise the transfer failed or was dropped, or a bad file
      could not be recovered, or the cache refuses the object. */
  ghost predicate Explained(p: FetchPlan, hash: Bytes -> string, admits: bool, transfer: Outcome, got: Option<Bytes>, result: FetchResult) {
    if transfer.Dropped? then result == CutOff
    else if transfer.Err? then result == Refused(transfer.error)
    else if got.None? then result == Refused(Missing)
    else if Good(p, hash, got.value) then result == if admits then Admitted(got.value) else Refused(BadRequest)
    else match result
      case Admitted(content) => admits && Recovering(p, hash, got.value, Some(content), Ok)
      case CutOff => exists file' :: Recovering(p, hash, got.value, file', Dropped)
      case Refused(e) =>
        || (!Recoverable(p) && e == Flaw(p, got.value))
        || (exists file' :: Recovering(p, hash, got.value, file', Err(e)))
        || (!admits && e == BadRequest && exists file' :: Recovering(p, hash, got.value, file', Ok))
  }

  /** Without parallel ranges, one node is enough wherever it stands: if the first node that suffices gives
      a good file, and no node before it is dropped, that file is admitted. */
  lemma AnyNodeIsEnough(p: FetchPlan, hash: Bytes -> string, file: Option<Bytes>, k: nat, tried: nat, transfer: Outcome,
                        got: Option<Bytes>, result: FetchResult)
    requires Course(AimOf(p, file), file, Asked(p, file), tried, got, transfer) && Explained(p, hash, true, transfer, got, result)
    requires k < |Asked(p, file)| && Failed(AimOf(p, file), file, Asked(p, file), k) && SufficesAt(AimOf(p, file), file, Asked(p, file), k)
    requires var best := FileAfter(AimOf(p, file), Asked(p, file)[k], Met(AimOf(p, file), file, Asked(p, file), k));
             best.Some? && Good(p, hash, best.value)
    ensures result == Admitted(FileAfter(AimOf(p, file), Asked(p, file)[k], Met(AimOf(p, file), file, Asked(p, file), k)).value)
  {
    CourseEnds(AimOf(p, file), file, Asked(p, file), tried, got, transfer);
    assert tried == k;
  }

  /** One node's turn in a resumption. */
  method RestAttempt(file: Option<Bytes>, n: Node, total: nat) returns (file': Option<Bytes>, result: Outcome)
    requires Length(file) < total
    ensures Turn(Rest(total), n, file, file', result) && Length(file') <= total
  {
    file' := file;
    var offset := if file.Some? then |file.value| else 0;
    if n.ranged.SendFailed? { return file', Err(Upstream); }
    var r := n.ranged.response;
    if !r.Labelled(offset, total - 1, total) { return file', Err(Integrity); }
    var data;
    data, result := WriteBody(if offset == 0 then [] else file.value, r, Some(total - offset), n.life);
    Wrote(Rest(total), n, file, data, result);
    file' := Some(data);
  }

  /** One node's turn in a whole download: it continues a shorter file, or writes the file anew. */
  method WholeAttempt(file: Option<Bytes>, n: Node, total: Option<nat>) returns (file': Option<Bytes>, result: Outcome)
    ensures Turn(Whole(total), n, file, file', result) && (result.Ok? ==> file'.Some?)
  {
    file' := file;
    var existing := if total.Some? && total.value > 0 && file.Some? && |file.value| < total.value
                    then Some(|file.value|) else None;
    var reply := if existing.Some? then n.ranged else n.plain;
    if reply.SendFailed? || !reply.response.Success() { return file', Err(Upstream); }
    var r, data := reply.response, [];
    if existing.Some? {
      var start, end := existing.value, total.value - 1;
      if !r.Labelled(start, end, total.value) { return file', Err(Integrity); }
      data, result := WriteBody(file.value, r, Some(end - start + 1), n.life);
    } else {
      data, result := WriteBody([], r, r.length, n.life);
    }
    Wrote(Whole(total), n, file, data, result);
    file' := Some(data);
  }

  /** The part file of a chunk, if any. */
  function PartOf(parts: map<PartKey, Bytes>, c: Chunk): Option<Bytes> {
    var key := PartKey(c.total, c.start, c.end);
    if key in parts then Some(parts[key]) else None
  }

  ghost predicate PartsOk(parts: map<PartKey, Bytes>, blob: Bytes) {
    forall k :: k in parts ==> PartOk(k, parts[k], blob)
  }

  /** The part is complete. */
  predicate Full(parts: map<PartKey, Bytes>, c: Chunk) {
    var part := PartOf(parts, c);
    c.start <= c.end && part.Some? && |part.value| == c.end - c.start + 1
  }

  /** One node's turn at a chunk. */
  method ChunkAttempt(before: Option<Bytes>, n: Node, c: Chunk) returns (part: Option<Bytes>, result: Outcome)
    requires c.start <= c.end < c.total
    ensures Turn(Part(c), n, before, part, result)
    ensures result.Ok? ==> part.Some? && |part.value| == c.end - c.start + 1
  {
    part := before;
    var initial := if part.Some? then part.value else [];
    var start := c.start + |initial|;
    if |initial| > c.end - c.start + 1 { return part, Err(Integrity); }
    if start > c.end { return part, Ok; }
    if n.ranged.SendFailed? || n.ranged.response.status != 206 { return part, Err(Upstream); }
    var r, expected := n.ranged.response, c.end - start + 1;
    if r.length != Some(expected) || !r.Labelled(start, c.end, c.total) { return part, Err(Integrity); }
    var data;
    data, result := WriteBody(initial, r, Some(expected), n.life);
    Wrote(Part(c), n, before, data, result);
    part := Some(data);
  }

  /** Fills one part file, continuing what is already there, from one node after another. */
  method DownloadChunk(before: Option<Bytes>, nodes: seq<Node>, c: Chunk, ghost blob: Bytes)
    returns (part: Option<Bytes>, outcome: Outcome, ghost tried: nat)
    requires c.start <= c.end < c.total
    ensures outcome.Ok? ==> part.Some? && |part.value| == c.end - c.start + 1
    ensures Course(Part(c), before, nodes, tried, part, outcome)
    ensures c.total == |blob| && HonestNodes(blob, nodes) && PrefixOf(before, blob[c.start..c.end + 1]) ==>
              PrefixOf(part, blob[c.start..c.end + 1])
  {
    ghost var aim := Part(c);
    part, outcome, tried := before, Err(Upstream), |nodes|;
    for i := 0 to |nodes|
      invariant part == Met(aim, before, nodes, i) && Failed(aim, before, nodes, i)
      invariant outcome == Err(Blame(aim, before, nodes, i)) && tried == |nodes|
    {
      var result;
      part, result := ChunkAttempt(part, nodes[i], c);
      outcome := result;
      if !result.Err? { tried := i; break; }
      if result.error == Integrity { part := None; }
    }
    if c.total == |blob| && HonestNodes(blob, nodes) && PrefixOf(before, blob[c.start..c.end + 1]) {
      ChunkFits(c, blob, before, nodes, tried, part, outcome);
    }
  }

  /** How the turn of a chunk must end: a full part needs none, any other is asked of its nodes. */
  ghost predicate PartEnds(part: Option<Bytes>, nodes: seq<Node>, c: Chunk, outcome: Outcome) {
    if part.Some? && |part.value| == c.end - c.start + 1 then outcome.Ok?
    else exists tried, part' :: Course(Part(c), part, nodes, tried, part', outcome)
  }

  lemma PartEndsOnce(part: Option<Bytes>, nodes: seq<Node>, c: Chunk, o: Outcome, o': Outcome)
    requires PartEnds(part, nodes, c, o) && PartEnds(part, nodes, c, o')
    ensures o == o'
  {
    if !(part.Some? && |part.value| == c.end - c.start + 1) {
      var t, f :| Course(Part(c), part, nodes, t, f, o);
      var t', f' :| Course(Part(c), part, nodes, t', f', o');
      CourseUnique(Part(c), part, nodes, t, f, o, t', f', o');
    }
  }

  /** A ready chunk ends well. */
  lemma ReadyEndsWell(parts: map<PartKey, Bytes>, nodes: seq<Node>, c: Chunk, outcome: Outcome)
    requires c.start <= c.end && Ready(parts, nodes, c) && PartEnds(PartOf(parts, c), nodes, c, outcome)
    ensures outcome.Ok?
  {
    if !Full(parts, c) {
      var tried, part' :| Course(Part(c), PartOf(parts, c), nodes, tried, part', outcome);
      CourseExactly(Part(c), PartOf(parts, c), nodes, tried, part', outcome);
      SufficesExactly(nodes[0], PartOf(parts, c), None, 0, c);
      assert SufficesAt(Part(c), PartOf(parts, c), nodes, 0);
    }
  }

  /** The chunk's part is full, or the first node asked fills it. */
  predicate Ready(parts: map<PartKey, Bytes>, nodes: seq<Node>, c: Chunk) {
    Full(parts, c) || (nodes != [] && Fills(nodes[0], Length(PartOf(parts, c)), c))
  }

  /** Chunks that are not done have the part file they had. */
  ghost predicate Untouched(before: map<PartKey, Bytes>, parts: map<PartKey, Bytes>, cs: seq<Chunk>, done: set<nat>) {
    forall k :: 0 <= k < |cs| && k !in done ==> PartOf(parts, cs[k]) == PartOf(before, cs[k])
  }

  /** Every chunk of the layout is run, and is full already or filled by the first node asked. */
  ghost predicate Prepared(parts: map<PartKey, Bytes>, nodes: nat -> seq<Node>, order: seq<nat>, total: nat, size: nat)
    requires 0 < size
  {
    forall k :: 0 <= k < DivCeil(total, size) ==> k in order && Ready(parts, nodes(k), ChunkAt(total, size, k))
  }

  lemma PreparedChunks(parts: map<PartKey, Bytes>, nodes: nat -> seq<Node>, order: seq<nat>, total: nat, size: nat, cs: seq<Chunk>)
    requires 0 < size && Prepared(parts, nodes, order, total, size) && |cs| == DivCeil(total, size)
    requires forall i :: 0 <= i < |cs| ==> cs[i] == ChunkAt(total, size, i)
    ensures AllReady(parts, nodes, cs) && forall k :: 0 <= k < |cs| ==> k in order
  {
  }

  function KeyOf(c: Chunk): PartKey { PartKey(c.total, c.start, c.end) }

  ghost predicate AllFull(parts: map<PartKey, Bytes>, cs: seq<Chunk>, done: set<nat>) {
    forall k :: k in done ==> k < |cs| && Full(parts, cs[k])
  }

  ghost predicate AllReady(parts: map<PartKey, Bytes>, nodes: nat -> seq<Node>, cs: seq<Chunk>) {
    forall k :: 0 <= k < |cs| ==> Ready(parts, nodes(k), cs[k])
  }

  /** No part file changed but this one. */
  ghost predicate OnlyPart(was: map<PartKey, Bytes>, parts: map<PartKey, Bytes>, key: PartKey) {
    forall k :: k != key ==> (k in parts <==> k in was) && (k in parts ==> parts[k] == was[k])
  }

  lemma OthersStay(was: map<PartKey, Bytes>, parts: map<PartKey, Bytes>, cs: seq<Chunk>, total: nat, k: nat, n: nat)
    requires Tiles(cs, total) && n < |cs| && k < |cs| && k != n && OnlyPart(was, parts, KeyOf(cs[n]))
    ensures PartOf(parts, cs[k]) == PartOf(was, cs[k])
  {
    DistinctKeys(cs, total, k, n);
  }

  function With(s: set<nat>, n: nat): set<nat> { s + {n} }

  /** What one chunk's turn does to the others. */
  lemma PartsStay(before: map<PartKey, Bytes>, was: map<PartKey, Bytes>, parts: map<PartKey, Bytes>, cs: seq<Chunk>,
                  total: nat, done: set<nat>, seen: set<nat>, n: nat)
    requires Tiles(cs, total) && n < |cs| && OnlyPart(was, parts, KeyOf(cs[n])) && AllFull(was, cs, done)
    requires n in done ==> Full(parts, cs[n])
    requires Untouched(before, was, cs, seen)
    ensures AllFull(parts, cs, done) && Untouched(before, parts, cs, With(seen, n))
  {
    forall k | k in done ensures Full(parts, cs[k]) {
      assert Full(was, cs[k]);
      if k != n { OthersStay(was, parts, cs, total, k, n); }
    }
    forall k | 0 <= k < |cs| && k !in With(seen, n) ensures PartOf(parts, cs[k]) == PartOf(before, cs[k]) {
      OthersStay(was, parts, cs, total, k, n);
    }
  }

  /** One chunk's turn changes no other part, fills its own if it ends well, and ends as it must. */
  ghost predicate PartTurn(before: map<PartKey, Bytes>, parts: map<PartKey, Bytes>, nodes: seq<Node>, c: Chunk, result: Outcome) {
    OnlyPart(before, parts, KeyOf(c)) && (result.Ok? ==> Full(parts, c)) && PartEnds(PartOf(before, c), nodes, c, result)
  }

  /** One chunk's turn: nothing if its part is full, otherwise a download into its part file. */
  method FetchPart(before: map<PartKey, Bytes>, nodes: seq<Node>, c: Chunk, ghost blob: Bytes)
    returns (parts: map<PartKey, Bytes>, result: Outcome)
    requires c.start <= c.end < c.total
    ensures PartTurn(before, parts, nodes, c, result)
    ensures c.total == |blob| && HonestNodes(blob, nodes) && PartsOk(before, blob) ==> PartsOk(parts, blob)
  {
    parts := before;
    if Full(parts, c) { return parts, Ok; }
    var part;
    ghost var tried;
    part, result, tried := DownloadChunk(PartOf(parts, c), nodes, c, blob);
    parts := if part.Some? then parts[KeyOf(c) := part.value] else parts - {KeyOf(c)};
  }

  /** The end of all chunks together: one that is dropped drops all, otherwise the first error counts. */
  ghost predicate Verdict(results: seq<Outcome>, outcome: Outcome) {
    match outcome
    case Ok => forall i :: 0 <= i < |results| ==> results[i].Ok?
    case Dropped => Dropped in results
    case Err(_) => Dropped !in results && exists i :: 0 <= i < |results| && results[i] == outcome && forall j :: 0 <= j < i ==> results[j].Ok?
  }

  function Combine(outcome: Outcome, next: Outcome): Outcome {
    if outcome.Dropped? || next.Dropped? then Dropped else if outcome.Err? then outcome else next
  }

  lemma VerdictGrows(results: seq<Outcome>, outcome: Outcome, next: Outcome)
    requires Verdict(results, outcome)
    ensures Verdict(results + [next], Combine(outcome, next))
  {
    var longer := results + [next];
    assert longer[|results|] == next;
    if outcome.Err? && !next.Dropped? {
      var i :| 0 <= i < |results| && results[i] == outcome && forall j :: 0 <= j < i ==> results[j].Ok?;
      assert longer[i] == outcome;
    }
  }

  /** The first turn of every chunk ends as its part file and its nodes say. */
  ghost predicate TurnsEnd(before: map<PartKey, Bytes>, cs: seq<Chunk>, nodes: nat -> seq<Node>, order: seq<nat>, results: seq<Outcome>) {
    forall i :: 0 <= i < |results| <= |order| && order[i] < |cs| && order[i] !in order[..i] ==>
      PartEnds(PartOf(before, cs[order[i]]), nodes(order[i]), cs[order[i]], results[i])
  }

  /** Runs the chunk downloads to their end, in any completion order. */
  method FetchParts(before: map<PartKey, Bytes>, cs: seq<Chunk>, total: nat, nodes: nat -> seq<Node>, order: seq<nat>, ghost blob: Bytes)
    returns (parts: map<PartKey, Bytes>, done: set<nat>, outcome: Outcome, ghost results: seq<Outcome>)
    requires Tiles(cs, total)
    ensures AllFull(parts, cs, done) && forall k :: k in done ==> k in order
    ensures outcome.Ok? ==> forall i :: 0 <= i < |order| && order[i] < |cs| ==> order[i] in done
    ensures AllReady(before, nodes, cs) ==> outcome.Ok?
    ensures |results| == |order| && Verdict(results, outcome) && TurnsEnd(before, cs, nodes, order, results)
    ensures forall i :: 0 <= i < |order| && |cs| <= order[i] ==> results[i].Ok?
    ensures total == |blob| && (forall i :: HonestNodes(blob, nodes(i))) && PartsOk(before, blob) ==> PartsOk(parts, blob)
    ensures forall k :: k in before && k.total != total ==> k in parts && parts[k] == before[k]
  {
    ghost var honest := total == |blob| && (forall i :: HonestNodes(blob, nodes(i))) && PartsOk(before, blob);
    parts, done, outcome, results := before, {}, Ok, [];
    ghost var seen: set<nat> := {};
    for i := 0 to |order|
      invariant honest ==> PartsOk(parts, blob)
      invariant |results| == i && Running(before, parts, cs, nodes, order, done, seen, results, outcome)
      invariant forall k :: k in before && k.total != total ==> k in parts && parts[k] == before[k]
    {
      var n := order[i];
      ghost var was := parts;
      var result := Ok;
      if n < |cs| { parts, result := FetchPart(parts, nodes(n), cs[n], blob); }
      RunOn(before, was, parts, cs, total, nodes, order, done, seen, results, outcome, result);
      if n < |cs| && result.Ok? { done := With(done, n); }
      seen, results := With(seen, n), results + [result];
      outcome := Combine(outcome, result);
    }
    assert order[..|order|] == order;
  }

  /** The loop of the chunks: what is done and what is untouched, and how the turns so far ended. */
  ghost predicate Running(before: map<PartKey, Bytes>, parts: map<PartKey, Bytes>, cs: seq<Chunk>, nodes: nat -> seq<Node>, order: seq<nat>,
                          done: set<nat>, seen: set<nat>, results: seq<Outcome>, outcome: Outcome) {
    && AllFull(parts, cs, done) && Untouched(before, parts, cs, seen)
    && InStep(order, cs, done, seen, results, outcome) && TurnsEnd(before, cs, nodes, order, results)
    && (AllReady(before, nodes, cs) ==> outcome.Ok?)
  }

  lemma RunOn(before: map<PartKey, Bytes>, was: map<PartKey, Bytes>, parts: map<PartKey, Bytes>, cs: seq<Chunk>, total: nat,
              nodes: nat -> seq<Node>, order: seq<nat>, done: set<nat>, seen: set<nat>, results: seq<Outcome>, outcome: Outcome, result: Outcome)
    requires Tiles(cs, total) && |results| < |order| && Running(before, was, cs, nodes, order, done, seen, results, outcome)
    requires var n := order[|results|];
             if n < |cs| then PartTurn(was, parts, nodes(n), cs[n], result) else parts == was && result.Ok?
    ensures var n := order[|results|];
            Running(before, parts, cs, nodes, order, if n < |cs| && result.Ok? then With(done, n) else done, With(seen, n),
                    results + [result], Combine(outcome, result))
  {
    PartsRunOn(before, was, parts, cs, total, nodes, order[|results|], done, seen, result);
    TurnStaysReady(before, was, nodes, cs, order, done, seen, results, outcome, result);
    NextTurn(before, was, cs, nodes, order, seen, results, result);
    NextStep(order, cs, done, seen, results, outcome, result);
  }

  lemma PartsRunOn(before: map<PartKey, Bytes>, was: map<PartKey, Bytes>, parts: map<PartKey, Bytes>, cs: seq<Chunk>, total: nat,
                   nodes: nat -> seq<Node>, n: nat, done: set<nat>, seen: set<nat>, result: Outcome)
    requires Tiles(cs, total) && AllFull(was, cs, done) && Untouched(before, was, cs, seen)
    requires if n < |cs| then PartTurn(was, parts, nodes(n), cs[n], result) else parts == was && result.Ok?
    ensures AllFull(parts, cs, if n < |cs| && result.Ok? then With(done, n) else done) && Untouched(before, parts, cs, With(seen, n))
  {
    if n < |cs| { PartsStay(before, was, parts, cs, total, done, seen, n); }
  }

  lemma TurnStaysReady(before: map<PartKey, Bytes>, was: map<PartKey, Bytes>, nodes: nat -> seq<Node>, cs: seq<Chunk>, order: seq<nat>,
                       done: set<nat>, seen: set<nat>, results: seq<Outcome>, outcome: Outcome, result: Outcome)
    requires AllFull(was, cs, done) && Untouched(before, was, cs, seen) && InStep(order, cs, done, seen, results, outcome)
    requires |results| < |order| && (forall k :: 0 <= k < |cs| ==> cs[k].start <= cs[k].end)
    requires var n := order[|results|]; if n < |cs| then PartEnds(PartOf(was, cs[n]), nodes(n), cs[n], result) else result.Ok?
    ensures AllReady(before, nodes, cs) && outcome.Ok? ==> Combine(outcome, result).Ok?
  {
    var n := order[|results|];
    if AllReady(before, nodes, cs) && outcome.Ok? && n < |cs| { StaysReady(before, was, nodes, cs, done, seen, n, result); }
  }

  /** The chunks run so far, those of them that are done, and how all of them ended together. */
  ghost predicate InStep(order: seq<nat>, cs: seq<Chunk>, done: set<nat>, seen: set<nat>, results: seq<Outcome>, outcome: Outcome) {
    && |results| <= |order| && Verdict(results, outcome)
    && (forall k :: k in seen <==> k in order[..|results|])
    && done <= seen
    && (outcome.Ok? ==> forall k :: k in seen && k < |cs| ==> k in done)
    && forall k :: 0 <= k < |results| && |cs| <= order[k] ==> results[k].Ok?
  }

  lemma NextStep(order: seq<nat>, cs: seq<Chunk>, done: set<nat>, seen: set<nat>, results: seq<Outcome>, outcome: Outcome, result: Outcome)
    requires InStep(order, cs, done, seen, results, outcome) && |results| < |order|
    requires |cs| <= order[|results|] ==> result.Ok?
    ensures var n := order[|results|];
            InStep(order, cs, if n < |cs| && result.Ok? then With(done, n) else done, With(seen, n), results + [result], Combine(outcome, result))
  {
    VerdictGrows(results, outcome, result);
    var n := order[|results|];
    assert order[..|results| + 1] == order[..|results|] + [n];
  }

  lemma StaysReady(before: map<PartKey, Bytes>, was: map<PartKey, Bytes>, nodes: nat -> seq<Node>, cs: seq<Chunk>,
                   done: set<nat>, seen: set<nat>, n: nat, result: Outcome)
    requires AllReady(before, nodes, cs) && AllFull(was, cs, done) && Untouched(before, was, cs, seen)
    requires n < |cs| && cs[n].start <= cs[n].end && (n in seen ==> n in done)
    requires PartEnds(PartOf(was, cs[n]), nodes(n), cs[n], result)
    ensures result.Ok?
  {
    assert Ready(before, nodes(n), cs[n]);
    ReadyEndsWell(was, nodes(n), cs[n], result);
  }

  lemma NextTurn(before: map<PartKey, Bytes>, was: map<PartKey, Bytes>, cs: seq<Chunk>, nodes: nat -> seq<Node>,
                 order: seq<nat>, seen: set<nat>, results: seq<Outcome>, result: Outcome)
    requires |results| < |order| && TurnsEnd(before, cs, nodes, order, results) && Untouched(before, was, cs, seen)
    requires forall k :: k in seen <==> k in order[..|results|]
    requires var n := order[|results|]; n < |cs| ==> PartEnds(PartOf(was, cs[n]), nodes(n), cs[n], result)
    ensures TurnsEnd(before, cs, nodes, order, results + [result])
  {
  }

  lemma MergeNext(blob: Bytes, data: Bytes, part: Bytes, n: nat)
    requires |data| + |part| <= |blob| && data == blob[..|data|] && n <= |part|
    requires part == blob[|data|..|data| + |part|]
    ensures data + part[..n] == blob[..|data| + n]
  {
    SliceOfSlice(blob, |data|, |data| + |part|, 0, n);
    SliceJoin(blob, 0, |data|, |data| + n);
    assert blob[0..|data|] == blob[..|data|] && blob[0..|data| + n] == blob[..|data| + n] && part[0..n] == part[..n];
  }

  /** Concatenates the parts by index. */
  method MergeParts(parts: map<PartKey, Bytes>, cs: seq<Chunk>, total: nat, done: set<nat>, mergeLife: nat, ghost blob: Bytes)
    returns (data: Bytes, outcome: Outcome)
    requires Tiles(cs, total) && AllFull(parts, cs, done)
    ensures outcome.Ok? ==> |data| == total
    ensures outcome.Ok? <==> total <= mergeLife && forall i :: 0 <= i < |cs| ==> i in done
    ensures outcome.Dropped? ==> mergeLife < total
    ensures outcome.Err? ==> outcome.error == Integrity && exists i :: 0 <= i < |cs| && i !in done
    ensures total == |blob| && PartsOk(parts, blob) ==> data <= blob && (outcome.Ok? ==> data == blob)
  {
    ghost var honest := total == |blob| && PartsOk(parts, blob);
    data := [];
    var life: nat := mergeLife;
    for i := 0 to |cs|
      invariant |data| == (if i == 0 then 0 else cs[i - 1].end + 1) && |data| + life == mergeLife
      invariant forall k :: 0 <= k < i ==> k in done
      invariant honest ==> data == blob[..|data|]
    {
      if i !in done { return data, Err(Integrity); }
      assert Full(parts, cs[i]) && |data| == cs[i].start;
      var part := PartOf(parts, cs[i]).value;
      assert honest ==> part == blob[cs[i].start..cs[i].end + 1];
      if |part| > life {
        assert |data| + |part| <= total;
        if honest { MergeNext(blob, data, part, life); }
        return data + part[..life], Dropped;
      }
      life := life - |part|;
      assert part[..|part|] == part;
      if honest { MergeNext(blob, data, part, |part|); }
      data := data + part;
    }
    outcome := Ok;
  }

  ghost predicate ChunkEnds(parts: map<PartKey, Bytes>, nodes: nat -> seq<Node>, cs: seq<Chunk>, k: nat, outcome: Outcome)
    requires k < |cs|
  {
    PartEnds(PartOf(parts, cs[k]), nodes(k), cs[k], outcome)
  }

  /** How parallel chunks end: well exactly if every chunk is run and ends well and the merge is not
      dropped; an error is that of a chunk all of whose nodes failed, or a chunk that was not run. */
  ghost predicate AllEnd(parts: map<PartKey, Bytes>, nodes: nat -> seq<Node>, order: seq<nat>, cs: seq<Chunk>, total: nat,
                         mergeLife: nat, outcome: Outcome) {
    match outcome
    case Ok => total <= mergeLife && forall k :: 0 <= k < |cs| ==> k in order && ChunkEnds(parts, nodes, cs, k, Ok)
    case Dropped => mergeLife < total || exists k :: 0 <= k < |cs| && k in order && ChunkEnds(parts, nodes, cs, k, Dropped)
    case Err(e) =>
      exists k :: 0 <= k < |cs| && if k in order then ChunkEnds(parts, nodes, cs, k, outcome) else e == Integrity
  }

  /** The same, of the chunks of a layout. */
  ghost predicate ParallelEnd(parts: map<PartKey, Bytes>, nodes: nat -> seq<Node>, order: seq<nat>, total: nat, size: nat,
                              mergeLife: nat, outcome: Outcome)
    requires 0 < size
  {
    AllEnd(parts, nodes, order, seq(DivCeil(total, size), k requires 0 <= k => ChunkAt(total, size, k)), total, mergeLife, outcome)
  }

  ghost predicate Parallel(p: FetchPlan, parts: map<PartKey, Bytes>, nodes: nat -> seq<Node>, order: seq<nat>, mergeLife: nat, outcome: Outcome) {
    && p.parallel.Some? && p.size.Some? && 0 < p.parallel.value
    && ParallelEnd(parts, nodes, order, p.size.value, p.parallel.value, mergeLife, outcome)
  }

  /** Parallel chunks end well exactly if every chunk is run and ends well and the merge is not dropped. */
  lemma ParallelOkExactly(parts: map<PartKey, Bytes>, nodes: nat -> seq<Node>, order: seq<nat>, cs: seq<Chunk>, total: nat,
                          mergeLife: nat, outcome: Outcome)
    requires AllEnd(parts, nodes, order, cs, total, mergeLife, outcome)
    ensures outcome.Ok? <==>
              total <= mergeLife && forall k :: 0 <= k < |cs| ==> k in order && ChunkEnds(parts, nodes, cs, k, Ok)
  {
    if !outcome.Ok? && total <= mergeLife && forall k :: 0 <= k < |cs| ==> k in order && ChunkEnds(parts, nodes, cs, k, Ok) {
      var k :| 0 <= k < |cs| && if k in order then ChunkEnds(parts, nodes, cs, k, outcome) else outcome == Err(Integrity);
      PartEndsOnce(PartOf(parts, cs[k]), nodes(k), cs[k], Ok, outcome);
    }
  }

  /** If every chunk is run once, each ends as its own turn does. */
  lemma TurnOf(parts: map<PartKey, Bytes>, nodes: nat -> seq<Node>, order: seq<nat>, cs: seq<Chunk>, results: seq<Outcome>, i: nat)
    requires NoDup(order) && |results| == |order| && TurnsEnd(parts, cs, nodes, order, results) && i < |order| && order[i] < |cs|
    ensures ChunkEnds(parts, nodes, cs, order[i], results[i])
  {
    assert order[i] !in order[..i];
  }

  lemma FetchedEnds(parts: map<PartKey, Bytes>, nodes: nat -> seq<Node>, order: seq<nat>, cs: seq<Chunk>, total: nat,
                    mergeLife: nat, results: seq<Outcome>, outcome: Outcome)
    requires NoDup(order) && |results| == |order| && TurnsEnd(parts, cs, nodes, order, results)
    requires Verdict(results, outcome) && !outcome.Ok?
    requires forall i :: 0 <= i < |order| && |cs| <= order[i] ==> results[i].Ok?
    ensures AllEnd(parts, nodes, order, cs, total, mergeLife, outcome)
  {
    var i :| 0 <= i < |results| && results[i] == outcome;
    TurnOf(parts, nodes, order, cs, results, i);
  }

  lemma MergedEnds(parts: map<PartKey, Bytes>, nodes: nat -> seq<Node>, order: seq<nat>, cs: seq<Chunk>, total: nat,
                   mergeLife: nat, results: seq<Outcome>, done: set<nat>, outcome: Outcome)
    requires NoDup(order) && |results| == |order| && TurnsEnd(parts, cs, nodes, order, results) && Verdict(results, Ok)
    requires forall k :: 0 <= k < |cs| ==> (k in done <==> k in order)
    requires outcome.Ok? ==> total <= mergeLife && forall k :: 0 <= k < |cs| ==> k in done
    requires outcome.Dropped? ==> mergeLife < total
    requires outcome.Err? ==> outcome.error == Integrity && exists k :: 0 <= k < |cs| && k !in done
    ensures AllEnd(parts, nodes, order, cs, total, mergeLife, outcome)
  {
    if outcome.Ok? {
      forall k | 0 <= k < |cs| ensures k in order && ChunkEnds(parts, nodes, cs, k, Ok) {
        assert k in done;
        var i :| 0 <= i < |order| && order[i] == k;
        TurnOf(parts, nodes, order, cs, results, i);
      }
    }
  }

  /** Fetches the parts and, if that went well, merges them; the merged file exists from then on. */
  method FetchAndMerge(before: map<PartKey, Bytes>, cs: seq<Chunk>, total: nat, nodes: nat -> seq<Node>, order: seq<nat>,
                       mergeLife: nat, ghost blob: Bytes)
    returns (parts: map<PartKey, Bytes>, data: Option<Bytes>, outcome: Outcome)
    requires Tiles(cs, total)
    ensures outcome.Ok? ==> data.Some? && |data.value| == total
    ensures total <= mergeLife && AllReady(before, nodes, cs) && (forall k :: 0 <= k < |cs| ==> k in order) ==> outcome.Ok?
    ensures NoDup(order) ==> AllEnd(before, nodes, order, cs, total, mergeLife, outcome)
    ensures total == |blob| && (forall i :: HonestNodes(blob, nodes(i))) && PartsOk(before, blob) ==>
              PartsOk(parts, blob) && PrefixOf(data, blob) && (outcome.Ok? ==> data == Some(blob))
  {
    var done, file;
    ghost var results;
    data := None;
    parts, done, outcome, results := FetchParts(before, cs, total, nodes, order, blob);
    if outcome != Ok {
      if NoDup(order) { FetchedEnds(before, nodes, order, cs, total, mergeLife, results, outcome); }
      return;
    }
    forall k | 0 <= k < |cs| && k in order ensures k in done {
      var i :| 0 <= i < |order| && order[i] == k;
    }
    file, outcome := MergeParts(parts, cs, total, done, mergeLife, blob);
    if NoDup(order) { MergedEnds(before, nodes, order, cs, total, mergeLife, results, done, outcome); }
    data := Some(file);
  }

  lemma DistinctKeys(cs: seq<Chunk>, total: nat, i: nat, k: nat)
    requires Tiles(cs, total) && i < |cs| && k < |cs| && i != k
    ensures cs[i].start != cs[k].start
  {
    if i < k { StartsIncrease(cs, total, i, k); } else { StartsIncrease(cs, total, k, i); }
  }
}
