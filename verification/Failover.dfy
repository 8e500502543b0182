/** Asking one node after another. What a single attempt does with the file it finds is stated once for
    all three kinds of attempt, and with it how a whole sequence of attempts must end. */
module Failover {
  import opened Collections
  import opened Wire
  import opened Chunking

  /** One attempt at a node: what it replies to a ranged and to a plain request, and how many
      bytes the attempt writes before it is dropped, if it is. */
  datatype Node = Node(ranged: Reply, plain: Reply, life: nat)

  ghost predicate HonestNode(blob: Bytes, n: Node) {
    HonestReply(blob, true, n.ranged) && HonestReply(blob, false, n.plain)
  }

  ghost predicate HonestNodes(blob: Bytes, ns: seq<Node>) {
    forall i :: 0 <= i < |ns| ==> HonestNode(blob, ns[i])
  }

  function Length(file: Option<Bytes>): nat { |file.GetOr([])| }

  /** The node answers with exactly the rest of the object from `offset`, and is not cut short. */
  predicate Completes(n: Node, offset: nat, end: nat, total: nat) {
    && offset <= end && n.ranged.Got? && n.ranged.response.Labelled(offset, end, total)
    && Delivers(n.ranged.response, Some(end - offset + 1), n.life)
  }

  /** The node answers a plain request in full. */
  predicate Supplies(n: Node) {
    n.plain.Got? && n.plain.response.Success() && Delivers(n.plain.response, n.plain.response.length, n.life)
  }

  /** The node can finish alone: it continues a shorter file, or supplies the whole. */
  predicate Finishes(n: Node, file: Option<Bytes>, total: Option<nat>) {
    if total.Some? && file.Some? && |file.value| < total.value
    then Completes(n, |file.value|, total.value - 1, total.value) else Supplies(n)
  }

  /** The node supplies the rest of a chunk of which `have` bytes are there, and declares its length. */
  predicate Fills(n: Node, have: nat, c: Chunk) {
    && Completes(n, c.start + have, c.end, c.total)
    && n.ranged.response.length == Some(c.end - c.start - have + 1)
  }

  /** What the attempts are for: the whole object, the rest of a partial one, or one chunk. */
  datatype Aim = Whole(total: Option<nat>) | Rest(size: nat) | Part(chunk: Chunk)

  /** What an attempt makes of its node's answer: nothing is missing, there is no usable answer, the
      answer is for other bytes, or its body is written after `initial`. */
  datatype Reception = Present | Ignored | Misfit | Taken(initial: Bytes, response: Response, expected: Option<nat>)

  function Receive(aim: Aim, n: Node, file: Option<Bytes>): Reception {
    match aim
    case Whole(total) =>
      if total.Some? && file.Some? && |file.value| < total.value then
        if n.ranged.Got? && n.ranged.response.Success()
        then Ranged(n.ranged.response, file.value, |file.value|, total.value - 1, total.value) else Ignored
      else if n.plain.Got? && n.plain.response.Success() then
        Taken([], n.plain.response, n.plain.response.length)
      else Ignored
    case Rest(total) =>
      if total <= Length(file) then Present
      else if n.ranged.Got?
      then Ranged(n.ranged.response, file.GetOr([]), Length(file), total - 1, total) else Ignored
    case Part(c) =>
      if Length(file) > c.end - c.start + 1 then Misfit
      else if Length(file) == c.end - c.start + 1 then Present
      else if n.ranged.SendFailed? || n.ranged.response.status != 206 then Ignored
      else if n.ranged.response.length != Some(c.end - c.start - Length(file) + 1) then Misfit
      else Ranged(n.ranged.response, file.GetOr([]), c.start + Length(file), c.end, c.total)
  }

  function Ranged(r: Response, initial: Bytes, first: nat, last: nat, total: nat): Reception
    requires first <= last
  {
    if r.Labelled(first, last, total) then Taken(initial, r, Some(last - first + 1)) else Misfit
  }

  predicate Suffices(aim: Aim, n: Node, file: Option<Bytes>) {
    var a := Receive(aim, n, file);
    a.Present? || (a.Taken? && Delivers(a.response, a.expected, n.life))
  }

  /** The attempt is dropped on the way. */
  ghost predicate Drops(aim: Aim, n: Node, file: Option<Bytes>) {
    var a := Receive(aim, n, file);
    a.Taken? && Cut(a.response, a.expected, n.life)
  }

  /** Why an attempt that neither suffices nor is dropped fails. */
  function Fault(aim: Aim, n: Node, file: Option<Bytes>): Error {
    var a := Receive(aim, n, file);
    if a.Misfit? || (a.Taken? && !Breaks(a.response, a.expected)) then Integrity else Upstream
  }

  /** The file a failed attempt leaves to the next: a transport error keeps every byte, anything that
      puts the bytes in doubt removes the file. */
  function Left(aim: Aim, n: Node, file: Option<Bytes>): Option<Bytes> {
    match Receive(aim, n, file)
    case Taken(initial, r, expected) => if Breaks(r, expected) then Some(initial + Body(r)) else None
    case Misfit => None
    case _ => file
  }

  /** The file after an attempt that suffices. */
  function FileAfter(aim: Aim, n: Node, file: Option<Bytes>): Option<Bytes> {
    match Receive(aim, n, file)
    case Taken(initial, r, _) => Some(initial + Body(r))
    case _ => file
  }

  /** The file after an attempt that is dropped. */
  function Stump(aim: Aim, n: Node, file: Option<Bytes>): Option<Bytes> {
    match Receive(aim, n, file)
    case Taken(initial, r, _) => Some(initial + Body(r)[..Min(n.life, |Body(r)|)])
    case _ => file
  }

  /** One attempt: how it ends and the file after it. A file in doubt is removed afterwards. */
  ghost predicate Turn(aim: Aim, n: Node, file: Option<Bytes>, file': Option<Bytes>, result: Outcome) {
    match result
    case Ok => Suffices(aim, n, file) && file' == FileAfter(aim, n, file)
    case Dropped => Drops(aim, n, file) && file' == Stump(aim, n, file)
    case Err(e) =>
      && !Suffices(aim, n, file) && !Drops(aim, n, file)
      && e == Fault(aim, n, file) && (e != Integrity ==> file' == Left(aim, n, file))
  }

  /** An attempt that writes its answer's body ends as the writer does. */
  lemma Wrote(aim: Aim, n: Node, file: Option<Bytes>, data: Bytes, result: Outcome)
    requires Receive(aim, n, file).Taken?
    requires var a := Receive(aim, n, file);
             && (result.Ok? <==> Delivers(a.response, a.expected, n.life))
             && (result.Dropped? <==> Cut(a.response, a.expected, n.life))
             && (result.Ok? ==> data == a.initial + Body(a.response))
             && (result.Dropped? ==> n.life <= |Body(a.response)| && data == a.initial + Body(a.response)[..n.life])
             && (result.Err? ==> result.error == if Breaks(a.response, a.expected) then Upstream else Integrity)
             && (result == Err(Upstream) ==> data == a.initial + Body(a.response))
    ensures Turn(aim, n, file, Some(data), result)
  {
  }

  /** The file the `k`-th node meets when all before it have failed. */
  function Met(aim: Aim, file: Option<Bytes>, all: seq<Node>, k: nat): Option<Bytes>
    requires k <= |all|
  {
    if k == 0 then file else Left(aim, all[k - 1], Met(aim, file, all, k - 1))
  }

  /** The `k`-th node suffices for the file it meets, or is dropped over it. */
  ghost predicate SufficesAt(aim: Aim, file: Option<Bytes>, all: seq<Node>, k: nat)
    requires k < |all|
  {
    Suffices(aim, all[k], Met(aim, file, all, k))
  }

  ghost predicate DropsAt(aim: Aim, file: Option<Bytes>, all: seq<Node>, k: nat)
    requires k < |all|
  {
    Drops(aim, all[k], Met(aim, file, all, k))
  }

  /** The first `k` nodes neither sufficed nor were dropped. */
  ghost predicate Failed(aim: Aim, file: Option<Bytes>, all: seq<Node>, k: nat)
    requires k <= |all|
  {
    forall j :: 0 <= j < k ==> !SufficesAt(aim, file, all, j) && !DropsAt(aim, file, all, j)
  }

  /** The error of the last of the first `k` nodes. */
  function Blame(aim: Aim, file: Option<Bytes>, all: seq<Node>, k: nat): Error
    requires k <= |all|
  {
    if k == 0 then Upstream else Fault(aim, all[k - 1], Met(aim, file, all, k - 1))
  }

  /** A sequence of attempts in which `tried` nodes failed: the next one ended it, or none was left. */
  ghost predicate Course(aim: Aim, file: Option<Bytes>, all: seq<Node>, tried: nat, file': Option<Bytes>, outcome: Outcome) {
    && tried <= |all| && Failed(aim, file, all, tried)
    && if outcome.Err?
       then tried == |all| && file' == Met(aim, file, all, tried) && outcome.error == Blame(aim, file, all, tried)
       else tried < |all| && Turn(aim, all[tried], Met(aim, file, all, tried), file', outcome)
  }

  lemma NeverBoth(aim: Aim, n: Node, file: Option<Bytes>)
    ensures !(Suffices(aim, n, file) && Drops(aim, n, file))
  {
    var a := Receive(aim, n, file);
    if a.Taken? && Cut(a.response, a.expected, n.life) { CutMissesEnd(a.response, a.expected, n.life); }
  }

  /** What suffices, in terms of the requests of each aim. */
  lemma SufficesExactly(n: Node, file: Option<Bytes>, total: Option<nat>, rest: nat, c: Chunk)
    requires c.start <= c.end
    ensures Suffices(Whole(total), n, file) <==> Finishes(n, file, total)
    ensures Suffices(Rest(rest), n, file) <==> rest <= Length(file) || Completes(n, Length(file), rest - 1, rest)
    ensures Suffices(Part(c), n, file) <==> Length(file) == c.end - c.start + 1 || Fills(n, Length(file), c)
  {
  }

  /** The attempts succeed exactly when some node suffices for the file it meets and no node before it is
      dropped, and are dropped exactly when some node is and none before it suffices. So they fail only
      after every node has. */
  lemma CourseExactly(aim: Aim, file: Option<Bytes>, all: seq<Node>, tried: nat, file': Option<Bytes>, outcome: Outcome)
    requires Course(aim, file, all, tried, file', outcome)
    ensures outcome.Ok? <==>
              exists k :: 0 <= k < |all| && SufficesAt(aim, file, all, k) && forall j :: 0 <= j < k ==> !DropsAt(aim, file, all, j)
    ensures outcome.Dropped? <==>
              exists k :: 0 <= k < |all| && DropsAt(aim, file, all, k) && forall j :: 0 <= j < k ==> !SufficesAt(aim, file, all, j)
    ensures outcome.Err? <==> Failed(aim, file, all, |all|)
  {
    CourseEnds(aim, file, all, tried, file', outcome);
  }

  /** A whole download fails exactly when no node can finish the file it meets, and none is dropped; without
      a known size, when no node supplies the object. */
  lemma WholeFailsExactly(file: Option<Bytes>, all: seq<Node>, total: Option<nat>, tried: nat, file': Option<Bytes>, outcome: Outcome)
    requires Course(Whole(total), file, all, tried, file', outcome)
    ensures outcome.Err? <==>
              forall k :: 0 <= k < |all| ==>
                !Finishes(all[k], Met(Whole(total), file, all, k), total) && !DropsAt(Whole(total), file, all, k)
    ensures outcome.Err? && total.None? ==> forall k :: 0 <= k < |all| ==> !Supplies(all[k])
  {
    CourseExactly(Whole(total), file, all, tried, file', outcome);
    forall k | 0 <= k < |all|
      ensures SufficesAt(Whole(total), file, all, k) <==> Finishes(all[k], Met(Whole(total), file, all, k), total)
    {
      SufficesExactly(all[k], Met(Whole(total), file, all, k), total, 0, Chunk(0, 0, 0, 1));
    }
  }

  lemma CourseEnds(aim: Aim, file: Option<Bytes>, all: seq<Node>, tried: nat, file': Option<Bytes>, outcome: Outcome)
    requires Course(aim, file, all, tried, file', outcome)
    ensures tried < |all| ==> (outcome.Ok? <==> SufficesAt(aim, file, all, tried))
    ensures tried < |all| ==> (outcome.Dropped? <==> DropsAt(aim, file, all, tried))
    ensures tried < |all| ==> SufficesAt(aim, file, all, tried) || DropsAt(aim, file, all, tried)
  {
    if tried < |all| { NeverBoth(aim, all[tried], Met(aim, file, all, tried)); }
  }

  /** There is one course only. */
  lemma CourseUnique(aim: Aim, file: Option<Bytes>, all: seq<Node>, t: nat, f: Option<Bytes>, o: Outcome,
                     t': nat, f': Option<Bytes>, o': Outcome)
    requires Course(aim, file, all, t, f, o) && Course(aim, file, all, t', f', o')
    ensures t == t' && f == f' && o == o'
  {
    CourseEnds(aim, file, all, t, f, o);
    CourseEnds(aim, file, all, t', f', o');
  }

  /** A node that fails leaves nothing in doubt to the next one: after an integrity failure there is no file,
      and after any other failure the file is as it was, or has grown, or was written anew by a body that
      broke off. */
  lemma NothingInDoubt(aim: Aim, n: Node, file: Option<Bytes>)
    requires !Suffices(aim, n, file) && !Drops(aim, n, file)
    ensures Fault(aim, n, file) == Integrity ==> Left(aim, n, file).None?
    ensures Fault(aim, n, file) == Upstream ==>
              || Left(aim, n, file) == file
              || (n.ranged.Got? && n.ranged.response.end.Broken? && Left(aim, n, file) == Some(file.GetOr([]) + Body(n.ranged.response)))
              || (n.plain.Got? && n.plain.response.end.Broken? && Left(aim, n, file) == Some(Body(n.plain.response)))
  {
    var a := Receive(aim, n, file);
    assert a.Taken? && a.initial == [] ==> a.initial + Body(a.response) == Body(a.response);
  }

  /** The attempt continues the file, and fails, if it does, for a transport error. */
  predicate Kept(aim: Aim, n: Node, file: Option<Bytes>) {
    Fault(aim, n, file) == Upstream && (aim.Whole? ==> aim.total.Some? && Length(file) < aim.total.value)
  }

  predicate KeptAt(aim: Aim, file: Option<Bytes>, all: seq<Node>, k: nat)
    requires k < |all|
  {
    Kept(aim, all[k], Met(aim, file, all, k))
  }

  /** Bytes survive transport errors: unless an attempt ends in doubt, the file only grows from node to node. */
  lemma {:induction false} FilesGrow(aim: Aim, file: Option<Bytes>, all: seq<Node>, k: nat)
    requires k <= |all| && file.Some?
    requires forall j :: 0 <= j < k ==> KeptAt(aim, file, all, j)
    ensures Met(aim, file, all, k).Some? && file.value <= Met(aim, file, all, k).value
  {
    if k > 0 {
      FilesGrow(aim, file, all, k - 1);
      var was := Met(aim, file, all, k - 1);
      assert KeptAt(aim, file, all, k - 1);
      FileGrows(aim, all[k - 1], was);
      PrefixTransitive(file.value, was.value, Left(aim, all[k - 1], was).value);
    }
  }

  lemma FileGrows(aim: Aim, n: Node, file: Option<Bytes>)
    requires file.Some? && Kept(aim, n, file)
    ensures Left(aim, n, file).Some? && file.value <= Left(aim, n, file).value
  {
  }

  ghost predicate PrefixOf(file: Option<Bytes>, blob: Bytes) { file.Some? ==> file.value <= blob }

  /** The aim is for `blob`: a known size is its size, and a chunk is within it. */
  ghost predicate For(aim: Aim, blob: Bytes) {
    match aim
    case Whole(total) => total.Some? ==> total.value == |blob|
    case Rest(size) => size == |blob|
    case Part(c) => c.total == |blob| && c.start <= c.end < c.total
  }

  /** What the file is to hold in the end. */
  ghost function Target(aim: Aim, blob: Bytes): Bytes
    requires For(aim, blob)
  {
    if aim.Part? then blob[aim.chunk.start..aim.chunk.end + 1] else blob
  }

  lemma AppendStaysPrefix(initial: Bytes, body: Bytes, target: Bytes)
    requires initial <= target && body <= target[|initial|..]
    ensures initial + body <= target
  {
    assert target == target[..|initial|] + target[|initial|..];
  }

  /** What an honest node sends is what the target holds after the bytes there are. */
  lemma TakenMatches(aim: Aim, blob: Bytes, n: Node, file: Option<Bytes>)
    requires For(aim, blob) && HonestNode(blob, n) && PrefixOf(file, Target(aim, blob))
    ensures var a := Receive(aim, n, file);
            a.Taken? ==> a.initial <= Target(aim, blob) && Body(a.response) <= Target(aim, blob)[|a.initial|..]
  {
    match aim {
      case Whole(_) => WholeMatches(aim, blob, n, file);
      case Rest(_) => RestMatches(aim, blob, n, file);
      case Part(_) => PartMatches(aim, blob, n, file);
    }
  }

  lemma WholeMatches(aim: Aim, blob: Bytes, n: Node, file: Option<Bytes>)
    requires aim.Whole? && For(aim, blob) && HonestNode(blob, n) && PrefixOf(file, blob)
    ensures var a := Receive(aim, n, file);
            a.Taken? ==> a.initial <= blob && Body(a.response) <= blob[|a.initial|..]
  {
    assert Length(file) <= |blob| && blob[Length(file)..|blob|] == blob[Length(file)..] && blob[0..] == blob;
  }

  lemma RestMatches(aim: Aim, blob: Bytes, n: Node, file: Option<Bytes>)
    requires aim.Rest? && For(aim, blob) && HonestNode(blob, n) && PrefixOf(file, blob)
    ensures var a := Receive(aim, n, file);
            a.Taken? ==> a.initial <= blob && Body(a.response) <= blob[|a.initial|..]
  {
    assert Length(file) <= |blob| && blob[Length(file)..|blob|] == blob[Length(file)..];
  }

  lemma PartMatches(aim: Aim, blob: Bytes, n: Node, file: Option<Bytes>)
    requires aim.Part? && For(aim, blob) && HonestNode(blob, n) && PrefixOf(file, Target(aim, blob))
    ensures var a := Receive(aim, n, file);
            a.Taken? ==> a.initial <= Target(aim, blob) && Body(a.response) <= Target(aim, blob)[|a.initial|..]
  {
    var a, c := Receive(aim, n, file), aim.chunk;
    if a.Taken? {
      LabelledFits(blob, a.response, c.start + Length(file), c.end);
      PartRest(c, blob, Length(file));
    }
  }

  lemma LabelledFits(blob: Bytes, r: Response, first: nat, last: nat)
    requires Honest(blob, true, r) && r.Labelled(first, last, |blob|)
    ensures first <= last < |blob| && Body(r) <= blob[first..last + 1]
  {
  }

  lemma PartRest(c: Chunk, blob: Bytes, have: nat)
    requires c.start <= c.end < c.total == |blob| && have <= c.end - c.start + 1
    ensures blob[c.start..c.end + 1][have..] == blob[c.start + have..c.end + 1]
  {
  }

  /** What an honest node sends continues the file within the target. */
  lemma TakenFits(aim: Aim, blob: Bytes, n: Node, file: Option<Bytes>)
    requires For(aim, blob) && HonestNode(blob, n) && PrefixOf(file, Target(aim, blob))
    ensures var a := Receive(aim, n, file); a.Taken? ==> a.initial + Body(a.response) <= Target(aim, blob)
  {
    TakenMatches(aim, blob, n, file);
    var a := Receive(aim, n, file);
    if a.Taken? { AppendStaysPrefix(a.initial, Body(a.response), Target(aim, blob)); }
  }

  lemma TurnFits(aim: Aim, blob: Bytes, n: Node, file: Option<Bytes>)
    requires For(aim, blob) && HonestNode(blob, n) && PrefixOf(file, Target(aim, blob))
    ensures PrefixOf(Left(aim, n, file), Target(aim, blob)) && PrefixOf(FileAfter(aim, n, file), Target(aim, blob))
    ensures PrefixOf(Stump(aim, n, file), Target(aim, blob))
  {
    TakenFits(aim, blob, n, file);
    var a := Receive(aim, n, file);
    if a.Taken? { PrefixTransitive(Stump(aim, n, file).value, a.initial + Body(a.response), Target(aim, blob)); }
  }

  lemma {:induction false} MetFits(aim: Aim, blob: Bytes, file: Option<Bytes>, all: seq<Node>, k: nat)
    requires For(aim, blob) && HonestNodes(blob, all) && PrefixOf(file, Target(aim, blob)) && k <= |all|
    ensures PrefixOf(Met(aim, file, all, k), Target(aim, blob))
  {
    if k > 0 {
      MetFits(aim, blob, file, all, k - 1);
      TurnFits(aim, blob, all[k - 1], Met(aim, file, all, k - 1));
    }
  }

  /** With honest nodes cut anywhere, a file that is a prefix of its target stays one, however the
      attempts end. Success leaves exactly the target, except for a whole download, which may take a
      shorter body without a declared length. */
  lemma CourseFits(aim: Aim, blob: Bytes, file: Option<Bytes>, all: seq<Node>, tried: nat, file': Option<Bytes>, outcome: Outcome)
    requires For(aim, blob) && HonestNodes(blob, all) && PrefixOf(file, Target(aim, blob))
    requires Course(aim, file, all, tried, file', outcome)
    ensures PrefixOf(file', Target(aim, blob))
    ensures outcome.Ok? && !aim.Whole? && 0 < |blob| ==> file' == Some(Target(aim, blob))
  {
    MetFits(aim, blob, file, all, tried);
    if tried < |all| {
      TurnFits(aim, blob, all[tried], Met(aim, file, all, tried));
      if outcome.Ok? && !aim.Whole? && 0 < |blob| { EnoughIsAll(aim, blob, all[tried], Met(aim, file, all, tried)); }
    }
  }

  lemma EnoughIsAll(aim: Aim, blob: Bytes, n: Node, file: Option<Bytes>)
    requires For(aim, blob) && !aim.Whole? && 0 < |blob| && Suffices(aim, n, file)
    requires PrefixOf(file, Target(aim, blob)) && PrefixOf(FileAfter(aim, n, file), Target(aim, blob))
    ensures FileAfter(aim, n, file) == Some(Target(aim, blob))
  {
    var a, file' := Receive(aim, n, file), FileAfter(aim, n, file);
    assert file'.Some? && |file'.value| == |Target(aim, blob)|;
    assert file'.value == Target(aim, blob)[..|file'.value|] == Target(aim, blob);
  }

  lemma ChunkFits(c: Chunk, blob: Bytes, before: Option<Bytes>, nodes: seq<Node>, tried: nat, part: Option<Bytes>, outcome: Outcome)
    requires c.start <= c.end < c.total == |blob| && HonestNodes(blob, nodes) && PrefixOf(before, blob[c.start..c.end + 1])
    requires Course(Part(c), before, nodes, tried, part, outcome)
    ensures PrefixOf(part, blob[c.start..c.end + 1])
  {
    CourseFits(Part(c), blob, before, nodes, tried, part, outcome);
  }
}
