/** Upstream responses and the bodies they carry, and how a body is written to a file. */
module Wire {
  import opened Collections

  newtype Byte = b: int | 0 <= b < 256
  type Bytes = seq<Byte>

  /** A parsed `Content-Range: bytes first-last/total`. */
  datatype RangeLabel = RangeLabel(first: nat, last: nat, total: nat)

  /** How a body ends: cleanly, or by a transport error or timeout. */
  datatype BodyEnd = Eof | Broken

  datatype Response = Response(
    status: nat,
    range: Option<RangeLabel>,
    length: Option<nat>,
    chunks: seq<Bytes>,
    end: BodyEnd)
  {
    predicate Success() { 200 <= status < 300 }

    predicate Labelled(first: nat, last: nat, total: nat) {
      status == 206 && range == Some(RangeLabel(first, last, total))
    }
  }

  datatype Reply = SendFailed | Got(response: Response)

  datatype Error = Upstream | Integrity | BadRequest | Missing

  /** `Dropped` is a task cut off between two bytes: timeout, disconnect or crash. */
  datatype Outcome = Ok | Err(error: Error) | Dropped

  function Flatten(chunks: seq<Bytes>): Bytes {
    if chunks == [] then [] else Flatten(chunks[..|chunks| - 1]) + chunks[|chunks| - 1]
  }

  function Body(r: Response): Bytes { Flatten(r.chunks) }

  lemma {:induction false} FlattenPrefix(chunks: seq<Bytes>, i: nat)
    requires i <= |chunks|
    ensures Flatten(chunks[..i]) <= Flatten(chunks)
    ensures i < |chunks| ==> Flatten(chunks[..i + 1]) == Flatten(chunks[..i]) + chunks[i]
  {
    if i < |chunks| {
      assert chunks[..i + 1][..i] == chunks[..i];
      if i + 1 < |chunks| {
        var n := |chunks| - 1;
        FlattenPrefix(chunks[..n], i);
        assert chunks[..n][..i] == chunks[..i];
      } else {
        assert chunks[..i + 1] == chunks;
      }
    } else {
      assert chunks[..i] == chunks;
    }
  }

  /** A correctly labelled response to a request for `blob`, its body cut anywhere. A 206 answers
      only a ranged request and carries bytes of the range its label names (sections 14.4 and
      15.3.7 of RFC 9110); any other success carries the blob from its first byte. */
  ghost predicate Honest(blob: Bytes, ranged: bool, r: Response) {
    && (r.status == 206 ==> ranged)
    && (r.status == 206 && r.range.Some? ==>
          var l := r.range.value;
          l.first <= l.last < l.total && l.total == |blob| && Body(r) <= blob[l.first..l.last + 1])
    && (r.Success() && r.status != 206 ==> Body(r) <= blob)
  }

  ghost predicate HonestReply(blob: Bytes, ranged: bool, r: Reply) {
    r.Got? ==> Honest(blob, ranged, r.response)
  }

  lemma PrefixTransitive(a: Bytes, b: Bytes, c: Bytes)
    requires a <= b <= c
    ensures a <= c
  {
  }

  lemma CutFits(initial: Bytes, done: Bytes, chunk: Bytes, body: Bytes, n: nat)
    requires done + chunk <= body && n <= |chunk|
    ensures initial + done + chunk[..n] == initial + body[..|done| + n] <= initial + body
  {
    assert body[..|done| + |chunk|] == done + chunk;
    assert body[..|done| + n] == done + chunk[..n];
    assert body == body[..|done| + n] + body[|done| + n..];
  }

  lemma NextPiece(file: Bytes, r: Response, i: nat)
    requires i < |r.chunks|
    ensures |Flatten(r.chunks[..i])| + |r.chunks[i]| == |Flatten(r.chunks[..i + 1])| <= |Body(r)|
    ensures file + Flatten(r.chunks[..i]) + r.chunks[i] == file + Flatten(r.chunks[..i + 1])
  {
    FlattenPrefix(r.chunks, i);
    FlattenPrefix(r.chunks, i + 1);
  }

  /** The body ends cleanly, has the expected length, and is written before the writer is dropped. */
  predicate Delivers(r: Response, expected: Option<nat>, life: nat) {
    r.end.Eof? && |Body(r)| < life && (expected.Some? ==> |Body(r)| == expected.value)
  }

  /** The body breaks off, and was not too long until then. */
  predicate Breaks(r: Response, expected: Option<nat>) {
    r.end.Broken? && (expected.Some? ==> |Body(r)| <= expected.value)
  }

  /** The writer is dropped: `life` ends within the first `k` pieces, and these are not too long. */
  ghost predicate CutWithin(r: Response, expected: Option<nat>, life: nat, k: nat)
    requires k <= |r.chunks|
  {
    life <= |Flatten(r.chunks[..k])| && (expected.Some? ==> |Flatten(r.chunks[..k])| <= expected.value)
  }

  ghost predicate Cut(r: Response, expected: Option<nat>, life: nat) {
    exists k :: 0 <= k <= |r.chunks| && CutWithin(r, expected, life, k)
  }

  lemma CutMissesEnd(r: Response, expected: Option<nat>, life: nat)
    requires Cut(r, expected, life)
    ensures life <= |Body(r)|
  {
    var k :| 0 <= k <= |r.chunks| && CutWithin(r, expected, life, k);
    FlattenPrefix(r.chunks, k);
  }

  /** Without an expected length the writer is dropped exactly if its life ends with the body or before. */
  lemma CutUnbounded(r: Response, life: nat)
    ensures Cut(r, None, life) <==> life <= |Body(r)|
  {
    if Cut(r, None, life) { CutMissesEnd(r, None, life); }
    assert r.chunks[..|r.chunks|] == r.chunks;
    assert life <= |Body(r)| ==> CutWithin(r, None, life, |r.chunks|);
  }

  lemma PiecesGrow(r: Response, i: nat, k: nat)
    requires i <= k <= |r.chunks|
    ensures |Flatten(r.chunks[..i])| <= |Flatten(r.chunks[..k])|
  {
    FlattenPrefix(r.chunks[..k], i);
    assert r.chunks[..k][..i] == r.chunks[..i];
  }

  /** A writer that has survived `i` pieces and stops there, at the end or before a piece that is too
      much, is not dropped. */
  lemma Survives(r: Response, expected: Option<nat>, life: nat, i: nat)
    requires i <= |r.chunks| && |Flatten(r.chunks[..i])| < life
    requires i < |r.chunks| ==> expected.Some? && |Flatten(r.chunks[..i + 1])| > expected.value
    ensures !Cut(r, expected, life)
  {
    forall k | 0 <= k <= |r.chunks| ensures !CutWithin(r, expected, life, k) {
      if k <= i { PiecesGrow(r, k, i); } else { PiecesGrow(r, i + 1, k); }
    }
  }

  /** A writer dropped after `i` whole pieces has written the first `life` bytes. */
  lemma DroppedAt(initial: Bytes, r: Response, expected: Option<nat>, life: nat, i: nat)
    requires i <= |r.chunks| && CutWithin(r, expected, life, i) && |Flatten(r.chunks[..i])| == life
    ensures Cut(r, expected, life) && life <= |Body(r)|
    ensures initial + Flatten(r.chunks[..i]) == initial + Body(r)[..life] <= initial + Body(r)
  {
    FlattenPrefix(r.chunks, i);
    CutFits(initial, Flatten(r.chunks[..i]), [], Body(r), 0);
  }

  /** A writer dropped inside the piece `i` has written the first `life` bytes. */
  lemma DroppedIn(initial: Bytes, r: Response, expected: Option<nat>, life: nat, i: nat)
    requires i < |r.chunks| && |Flatten(r.chunks[..i])| <= life <= |Flatten(r.chunks[..i])| + |r.chunks[i]|
    requires expected.Some? ==> |Flatten(r.chunks[..i])| + |r.chunks[i]| <= expected.value
    ensures Cut(r, expected, life) && life <= |Body(r)|
    ensures initial + Flatten(r.chunks[..i]) + r.chunks[i][..life - |Flatten(r.chunks[..i])|]
         == initial + Body(r)[..life] <= initial + Body(r)
  {
    FlattenPrefix(r.chunks, i);
    FlattenPrefix(r.chunks, i + 1);
    CutFits(initial, Flatten(r.chunks[..i]), r.chunks[i], Body(r), life - |Flatten(r.chunks[..i])|);
    assert CutWithin(r, expected, life, i + 1);
  }

  /** The loop shared by creating and appending writers: writes the chunks of a body after
      `initial`, refuses a body longer or shorter than expected, and is dropped once it has written
      `life` bytes, even if only the end of the body is left to be seen. */
  method WriteBody(initial: Bytes, r: Response, expected: Option<nat>, life: nat)
    returns (data: Bytes, outcome: Outcome)
    ensures initial <= data <= initial + Body(r)
    ensures outcome.Ok? ==> data == initial + Body(r)
    ensures outcome.Ok? <==> Delivers(r, expected, life)
    ensures outcome.Dropped? <==> Cut(r, expected, life)
    ensures outcome.Dropped? ==> life <= |Body(r)| && data == initial + Body(r)[..life]
    ensures outcome.Err? ==> outcome.error == if Breaks(r, expected) then Upstream else Integrity
    ensures outcome == Err(Upstream) ==> data == initial + Body(r)
    ensures expected.Some? ==> |data| <= |initial| + expected.value
  {
    data := initial;
    var received := 0;
    for i := 0 to |r.chunks|
      invariant data == initial + Flatten(r.chunks[..i])
      invariant received == |data| - |initial| <= life
      invariant expected.Some? ==> received <= expected.value
    {
      NextPiece(initial, r, i);
      var chunk := r.chunks[i];
      if received == life {
        DroppedAt(initial, r, expected, life, i);
        return data, Dropped;
      }
      if expected.Some? && received + |chunk| > expected.value {
        FlattenPrefix(r.chunks, i);
        Survives(r, expected, life, i);
        return data, Err(Integrity);
      }
      if received + |chunk| > life {
        DroppedIn(initial, r, expected, life, i);
        return data + chunk[..life - received], Dropped;
      }
      received := received + |chunk|;
      data := data + chunk;
    }
    assert r.chunks[..|r.chunks|] == r.chunks;
    if received == life {
      DroppedAt(initial, r, expected, life, |r.chunks|);
      return data, Dropped;
    }
    Survives(r, expected, life, |r.chunks|);
    if r.end.Broken? { return data, Err(Upstream); }
    if expected.Some? && received != expected.value { return data, Err(Integrity); }
    outcome := Ok;
  }
}
