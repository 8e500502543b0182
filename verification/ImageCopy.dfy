/** Copying an image to another registry: layers, then the configuration, then the manifest. */
module ImageCopy {
  import opened Collections

  type Digest = string

  /** A descriptor; its declared size is a signed integer and may be negative. */
  datatype Blob = Blob(digest: Digest, size: int)

  datatype Manifest = Manifest(config: Blob, layers: seq<Blob>)

  datatype Report = Report(current: nat, total: nat)

  datatype Outcome = Copied | Failed | Cancelled | TooLarge

  function Declared(b: Blob): nat { Max(b.size, 0) }

  function Declareds(bs: seq<Blob>): (r: seq<nat>)
    ensures |r| == |bs| && forall i :: 0 <= i < |r| ==> r[i] == Declared(bs[i])
  {
    seq(|bs|, i requires 0 <= i < |bs| => Declared(bs[i]))
  }

  ghost function Referenced(m: Manifest): set<Digest> {
    {m.config.digest} + set b | b in m.layers :: b.digest
  }

  /** The size of an image, if it fits 64 bits. */
  ghost function ImageTotal(m: Manifest): nat { Min(Declared(m.config) + Sum(Declareds(m.layers)), U64_MAX) }

  /** The saturating total: the configuration, then every layer. */
  method ImageSize(m: Manifest) returns (total: nat)
    ensures total == ImageTotal(m)
  {
    total := Min(Declared(m.config), U64_MAX);
    for i := 0 to |m.layers|
      invariant total == Min(Declared(m.config) + Sum(Declareds(m.layers[..i])), U64_MAX)
    {
      OneMore(m.layers, i);
      total := SatAdd(total, Declared(m.layers[i]));
    }
    assert m.layers[..|m.layers|] == m.layers;
  }

  lemma OneMore(bs: seq<Blob>, i: nat)
    requires i < |bs|
    ensures Sum(Declareds(bs[..i + 1])) == Sum(Declareds(bs[..i])) + Declared(bs[i])
  {
    SumAppend(Declareds(bs[..i]), [Declared(bs[i])]);
    assert Declareds(bs[..i + 1]) == Declareds(bs[..i]) + [Declared(bs[i])];
  }

  lemma {:induction false} PartOfSum(s: seq<nat>, i: nat)
    requires i <= |s|
    ensures Sum(s[..i]) <= Sum(s)
  {
    SumAppend(s[..i], s[i..]);
    assert s[..i] + s[i..] == s;
  }

  /** Reports never exceed the total and never go back. */
  ghost predicate Sane(reports: seq<Report>, total: nat) {
    && (forall i :: 0 <= i < |reports| ==> reports[i].current <= reports[i].total == total)
    && (forall i, k :: 0 <= i <= k < |reports| ==> reports[i].current <= reports[k].current)
  }

  /** What the world answers at each call: whether it succeeds, whether a cancel is seen, and what
      other clients have pushed to the destination by then. */
  datatype World = World(
    succeeds: nat -> bool,
    cancelled: nat -> bool,
    pushed: nat -> set<Digest>,
    shared: Digest -> bool,
    maxExport: nat)
  {
    /** Every call succeeds and nobody cancels. */
    ghost predicate Smooth() { forall n :: succeeds(n) && !cancelled(n) }

    /** No layer that must be downloaded exceeds the export limit. */
    ghost predicate Admits(m: Manifest) {
      forall k :: 0 <= k < |m.layers| ==> Declared(m.layers[k]) <= maxExport || shared(m.layers[k].digest)
    }
  }

  /** A copy ends early only if a call fails, a cancel is seen, or a layer that must be downloaded is too large. */
  ghost predicate Justified(r: Outcome, m: Manifest, world: World) {
    match r
    case Copied => true
    case Failed => exists n :: !world.succeeds(n)
    case Cancelled => exists n :: world.cancelled(n)
    case TooLarge => !world.Admits(m)
  }

  /** Nothing is at the destination that was not there, is not named by the image, and nobody else pushed. */
  ghost predicate OnlyNeeded(before: set<Digest>, after: set<Digest>, m: Manifest, world: World) {
    forall d :: d in after ==> d in before || d in Referenced(m) || exists n :: d in world.pushed(n)
  }

  /** The reports after `i` layers: nothing, and then the bytes declared by each further layer. */
  function Milestones(m: Manifest, total: nat, i: nat): seq<Report>
    requires i <= |m.layers|
  {
    (if i == 0 then [] else Milestones(m, total, i - 1)) + [Report(Min(Sum(Declareds(m.layers[..i])), U64_MAX), total)]
  }

  lemma OnlyNeededTwice(a: set<Digest>, b: set<Digest>, c: set<Digest>, m: Manifest, world: World)
    requires OnlyNeeded(a, b, m, world) && OnlyNeeded(b, c, m, world)
    ensures OnlyNeeded(a, c, m, world)
  {
  }

  ghost predicate LayersThere(m: Manifest, i: nat, blobs: set<Digest>)
    requires i <= |m.layers|
  {
    forall k :: 0 <= k < i ==> m.layers[k].digest in blobs
  }

  lemma LayerThere(m: Manifest, i: nat, before: set<Digest>, after: set<Digest>)
    requires i < |m.layers| && LayersThere(m, i, before) && before <= after && m.layers[i].digest in after
    ensures LayersThere(m, i + 1, after)
  {
  }

  class Destination {
    var blobs: set<Digest>
    var manifests: seq<Manifest>
    var reports: seq<Report>

    /** A registry serves an image only if everything its manifest names is there. */
    ghost predicate Complete()
      reads this
    {
      forall m :: m in manifests ==> Referenced(m) <= blobs
    }

    /** Pushes a layer unless it is there already. */
    method CopyLayer(layer: Blob, world: World, now: nat, ghost m: Manifest) returns (r: Outcome)
      requires Complete() && layer in m.layers
      modifies this`blobs
      ensures Complete() && old(blobs) <= blobs
      ensures r.Copied? ==> layer.digest in blobs
      ensures r.TooLarge? ==> Declared(layer) > world.maxExport && layer.digest !in old(blobs) && !world.shared(layer.digest)
      ensures Justified(r, m, world) && OnlyNeeded(old(blobs), blobs, m, world)
      ensures world.Smooth() && (Declared(layer) <= world.maxExport || world.shared(layer.digest)) ==> r.Copied?
    {
      blobs := blobs + world.pushed(now);
      if !world.succeeds(now) { return Failed; }
      if layer.digest !in blobs {
        if !world.shared(layer.digest) {
          if Declared(layer) > world.maxExport { return TooLarge; }
          if !world.succeeds(now + 1) { return Failed; }
          if world.cancelled(now + 1) { return Cancelled; }
        }
        if !world.succeeds(now + 2) { return Failed; }
        blobs := blobs + {layer.digest};
      }
      r := Copied;
    }

    ghost predicate ReportedLayers(m: Manifest, total: nat, i: nat, progress: nat)
      reads this`reports
      requires i <= |m.layers|
    {
      progress == Min(Sum(Declareds(m.layers[..i])), U64_MAX) && reports == Milestones(m, total, i) && Sane(reports, total)
    }

    /** Reports the bytes declared by one more layer. */
    method ReportLayer(m: Manifest, total: nat, i: nat, progress: nat) returns (progress': nat)
      requires i < |m.layers| && total == ImageTotal(m) && ReportedLayers(m, total, i, progress)
      modifies this`reports
      ensures ReportedLayers(m, total, i + 1, progress')
    {
      OneMore(m.layers, i);
      progress' := SatAdd(progress, Declared(m.layers[i]));
      reports := reports + [Report(progress', total)];
      MilestonesSane(m, i + 1);
    }

    /** Copies every layer in order, reporting the bytes declared so far. */
    method CopyLayers(m: Manifest, total: nat, world: World) returns (r: Outcome, now: nat)
      requires Complete() && total == ImageTotal(m) && reports == [Report(0, total)]
      modifies this`blobs, this`reports
      ensures Complete() && old(blobs) <= blobs && Sane(reports, total)
      ensures r.Copied? ==> LayersThere(m, |m.layers|, blobs)
      ensures Justified(r, m, world) && OnlyNeeded(old(blobs), blobs, m, world)
      ensures r.Copied? ==> exists progress :: ReportedLayers(m, total, |m.layers|, progress)
      ensures world.Smooth() && world.Admits(m) ==> r.Copied?
    {
      r, now := Copied, 1;
      var progress := 0;
      for i := 0 to |m.layers|
        invariant Complete() && old(blobs) <= blobs && r.Copied?
        invariant LayersThere(m, i, blobs)
        invariant OnlyNeeded(old(blobs), blobs, m, world) && ReportedLayers(m, total, i, progress)
      {
        if world.cancelled(now) { return Cancelled, now; }
        ghost var before := blobs;
        r := CopyLayer(m.layers[i], world, now, m);
        OnlyNeededTwice(old(blobs), before, blobs, m, world);
        if !r.Copied? { return; }
        LayerThere(m, i, before, blobs);
        progress := ReportLayer(m, total, i, progress);
        now := now + 3;
      }
    }

    /** Pushes the configuration unless it is there already, then the manifest. */
    method Publish(m: Manifest, world: World, now: nat) returns (r: Outcome)
      requires Complete() && LayersThere(m, |m.layers|, blobs)
      modifies this`blobs, this`manifests
      ensures Complete() && old(blobs) <= blobs
      ensures r.Copied? <==> manifests == old(manifests) + [m]
      ensures !r.Copied? ==> manifests == old(manifests)
      ensures Justified(r, m, world) && OnlyNeeded(old(blobs), blobs, m, world)
      ensures world.Smooth() ==> r.Copied?
    {
      if world.cancelled(now) { return Cancelled; }
      blobs := blobs + world.pushed(now);
      if !world.succeeds(now) { return Failed; }
      if m.config.digest !in blobs {
        if !world.succeeds(now + 1) { return Failed; }
        blobs := blobs + {m.config.digest};
      }
      if world.cancelled(now + 1) { return Cancelled; }
      if !world.succeeds(now + 2) { return Failed; }
      manifests := manifests + [m];
      r := Copied;
    }

    /** Copies an image. However it ends, the manifest is published only when every blob it names is at
        the destination, progress stays sane, and success means published and fully reported. */
    method CopyToRegistry(m: Manifest, world: World) returns (r: Outcome)
      requires Complete() && reports == []
      modifies this
      ensures Complete() && old(blobs) <= blobs && Sane(reports, ImageTotal(m))
      ensures manifests == old(manifests) || manifests == old(manifests) + [m]
      ensures r.Copied? ==>
                && manifests == old(manifests) + [m]
                && reports == Milestones(m, ImageTotal(m), |m.layers|) + [Report(ImageTotal(m), ImageTotal(m))]
      ensures Justified(r, m, world) && OnlyNeeded(old(blobs), blobs, m, world)
      ensures r.Cancelled? || r.TooLarge? ==> manifests == old(manifests)
      ensures world.Smooth() && world.Admits(m) ==> r.Copied?
    {
      if !world.succeeds(0) { return Failed; }
      var total := ImageSize(m);
      reports := [Report(0, total)];
      var now;
      r, now := CopyLayers(m, total, world);
      if !r.Copied? { return; }
      r := Publish(m, world, now);
      if !r.Copied? { return; }
      if !world.succeeds(now + 3) { return Failed; }
      SaneNext(reports, total, total);
      reports := reports + [Report(total, total)];
    }
  }

  lemma {:induction false} MilestonesSane(m: Manifest, i: nat)
    requires i <= |m.layers|
    ensures var rs := Milestones(m, ImageTotal(m), i);
            && Sane(rs, ImageTotal(m)) && rs != []
            && rs[|rs| - 1].current == Min(Sum(Declareds(m.layers[..i])), U64_MAX)
  {
    PartBelowTotal(m, i);
    if i > 0 {
      MilestonesSane(m, i - 1);
      OneMore(m.layers, i - 1);
      SaneNext(Milestones(m, ImageTotal(m), i - 1), ImageTotal(m), Min(Sum(Declareds(m.layers[..i])), U64_MAX));
    }
  }

  lemma PartBelowTotal(m: Manifest, i: nat)
    requires i <= |m.layers|
    ensures Min(Sum(Declareds(m.layers[..i])), U64_MAX) <= ImageTotal(m)
  {
    PartOfSum(Declareds(m.layers), i);
    assert Declareds(m.layers)[..i] == Declareds(m.layers[..i]);
  }

  lemma SaneNext(reports: seq<Report>, total: nat, current: nat)
    requires Sane(reports, total) && current <= total
    requires reports != [] ==> reports[|reports| - 1].current <= current
    ensures Sane(reports + [Report(current, total)], total)
  {
  }
}
