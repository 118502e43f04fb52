/** The frame dispatch of `Camera.render` in public/js/classes.js: bump the
    frame counter, publish it in the shared counter word, and post one job
    per render worker covering a horizontal stripe of the image. The
    workers, the messages and the canvas are not modelled; the effects are
    returned in the order the source performs them. */
module Dispatch {
  import opened Buffers
  import opened Arith

  /** The `options` a worker receives, with the frame id of its message.
      The screen distance `dis` depends on `Math.tan` and is a parameter. */
  datatype Job = Job(startY: nat, stopY: nat, width: nat, height: nat, dis: real, frameId: int)

  /** What `render` does to the outside world, in order. */
  datatype Effect =
    | SetFrameCounter(value: int)
    | Post(worker: nat, job: Job)

  /** `Math.floor(height / numStripes)`. */
  function StripeHeight(height: nat, stripes: nat): nat
    requires stripes > 0
  {
    height / stripes
  }

  /** The first row of stripe i. */
  function StripeStart(height: nat, stripes: nat, i: nat): nat
    requires i < stripes
  {
    StripeHeight(height, stripes) * i
  }

  /** The row after the last row of stripe i: the next stripe's start, or
      the image height for the last stripe. */
  function StripeStop(height: nat, stripes: nat, i: nat): nat
    requires i < stripes
  {
    if i + 1 == stripes then height else StripeHeight(height, stripes) * (i + 1)
  }

  /** The stripes tile the rows: the first starts at 0, the last stops at
      the height, each stops where the next starts, none is negative, and
      all but the last have the floor height while the last also absorbs
      the remainder. */
  lemma StripesContiguous(height: nat, stripes: nat, i: nat)
    requires i < stripes
    ensures StripeStart(height, stripes, 0) == 0
    ensures StripeStop(height, stripes, stripes - 1) == height
    ensures i + 1 < stripes ==> StripeStop(height, stripes, i) == StripeStart(height, stripes, i + 1)
    ensures StripeStart(height, stripes, i) <= StripeStop(height, stripes, i) <= height
    ensures i + 1 < stripes ==> StripeStop(height, stripes, i) - StripeStart(height, stripes, i) == height / stripes
    ensures i + 1 == stripes ==> StripeStop(height, stripes, i) - StripeStart(height, stripes, i) == height / stripes + height % stripes
  {
    var sh := StripeHeight(height, stripes);
    assert height == sh * stripes + height % stripes;
    MulMonotone(sh, i + 1, stripes);
    assert sh * (i + 1) == sh * i + sh;
    if i + 1 == stripes {
      assert sh * stripes == sh * i + sh;
    }
  }

  /** The stripe that renders row y: row y lies in it. */
  function StripeOf(height: nat, stripes: nat, y: nat): (i: nat)
    requires stripes > 0 && y < height
    ensures i < stripes && StripeStart(height, stripes, i) <= y < StripeStop(height, stripes, i)
  {
    var sh := StripeHeight(height, stripes);
    if sh == 0 then
      stripes - 1
    else
      DivBounds(y, sh);
      if y / sh < stripes - 1 then
        y / sh
      else
        MulMonotone(sh, stripes - 1, y / sh);
        stripes - 1
  }

  /** `sh * (y / sh) <= y < sh * (y / sh) + sh`. */
  lemma DivBounds(y: nat, sh: nat)
    requires sh > 0
    ensures sh * (y / sh) <= y < sh * (y / sh) + sh
  {
    assert y == sh * (y / sh) + y % sh;
  }

  /** No row lies in two stripes. */
  lemma StripesUnique(height: nat, stripes: nat, y: nat, i: nat, j: nat)
    requires i < stripes && j < stripes
    requires StripeStart(height, stripes, i) <= y < StripeStop(height, stripes, i)
    requires StripeStart(height, stripes, j) <= y < StripeStop(height, stripes, j)
    ensures i == j
  {
    if i < j {
      Disjoint(height, stripes, i, j);
    } else if j < i {
      Disjoint(height, stripes, j, i);
    }
  }

  /** An earlier stripe stops no later than a later one starts. */
  lemma Disjoint(height: nat, stripes: nat, i: nat, j: nat)
    requires i < j < stripes
    ensures StripeStop(height, stripes, i) <= StripeStart(height, stripes, j)
  {
    MulMonotone(StripeHeight(height, stripes), i + 1, j);
  }

  /** The part of `render` that talks to the workers: the counter goes up
      by one and is stored in the shared counter word (which keeps it modulo
      2^32) before any message is posted; then worker i is sent stripe i
      with the new frame id. With no workers nothing is posted. */
  method Render(frameId: int, width: nat, height: nat, dis: real, workers: nat) returns (next: int, effects: seq<Effect>)
    ensures next == frameId + 1
    ensures |effects| == workers + 1
    ensures effects[0] == SetFrameCounter(ToUint32(next))
    ensures forall e :: 1 <= e < |effects| ==> effects[e].Post? && effects[e].worker == e - 1
    ensures forall e :: 1 <= e < |effects| ==>
      effects[e].job.frameId == next
      && effects[e].job.width == width && effects[e].job.height == height && effects[e].job.dis == dis
    ensures forall e :: 1 <= e < |effects| ==>
      effects[e].job.startY == StripeStart(height, workers, e - 1)
      && effects[e].job.stopY == StripeStop(height, workers, e - 1)
  {
    next := frameId + 1;
    effects := [SetFrameCounter(ToUint32(next))];
    if workers == 0 {
      return;
    }
    var stripeHeight := height / workers;
    var i := 0;
    while i < workers
      invariant 0 <= i <= workers
      invariant |effects| == i + 1
      invariant effects[0] == SetFrameCounter(ToUint32(next))
      invariant forall e :: 1 <= e < |effects| ==>
        effects[e] == Post(e - 1, Job(StripeStart(height, workers, e - 1), StripeStop(height, workers, e - 1), width, height, dis, next))
    {
      var startY := stripeHeight * i;
      var stopY := if i + 1 == workers then height else stripeHeight * (i + 1);
      effects := effects + [Post(i, Job(startY, stopY, width, height, dis, next))];
      i := i + 1;
    }
  }
}
