/**
  How a job becomes tasks, and what the script of each task renders.  The tasks of a
  job lie at equal distances; the generated scripts clamp the end of a block and hand
  the renderer a contiguous or a stepped range of frames.
  */
module WorkSplit {

  type Positive = n: int | n >= 1 witness 1

  /** Task k begins at frame start + k * distance, for as long as that does not exceed end. */
  datatype Job = Job(start: int, end: int, step: Positive, blockSize: int, distance: int) {
    predicate Valid() {
      blockSize >= 1 && distance >= 1 && start <= end
    }

    function Frame(k: int): int {
      start + k * distance
    }

    predicate HasTask(k: int) {
      k >= 0 && Frame(k) <= end
    }

    predicate Several() {
      start + distance <= end
    }

    /** The scripts' BLOCK. */
    function Last(frame: int): int {
      if frame + blockSize - 1 > end then end else frame + blockSize - 1
    }

    /** The task of a frame renders frame f: "F BLOCK" (3delight), "-s F -e BLOCK" (maya). */
    predicate InBlock(frame: int, f: int) {
      frame <= f <= Last(frame)
    }

    /** The same for "F-BLOCKxSTEP" (shake) and "F BLOCK STEP" (lightwave, nuke). */
    predicate InSteps(frame: int, f: int) {
      InBlock(frame, f) && (f - frame) % step == 0
    }

    /** Task k renders frame f. */
    predicate Contiguous(k: int, f: int) {
      HasTask(k) && InBlock(Frame(k), f)
    }

    predicate Stepped(k: int, f: int) {
      HasTask(k) && InSteps(Frame(k), f)
    }

    /** Frame f is in the progression start, start + step, ... up to end. */
    predicate Wanted(f: int) {
      start <= f <= end && (f - start) % step == 0
    }
  }

  /** The computation as the scripts do it: assign, compare, assign again. */
  method BlockEnd(job: Job, frame: int) returns (block: int)
    ensures block == job.Last(frame)
    ensures block <= job.end && block <= frame + job.blockSize - 1
    ensures block == job.end || block == frame + job.blockSize - 1
  {
    block := frame + job.blockSize - 1;
    if block > job.end {
      block := job.end;
    }
  }

  /* Arithmetic */

  lemma Division(a: int, d: int)
    requires d > 0
    ensures a == (a / d) * d + a % d && 0 <= a % d < d
    ensures a >= 0 ==> a / d >= 0
  {
  }

  lemma Monotone(i: int, j: int, d: int)
    requires d > 0 && i <= j
    ensures i * d <= j * d
    ensures i < j ==> i * d + d <= j * d
  {
    var n := j - i;
    assert j * d == i * d + n * d;
    if i < j {
      assert n * d >= d;
    }
  }

  lemma Multiple(n: int, d: int)
    requires d > 0
    ensures (n * d) % d == 0 && (n * d) / d == n
  {
    Division(n * d, d);
    var q, r := n * d / d, n * d % d;
    assert (n - q) * d == r;
    if n > q {
      Monotone(1, n - q, d);
    } else if n < q {
      Monotone(n - q, -1, d);
    }
  }

  /** Congruence: two multiples differ by a multiple. */
  lemma Differences(a: int, b: int, d: int)
    requires d > 0 && a % d == 0 && b % d == 0
    ensures (a - b) % d == 0 && (a + b) % d == 0
  {
    Division(a, d);
    Division(b, d);
    MultiplesDiffer(a / d, b / d, d);
  }

  lemma MultiplesDiffer(p: int, q: int, d: int)
    requires d > 0
    ensures (p * d - q * d) % d == 0 && (p * d + q * d) % d == 0
  {
    assert p * d - q * d == (p - q) * d && p * d + q * d == (p + q) * d;
    Multiple(p - q, d);
    Multiple(p + q, d);
  }

  /* Contiguous scripts */

  predicate Inside(job: Job, f: int) {
    job.start <= f <= job.end
  }

  ghost predicate SomeTask(job: Job, f: int) {
    exists k :: job.Contiguous(k, f)
  }

  ghost predicate NoOverlap(job: Job) {
    forall j, k, f :: job.Contiguous(j, f) && job.Contiguous(k, f) ==> j == k
  }

  /** The blocks partition the frames from start to end. */
  ghost predicate Tiles(job: Job) {
    (forall f :: Inside(job, f) <==> SomeTask(job, f)) && NoOverlap(job)
  }

  lemma BlocksInside(job: Job, k: int, f: int)
    requires job.Valid() && job.Contiguous(k, f)
    ensures Inside(job, f)
  {
    Monotone(0, k, job.distance);
  }

  lemma EqualBlocksTile(job: Job)
    requires job.Valid() && job.blockSize == job.distance
    ensures Tiles(job)
  {
    forall f ensures Inside(job, f) <==> SomeTask(job, f) {
      if Inside(job, f) {
        var k := (f - job.start) / job.distance;
        Division(f - job.start, job.distance);
        assert job.Contiguous(k, f);
      } else if k :| job.Contiguous(k, f) {
        BlocksInside(job, k, f);
      }
    }
    forall j, k, f | job.Contiguous(j, f) && job.Contiguous(k, f) ensures j == k {
      if j < k {
        Monotone(j, k, job.distance);
      } else if k < j {
        Monotone(k, j, job.distance);
      }
    }
  }

  /** Blocks shorter than their distance leave the frame before the second task to nobody. */
  lemma ShortBlocksGap(job: Job)
    requires job.Valid() && job.blockSize < job.distance && job.Several()
    ensures Inside(job, job.start + job.distance - 1) && !SomeTask(job, job.start + job.distance - 1)
  {
    var f := job.start + job.distance - 1;
    forall k ensures !job.Contiguous(k, f) {
      if k > 0 {
        Monotone(1, k, job.distance);
      }
    }
  }

  /** Blocks longer than their distance give the first frame of the second task to two tasks. */
  lemma LongBlocksOverlap(job: Job)
    requires job.Valid() && job.blockSize > job.distance && job.Several()
    ensures job.Contiguous(0, job.start + job.distance) && job.Contiguous(1, job.start + job.distance)
  {
    assert job.Frame(0) == job.start && job.Frame(1) == job.start + job.distance;
  }

  /** The block of an only task covers the job exactly when it reaches the end. */
  lemma OnlyBlock(job: Job)
    requires job.Valid() && !job.Several()
    ensures Tiles(job) <==> job.start + job.blockSize > job.end
  {
    assert job.Frame(0) == job.start && job.HasTask(0);
    forall k | job.HasTask(k) ensures k == 0 {
      if k > 0 {
        Monotone(1, k, job.distance);
      }
    }
    if job.start + job.blockSize > job.end {
      forall f ensures Inside(job, f) <==> SomeTask(job, f) {
        assert Inside(job, f) ==> job.Contiguous(0, f);
        if k :| job.Contiguous(k, f) {
          BlocksInside(job, k, f);
        }
      }
    } else {
      assert !job.Contiguous(0, job.end);
      assert Inside(job, job.end) && !SomeTask(job, job.end);
    }
  }

  /** Contiguous blocks tile the job exactly when they are as long as their distance, or there is
      one task only and its block reaches the end. */
  lemma ContiguousTilesIff(job: Job)
    requires job.Valid()
    ensures Tiles(job) <==>
              (if job.Several() then job.blockSize == job.distance else job.start + job.blockSize > job.end)
  {
    if !job.Several() {
      OnlyBlock(job);
    } else if job.blockSize < job.distance {
      ShortBlocksGap(job);
    } else if job.blockSize > job.distance {
      LongBlocksOverlap(job);
    } else {
      EqualBlocksTile(job);
    }
  }

  /* Stepped scripts */

  ghost predicate Rendered(job: Job, f: int) {
    exists k :: job.Stepped(k, f)
  }

  /** Exactly the progression is rendered. */
  ghost predicate RendersProgression(job: Job) {
    forall f :: job.Wanted(f) <==> Rendered(job, f)
  }

  ghost predicate RendersOnce(job: Job) {
    forall j, k, f :: job.Stepped(j, f) && job.Stepped(k, f) ==> j == k
  }

  /** Whatever a stepped script renders belongs to the progression, if the tasks do. */
  lemma SteppedIsWanted(job: Job, k: int, f: int)
    requires job.Valid() && job.distance % job.step == 0 && job.Stepped(k, f)
    ensures job.Wanted(f)
  {
    BlocksInside(job, k, f);
    Division(job.distance, job.step);
    var n := job.distance / job.step;
    assert k * job.distance == (k * n) * job.step;
    Multiple(k * n, job.step);
    Differences(f - job.Frame(k), k * job.distance, job.step);
    assert f - job.start == (f - job.Frame(k)) + k * job.distance;
  }

  /** One task per frame of the progression: whatever the block size, the progression is rendered. */
  lemma SteppedRendersProgression(job: Job)
    requires job.Valid() && job.distance == job.step
    ensures RendersProgression(job)
  {
    Multiple(1, job.step);
    forall f ensures job.Wanted(f) <==> Rendered(job, f) {
      if job.Wanted(f) {
        var k := (f - job.start) / job.step;
        Division(f - job.start, job.step);
        assert job.Frame(k) == f;
        assert job.Stepped(k, f);
      } else if k :| job.Stepped(k, f) {
        SteppedIsWanted(job, k, f);
      }
    }
  }

  /** ... and each frame once exactly when the blocks do not reach the next task. */
  lemma SteppedRendersOnceIff(job: Job)
    requires job.Valid() && job.distance == job.step
    ensures RendersOnce(job) <==> job.blockSize <= job.step || !job.Several()
  {
    if job.blockSize > job.step && job.Several() {
      LongBlocksOverlap(job);
      Multiple(1, job.step);
      assert job.Frame(0) == job.start && job.Frame(1) == job.start + job.step;
      assert job.Stepped(0, job.start + job.step) && job.Stepped(1, job.start + job.step);
    } else {
      forall j, k, f | job.Stepped(j, f) && job.Stepped(k, f) ensures j == k {
        TasksOnce(job, j, k, f);
      }
    }
  }

  /** Blocks that do not reach the next task, or an only task, render nothing twice. */
  lemma TasksOnce(job: Job, j: int, k: int, f: int)
    requires job.Valid() && (job.blockSize <= job.distance || !job.Several())
    requires job.Contiguous(j, f) && job.Contiguous(k, f)
    ensures j == k
  {
    if j != k {
      var low, high := if j < k then j else k, if j < k then k else j;
      Monotone(low, high, job.distance);
      Monotone(0, low, job.distance);
    }
  }
}
