/**
  The tasks libdrqueue/job.c makes of a job, in the 32-bit arithmetic it uses, and what
  the generated scripts render of the job when the master hands these tasks out.
  */
module JobTasks {
  import opened Numerals
  import opened WorkSplit

  function Wrap(n: int): U32 {
    n % TWO_32
  }

  function Div(a: U32, b: Positive): (q: U32) {
    Division(a, b);
    Monotone(1, b, a / b + 1);
    a / b
  }

  /** frame_start, frame_end, frame_step and block_size of a struct job. */
  datatype Record = Record(start: U32, end: U32, step: U32, blockSize: U32) {
    predicate Valid() {
      step >= 1 && start <= end
    }

    /** job_nframes() */
    function NFrames(): U32 {
      if step == 0 || blockSize == 0 then 0
      else
        var nSteps := Div(Wrap(end - start + step), step);
        Div(Wrap(nSteps + blockSize - 1), blockSize)
    }

    /** job_frame_index_to_number() */
    function IndexToNumber(index: U32): U32 {
      Wrap(start + Wrap(Wrap(index * blockSize) * step))
    }

    /** The divisor of job_frame_number_to_index(). */
    function Divisor(): U32 {
      Wrap(blockSize * step)
    }

    /** job_frame_number_to_index() */
    function NumberToIndex(number: U32): int
      requires Divisor() != 0
    {
      Wrap(number - start) / Divisor()
    }

    /** There are blocks, and the computation of job_nframes() does not overflow. */
    predicate Fits() {
      step >= 1 && blockSize >= 1 && end - start + step < TWO_32 && (end - start) / step + blockSize < TWO_32
    }

    /** The tasks as they are meant: one every block_size * frame_step frames. */
    function Tasks(): Job
      requires Valid()
    {
      Job(start, end, step, blockSize, blockSize * step)
    }

    predicate HasTask(k: int) {
      0 <= k < NFrames()
    }

    /** The script of the master's task k renders frame f. */
    predicate Contiguous(k: int, f: int)
      requires Valid()
    {
      HasTask(k) && Tasks().InBlock(IndexToNumber(k), f)
    }

    predicate Stepped(k: int, f: int)
      requires Valid()
    {
      HasTask(k) && Tasks().InSteps(IndexToNumber(k), f)
    }
  }

  /* Counting the tasks */

  lemma WrapIsIdentity(n: int)
    requires 0 <= n < TWO_32
    ensures Wrap(n) == n
  {
  }

  lemma AtMost(a: int, d: int, n: int)
    requires d > 0
    ensures a * d <= n <==> a <= n / d
  {
    Division(n, d);
    if a <= n / d {
      Monotone(a, n / d, d);
    } else {
      Monotone(n / d + 1, a, d);
    }
  }

  lemma Shift(a: int, d: int)
    requires d > 0 && a >= 0
    ensures (a + d) / d == a / d + 1 && a / d >= 0
  {
    Division(a, d);
    Division(a + d, d);
    AtMost(a / d + 1, d, a + d);
    AtMost((a + d) / d - 1, d, a);
    assert ((a + d) / d - 1) * d == (a + d) / d * d - d;
    assert (a / d + 1) * d == a / d * d + d;
  }

  lemma Small(a: int, d: int)
    requires 0 <= a < d
    ensures a / d == 0
  {
    AtMost(1, d, a);
    AtMost(0, d, a);
  }

  lemma DivShift(a: nat, d: Positive)
    requires a + d < TWO_32
    ensures Div(Wrap(a + d), d) == a / d + 1
  {
    WrapIsIdentity(a + d);
    Shift(a, d);
  }

  lemma CountValue(n: U32, s: Positive, b: Positive)
    requires n + s < TWO_32 && n / s + b < TWO_32
    ensures Div(Wrap(Div(Wrap(n + s), s) + b - 1), b) == n / s / b + 1
  {
    DivShift(n, s);
    var steps, q := Div(Wrap(n + s), s), n / s;
    assert steps + b - 1 == q + b && q >= 0 by {
      Shift(n, s);
    }
    DivShift(q, b);
  }

  lemma NFramesValue(job: Record)
    requires job.Valid() && job.Fits()
    ensures job.NFrames() == (job.end - job.start) / job.step / job.blockSize + 1
  {
    CountValue(job.end - job.start, job.step, job.blockSize);
  }

  lemma WrapOnce(n: int)
    requires TWO_32 <= n < 2 * TWO_32
    ensures Wrap(n) == n - TWO_32
  {
  }

  /** A sum that overflows by less than its second term leaves less than that term. */
  lemma DivOverflow(a: U32, d: Positive)
    requires d < TWO_32 <= a + d
    ensures Div(Wrap(a + d), d) == 0
  {
    WrapOnce(a + d);
    Small(a + d - TWO_32, d);
  }

  lemma QuotientFits(n: U32, d: Positive)
    ensures 0 <= n / d <= n
  {
    Shift(n, d);
    AtMost(n + 1, d, n);
    Monotone(1, d, n + 1);
  }

  /** An overflow in job_nframes(), like a block size of 0, always ends in no tasks at all. */
  lemma OverflowMeansNoTasks(job: Record)
    requires job.Valid()
    ensures job.NFrames() == 0 <==> !job.Fits()
  {
    var n, q := job.end - job.start, (job.end - job.start) / job.step;
    QuotientFits(n, job.step);
    if job.blockSize == 0 {
    } else if job.Fits() {
      NFramesValue(job);
      QuotientFits(q, job.blockSize);
    } else if n + job.step >= TWO_32 {
      DivOverflow(n, job.step);
      WrapIsIdentity(job.blockSize - 1);
      Small(job.blockSize - 1, job.blockSize);
    } else {
      DivShift(n, job.step);
      DivOverflow(q, job.blockSize);
      assert q + 1 + job.blockSize - 1 == q + job.blockSize;
    }
  }

  lemma Reaches(k: nat, b: int, s: int, n: int)
    requires b >= 1 && s >= 1
    ensures k * (b * s) <= n <==> k <= n / s / b
  {
    AtMost(k, b, n / s);
    AtMost(k * b, s, n);
    assert k * (b * s) == k * b * s;
  }

  /** job_nframes() counts the tasks: they are exactly those with an index below it. */
  lemma NFramesCounts(job: Record, k: nat)
    requires job.Valid() && job.Fits()
    ensures job.HasTask(k) <==> job.Tasks().HasTask(k)
  {
    NFramesValue(job);
    Reaches(k, job.blockSize, job.step, job.end - job.start);
  }

  lemma Factors(k: int, b: int, s: int)
    requires k >= 1 && b >= 1 && s >= 1
    ensures k * (b * s) == (k * b) * s
    ensures 0 < b * s <= k * (b * s)
    ensures 0 < k * b <= k * (b * s)
  {
    Monotone(1, b, s);
    Monotone(1, k, b * s);
    Monotone(1, k, b);
    Monotone(1, s, k * b);
  }

  /** No partial product of the frame number of a task overflows. */
  lemma NoOverflow(start: U32, end: U32, b: U32, s: U32, k: int)
    requires k >= 1 && b >= 1 && s >= 1 && start + k * (b * s) <= end
    ensures 0 < k * b < TWO_32 && Wrap(start + Wrap(Wrap(k * b) * s)) == start + k * (b * s)
  {
    Factors(k, b, s);
    var n := k * b;
    WrapIsIdentity(n);
    var p := n * s;
    WrapIsIdentity(p);
    WrapIsIdentity(start + p);
  }

  lemma FirstFrame(start: U32, b: U32, s: U32)
    ensures Wrap(start + Wrap(Wrap(0 * b) * s)) == start
  {
    WrapIsIdentity(0);
    WrapIsIdentity(start);
  }

  lemma FrameIsExact(job: Record, k: int)
    requires job.Valid() && job.Fits() && job.HasTask(k)
    ensures job.IndexToNumber(k) == job.Tasks().Frame(k)
  {
    if k == 0 {
      FirstFrame(job.start, job.blockSize, job.step);
    } else {
      assert job.Tasks().HasTask(k) by {
        NFramesCounts(job, k);
      }
      NoOverflow(job.start, job.end, job.blockSize, job.step, k);
    }
  }

  lemma BackToIndex(job: Record, k: int, number: U32)
    requires job.Valid() && job.blockSize >= 1 && k >= 1 && number == job.Tasks().Frame(k) <= job.end
    ensures job.Divisor() != 0 && job.NumberToIndex(number) == k
  {
    Factors(k, job.blockSize, job.step);
    var d := job.blockSize * job.step;
    WrapIsIdentity(d);
    WrapIsIdentity(number - job.start);
    Multiple(k, d);
  }

  /** Index and frame number of a task determine each other, in 32-bit arithmetic, whenever the way
      back does not divide by zero. */
  lemma IndexRoundTrip(job: Record, k: int)
    requires job.Valid() && job.Fits() && job.HasTask(k) && job.Divisor() != 0
    ensures job.IndexToNumber(k) == job.Tasks().Frame(k)
    ensures job.NumberToIndex(job.IndexToNumber(k)) == k
  {
    FrameIsExact(job, k);
    if k > 0 {
      NFramesCounts(job, k);
      BackToIndex(job, k, job.IndexToNumber(k));
    } else {
      WrapIsIdentity(0);
      Small(0, job.Divisor());
    }
  }

  /** The division by zero can only hit a job with a single task, but it does: frames 0 to 10 with
      step and block size 65536. */
  lemma DivisionByZero(job: Record)
    requires job.Valid() && job.Fits()
    ensures job.Divisor() == 0 ==> job.NFrames() == 1
    ensures var wide := Record(0, 10, 0x1_0000, 0x1_0000);
            wide.Valid() && wide.Fits() && wide.NFrames() == 1 && wide.Divisor() == 0
  {
    OverflowMeansNoTasks(job);
    if job.NFrames() > 1 {
      NFramesCounts(job, 1);
      FrameIsExact(job, 1);
      BackToIndex(job, 1, job.IndexToNumber(1));
    }
    var wide := Record(0, 10, 0x1_0000, 0x1_0000);
    Small(10, 0x1_0000);
    NFramesValue(wide);
    Small(0, 0x1_0000);
    Multiple(1, TWO_32);
  }

  /** The master's tasks render what the tasks as meant do. */
  lemma RendersAlike(job: Record, k: int, f: int)
    requires job.Valid() && job.Fits()
    ensures job.Contiguous(k, f) <==> job.Tasks().Contiguous(k, f)
    ensures job.Stepped(k, f) <==> job.Tasks().Stepped(k, f)
  {
    if k >= 0 {
      NFramesCounts(job, k);
      if job.HasTask(k) {
        FrameIsExact(job, k);
      }
    }
  }

  /* Stepped scripts */

  /** The first frame of task 0 that its stepped script leaves out. */
  function FirstLeftOut(job: Job): int
    requires job.Valid()
  {
    job.start + ((job.blockSize - 1) / job.step + 1) * job.step
  }

  /** m steps lead past a block of b + 1 frames, but not past b steps. */
  lemma StepsPastBlock(b: int, s: int) returns (m: int)
    requires b >= 1 && s >= 2
    ensures m == b / s + 1 && b < m * s && m <= b && m * s <= b * s
  {
    m := b / s + 1;
    Division(b, s);
    if b / s >= b {
      Monotone(b, b / s, s);
      Monotone(2, s, b);
    }
    Monotone(m, b, s);
  }

  lemma FirstLeftOutIsLeftOut(job: Job)
    requires job.Valid() && job.distance == job.blockSize * job.step
    requires job.blockSize >= 2 && job.step >= 2 && FirstLeftOut(job) <= job.end
    ensures job.Wanted(FirstLeftOut(job)) && !Rendered(job, FirstLeftOut(job))
  {
    var m := StepsPastBlock(job.blockSize - 1, job.step);
    var f := FirstLeftOut(job);
    Multiple(m, job.step);
    assert f == job.start + m * job.step;
    assert f < job.start + job.distance;
    forall k ensures !job.Stepped(k, f) {
      if k > 0 {
        Monotone(1, k, job.distance);
      }
    }
  }

  lemma TrivialJobCoversFrame(job: Job, f: int)
    requires job.Valid() && job.distance == job.blockSize * job.step
    requires job.blockSize == 1 || job.step == 1
    requires job.Wanted(f)
    ensures Rendered(job, f)
  {
    var k := (f - job.start) / job.distance;
    Division(f - job.start, job.distance);
    assert job.Stepped(k, f);
  }

  lemma FirstTaskCoversFrame(job: Job, f: int)
    requires job.Valid() && FirstLeftOut(job) > job.end && job.Wanted(f)
    ensures Rendered(job, f)
  {
    var n, m := (f - job.start) / job.step, (job.blockSize - 1) / job.step;
    Division(f - job.start, job.step);
    Division(job.blockSize - 1, job.step);
    if n > m {
      Monotone(m + 1, n, job.step);
    } else {
      Monotone(n, m, job.step);
    }
    assert job.Frame(0) == job.start;
    assert job.Stepped(0, f);
  }

  lemma RegisteredCovers(job: Job)
    requires job.Valid() && job.distance == job.blockSize * job.step
    requires job.blockSize == 1 || job.step == 1 || FirstLeftOut(job) > job.end
    ensures RendersProgression(job)
  {
    Multiple(job.blockSize, job.step);
    forall f ensures job.Wanted(f) <==> Rendered(job, f) {
      if k :| job.Stepped(k, f) {
        SteppedIsWanted(job, k, f);
      }
      if job.Wanted(f) {
        if job.blockSize == 1 || job.step == 1 {
          TrivialJobCoversFrame(job, f);
        } else {
          FirstTaskCoversFrame(job, f);
        }
      }
    }
  }

  ghost predicate SomeStepped(job: Record, f: int)
    requires job.Valid()
  {
    exists k :: job.Stepped(k, f)
  }

  /** Exactly the progression is rendered. */
  ghost predicate ProgressionRendered(job: Record)
    requires job.Valid()
  {
    forall f :: job.Tasks().Wanted(f) <==> SomeStepped(job, f)
  }

  lemma SomeSteppedIff(job: Record, f: int)
    requires job.Valid() && job.Fits()
    ensures SomeStepped(job, f) <==> Rendered(job.Tasks(), f)
  {
    if k :| job.Stepped(k, f) {
      RendersAlike(job, k, f);
    }
    if k :| job.Tasks().Stepped(k, f) {
      RendersAlike(job, k, f);
    }
  }

  /** With the tasks as the master registers them, no frame is rendered twice by stepped scripts. */
  lemma RegisteredSteppedOnce(job: Record, j: int, k: int, f: int)
    requires job.Valid() && job.Stepped(j, f) && job.Stepped(k, f)
    ensures j == k
  {
    OverflowMeansNoTasks(job);
    RendersAlike(job, j, f);
    RendersAlike(job, k, f);
    Monotone(1, job.step, job.blockSize);
    TasksOnce(job.Tasks(), j, k, f);
  }

  /** ... and for every job the whole progression is rendered exactly when the count of its tasks
      does not overflow, and blocks or steps are trivial or the job ends before the first frame
      that task 0 leaves out. */
  lemma RegisteredSteppedIff(job: Record)
    requires job.Valid()
    ensures ProgressionRendered(job) <==>
              job.Fits() && (job.blockSize == 1 || job.step == 1 || FirstLeftOut(job.Tasks()) > job.end)
  {
    OverflowMeansNoTasks(job);
    if !job.Fits() {
      Small(0, job.step);
      assert job.Tasks().Wanted(job.start) && !SomeStepped(job, job.start);
    } else {
      Monotone(1, job.step, job.blockSize);
      forall f ensures SomeStepped(job, f) <==> Rendered(job.Tasks(), f) {
        SomeSteppedIff(job, f);
      }
      if job.blockSize == 1 || job.step == 1 || FirstLeftOut(job.Tasks()) > job.end {
        RegisteredCovers(job.Tasks());
      } else {
        FirstLeftOutIsLeftOut(job.Tasks());
      }
    }
  }

  /* Contiguous scripts */

  ghost predicate SomeContiguous(job: Record, f: int)
    requires job.Valid()
  {
    exists k :: job.Contiguous(k, f)
  }

  /** The blocks partition the frames of the job. */
  ghost predicate JobTiled(job: Record)
    requires job.Valid()
  {
    && (forall f :: Inside(job.Tasks(), f) <==> SomeContiguous(job, f))
    && (forall j, k, f :: job.Contiguous(j, f) && job.Contiguous(k, f) ==> j == k)
  }

  lemma JobTiledIff(job: Record)
    requires job.Valid() && job.Fits()
    ensures JobTiled(job) <==> Tiles(job.Tasks())
  {
    forall k, f ensures job.Contiguous(k, f) <==> job.Tasks().Contiguous(k, f) {
      RendersAlike(job, k, f);
    }
    forall f ensures SomeContiguous(job, f) <==> SomeTask(job.Tasks(), f) {
    }
  }

  /** With the same tasks, contiguous scripts tile the job exactly when the count of the tasks does
      not overflow, and the step is 1 or the first block reaches the end. */
  lemma RegisteredContiguousIff(job: Record)
    requires job.Valid()
    ensures JobTiled(job) <==> job.Fits() && (job.step == 1 || job.start + job.blockSize > job.end)
  {
    OverflowMeansNoTasks(job);
    if !job.Fits() {
      assert Inside(job.Tasks(), job.start) && !SomeContiguous(job, job.start);
    } else {
      JobTiledIff(job);
      Monotone(1, job.step, job.blockSize);
      ContiguousTilesIff(job.Tasks());
      if job.step > 1 {
        Monotone(2, job.step, job.blockSize);
      }
    }
  }

  /** Blocks of 2^32 - 1 frames: the master counts no task, and of ten frames none is rendered. */
  lemma HugeBlocksRenderNothing(f: int)
    ensures var job := Record(1, 10, 1, 0xFFFF_FFFF);
            job.Valid() && job.NFrames() == 0 && !SomeStepped(job, f) && !SomeContiguous(job, f)
  {
    var job := Record(1, 10, 1, 0xFFFF_FFFF);
    Division(9, 1);
    OverflowMeansNoTasks(job);
  }
}
