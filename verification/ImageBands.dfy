/**
  Distributing one image over several tasks: the blender script passes the frame number
  as the part and the end frame as the number of parts, and the region script turns the
  part into a horizontal band of the image.  Rows are reals, counted from the bottom.
  */
module ImageBands {
  import opened JobTasks
  import opened WorkSplit

  /** Pixels added on a side that is not the edge of the image. */
  const MARGIN: real := 5.0

  datatype Band = Band(bottom: real, top: real) {
    predicate Covers(y: real) {
      bottom <= y <= top
    }

    predicate Interior(y: real) {
      bottom < y < top
    }
  }

  datatype Image = Image(height: nat, parts: nat) {
    predicate Valid() {
      height >= 1 && parts >= 1
    }

    function H(): real {
      height as real
    }

    /** part_height */
    function PartHeight(): real
      requires Valid()
    {
      H() / (parts as real)
    }

    /** The border below part k, before any margin: 0 is the top of the image. */
    function Border(k: int): real
      requires Valid()
    {
      H() - (k as real) * PartHeight()
    }

    predicate HasPart(k: int) {
      1 <= k <= parts
    }

    /** The script does not check that the picture has part k. */
    function BandOf(k: int): Band
      requires Valid()
    {
      Band(if Border(k) > 0.0 then Border(k) - MARGIN else Border(k),
           if Border(k - 1) < H() then Border(k - 1) + MARGIN else Border(k - 1))
    }
  }

  /** The script: bottom and top are computed and then widened in place.  Without parts, or without
      rows, it stops at a division by zero. */
  method Region(image: Image, curpart: int) returns (ok: bool, bottomPx: real, topPx: real)
    ensures ok <==> image.Valid()
    ensures ok ==> Band(bottomPx, topPx) == image.BandOf(curpart)
  {
    ok, bottomPx, topPx := image.Valid(), 0.0, 0.0;
    if ok {
      var partHeight := image.H() / (image.parts as real);
      bottomPx := image.H() - (curpart as real) * partHeight;
      topPx := image.H() - ((curpart as real) - 1.0) * partHeight;
      assert topPx == image.Border(curpart - 1) && bottomPx == image.Border(curpart) by {
        assert ((curpart - 1) as real) == (curpart as real) - 1.0;
      }
      if topPx < image.H() {
        topPx := topPx + MARGIN;
      }
      if bottomPx > 0.0 {
        bottomPx := bottomPx - MARGIN;
      }
    }
  }

  /* Borders */

  lemma MulMonotone(a: real, b: real, c: real)
    requires a <= b && c >= 0.0
    ensures a * c <= b * c
    ensures a < b && c > 0.0 ==> a * c < b * c
  {
    var d := b - a;
    assert b * c == a * c + d * c;
  }

  lemma PartHeightPositive(image: Image)
    requires image.Valid()
    ensures image.PartHeight() > 0.0
    ensures (image.parts as real) * image.PartHeight() == image.H()
  {
  }

  /** The borders descend from the top of the image to 0 in equal steps. */
  lemma Borders(image: Image, k: int)
    requires image.Valid() && k <= image.parts
    ensures image.Border(0) == image.H() && image.Border(image.parts) == 0.0
    ensures image.Border(k - 1) == image.Border(k) + image.PartHeight()
    ensures k < image.parts ==> image.Border(k) > 0.0 && image.Border(k + 1) == image.Border(k) - image.PartHeight()
    ensures k > 0 <==> image.Border(k) < image.H()
  {
    var p := image.PartHeight();
    PartHeightPositive(image);
    assert (k - 1) as real * p == (k as real) * p - p;
    if k < image.parts {
      MulMonotone(k as real, image.parts as real, p);
      assert (k + 1) as real * p == (k as real) * p + p;
    }
    if k > 0 {
      MulMonotone(0.0, k as real, p);
    } else {
      MulMonotone(k as real, 0.0, p);
    }
  }

  /** The band of a part, with the margins worked out; part 0 lies above the picture but for its margin. */
  lemma BandForm(image: Image, k: nat)
    requires image.Valid() && k <= image.parts
    ensures image.BandOf(k) ==
              Band(if k < image.parts then image.Border(k) - MARGIN else 0.0,
                   if k > 1 then image.Border(k - 1) + MARGIN else image.Border(k - 1))
    ensures image.Border(0) == image.H()
  {
    Borders(image, k);
    Borders(image, k - 1);
  }

  /** The bands cover the picture. */
  lemma {:induction false} BandsCover(image: Image, y: real)
    requires image.Valid() && 0.0 <= y <= image.H()
    ensures exists k: nat :: image.HasPart(k) && image.BandOf(k).Covers(y)
  {
    var k := PartOf(image, y, image.parts);
    BandForm(image, k);
    Borders(image, k);
    Borders(image, k - 1);
    assert image.BandOf(k).Covers(y);
  }

  /** Searches upwards from part k for the part whose borders enclose y. */
  lemma {:induction false} PartOf(image: Image, y: real, k: nat) returns (part: nat)
    requires image.Valid() && image.HasPart(k) && image.Border(k) <= y <= image.H()
    ensures image.HasPart(part) && image.Border(part) <= y <= image.Border(part - 1)
  {
    Borders(image, k);
    Borders(image, k - 1);
    if y <= image.Border(k - 1) {
      part := k;
    } else {
      part := PartOf(image, y, k - 1);
    }
  }

  /** Neighbouring bands overlap by exactly 10 px. */
  lemma NeighboursOverlap(image: Image, k: nat)
    requires image.Valid() && image.HasPart(k) && image.HasPart(k + 1)
    ensures image.BandOf(k + 1).top - image.BandOf(k).bottom == 10.0
  {
    BandForm(image, k);
    BandForm(image, k + 1);
  }

  ghost predicate AllInside(image: Image)
    requires image.Valid()
  {
    forall k: nat | image.HasPart(k) :: 0.0 <= image.BandOf(k).bottom && image.BandOf(k).top <= image.H()
  }

  lemma {:induction false} BorderOrder(image: Image, j: nat, k: nat)
    requires image.Valid() && j <= k <= image.parts
    ensures image.Border(k) <= image.Border(j)
    ensures j < k ==> image.Border(k) + image.PartHeight() <= image.Border(j)
    decreases k - j
  {
    PartHeightPositive(image);
    if j < k {
      Borders(image, k - 1);
      BorderOrder(image, j, k - 1);
    }
  }

  /** Every band stays inside the image exactly when parts are at least 5 px high (or there is
      only one). */
  lemma InsideIff(image: Image)
    requires image.Valid()
    ensures AllInside(image) <==> image.parts == 1 || image.PartHeight() >= 5.0
  {
    if image.parts == 1 || image.PartHeight() >= MARGIN {
      forall k: nat | image.HasPart(k)
        ensures 0.0 <= image.BandOf(k).bottom && image.BandOf(k).top <= image.H()
      {
        BandForm(image, k);
        Borders(image, k);
        if k < image.parts {
          BorderOrder(image, k, image.parts);
        }
        if k > 1 {
          BorderOrder(image, 0, k - 1);
          Borders(image, 0);
        }
      }
    } else {
      BandForm(image, image.parts - 1);
      Borders(image, image.parts - 1);
      assert image.BandOf(image.parts - 1).bottom < 0.0;
    }
  }

  /** No row is interior to three bands. */
  ghost predicate AtMostTwo(image: Image)
    requires image.Valid()
  {
    forall i: nat, j: nat, k: nat, y | image.HasPart(i) && image.HasPart(j) && image.HasPart(k) && i < j < k ::
      !(image.BandOf(i).Interior(y) && image.BandOf(j).Interior(y) && image.BandOf(k).Interior(y))
  }

  /** No row is interior to more than two bands exactly when parts are at least 10 px high (or there
      are at most two). */
  lemma AtMostTwoIff(image: Image)
    requires image.Valid()
    ensures AtMostTwo(image) <==> image.parts <= 2 || image.PartHeight() >= 10.0
  {
    if image.parts <= 2 || image.PartHeight() >= 2.0 * MARGIN {
      forall i: nat, j: nat, k: nat, y | image.HasPart(i) && image.HasPart(j) && image.HasPart(k) && i < j < k
        ensures !(image.BandOf(i).Interior(y) && image.BandOf(j).Interior(y) && image.BandOf(k).Interior(y))
      {
        BandForm(image, i);
        BandForm(image, k);
        BorderOrder(image, i, k - 1);
      }
    } else {
      MiddleOfPartTwo(image);
    }
  }

  /** Low parts: the middle of part 2 also lies in the bands of parts 1 and 3. */
  lemma MiddleOfPartTwo(image: Image)
    requires image.Valid() && image.parts > 2 && image.PartHeight() < 2.0 * MARGIN
    ensures var y := image.Border(2) + image.PartHeight() / 2.0;
            image.BandOf(1).Interior(y) && image.BandOf(2).Interior(y) && image.BandOf(3).Interior(y)
  {
    BandForm(image, 1);
    BandForm(image, 2);
    BandForm(image, 3);
    Borders(image, 0);
    Borders(image, 1);
    Borders(image, 2);
    PartHeightPositive(image);
    BorderOrder(image, 2, 3);
  }

  /* A single-image job: the task of frame F renders part F of as many parts as the end frame says */

  /** The picture of a job whose tasks lie job.distance frames apart. */
  function Picture(job: Job, height: nat): Image
    requires job.end >= 0
  {
    Image(height, job.end)
  }

  ghost predicate SomeTaskCovers(job: Job, height: nat, y: real)
    requires job.end >= 1 && height >= 1
  {
    exists k :: job.HasTask(k) && Picture(job, height).BandOf(job.Frame(k)).Covers(y)
  }

  ghost predicate JobCovers(job: Job, height: nat)
    requires job.end >= 1 && height >= 1
  {
    forall y :: 0.0 <= y <= (height as real) ==> SomeTaskCovers(job, height, y)
  }

  predicate SingleImage(job: Job, height: nat) {
    job.Valid() && job.start >= 0 && job.end >= 1 && height >= 1
  }

  /** The index of the last task. */
  function LastTask(job: Job): int
    requires job.Valid()
  {
    (job.end - job.start) / job.distance
  }

  lemma LastTaskIsLast(job: Job, k: int)
    requires job.Valid()
    ensures job.HasTask(k) <==> 0 <= k <= LastTask(job)
    ensures LastTask(job) >= 0 && (LastTask(job) >= 1 <==> job.Several())
  {
    AtMost(k, job.distance, job.end - job.start);
    AtMost(0, job.distance, job.end - job.start);
    AtMost(1, job.distance, job.end - job.start);
  }

  /** Parts from one border to another. */
  lemma BorderDistance(image: Image, j: int, k: int)
    requires image.Valid()
    ensures image.Border(j) - image.Border(k) == ((k - j) as real) * image.PartHeight()
  {
    var p := image.PartHeight();
    assert (k - j) as real * p == (k as real) * p - (j as real) * p;
  }

  /** Nothing above the first band, nothing between neighbouring bands and nothing below the last
      one is missing. */
  predicate NoGap(job: Job, height: nat)
    requires SingleImage(job, height)
  {
    var p := Picture(job, height).PartHeight();
    && ((job.start - 1) as real) * p <= 5.0
    && (job.Several() ==> ((job.distance - 1) as real) * p <= 10.0)
    && ((job.end - job.Frame(LastTask(job))) as real) * p <= 5.0
  }

  /** The band of part f reaches the top exactly when the parts above it fit into the margin. */
  lemma ReachesTop(image: Image, f: nat)
    requires image.Valid() && f <= image.parts
    ensures ((f - 1) as real) * image.PartHeight() <= MARGIN <==> image.BandOf(f).top >= image.H()
  {
    BandForm(image, f);
    BorderDistance(image, 0, f - 1);
    Borders(image, f - 1);
  }

  lemma FirstReachesTop(job: Job, height: nat)
    requires SingleImage(job, height) && NoGap(job, height)
    ensures Picture(job, height).BandOf(job.Frame(0)).top >= (height as real)
  {
    assert job.Frame(0) == job.start;
    ReachesTop(Picture(job, height), job.start);
  }

  /** The bands of task k and of all tasks before it cover everything above the lower edge. */
  lemma {:induction false} CoveredDownTo(job: Job, height: nat, k: int, y: real)
    requires SingleImage(job, height) && NoGap(job, height) && job.HasTask(k)
    requires Picture(job, height).BandOf(job.Frame(k)).bottom <= y <= (height as real)
    ensures SomeTaskCovers(job, height, y)
    decreases k
  {
    var image, f := Picture(job, height), job.Frame(k);
    if y <= image.BandOf(f).top {
      assert image.BandOf(f).Covers(y);
    } else if k == 0 {
      FirstReachesTop(job, height);
      assert false;
    } else {
      assert job.HasTask(k - 1) && Meets(job, height, k - 1) by {
        NeighboursMeet(job, height, k - 1);
      }
      CoveredDownTo(job, height, k - 1, y);
    }
  }

  /** The band of task k ends where, or above where, the band of the next task begins. */
  predicate Meets(job: Job, height: nat, k: int)
    requires SingleImage(job, height)
  {
    Picture(job, height).BandOf(job.Frame(k)).bottom <= Picture(job, height).BandOf(job.Frame(k + 1)).top
  }

  lemma NeighboursMeet(job: Job, height: nat, k: int)
    requires SingleImage(job, height) && k >= 0 && job.HasTask(k + 1)
    ensures job.HasTask(k) && job.Several()
    ensures Meets(job, height, k) <==>
              ((job.distance - 1) as real) * Picture(job, height).PartHeight() <= 2.0 * MARGIN
  {
    var image, f, g := Picture(job, height), job.Frame(k), job.Frame(k + 1);
    Monotone(0, k, job.distance);
    assert g == f + job.distance;
    BandForm(image, f);
    BandForm(image, g);
    BorderDistance(image, f, g - 1);
  }
  lemma NoGapCovers(job: Job, height: nat, y: real)
    requires SingleImage(job, height) && NoGap(job, height) && 0.0 <= y <= (height as real)
    ensures SomeTaskCovers(job, height, y)
  {
    var image, k := Picture(job, height), LastTask(job);
    LastTaskIsLast(job, k);
    Monotone(0, k, job.distance);
    BandForm(image, job.Frame(k));
    Borders(image, image.parts);
    BorderDistance(image, job.Frame(k), image.parts);
    CoveredDownTo(job, height, k, y);
  }

  lemma FramesInOrder(job: Job, k: int)
    requires job.Valid() && job.HasTask(k)
    ensures job.start <= job.Frame(k) <= job.Frame(LastTask(job)) <= job.end
  {
    LastTaskIsLast(job, k);
    LastTaskIsLast(job, LastTask(job));
    Monotone(0, k, job.distance);
    Monotone(k, LastTask(job), job.distance);
  }

  lemma LowerPartsMissTop(image: Image, s: nat, f: nat)
    requires image.Valid() && s <= f <= image.parts && ((s - 1) as real) * image.PartHeight() > MARGIN
    ensures image.BandOf(f).top < image.H()
  {
    var p, above, more := image.PartHeight(), (s - 1) as real, (f - 1) as real;
    PartHeightPositive(image);
    MulMonotone(above, more, p);
    assert more * p > MARGIN;
    ReachesTop(image, f);
  }

  /** Parts before the first task that are higher than the margin: the top row is missing. */
  lemma TopMissing(job: Job, height: nat)
    requires SingleImage(job, height) && ((job.start - 1) as real) * Picture(job, height).PartHeight() > MARGIN
    ensures !SomeTaskCovers(job, height, height as real)
  {
    var image := Picture(job, height);
    forall k | job.HasTask(k) ensures !image.BandOf(job.Frame(k)).Covers(height as real) {
      FramesInOrder(job, k);
      LowerPartsMissTop(image, job.start, job.Frame(k));
    }
  }

  /** Parts after the last task that are higher than the margin: the bottom row is missing. */
  lemma BottomMissing(job: Job, height: nat)
    requires SingleImage(job, height)
    requires ((job.end - job.Frame(LastTask(job))) as real) * Picture(job, height).PartHeight() > MARGIN
    ensures !SomeTaskCovers(job, height, 0.0)
  {
    var image, last := Picture(job, height), job.Frame(LastTask(job));
    Borders(image, image.parts);
    BorderDistance(image, last, image.parts);
    assert image.Border(last) > MARGIN && last != image.parts;
    forall k | job.HasTask(k) ensures !image.BandOf(job.Frame(k)).Covers(0.0) {
      var f := job.Frame(k);
      FramesInOrder(job, k);
      BandForm(image, f);
      BorderOrder(image, f, last);
    }
  }

  /** The rows between the bands of parts f and g. */
  lemma GapBetween(image: Image, f: nat, g: nat) returns (y: real)
    requires image.Valid() && f + 2 <= g <= image.parts
    requires ((g - 1 - f) as real) * image.PartHeight() > 2.0 * MARGIN
    ensures 0.0 <= y <= image.H() && image.Border(g - 1) + MARGIN < y < image.Border(f) - MARGIN
  {
    Borders(image, image.parts);
    BorderOrder(image, g - 1, image.parts);
    BorderOrder(image, 0, f);
    BorderDistance(image, f, g - 1);
    y := (image.Border(f) + image.Border(g - 1)) / 2.0;
  }

  /** Parts between two tasks that are higher than two margins: a row between the bands of the
      first two tasks is missing. */
  lemma MiddleMissing(job: Job, height: nat) returns (y: real)
    requires SingleImage(job, height) && job.Several() && job.distance >= 2
    requires ((job.distance - 1) as real) * Picture(job, height).PartHeight() > 2.0 * MARGIN
    ensures 0.0 <= y <= (height as real) && !SomeTaskCovers(job, height, y)
  {
    var image, second := Picture(job, height), job.start + job.distance;
    assert job.Frame(0) == job.start;
    y := GapBetween(image, job.start, second);
    BandForm(image, job.start);
    forall k | job.HasTask(k) ensures !image.BandOf(job.Frame(k)).Covers(y) {
      if k > 0 {
        Monotone(1, k, job.distance);
        BandForm(image, job.Frame(k));
        BorderOrder(image, second - 1, job.Frame(k) - 1);
      }
    }
  }

  /** The tasks of a single-image job render the whole picture exactly when the parts they leave out
      above the first task and below the last are no higher than the margin, and those between two
      tasks no higher than two margins. */
  lemma WholePictureIff(job: Job, height: nat)
    requires SingleImage(job, height)
    ensures JobCovers(job, height) <==> NoGap(job, height)
  {
    var p := Picture(job, height).PartHeight();
    assert 0.0 <= (height as real);
    if NoGap(job, height) {
      forall y | 0.0 <= y <= (height as real) ensures SomeTaskCovers(job, height, y) {
        NoGapCovers(job, height, y);
      }
    } else if ((job.start - 1) as real) * p > MARGIN {
      TopMissing(job, height);
    } else if job.Several() && ((job.distance - 1) as real) * p > 2.0 * MARGIN {
      var y := MiddleMissing(job, height);
    } else {
      BottomMissing(job, height);
    }
  }

  /* ... with the tasks of the master */

  ghost predicate SomeRegisteredCovers(job: Record, height: nat, y: real) {
    exists k :: job.HasTask(k) && Image(height, job.end).Valid() &&
                Image(height, job.end).BandOf(job.IndexToNumber(k)).Covers(y)
  }

  ghost predicate PictureRendered(job: Record, height: nat) {
    forall y :: 0.0 <= y <= (height as real) ==> SomeRegisteredCovers(job, height, y)
  }

  lemma RegisteredCoversAlike(job: Record, height: nat, y: real)
    requires job.Valid() && job.Fits() && job.end >= 1 && height >= 1
    ensures SomeRegisteredCovers(job, height, y) <==> SomeTaskCovers(job.Tasks(), height, y)
  {
    var image := Image(height, job.end);
    if k :| job.HasTask(k) && image.BandOf(job.IndexToNumber(k)).Covers(y) {
      NFramesCounts(job, k);
      FrameIsExact(job, k);
      assert job.Tasks().HasTask(k) && image.BandOf(job.Tasks().Frame(k)).Covers(y);
    }
    if k :| job.Tasks().HasTask(k) && image.BandOf(job.Tasks().Frame(k)).Covers(y) {
      NFramesCounts(job, k);
      FrameIsExact(job, k);
      assert job.HasTask(k) && image.BandOf(job.IndexToNumber(k)).Covers(y);
    }
  }

  /** A single-image job as the master registers it renders the whole picture exactly when its end
      frame is not 0, the count of its tasks does not overflow, and the parts without a task,
      block_size * frame_step - 1 at a time, are low enough. */
  lemma RegisteredPictureIff(job: Record, height: nat)
    requires job.Valid() && height >= 1
    ensures PictureRendered(job, height) <==> job.end >= 1 && job.Fits() && NoGap(job.Tasks(), height)
  {
    OverflowMeansNoTasks(job);
    if job.end >= 1 && job.Fits() {
      Monotone(1, job.step, job.blockSize);
      forall y ensures SomeRegisteredCovers(job, height, y) <==> SomeTaskCovers(job.Tasks(), height, y) {
        RegisteredCoversAlike(job, height, y);
      }
      WholePictureIff(job.Tasks(), height);
    } else {
      assert 0.0 <= (height as real) && !SomeRegisteredCovers(job, height, 0.0);
    }
  }

  /** Ten parts of 100 pixels, registered two at a time: no task renders row 850. */
  lemma EverySecondPart()
    ensures var job := Record(1, 10, 1, 2);
            job.Valid() && job.Fits() && !SomeRegisteredCovers(job, 1000, 850.0) && !PictureRendered(job, 1000)
  {
    var job := Record(1, 10, 1, 2);
    Division(9, 1);
    var image := Image(1000, 10);
    assert image.PartHeight() == 100.0;
    forall k | job.HasTask(k) ensures !image.BandOf(job.IndexToNumber(k)).Covers(850.0) {
      NFramesCounts(job, k);
      FrameIsExact(job, k);
      BandForm(image, 1 + 2 * k);
    }
    assert !SomeRegisteredCovers(job, 1000, 850.0);
  }
}
