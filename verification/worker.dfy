/** The conversion worker thread: its job parameters, its stop flag and the
    loop that converts the files one by one. Decoding the RAW file, saving the
    JPEG and removing the original are foreign calls; each item's outcome of
    those calls is supplied as an `Outcome`. */
module Worker {
  import opened Events
  import opened DivArith

  /** The parameters the thread is constructed with. `quality` is only
      forwarded to the JPEG encoder, whose outcome the oracle supplies. */
  datatype Job = Job(files: seq<string>, outputDir: string, quality: int, deleteOriginal: bool)

  /** What the foreign calls do for one item: whether the RAW file decodes,
      whether the JPEG is saved, and whether removing the original works.
      A later field only matters when the earlier steps succeeded. */
  datatype Outcome = Outcome(decoded: bool, saved: bool, removed: bool)

  /** An item counts as successful once decoding and saving have both
      succeeded; the counter is raised before the original is removed. */
  predicate Counted(o: Outcome) {
    o.decoded && o.saved
  }

  /** When the worker sees the stop flag: never, or for the first time at the
      check at the top of iteration `index`. */
  datatype StopPoint = Never | At(index: nat)

  /** The value of the running flag read at the top of iteration `i`. */
  predicate Running(stop: StopPoint, i: nat) {
    !(stop.At? && stop.index <= i)
  }

  /** `stop()` called while the worker has not yet made the check of
      iteration `i`: it only clears the flag, so every later check reads it
      cleared and every earlier check keeps the value it read. */
  function RequestStop(stop: StopPoint, i: nat): (r: StopPoint)
    ensures forall j: nat :: Running(r, j) <==> Running(stop, j) && j < i
  {
    if stop.At? && stop.index <= i then stop else At(i)
  }

  /** Calling `stop()` again later changes nothing. */
  lemma RequestStopIdempotent(stop: StopPoint, i: nat, j: nat)
    requires i <= j
    ensures RequestStop(RequestStop(stop, i), j) == RequestStop(stop, i)
  {
  }

  /** The progress percentage after item `i` (0-based) of `total`, computed
      with integer division. */
  function Percent(i: nat, total: nat): (p: int)
    requires i < total
    ensures 0 <= p <= 100
    ensures i + 1 == total ==> p == 100
  {
    DivBounded((i + 1) * 100, total, 100);
    DivExact(total, 100);
    (i + 1) * 100 / total
  }

  /** Progress never goes down from one item to a later one. */
  lemma PercentMonotone(i: nat, j: nat, total: nat)
    requires i <= j < total
    ensures Percent(i, total) <= Percent(j, total)
  {
    DivMonotone((i + 1) * 100, (j + 1) * 100, total);
  }

  /** The percentages after the first items of a list lie in [0, 100], never
      decrease, and reach 100 once every item is done. */
  lemma PercentsShape(ps: seq<int>, total: nat)
    requires |ps| <= total
    requires forall j :: 0 <= j < |ps| ==> ps[j] == Percent(j, total)
    ensures forall j :: 0 <= j < |ps| ==> 0 <= ps[j] <= 100
    ensures forall j, l :: 0 <= j <= l < |ps| ==> ps[j] <= ps[l]
    ensures |ps| == total > 0 ==> ps[|ps| - 1] == 100
  {
    forall j, l | 0 <= j <= l < |ps|
      ensures ps[j] <= ps[l]
    {
      PercentMonotone(j, l, total);
    }
  }

  /** The events of one item before its progress signal: the "converting"
      log, then what the attempt to convert it emits. */
  function ItemEvents(file: string, dir: string, deleteOriginal: bool, o: Outcome): seq<Event> {
    [Converting(file)] + Attempt(file, dir, deleteOriginal, o)
  }

  /** The body of the per-item `try`: either the error of the failing step,
      or the save into the output directory followed (when originals are
      deleted) by the removal, and the verdict. */
  function Attempt(file: string, dir: string, deleteOriginal: bool, o: Outcome): seq<Event> {
    if !o.decoded then [Failed(file, DecodeError)]
    else if !o.saved then [Failed(file, SaveError)]
    else [Wrote(dir, file)] + AfterSave(file, deleteOriginal, o)
  }

  /** What follows a successful save. */
  function AfterSave(file: string, deleteOriginal: bool, o: Outcome): seq<Event> {
    if !deleteOriginal then [Succeeded(file)]
    else if o.removed then [Deleted(file), RemovedOriginal(file), Succeeded(file)]
    else [Failed(file, RemoveError)]
  }

  /** Everything iteration `i` emits: the item's events, then its progress. */
  function Iteration(job: Job, outcomes: seq<Outcome>, i: nat): seq<Event>
    requires |outcomes| == |job.files| && i < |job.files|
  {
    ItemEvents(job.files[i], job.outputDir, job.deleteOriginal, outcomes[i]) + [Progress(Percent(i, |job.files|))]
  }

  /** The emitted events of a run (or part of one) and the success counter. */
  datatype Report = Report(events: seq<Event>, successful: nat)

  /** The loop from iteration `i` on, with `successful` items counted so far:
      stop when the list is exhausted or the flag reads cleared; otherwise
      process the item, emit its progress and go on with the next one. */
  function Iterate(job: Job, outcomes: seq<Outcome>, stop: StopPoint, i: nat, successful: nat): (r: Report)
    requires |outcomes| == |job.files| && i <= |job.files|
    ensures successful <= r.successful <= successful + (|job.files| - i)
    decreases |job.files| - i
  {
    if i == |job.files| || !Running(stop, i) then Report([], successful)
    else
      var o := outcomes[i];
      var rest := Iterate(job, outcomes, stop, i + 1, if Counted(o) then successful + 1 else successful);
      Report(Iteration(job, outcomes, i) + rest.events, rest.successful)
  }

  /** The whole run: the loop, then the finished signal (always `true`, also
      after a stop) and the summary log line. */
  function Run(job: Job, outcomes: seq<Outcome>, stop: StopPoint): (r: Report)
    requires |outcomes| == |job.files|
    ensures r.successful <= |job.files|
    ensures |r.events| >= 2
    ensures r.events[|r.events| - 2] == Finished(true)
    ensures r.events[|r.events| - 1] == Summary(r.successful, |job.files|)
  {
    var loop := Iterate(job, outcomes, stop, 0, 0);
    Report(loop.events + [Finished(true), Summary(loop.successful, |job.files|)], loop.successful)
  }
}
