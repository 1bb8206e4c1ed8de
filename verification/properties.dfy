/** What a run of the worker is promised to do. The loop of `Worker.Iterate`
    recurses forward with an accumulator; here the same run is described
    independently as the iterations `0 .. v-1` laid end to end, where `v` is
    the number of items the loop gets to before the list ends or the stop flag
    is seen, and the trace-level properties are proved from that description. */
module WorkerProperties {
  import opened Paths
  import opened Naming
  import opened Events
  import opened Worker

  /** The number of items the loop processes: it runs while the list lasts and
      the flag reads set, and ends at the first check that reads it cleared. */
  function Visited(n: nat, stop: StopPoint): (v: nat)
    ensures v <= n
    ensures forall i: nat :: i < v ==> Running(stop, i)
    ensures v < n ==> !Running(stop, v)
  {
    if stop.At? && stop.index < n then stop.index else n
  }

  /** What each iteration of the job emits, one entry per file. */
  function Iterations(job: Job, outcomes: seq<Outcome>): (its: seq<seq<Event>>)
    requires |outcomes| == |job.files|
    ensures |its| == |job.files|
  {
    seq(|job.files|, i requires 0 <= i < |job.files| => Iteration(job, outcomes, i))
  }

  /** Iterations `0 .. k-1` one after the other. */
  function Blocks(job: Job, outcomes: seq<Outcome>, k: nat): seq<Event>
    requires |outcomes| == |job.files| && k <= |job.files|
  {
    Concat(Iterations(job, outcomes)[..k])
  }

  /** The blocks of `k + 1` items are those of `k` items and then iteration
      `k`. */
  lemma BlocksNext(job: Job, outcomes: seq<Outcome>, k: nat)
    requires |outcomes| == |job.files| && k < |job.files|
    ensures Blocks(job, outcomes, k + 1) == Blocks(job, outcomes, k) + Iteration(job, outcomes, k)
  {
    ConcatTake(Iterations(job, outcomes), k);
  }

  /** How many of the first `k` items decode and save. */
  function SuccessCount(outcomes: seq<Outcome>, k: nat): (c: nat)
    requires k <= |outcomes|
    ensures c <= k
  {
    if k == 0 then 0
    else SuccessCount(outcomes, k - 1) + (if Counted(outcomes[k - 1]) then 1 else 0)
  }

  /** Item `i` removes its original: it decoded and saved, deletion was asked
      for, and the removal worked. */
  predicate RemovesOriginal(job: Job, outcomes: seq<Outcome>, i: nat)
    requires |outcomes| == |job.files| && i < |job.files|
  {
    job.deleteOriginal && Counted(outcomes[i]) && outcomes[i].removed
  }

  /** The loop from any iteration `i` up to `v` continues the blocks before
      `i` into exactly the blocks before `v`. */
  lemma {:induction false} IterateIsBlocks(job: Job, outcomes: seq<Outcome>, stop: StopPoint, i: nat, successful: nat)
    requires |outcomes| == |job.files|
    requires i <= Visited(|job.files|, stop)
    ensures Blocks(job, outcomes, i) + Iterate(job, outcomes, stop, i, successful).events
            == Blocks(job, outcomes, Visited(|job.files|, stop))
    decreases |job.files| - i
  {
    if i < Visited(|job.files|, stop) {
      var s := if Counted(outcomes[i]) then successful + 1 else successful;
      IterateIsBlocks(job, outcomes, stop, i + 1, s);
      BlocksNext(job, outcomes, i);
      AppendAssoc(Blocks(job, outcomes, i), Iteration(job, outcomes, i), Iterate(job, outcomes, stop, i + 1, s).events);
    } else {
      assert Blocks(job, outcomes, i) + [] == Blocks(job, outcomes, i);
    }
  }

  /** The loop from any iteration `i` on adds the successes among items
      `i .. v-1` to the counter. */
  lemma {:induction false} IterateCounts(job: Job, outcomes: seq<Outcome>, stop: StopPoint, i: nat, successful: nat)
    requires |outcomes| == |job.files|
    requires i <= Visited(|job.files|, stop)
    ensures Iterate(job, outcomes, stop, i, successful).successful
            == successful + SuccessCount(outcomes, Visited(|job.files|, stop)) - SuccessCount(outcomes, i)
    decreases |job.files| - i
  {
    if i < Visited(|job.files|, stop) {
      var s := if Counted(outcomes[i]) then successful + 1 else successful;
      IterateCounts(job, outcomes, stop, i + 1, s);
    }
  }

  /** A run is the blocks of the visited items, then the finished signal and
      the summary; its counter is the number of visited items that decoded and
      saved. */
  lemma RunShape(job: Job, outcomes: seq<Outcome>, stop: StopPoint)
    requires |outcomes| == |job.files|
    ensures var r := Run(job, outcomes, stop);
            var v := Visited(|job.files|, stop);
            && r.successful == SuccessCount(outcomes, v)
            && r.events == Blocks(job, outcomes, v) + [Finished(true), Summary(r.successful, |job.files|)]
  {
    IterateIsBlocks(job, outcomes, stop, 0, 0);
    IterateCounts(job, outcomes, stop, 0, 0);
    assert Iterations(job, outcomes)[..0] == [];
  }

  /** Any extractor applied to what follows a successful save. */
  lemma ProjectAfterSave<T>(file: string, delete: bool, o: Outcome, pick: Event -> seq<T>)
    ensures Project(AfterSave(file, delete, o), pick) ==
      if !delete then pick(Succeeded(file))
      else if o.removed then pick(Deleted(file)) + pick(RemovedOriginal(file)) + pick(Succeeded(file))
      else pick(Failed(file, RemoveError))
  {
    if !delete {
      ProjectSingle(Succeeded(file), pick);
    } else if o.removed {
      ProjectTriple(Deleted(file), RemovedOriginal(file), Succeeded(file), pick);
    } else {
      ProjectSingle(Failed(file, RemoveError), pick);
    }
  }

  /** Any extractor applied to one item's events, step by step. */
  lemma ProjectItem<T>(file: string, dir: string, delete: bool, o: Outcome, pick: Event -> seq<T>)
    ensures Project(ItemEvents(file, dir, delete, o), pick) ==
      pick(Converting(file)) +
      (if !o.decoded then pick(Failed(file, DecodeError))
       else if !o.saved then pick(Failed(file, SaveError))
       else pick(Wrote(dir, file)) + Project(AfterSave(file, delete, o), pick))
  {
    ProjectCons(Converting(file), Attempt(file, dir, delete, o), pick);
    if !o.decoded {
      ProjectSingle(Failed(file, DecodeError), pick);
    } else if !o.saved {
      ProjectSingle(Failed(file, SaveError), pick);
    } else {
      ProjectCons(Wrote(dir, file), AfterSave(file, delete, o), pick);
    }
  }

  /** One item is announced once, by its own path. */
  lemma ItemAnnouncedOnce(file: string, dir: string, delete: bool, o: Outcome)
    ensures Project(ItemEvents(file, dir, delete, o), ItemOf) == [file]
  {
    ProjectItem(file, dir, delete, o, ItemOf);
    assert ItemOf(Converting(file)) == [file];
    if Counted(o) {
      ProjectAfterSave(file, delete, o, ItemOf);
      assert ItemOf(Wrote(dir, file)) == [];
    }
  }

  /** An extractor that picks nothing from any event an item can emit picks
      nothing from the item. */
  lemma ItemPicksNothing<T>(file: string, dir: string, delete: bool, o: Outcome, pick: Event -> seq<T>)
    requires pick(Converting(file)) == [] && pick(Wrote(dir, file)) == []
    requires pick(Deleted(file)) == [] && pick(RemovedOriginal(file)) == [] && pick(Succeeded(file)) == []
    requires forall r :: pick(Failed(file, r)) == []
    ensures Project(ItemEvents(file, dir, delete, o), pick) == []
  {
    ProjectItem(file, dir, delete, o, pick);
    ProjectAfterSave(file, delete, o, pick);
  }

  /** One item's own events hold no progress signal. */
  lemma ItemNoProgress(file: string, dir: string, delete: bool, o: Outcome)
    ensures Project(ItemEvents(file, dir, delete, o), ProgressOf) == []
  {
    ItemPicksNothing(file, dir, delete, o, ProgressOf);
  }

  /** One item's own events hold neither the finished signal nor the summary
      line. */
  lemma ItemNotFinal(file: string, dir: string, delete: bool, o: Outcome)
    ensures Project(ItemEvents(file, dir, delete, o), FinishedOf) == []
    ensures Project(ItemEvents(file, dir, delete, o), FinalOf) == []
  {
    ItemPicksNothing(file, dir, delete, o, FinishedOf);
    ItemPicksNothing(file, dir, delete, o, FinalOf);
  }

  /** Whatever the outcome, one item logs exactly one verdict line: a success
      or an error. */
  lemma ItemOneVerdict(file: string, dir: string, delete: bool, o: Outcome)
    ensures Project(ItemEvents(file, dir, delete, o), VerdictOf) == [file]
  {
    ProjectItem(file, dir, delete, o, VerdictOf);
    assert VerdictOf(Converting(file)) == [];
    if Counted(o) {
      ProjectAfterSave(file, delete, o, VerdictOf);
      assert VerdictOf(Wrote(dir, file)) == [];
    }
  }

  /** One item writes one JPEG, at its output path, exactly when it decodes
      and saves. */
  lemma ItemWritesOnce(file: string, dir: string, delete: bool, o: Outcome)
    ensures Project(ItemEvents(file, dir, delete, o), WroteOf) == if Counted(o) then [Wrote(dir, file)] else []
  {
    ProjectItem(file, dir, delete, o, WroteOf);
    ProjectAfterSave(file, delete, o, WroteOf);
  }

  /** What follows a save removes the original exactly when deletion was
      asked for and worked, and saves nothing. */
  lemma AfterSaveFiles(file: string, delete: bool, o: Outcome)
    ensures Written(AfterSave(file, delete, o)) == map[]
    ensures Removed(AfterSave(file, delete, o)) == if delete && o.removed then {file} else {}
  {
    if delete && o.removed {
      var rest := [RemovedOriginal(file), Succeeded(file)];
      assert AfterSave(file, delete, o) == [Deleted(file)] + rest;
      WrittenNone(rest);
      WrittenDeleteCons(Deleted(file), rest);
    } else {
      WrittenNone(AfterSave(file, delete, o));
    }
  }

  /** The only output file one item can leave is its own output path, holding
      its own JPEG: it saves there exactly when it decodes and saves, and the
      file stays unless the removal of the original hits that very path. The
      only path it removes is its own source, and only when it saved and
      deletion was asked for and worked. */
  lemma ItemWritten(file: string, dir: string, delete: bool, o: Outcome)
    ensures Written(ItemEvents(file, dir, delete, o)) ==
            if !Counted(o) then map[]
            else if delete && o.removed then map[OutputPath(dir, file) := file] - {file}
            else map[OutputPath(dir, file) := file]
    ensures Removed(ItemEvents(file, dir, delete, o)) ==
            if Counted(o) && delete && o.removed then {file} else {}
  {
    var attempt := Attempt(file, dir, delete, o);
    WrittenQuietCons(Converting(file), attempt);
    if Counted(o) {
      var after := AfterSave(file, delete, o);
      assert attempt == [Wrote(dir, file)] + after;
      AfterSaveFiles(file, delete, o);
      WrittenSaveCons(Wrote(dir, file), after);
      if !(delete && o.removed) {
        assert map[OutputPath(dir, file) := file] - {} == map[OutputPath(dir, file) := file];
      }
    } else {
      WrittenNone(attempt);
    }
  }

  /** One item saves exactly when decoding and saving succeed; it removes its
      original only after that save and only when asked to; a failed removal
      leaves the item counted but replaces its success line by an error. */
  lemma ItemEffects(file: string, dir: string, delete: bool, o: Outcome)
    ensures var ev := ItemEvents(file, dir, delete, o);
      && (forall g :: Deleted(g) in ev <==> g == file && delete && Counted(o) && o.removed)
      && (forall d, src :: Wrote(d, src) in ev <==> src == file && d == dir && Counted(o))
      && (Succeeded(file) in ev <==> Counted(o) && (!delete || o.removed))
      && (Failed(file, RemoveError) in ev <==> Counted(o) && delete && !o.removed)
      && (forall p :: 0 <= p < |ev| && ev[p].Deleted? ==> 2 <= p && ev[1].Wrote?)
  {
  }

  /** Iteration `i` announces its own file, once. */
  lemma IterationAnnounces(job: Job, outcomes: seq<Outcome>, i: nat)
    requires |outcomes| == |job.files| && i < |job.files|
    ensures Project(Iteration(job, outcomes, i), ItemOf) == [job.files[i]]
  {
    var item := ItemEvents(job.files[i], job.outputDir, job.deleteOriginal, outcomes[i]);
    var p := Progress(Percent(i, |job.files|));
    ItemAnnouncedOnce(job.files[i], job.outputDir, job.deleteOriginal, outcomes[i]);
    ProjectAppend(item, [p], ItemOf);
    ProjectSingle(p, ItemOf);
  }

  /** Iteration `i` signals its percentage, once. */
  lemma IterationProgress(job: Job, outcomes: seq<Outcome>, i: nat)
    requires |outcomes| == |job.files| && i < |job.files|
    ensures Project(Iteration(job, outcomes, i), ProgressOf) == [Percent(i, |job.files|)]
  {
    var item := ItemEvents(job.files[i], job.outputDir, job.deleteOriginal, outcomes[i]);
    var p := Progress(Percent(i, |job.files|));
    ItemNoProgress(job.files[i], job.outputDir, job.deleteOriginal, outcomes[i]);
    ProjectAppend(item, [p], ProgressOf);
    ProjectSingle(p, ProgressOf);
  }

  /** Iteration `i` neither signals the end nor logs the summary. */
  lemma IterationNotFinal(job: Job, outcomes: seq<Outcome>, i: nat)
    requires |outcomes| == |job.files| && i < |job.files|
    ensures Project(Iteration(job, outcomes, i), FinishedOf) == []
    ensures Project(Iteration(job, outcomes, i), FinalOf) == []
  {
    var item := ItemEvents(job.files[i], job.outputDir, job.deleteOriginal, outcomes[i]);
    var p := Progress(Percent(i, |job.files|));
    ItemNotFinal(job.files[i], job.outputDir, job.deleteOriginal, outcomes[i]);
    ProjectAppend(item, [p], FinishedOf);
    ProjectSingle(p, FinishedOf);
    ProjectAppend(item, [p], FinalOf);
    ProjectSingle(p, FinalOf);
  }

  /** Iteration `i` saves one JPEG when its item counts, and none otherwise. */
  lemma IterationWrites(job: Job, outcomes: seq<Outcome>, i: nat)
    requires |outcomes| == |job.files| && i < |job.files|
    ensures |Project(Iteration(job, outcomes, i), WroteOf)| == if Counted(outcomes[i]) then 1 else 0
  {
    var item := ItemEvents(job.files[i], job.outputDir, job.deleteOriginal, outcomes[i]);
    var p := Progress(Percent(i, |job.files|));
    ItemWritesOnce(job.files[i], job.outputDir, job.deleteOriginal, outcomes[i]);
    ProjectAppend(item, [p], WroteOf);
    ProjectSingle(p, WroteOf);
  }

  /** The files iteration `i` leaves and removes are those of its item. */
  lemma IterationWritten(job: Job, outcomes: seq<Outcome>, i: nat)
    requires |outcomes| == |job.files| && i < |job.files|
    ensures Written(Iteration(job, outcomes, i)) ==
            if !Counted(outcomes[i]) then map[]
            else if RemovesOriginal(job, outcomes, i) then map[OutputPath(job.outputDir, job.files[i]) := job.files[i]] - {job.files[i]}
            else map[OutputPath(job.outputDir, job.files[i]) := job.files[i]]
    ensures Removed(Iteration(job, outcomes, i)) == if RemovesOriginal(job, outcomes, i) then {job.files[i]} else {}
  {
    var item := ItemEvents(job.files[i], job.outputDir, job.deleteOriginal, outcomes[i]);
    var p := Progress(Percent(i, |job.files|));
    ItemWritten(job.files[i], job.outputDir, job.deleteOriginal, outcomes[i]);
    WrittenAppend(item, [p]);
    RemovedAppend(item, [p]);
    WrittenSingle(p);
  }

  /** Iteration `i` logs one verdict, about its own file. */
  lemma IterationVerdict(job: Job, outcomes: seq<Outcome>, i: nat)
    requires |outcomes| == |job.files| && i < |job.files|
    ensures Project(Iteration(job, outcomes, i), VerdictOf) == [job.files[i]]
  {
    var item := ItemEvents(job.files[i], job.outputDir, job.deleteOriginal, outcomes[i]);
    var p := Progress(Percent(i, |job.files|));
    ItemOneVerdict(job.files[i], job.outputDir, job.deleteOriginal, outcomes[i]);
    ProjectAppend(item, [p], VerdictOf);
    ProjectSingle(p, VerdictOf);
  }

  /** Any extractor applied to a whole run sees the blocks and then the
      finished signal and summary line. */
  lemma ProjectRun<T>(job: Job, outcomes: seq<Outcome>, stop: StopPoint, pick: Event -> seq<T>)
    requires |outcomes| == |job.files|
    ensures var r := Run(job, outcomes, stop);
            Project(r.events, pick) == Project(Blocks(job, outcomes, Visited(|job.files|, stop)), pick)
              + pick(Finished(true)) + pick(Summary(r.successful, |job.files|))
  {
    var r := Run(job, outcomes, stop);
    RunShape(job, outcomes, stop);
    ProjectClose(Blocks(job, outcomes, Visited(|job.files|, stop)), Finished(true), Summary(r.successful, |job.files|), pick);
  }

  /** Every iteration announces its own file, once. */
  lemma IterationsAnnounce(job: Job, outcomes: seq<Outcome>)
    requires |outcomes| == |job.files|
    ensures forall j :: 0 <= j < |job.files| ==> Project(Iterations(job, outcomes)[j], ItemOf) == [job.files[j]]
  {
    forall j | 0 <= j < |job.files|
      ensures Project(Iterations(job, outcomes)[j], ItemOf) == [job.files[j]]
    {
      IterationAnnounces(job, outcomes, j);
    }
  }

  /** Every iteration signals its own percentage, once. */
  lemma IterationsProgress(job: Job, outcomes: seq<Outcome>)
    requires |outcomes| == |job.files|
    ensures forall j :: 0 <= j < |job.files| ==>
              Project(Iterations(job, outcomes)[j], ProgressOf) == [Percent(j, |job.files|)]
  {
    forall j | 0 <= j < |job.files|
      ensures Project(Iterations(job, outcomes)[j], ProgressOf) == [Percent(j, |job.files|)]
    {
      IterationProgress(job, outcomes, j);
    }
  }

  /** No iteration signals the end or logs the summary. */
  lemma IterationsNotFinal(job: Job, outcomes: seq<Outcome>)
    requires |outcomes| == |job.files|
    ensures forall j :: 0 <= j < |job.files| ==> Project(Iterations(job, outcomes)[j], FinishedOf) == []
    ensures forall j :: 0 <= j < |job.files| ==> Project(Iterations(job, outcomes)[j], FinalOf) == []
  {
    forall j | 0 <= j < |job.files|
      ensures Project(Iterations(job, outcomes)[j], FinishedOf) == []
      ensures Project(Iterations(job, outcomes)[j], FinalOf) == []
    {
      IterationNotFinal(job, outcomes, j);
    }
  }

  /** Every iteration logs one verdict about its own file. */
  lemma IterationsVerdict(job: Job, outcomes: seq<Outcome>)
    requires |outcomes| == |job.files|
    ensures forall j :: 0 <= j < |job.files| ==> Project(Iterations(job, outcomes)[j], VerdictOf) == [job.files[j]]
  {
    forall j | 0 <= j < |job.files|
      ensures Project(Iterations(job, outcomes)[j], VerdictOf) == [job.files[j]]
    {
      IterationVerdict(job, outcomes, j);
    }
  }

  /** Every iteration saves one JPEG when its item counts, and none
      otherwise. */
  lemma IterationsWrite(job: Job, outcomes: seq<Outcome>)
    requires |outcomes| == |job.files|
    ensures forall j :: 0 <= j < |job.files| ==>
              |Project(Iterations(job, outcomes)[j], WroteOf)| == if Counted(outcomes[j]) then 1 else 0
  {
    forall j | 0 <= j < |job.files|
      ensures |Project(Iterations(job, outcomes)[j], WroteOf)| == if Counted(outcomes[j]) then 1 else 0
    {
      IterationWrites(job, outcomes, j);
    }
  }

  /** A path iteration `l` leaves a file at is its item's output path, holding
      that item's JPEG; a path it removes is its item's source. */
  lemma IterationTouches(job: Job, outcomes: seq<Outcome>, l: nat, p: string)
    requires |outcomes| == |job.files| && l < |job.files|
    ensures var w := Written(Iterations(job, outcomes)[l]);
            p in w ==> && Counted(outcomes[l])
                       && p == OutputPath(job.outputDir, job.files[l])
                       && w[p] == job.files[l]
    ensures p in Removed(Iterations(job, outcomes)[l]) ==> RemovesOriginal(job, outcomes, l) && p == job.files[l]
  {
    var it := Iterations(job, outcomes)[l];
    var out := OutputPath(job.outputDir, job.files[l]);
    assert it == Iteration(job, outcomes, l);
    IterationWritten(job, outcomes, l);
    if Counted(outcomes[l]) {
      assert Written(it).Keys <= {out};
      assert out in Written(it) ==> Written(it)[out] == job.files[l];
    } else {
      assert Written(it) == map[];
    }
  }

  /** The first `k` iterations announce the first `k` files, in order. */
  lemma BlocksAnnounce(job: Job, outcomes: seq<Outcome>, k: nat)
    requires |outcomes| == |job.files| && k <= |job.files|
    ensures Project(Blocks(job, outcomes, k), ItemOf) == job.files[..k]
  {
    IterationsAnnounce(job, outcomes);
    ProjectConcatOne(Iterations(job, outcomes)[..k], ItemOf);
  }

  /** Items are started strictly in list order, and exactly the items before
      the stop point are started: once the flag reads cleared at iteration
      `k`, no item from `k` on is started. */
  lemma ItemsInListOrder(job: Job, outcomes: seq<Outcome>, stop: StopPoint)
    requires |outcomes| == |job.files|
    ensures var v := Visited(|job.files|, stop);
            && Project(Run(job, outcomes, stop).events, ItemOf) == job.files[..v]
            && (stop.Never? ==> v == |job.files|)
            && (stop.At? ==> v == if stop.index < |job.files| then stop.index else |job.files|)
  {
    BlocksAnnounce(job, outcomes, Visited(|job.files|, stop));
    ProjectRun(job, outcomes, stop, ItemOf);
  }

  /** Every visited item gets exactly one progress signal, in order: the
      `j`-th progress value is the percentage after item `j`. */
  lemma ProgressPerVisitedItem(job: Job, outcomes: seq<Outcome>, stop: StopPoint)
    requires |outcomes| == |job.files|
    ensures var ps := Project(Run(job, outcomes, stop).events, ProgressOf);
            && |ps| == Visited(|job.files|, stop)
            && forall j :: 0 <= j < |ps| ==> ps[j] == Percent(j, |job.files|)
  {
    BlocksProgress(job, outcomes, Visited(|job.files|, stop));
    ProjectRun(job, outcomes, stop, ProgressOf);
  }

  /** The first `k` iterations signal the percentages after items
      `0 .. k-1`, in order. */
  lemma BlocksProgress(job: Job, outcomes: seq<Outcome>, k: nat)
    requires |outcomes| == |job.files| && k <= |job.files|
    ensures var ps := Project(Blocks(job, outcomes, k), ProgressOf);
            && |ps| == k
            && forall j :: 0 <= j < k ==> ps[j] == Percent(j, |job.files|)
  {
    IterationsProgress(job, outcomes);
    ProjectConcatOne(Iterations(job, outcomes)[..k], ProgressOf);
  }

  /** Progress values lie in [0, 100] and never decrease, and a run that is
      not stopped over a non-empty list ends on exactly 100. */
  lemma ProgressMonotoneBounded(job: Job, outcomes: seq<Outcome>, stop: StopPoint)
    requires |outcomes| == |job.files|
    ensures var ps := Project(Run(job, outcomes, stop).events, ProgressOf);
            && (forall j :: 0 <= j < |ps| ==> 0 <= ps[j] <= 100)
            && (forall j, l :: 0 <= j <= l < |ps| ==> ps[j] <= ps[l])
            && (Visited(|job.files|, stop) == |job.files| > 0 ==> |ps| > 0 && ps[|ps| - 1] == 100)
  {
    ProgressPerVisitedItem(job, outcomes, stop);
    PercentsShape(Project(Run(job, outcomes, stop).events, ProgressOf), |job.files|);
  }

  /** Every visited item logs exactly one verdict (a success or an error
      line), the `j`-th about the `j`-th file: no item is skipped silently and
      none is reported twice. */
  lemma OneVerdictPerVisitedItem(job: Job, outcomes: seq<Outcome>, stop: StopPoint)
    requires |outcomes| == |job.files|
    ensures Project(Run(job, outcomes, stop).events, VerdictOf) == job.files[..Visited(|job.files|, stop)]
  {
    BlocksVerdict(job, outcomes, Visited(|job.files|, stop));
    ProjectRun(job, outcomes, stop, VerdictOf);
  }

  /** The first `k` iterations log one verdict each, about the first `k`
      files in order. */
  lemma BlocksVerdict(job: Job, outcomes: seq<Outcome>, k: nat)
    requires |outcomes| == |job.files| && k <= |job.files|
    ensures Project(Blocks(job, outcomes, k), VerdictOf) == job.files[..k]
  {
    IterationsVerdict(job, outcomes);
    ProjectConcatOne(Iterations(job, outcomes)[..k], VerdictOf);
  }

  /** An extractor that picks one value from each part whose item counts and
      none from the others picks, from their concatenation, as many values
      as there are counted items among the first `|xs|`. */
  lemma {:induction false} CountedPicks<T>(xs: seq<seq<Event>>, outcomes: seq<Outcome>, pick: Event -> seq<T>)
    requires |xs| <= |outcomes|
    requires forall j :: 0 <= j < |xs| ==> |Project(xs[j], pick)| == if Counted(outcomes[j]) then 1 else 0
    ensures |Project(Concat(xs), pick)| == SuccessCount(outcomes, |xs|)
    decreases |xs|
  {
    if xs != [] {
      var xs' := xs[..|xs| - 1];
      assert forall j :: 0 <= j < |xs'| ==> xs'[j] == xs[j];
      CountedPicks(xs', outcomes, pick);
      ProjectAppend(Concat(xs'), xs[|xs| - 1], pick);
    }
  }

  /** The success counter equals the number of visited items that decoded and
      saved, which is also the number of JPEGs written; it never exceeds the
      visited items, nor the list length. */
  lemma SuccessfulCountsSaves(job: Job, outcomes: seq<Outcome>, stop: StopPoint)
    requires |outcomes| == |job.files|
    ensures var r := Run(job, outcomes, stop);
            var v := Visited(|job.files|, stop);
            && r.successful == SuccessCount(outcomes, v)
            && r.successful == |Project(r.events, WroteOf)|
            && r.successful <= v <= |job.files|
  {
    RunShape(job, outcomes, stop);
    IterationsWrite(job, outcomes);
    CountedPicks(Iterations(job, outcomes)[..Visited(|job.files|, stop)], outcomes, WroteOf);
    ProjectRun(job, outcomes, stop, WroteOf);
  }

  /** An event of the first `k` iterations is an event of one of them. */
  lemma BlocksOrigin(job: Job, outcomes: seq<Outcome>, k: nat, e: Event)
    requires |outcomes| == |job.files| && k <= |job.files|
    ensures e in Blocks(job, outcomes, k) <==> exists j :: 0 <= j < k && e in Iterations(job, outcomes)[j]
  {
    InConcatTake(Iterations(job, outcomes), k, e);
  }

  /** The events of a run other than the final two are those of the blocks
      of the visited items. */
  lemma RunEvents(job: Job, outcomes: seq<Outcome>, stop: StopPoint, e: Event)
    requires |outcomes| == |job.files|
    requires !e.Finished? && !e.Summary?
    ensures e in Run(job, outcomes, stop).events <==> e in Blocks(job, outcomes, Visited(|job.files|, stop))
  {
    RunShape(job, outcomes, stop);
  }

  /** An event of the run other than the final two comes from the iteration
      of a visited item. */
  lemma EventOrigin(job: Job, outcomes: seq<Outcome>, stop: StopPoint, e: Event)
    requires |outcomes| == |job.files|
    requires !e.Finished? && !e.Summary?
    ensures e in Run(job, outcomes, stop).events <==>
            exists j :: 0 <= j < Visited(|job.files|, stop) && e in Iterations(job, outcomes)[j]
  {
    RunEvents(job, outcomes, stop, e);
    BlocksOrigin(job, outcomes, Visited(|job.files|, stop), e);
  }

  /** Iteration `j` removes file `f` exactly when `f` is its own file, it
      decoded and saved, deletion was requested and the removal worked. */
  lemma IterationsDelete(job: Job, outcomes: seq<Outcome>, f: string)
    requires |outcomes| == |job.files|
    ensures forall j :: 0 <= j < |job.files| ==>
              (Deleted(f) in Iterations(job, outcomes)[j] <==>
               job.files[j] == f && job.deleteOriginal && Counted(outcomes[j]) && outcomes[j].removed)
  {
    forall j | 0 <= j < |job.files|
      ensures Deleted(f) in Iterations(job, outcomes)[j] <==>
              job.files[j] == f && job.deleteOriginal && Counted(outcomes[j]) && outcomes[j].removed
    {
      ItemEffects(job.files[j], job.outputDir, job.deleteOriginal, outcomes[j]);
    }
  }

  /** Iteration `j` saves a JPEG from `src` into `dir` exactly when `src` is
      its own file, `dir` is the output directory and it decoded and saved. */
  lemma IterationsSave(job: Job, outcomes: seq<Outcome>, dir: string, src: string)
    requires |outcomes| == |job.files|
    ensures forall j :: 0 <= j < |job.files| ==>
              (Wrote(dir, src) in Iterations(job, outcomes)[j] <==>
               dir == job.outputDir && job.files[j] == src && Counted(outcomes[j]))
  {
    forall j | 0 <= j < |job.files|
      ensures Wrote(dir, src) in Iterations(job, outcomes)[j] <==>
              dir == job.outputDir && job.files[j] == src && Counted(outcomes[j])
    {
      ItemEffects(job.files[j], job.outputDir, job.deleteOriginal, outcomes[j]);
    }
  }

  /** A file is removed exactly when some visited item with that path decoded
      and saved, deletion was requested and the removal worked: a decode or
      save failure leaves the source untouched. */
  lemma DeleteOnlyAfterSave(job: Job, outcomes: seq<Outcome>, stop: StopPoint, f: string)
    requires |outcomes| == |job.files|
    ensures Deleted(f) in Run(job, outcomes, stop).events <==>
            exists j :: 0 <= j < Visited(|job.files|, stop) && job.files[j] == f
                     && job.deleteOriginal && Counted(outcomes[j]) && outcomes[j].removed
  {
    EventOrigin(job, outcomes, stop, Deleted(f));
    IterationsDelete(job, outcomes, f);
  }

  /** A JPEG is saved from `src` into `dir` exactly when some visited item
      with path `src` decoded and saved, and `dir` is the run's single output
      directory. */
  lemma WriteOnlyAfterDecode(job: Job, outcomes: seq<Outcome>, stop: StopPoint, dir: string, src: string)
    requires |outcomes| == |job.files|
    ensures Wrote(dir, src) in Run(job, outcomes, stop).events <==>
            dir == job.outputDir &&
            exists j :: 0 <= j < Visited(|job.files|, stop) && job.files[j] == src && Counted(outcomes[j])
  {
    EventOrigin(job, outcomes, stop, Wrote(dir, src));
    IterationsSave(job, outcomes, dir, src);
  }

  /** The first `k` iterations neither signal the end nor log the
      summary. */
  lemma BlocksNotFinal(job: Job, outcomes: seq<Outcome>, k: nat)
    requires |outcomes| == |job.files| && k <= |job.files|
    ensures var b := Blocks(job, outcomes, k);
            && Project(b, FinishedOf) == []
            && forall p :: 0 <= p < |b| ==> !b[p].Finished? && !b[p].Summary?
  {
    var xs := Iterations(job, outcomes)[..k];
    IterationsNotFinal(job, outcomes);
    ProjectConcatNone(xs, FinishedOf);
    ProjectConcatNone(xs, FinalOf);
    ProjectEmpty(Concat(xs), FinalOf);
  }

  /** Exactly one finished signal is emitted, carrying `true` even after a
      stop; it follows every per-item event and only the summary line comes
      after it. */
  lemma FinishedExactlyOnce(job: Job, outcomes: seq<Outcome>, stop: StopPoint)
    requires |outcomes| == |job.files|
    ensures var ev := Run(job, outcomes, stop).events;
            && Project(ev, FinishedOf) == [true]
            && ev[|ev| - 2] == Finished(true)
            && ev[|ev| - 1].Summary?
            && forall p :: 0 <= p < |ev| - 2 ==> !ev[p].Finished? && !ev[p].Summary?
  {
    BlocksNotFinal(job, outcomes, Visited(|job.files|, stop));
    ProjectRun(job, outcomes, stop, FinishedOf);
    RunShape(job, outcomes, stop);
  }

  /** More items never have fewer successes. */
  lemma {:induction false} SuccessCountMonotone(outcomes: seq<Outcome>, i: nat, k: nat)
    requires i <= k <= |outcomes|
    ensures SuccessCount(outcomes, i) <= SuccessCount(outcomes, k)
    decreases k - i
  {
    if i < k {
      SuccessCountMonotone(outcomes, i, k - 1);
    }
  }

  /** The blocks of fewer items are a prefix of the blocks of more. */
  lemma BlocksPrefix(job: Job, outcomes: seq<Outcome>, k: nat, m: nat)
    requires |outcomes| == |job.files| && k <= m <= |job.files|
    ensures Blocks(job, outcomes, k) <= Blocks(job, outcomes, m)
  {
    ConcatPrefix(Iterations(job, outcomes), k, m);
  }

  /** A stop only cuts the run short: everything a stopped run emits before
      its finished signal is also the start of the unstopped run, and it
      counts no more successes. */
  lemma StopOnlyTruncates(job: Job, outcomes: seq<Outcome>, k: nat)
    requires |outcomes| == |job.files|
    ensures var stopped := Run(job, outcomes, At(k));
            var full := Run(job, outcomes, Never);
            && stopped.events[..|stopped.events| - 2] <= full.events
            && stopped.successful <= full.successful
  {
    var n := |job.files|;
    var v := Visited(n, At(k));
    RunShape(job, outcomes, At(k));
    RunShape(job, outcomes, Never);
    BlocksPrefix(job, outcomes, v, n);
    SuccessCountMonotone(outcomes, v, n);
    var stopped := Run(job, outcomes, At(k));
    assert stopped.events[..|stopped.events| - 2] == Blocks(job, outcomes, v);
  }

  /** The output files a run leaves are those its iterations leave. */
  lemma RunWritten(job: Job, outcomes: seq<Outcome>, stop: StopPoint)
    requires |outcomes| == |job.files|
    ensures Written(Run(job, outcomes, stop).events)
            == Written(Concat(Iterations(job, outcomes)[..Visited(|job.files|, stop)]))
  {
    var r := Run(job, outcomes, stop);
    var tail := [Finished(true), Summary(r.successful, |job.files|)];
    RunShape(job, outcomes, stop);
    WrittenAppend(Blocks(job, outcomes, Visited(|job.files|, stop)), tail);
    WrittenNone(tail);
  }

  /** The output file at the path of visited item `j` holds the JPEG saved
      from item `j`, when that item saved, its own removal did not hit that
      path, and no later visited item saved to or removed the same path. */
  lemma LastSaveWins(job: Job, outcomes: seq<Outcome>, stop: StopPoint, j: nat)
    requires |outcomes| == |job.files|
    requires j < Visited(|job.files|, stop) && Counted(outcomes[j])
    requires RemovesOriginal(job, outcomes, j) ==> job.files[j] != OutputPath(job.outputDir, job.files[j])
    requires forall l :: j < l < Visited(|job.files|, stop) && Counted(outcomes[l]) ==>
               OutputPath(job.outputDir, job.files[l]) != OutputPath(job.outputDir, job.files[j])
    requires forall l :: j < l < Visited(|job.files|, stop) && RemovesOriginal(job, outcomes, l) ==>
               job.files[l] != OutputPath(job.outputDir, job.files[j])
    ensures var written := Written(Run(job, outcomes, stop).events);
            && OutputPath(job.outputDir, job.files[j]) in written
            && written[OutputPath(job.outputDir, job.files[j])] == job.files[j]
  {
    var xs := Iterations(job, outcomes)[..Visited(|job.files|, stop)];
    var out := OutputPath(job.outputDir, job.files[j]);
    IterationWritten(job, outcomes, j);
    assert xs[j] == Iteration(job, outcomes, j);
    forall l | j < l < |xs|
      ensures out !in Written(xs[l]) && out !in Removed(xs[l])
    {
      IterationTouches(job, outcomes, l, out);
    }
    WrittenConcatLast(xs, j, out, job.files[j]);
    RunWritten(job, outcomes, stop);
  }

  /** A source that a visited item removes leaves no file at its path, even
      when that path is an output path (its own or an earlier item's),
      unless a later visited item saves there again. */
  lemma RemovedSourceIsGone(job: Job, outcomes: seq<Outcome>, stop: StopPoint, j: nat)
    requires |outcomes| == |job.files|
    requires j < Visited(|job.files|, stop) && RemovesOriginal(job, outcomes, j)
    requires forall l :: j < l < Visited(|job.files|, stop) && Counted(outcomes[l]) ==>
               OutputPath(job.outputDir, job.files[l]) != job.files[j]
    ensures job.files[j] !in Written(Run(job, outcomes, stop).events)
  {
    var v := Visited(|job.files|, stop);
    var xs := Iterations(job, outcomes)[..v];
    IterationWritten(job, outcomes, j);
    assert xs[j] == Iteration(job, outcomes, j);
    forall l | j < l < v
      ensures job.files[j] !in Written(xs[l])
    {
      IterationTouches(job, outcomes, l, job.files[j]);
    }
    WrittenConcatGone(xs, j, job.files[j]);
    RunWritten(job, outcomes, stop);
  }

  /** Two saved items whose file names have the same stem write to the same
      path, and when the later one is the last to save there and nothing
      removes the path afterwards, the file left at that path is its JPEG:
      the earlier item's output is overwritten. */
  lemma SameStemOverwrites(job: Job, outcomes: seq<Outcome>, stop: StopPoint, i: nat, j: nat)
    requires |outcomes| == |job.files|
    requires i < j < Visited(|job.files|, stop)
    requires Counted(outcomes[i]) && Counted(outcomes[j])
    requires RemovesOriginal(job, outcomes, j) ==> job.files[j] != OutputPath(job.outputDir, job.files[j])
    requires forall l :: j < l < Visited(|job.files|, stop) && Counted(outcomes[l]) ==>
               OutputPath(job.outputDir, job.files[l]) != OutputPath(job.outputDir, job.files[j])
    requires forall l :: j < l < Visited(|job.files|, stop) && RemovesOriginal(job, outcomes, l) ==>
               job.files[l] != OutputPath(job.outputDir, job.files[j])
    ensures var out := OutputPath(job.outputDir, job.files[i]);
            var written := Written(Run(job, outcomes, stop).events);
            Stem(Basename(job.files[i])) == Stem(Basename(job.files[j])) ==>
              && out == OutputPath(job.outputDir, job.files[j])
              && out in written && written[out] == job.files[j]
              && (job.files[i] != job.files[j] ==> written[out] != job.files[i])
  {
    SameStemSamePath(job.outputDir, job.files[i], job.files[j]);
    LastSaveWins(job, outcomes, stop, j);
  }

  /** A `stop()` that lands before the check of iteration `i` lets through
      exactly the items the loop would have reached anyway among the first
      `i`: the started files are the first `min(v, i)`, where `v` is how far
      the loop would have got without that call. */
  lemma StopRequestTakesEffect(job: Job, outcomes: seq<Outcome>, stop: StopPoint, i: nat)
    requires |outcomes| == |job.files|
    ensures var v := Visited(|job.files|, stop);
            Project(Run(job, outcomes, RequestStop(stop, i)).events, ItemOf)
              == job.files[..if v < i then v else i]
  {
    var v := Visited(|job.files|, stop);
    var m := if v < i then v else i;
    var r := RequestStop(stop, i);
    ItemsInListOrder(job, outcomes, r);
    assert Visited(|job.files|, r) == m by {
      assert m < |job.files| ==> !Running(r, m);
      assert forall j: nat :: j < m ==> Running(r, j);
    }
  }
}
