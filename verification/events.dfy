/** What one conversion run can be observed to do, in the order it does it:
    the log lines and signals the worker thread emits, interleaved with the
    two filesystem effects it causes (writing a JPEG, removing an original).
    Log texts are abstracted to their kind and the item they name. */
module Events {
  import opened Naming

  /** Which step of an item raised the exception caught by the per-item
      handler. */
  datatype Reason = DecodeError | SaveError | RemoveError

  datatype Event =
    /** Log "converting <name>" at the start of an item. */
    | Converting(file: string)
    /** Effect: the JPEG decoded from `source` was saved into directory
        `dir`, at `OutputPath(dir, source)`. */
    | Wrote(dir: string, source: string)
    /** Effect: the original file was removed. */
    | Deleted(file: string)
    /** Log "original removed <name>". */
    | RemovedOriginal(file: string)
    /** Log "success <output file name>", for the item whose source is
        `file`; the name logged is `OutputName(file)`. */
    | Succeeded(file: string)
    /** Log "error <name>: <exception text>". */
    | Failed(file: string, reason: Reason)
    /** The `progress` signal with a percentage. */
    | Progress(percent: int)
    /** The `finished_signal` with its flag. */
    | Finished(ok: bool)
    /** Log "conversion finished, successful <n>/<total>". */
    | Summary(successful: nat, total: nat)

  /** Traces can be regrouped when appended. */
  lemma AppendAssoc(a: seq<Event>, b: seq<Event>, c: seq<Event>)
    ensures a + (b + c) == (a + b) + c
  {
  }

  /** The values an extractor picks out of a trace, in trace order. */
  function Project<T>(s: seq<Event>, pick: Event -> seq<T>): seq<T>
    decreases |s|
  {
    if s == [] then [] else Project(s[..|s| - 1], pick) + pick(s[|s| - 1])
  }

  /** Extractors for `Project`. */
  function ProgressOf(e: Event): seq<int> {
    if e.Progress? then [e.percent] else []
  }

  function ItemOf(e: Event): seq<string> {
    if e.Converting? then [e.file] else []
  }

  function FinishedOf(e: Event): seq<bool> {
    if e.Finished? then [e.ok] else []
  }

  /** The saves of JPEG files. */
  function WroteOf(e: Event): seq<Event> {
    if e.Wrote? then [e] else []
  }

  /** The two events that close a run: the finished signal and the summary
      line. */
  function FinalOf(e: Event): seq<Event> {
    if e.Finished? || e.Summary? then [e] else []
  }

  /** The file each per-item verdict line (a success or an error message) is
      about. */
  function VerdictOf(e: Event): seq<string> {
    if e.Succeeded? || e.Failed? then [e.file] else []
  }

  /** Projection distributes over concatenation of traces. */
  lemma {:induction false} ProjectAppend<T>(a: seq<Event>, b: seq<Event>, pick: Event -> seq<T>)
    ensures Project(a + b, pick) == Project(a, pick) + Project(b, pick)
    decreases |b|
  {
    if b == [] {
      assert a + b == a;
    } else {
      var b' := b[..|b| - 1];
      assert (a + b)[..|a + b| - 1] == a + b';
      assert (a + b)[|a + b| - 1] == b[|b| - 1];
      ProjectAppend(a, b', pick);
    }
  }

  /** The projection of a one-event trace is what the extractor picks. */
  lemma ProjectSingle<T>(e: Event, pick: Event -> seq<T>)
    ensures Project([e], pick) == pick(e)
  {
    assert [e][..0] == [];
  }

  /** The projection of a three-event trace. */
  lemma ProjectTriple<T>(a: Event, b: Event, c: Event, pick: Event -> seq<T>)
    ensures Project([a, b, c], pick) == pick(a) + pick(b) + pick(c)
  {
    assert [a, b, c] == [a] + ([b] + [c]);
    ProjectCons(a, [b] + [c], pick);
    ProjectCons(b, [c], pick);
    ProjectSingle(c, pick);
  }

  /** Projecting a trace followed by two more events. */
  lemma ProjectClose<T>(s: seq<Event>, x: Event, y: Event, pick: Event -> seq<T>)
    ensures Project(s + [x, y], pick) == Project(s, pick) + pick(x) + pick(y)
  {
    ProjectAppend(s, [x, y], pick);
    assert [x, y] == [x] + [y];
    ProjectCons(x, [y], pick);
    ProjectSingle(y, pick);
  }

  /** Projecting a trace that starts with `e`. */
  lemma ProjectCons<T>(e: Event, s: seq<Event>, pick: Event -> seq<T>)
    ensures Project([e] + s, pick) == pick(e) + Project(s, pick)
  {
    ProjectAppend([e], s, pick);
    ProjectSingle(e, pick);
  }

  /** When an extractor picks nothing from a trace, it picks nothing from
      any of its events. */
  lemma {:induction false} ProjectEmpty<T>(s: seq<Event>, pick: Event -> seq<T>)
    requires Project(s, pick) == []
    ensures forall k :: 0 <= k < |s| ==> pick(s[k]) == []
    decreases |s|
  {
    if s != [] {
      ProjectEmpty(s[..|s| - 1], pick);
      assert forall k :: 0 <= k < |s| - 1 ==> s[..|s| - 1][k] == s[k];
    }
  }

  /** The output files a trace leaves behind: each path mapped to the source
      of the last JPEG saved there. A later save to a path overwrites an
      earlier one, and a removal of a path takes its file away. */
  function Written(s: seq<Event>): map<string, string>
    decreases |s|
  {
    if s == [] then map[]
    else
      var m := Written(s[..|s| - 1]);
      var e := s[|s| - 1];
      if e.Wrote? then m[OutputPath(e.dir, e.source) := e.source]
      else if e.Deleted? then m - {e.file}
      else m
  }

  /** The paths a trace removes and does not save to again afterwards. */
  function Removed(s: seq<Event>): set<string>
    decreases |s|
  {
    if s == [] then {}
    else
      var r := Removed(s[..|s| - 1]);
      var e := s[|s| - 1];
      if e.Wrote? then r - {OutputPath(e.dir, e.source)}
      else if e.Deleted? then r + {e.file}
      else r
  }

  /** A save after a trace with removals `r` and saves `y`. */
  lemma MergeWrite(x: map<string, string>, r: set<string>, y: map<string, string>, k: string, v: string)
    ensures ((x - r) + y)[k := v] == (x - (r - {k})) + y[k := v]
  {
  }

  /** A removal after a trace with removals `r` and saves `y`. */
  lemma MergeRemove(x: map<string, string>, r: set<string>, y: map<string, string>, f: string)
    ensures ((x - r) + y) - {f} == (x - (r + {f})) + (y - {f})
  {
  }

  /** The files a trace leaves, starting after another trace: those of the
      first that the second neither removes nor overwrites, and those the
      second saves. */
  lemma {:induction false} WrittenAppend(a: seq<Event>, b: seq<Event>)
    ensures Written(a + b) == (Written(a) - Removed(b)) + Written(b)
    decreases |b|
  {
    if b == [] {
      assert a + b == a;
    } else {
      var b' := b[..|b| - 1];
      assert (a + b)[..|a + b| - 1] == a + b';
      var last := b[|b| - 1];
      assert (a + b)[|a + b| - 1] == last;
      WrittenAppend(a, b');
      if last.Wrote? {
        MergeWrite(Written(a), Removed(b'), Written(b'), OutputPath(last.dir, last.source), last.source);
      } else if last.Deleted? {
        MergeRemove(Written(a), Removed(b'), Written(b'), last.file);
      }
    }
  }

  /** The paths a trace leaves removed, after another trace: those the first
      removed that the second does not save to, and those the second
      removes. */
  lemma {:induction false} RemovedAppend(a: seq<Event>, b: seq<Event>)
    ensures Removed(a + b) == (Removed(a) - Written(b).Keys) + Removed(b)
    decreases |b|
  {
    if b == [] {
      assert a + b == a;
    } else {
      var b' := b[..|b| - 1];
      assert (a + b)[..|a + b| - 1] == a + b';
      var last := b[|b| - 1];
      assert (a + b)[|a + b| - 1] == last;
      RemovedAppend(a, b');
      if last.Wrote? {
        var k := OutputPath(last.dir, last.source);
        assert Written(b).Keys == Written(b').Keys + {k};
      } else if last.Deleted? {
        assert Written(b).Keys == Written(b').Keys - {last.file};
      }
    }
  }

  /** A trace without saves or removals leaves the files as they were. */
  lemma {:induction false} WrittenNone(s: seq<Event>)
    requires forall k :: 0 <= k < |s| ==> !s[k].Wrote? && !s[k].Deleted?
    ensures Written(s) == map[] && Removed(s) == {}
    decreases |s|
  {
    if s != [] {
      WrittenNone(s[..|s| - 1]);
    }
  }

  /** The effect of a single event on the files. */
  lemma WrittenSingle(e: Event)
    ensures Written([e]) == if e.Wrote? then map[OutputPath(e.dir, e.source) := e.source] else map[]
    ensures Removed([e]) == if e.Deleted? then {e.file} else {}
  {
    assert [e][..0] == [];
  }

  /** The effect of a trace that starts with event `e`. */
  lemma WrittenCons(e: Event, s: seq<Event>)
    ensures Written([e] + s) == (Written([e]) - Removed(s)) + Written(s)
    ensures Removed([e] + s) == (Removed([e]) - Written(s).Keys) + Removed(s)
  {
    WrittenAppend([e], s);
    RemovedAppend([e], s);
  }

  /** An event that touches no file changes nothing that follows it. */
  lemma WrittenQuietCons(e: Event, s: seq<Event>)
    requires !e.Wrote? && !e.Deleted?
    ensures Written([e] + s) == Written(s)
    ensures Removed([e] + s) == Removed(s)
  {
    WrittenCons(e, s);
    WrittenSingle(e);
  }

  /** A save followed by a trace that saves nothing leaves the saved file
      unless that trace removes it. */
  lemma WrittenSaveCons(e: Event, s: seq<Event>)
    requires e.Wrote? && Written(s) == map[]
    ensures Written([e] + s) == map[OutputPath(e.dir, e.source) := e.source] - Removed(s)
    ensures Removed([e] + s) == Removed(s)
  {
    WrittenCons(e, s);
    WrittenSingle(e);
  }

  /** A removal followed by a trace that touches no file leaves exactly that
      path removed. */
  lemma WrittenDeleteCons(e: Event, s: seq<Event>)
    requires e.Deleted? && Written(s) == map[] && Removed(s) == {}
    ensures Written([e] + s) == map[]
    ensures Removed([e] + s) == {e.file}
  {
    WrittenCons(e, s);
    WrittenSingle(e);
  }

  /** The traces of consecutive iterations laid end to end. */
  function Concat(xs: seq<seq<Event>>): seq<Event>
    decreases |xs|
  {
    if xs == [] then [] else Concat(xs[..|xs| - 1]) + xs[|xs| - 1]
  }

  /** Concatenating the first `k + 1` traces appends the `k`-th to the first
      `k`. */
  lemma ConcatTake(xs: seq<seq<Event>>, k: nat)
    requires k < |xs|
    ensures Concat(xs[..k + 1]) == Concat(xs[..k]) + xs[k]
  {
    assert xs[..k + 1][..k] == xs[..k];
  }

  /** The concatenation of fewer leading parts is a prefix of that of
      more. */
  lemma {:induction false} ConcatPrefix(xs: seq<seq<Event>>, k: nat, m: nat)
    requires k <= m <= |xs|
    ensures Concat(xs[..k]) <= Concat(xs[..m])
    decreases m - k
  {
    if k < m {
      ConcatPrefix(xs, k, m - 1);
      ConcatTake(xs, m - 1);
    }
  }

  /** An event of the concatenation is an event of one of the parts. */
  lemma {:induction false} InConcat(xs: seq<seq<Event>>, e: Event)
    ensures e in Concat(xs) <==> exists j :: 0 <= j < |xs| && e in xs[j]
    decreases |xs|
  {
    if xs != [] {
      var xs' := xs[..|xs| - 1];
      InConcat(xs', e);
      assert forall j :: 0 <= j < |xs'| ==> xs'[j] == xs[j];
    }
  }

  /** An event of the first `k` parts laid end to end is an event of one of
      them. */
  lemma InConcatTake(xs: seq<seq<Event>>, k: nat, e: Event)
    requires k <= |xs|
    ensures e in Concat(xs[..k]) <==> exists j :: 0 <= j < k && e in xs[j]
  {
    InConcat(xs[..k], e);
    assert forall j :: 0 <= j < k ==> xs[..k][j] == xs[j];
  }

  /** When an extractor picks nothing from any part, it picks nothing from
      the concatenation. */
  lemma {:induction false} ProjectConcatNone<T>(xs: seq<seq<Event>>, pick: Event -> seq<T>)
    requires forall j :: 0 <= j < |xs| ==> Project(xs[j], pick) == []
    ensures Project(Concat(xs), pick) == []
    decreases |xs|
  {
    if xs != [] {
      var xs' := xs[..|xs| - 1];
      ProjectConcatNone(xs', pick);
      ProjectAppend(Concat(xs'), xs[|xs| - 1], pick);
    }
  }

  /** When an extractor picks exactly one value from every part, it picks
      from the concatenation those values in part order. */
  lemma {:induction false} ProjectConcatOne<T>(xs: seq<seq<Event>>, pick: Event -> seq<T>)
    requires forall j :: 0 <= j < |xs| ==> |Project(xs[j], pick)| == 1
    ensures |Project(Concat(xs), pick)| == |xs|
    ensures forall j :: 0 <= j < |xs| ==> Project(Concat(xs), pick)[j] == Project(xs[j], pick)[0]
    decreases |xs|
  {
    if xs != [] {
      var xs' := xs[..|xs| - 1];
      assert forall j :: 0 <= j < |xs'| ==> xs'[j] == xs[j];
      ProjectConcatOne(xs', pick);
      ProjectAppend(Concat(xs'), xs[|xs| - 1], pick);
    }
  }

  /** A file saved at `out` by part `j`, where no later part saves to or
      removes `out`, is still there after all parts. */
  lemma {:induction false} WrittenConcatLast(xs: seq<seq<Event>>, j: nat, out: string, src: string)
    requires j < |xs|
    requires out in Written(xs[j]) && Written(xs[j])[out] == src
    requires forall l :: j < l < |xs| ==> out !in Written(xs[l]) && out !in Removed(xs[l])
    ensures out in Written(Concat(xs)) && Written(Concat(xs))[out] == src
    decreases |xs|
  {
    var xs' := xs[..|xs| - 1];
    WrittenAppend(Concat(xs'), xs[|xs| - 1]);
    if j < |xs| - 1 {
      assert forall l :: j < l < |xs'| ==> xs'[l] == xs[l];
      WrittenConcatLast(xs', j, out, src);
    }
  }

  /** A path removed by part `j`, where no later part saves to it, holds no
      file after all parts. */
  lemma {:induction false} WrittenConcatGone(xs: seq<seq<Event>>, j: nat, p: string)
    requires j < |xs|
    requires p in Removed(xs[j]) && p !in Written(xs[j])
    requires forall l :: j < l < |xs| ==> p !in Written(xs[l])
    ensures p !in Written(Concat(xs))
    decreases |xs|
  {
    var xs' := xs[..|xs| - 1];
    WrittenAppend(Concat(xs'), xs[|xs| - 1]);
    if j < |xs| - 1 {
      assert forall l :: j < l < |xs'| ==> xs'[l] == xs[l];
      WrittenConcatGone(xs', j, p);
    }
  }
}
