# ORF to JPEG batch converter — worker model

`orf.py` is a small desktop tool that converts Olympus RAW (`.orf`) photos to
JPEG. Its core is the background worker `ConversionThread`:

- It walks the list of files in order.
- For each file it logs that it starts, decodes the RAW image and saves a JPEG
  named after the file's stem into one output directory.
- It counts the item as successful once the JPEG is saved.
- When asked to, it removes the original afterwards.
- It logs a success or an error line and signals the progress percentage.
- Before each item it checks a running flag, which `stop()` clears.
- After the loop it signals `finished(True)` and logs the summary
  "successful n/total".

The start button's handler `start_conversion` does three things:

- It refuses an empty list.
- It picks the output directory: the chosen folder, created if needed, or else
  the directory of the first file.
- It hands the list to the worker.

The model is made of these modules:

- `Paths` covers the POSIX path functions the worker uses: `basename`,
  `dirname`, `join`, and the `pathlib` stem.
- `Naming` says how an output file is named.
- `Events` defines the observable trace of a run. It covers:
  - the log lines, with their texts abstracted to their kind and the file
    they name;
  - the `progress` and `finished` signals;
  - the two filesystem effects: saving a JPEG and removing an original.

  It also defines generic projections of traces and the files a trace leaves
  behind: a map from each path that holds a saved JPEG to the source it was
  decoded from. A later save to the same path overwrites an earlier one, and
  removing an original takes away whatever file is at its path, even a JPEG
  saved there.
- `Worker` holds the thread's job, the stop flag, `stop()`, the progress
  arithmetic and the loop itself, `Iterate`/`Run`.
  - Each item's decode, save and remove calls are foreign.
  - Their results come in as an `Outcome` per item.
  - The moment the flag is first seen cleared comes in as a `StopPoint`.
- `WorkerProperties` describes the same run a second way: the iterations of
  the visited items laid end to end (`Blocks`). `Blocks` reuses the
  per-iteration events of `Worker.Iteration`. What it describes
  independently is the loop control: how far the loop gets (`Visited`), the
  stop, and the counter (`SuccessCount`). It proves the loop equal to that
  description and then proves the trace-level promises from it.
- `Launcher` models `start_conversion`.
- `DivArith` holds the integer-division facts that the progress bounds need.

Three behaviours of the code are easy to misread. The model follows the code:

- When `stop()` is called, the code simply leaves the loop. The remaining items
  are not reported as skipped.
- `finished(True)` is signalled even after a stop, and before the summary line.
- With no folder chosen, every JPEG goes to the directory of the first file in
  the list. It does not go beside its own source, even though the comment at
  `orf.py:246` speaks of "the source files' folders".

## Model

| member | source | states |
|---|---|---|
| Paths.Basename | orf.py:36 | `os.path.basename` returns a suffix of the path |
| Paths.BasenameHasNoSep | orf.py:36 | a basename contains no `/` |
| Paths.Dirname | orf.py:252 | `os.path.dirname` returns a prefix of the path, and that prefix is empty, all slashes, or not ending in `/` |
| Paths.StemDropsLastExtension | orf.py:43 | a file name `x.ext` with a non-empty `x` and a dot-free, non-empty `ext` has stem `x` and suffix `.ext`: only the LAST extension is dropped |
| Paths.Stem | orf.py:43 | `Path(...).stem` followed by the suffix gives back the file name |
| Paths.Join | orf.py:44 | `os.path.join(dir, name)`: through `Paths.BasenameOfJoin` and `Paths.DirnameOfJoin`, the joined path ends in the name and lies in `dir` |
| Paths.BasenameOfJoin | orf.py:44 | `os.path.join(dir, name)` with a plain name has that name as its basename, for every `dir` |
| Paths.DirnameOfJoin | orf.py:44 | taking `dirname` of `join(dir, name)` gives `dir` back, when `dir` has the shape `dirname` returns |
| Naming.OutputName | orf.py:43 | the output file name: through `Naming.OutputNameShape`, it has no `/` and ends in `.jpg` |
| Naming.OutputNameShape | orf.py:43 | the output file name contains no `/` and ends in `.jpg` |
| Naming.OutputPath | orf.py:43-44 | the output path: through `Naming.OutputPathShape` and `Naming.SameStemSamePath`, it lies directly in the output directory and is shared exactly by sources with the same stem |
| Naming.OutputPathShape | orf.py:43-44 | the output path's basename is the source's stem plus `.jpg`, and the path lies directly in the output directory |
| Naming.SameStemSamePath | orf.py:43-44 | two sources get the same output path exactly when their file names have the same stem (both directions) |
| Events.Written | orf.py:44-52 | the files a trace leaves: through `Events.WrittenAppend`, `WorkerProperties.ItemWritten`, `LastSaveWins` and `RemovedSourceIsGone`, a save to a path replaces its file and a removal of a path takes its file away |
| Events.WrittenAppend | orf.py:44-52 | after two traces in a row, a path holds the file the second saved there, or else the first's file unless the second removed that path |
| Events.RemovedAppend | orf.py:44-52 | after two traces in a row, a path is removed when the second removed it last, or the first did and the second never saved there |
| Worker.RequestStop | orf.py:71-72 | after `stop()` the flag reads cleared at every later check, and the checks made before it keep the value they read |
| Worker.RequestStopIdempotent | orf.py:71-72 | calling `stop()` again later changes nothing |
| Worker.Percent | orf.py:61 | the progress value lies in 0..100 and is exactly 100 after the last item |
| Worker.PercentMonotone | orf.py:61 | the progress after an item is never less than after an earlier item |
| Worker.PercentsShape | orf.py:60-62 | a sequence of per-item progress values is bounded, non-decreasing, and ends on 100 when every item is done |
| Worker.ItemEvents | orf.py:35-58 | one item's events: through `WorkerProperties.ItemAnnouncedOnce`, `ItemOneVerdict`, `ItemWritesOnce`, `ItemWritten` and `ItemEffects`, it is announced once, saves once exactly when it decodes and saves, removes its original only after that, and logs one verdict about its own file |
| Worker.Attempt | orf.py:39-58 | the per-item `try`: through `WorkerProperties.ItemEffects` and `ItemOneVerdict`, a failed decode or save leaves no save, no removal and no success line, and the item logs exactly one verdict |
| Worker.AfterSave | orf.py:50-58 | what follows a save: through `WorkerProperties.AfterSaveFiles` and `ItemEffects`, it saves nothing, removes the original exactly when deletion was asked for and worked, and logs a success unless the removal failed |
| Worker.Iteration | orf.py:35-62 | one pass of the loop: through `WorkerProperties.IterationVerdict`, `IterationProgress` and `IterationWritten`, it is the item's events followed by one progress signal |
| Worker.Iterate | orf.py:31-62 | the loop adds at most one success per remaining item |
| Worker.Run | orf.py:26-65 | a run counts at most one success per file and ends with `finished(True)` followed by the summary line carrying the counter and the list length |
| WorkerProperties.Visited | orf.py:31-33 | the loop gets exactly to the first index at which the flag reads cleared, or to the end of the list |
| WorkerProperties.IterateIsBlocks | orf.py:31-62 | the loop from any index on emits exactly the iterations of the remaining visited items, one after the other |
| WorkerProperties.IterateCounts | orf.py:29-48 | the loop from any index on adds one to the counter per remaining visited item that decoded and saved |
| WorkerProperties.RunShape | orf.py:26-65 | a run is the iterations of the visited items, then `finished(True)`, then the summary; its counter is the number of visited items that decoded and saved |
| WorkerProperties.ItemAnnouncedOnce | orf.py:36 | every item logs "converting" exactly once, naming its own file |
| WorkerProperties.ItemNoProgress | orf.py:35-58 | an item's own events contain no progress signal |
| WorkerProperties.ItemNotFinal | orf.py:35-58 | an item's own events contain neither the finished signal nor the summary |
| WorkerProperties.ItemOneVerdict | orf.py:55-58 | whatever fails, an item logs exactly one verdict (a success or an error line) about its own file |
| WorkerProperties.ItemWritesOnce | orf.py:39-48 | an item saves one JPEG, into the output directory, exactly when decoding and saving succeed, and nothing otherwise |
| WorkerProperties.AfterSaveFiles | orf.py:50-53 | after a save, the only path touched is the original's, which is removed exactly when deletion was asked for and worked |
| WorkerProperties.ItemWritten | orf.py:43-53 | the only file an item can leave is its own JPEG at its own output path, saved exactly when it decodes and saves; the only path it removes is its source, and when that source IS the output path the JPEG is gone too |
| WorkerProperties.ItemEffects | orf.py:39-58 | the original is removed only after a successful save, and only when deletion was asked for; a failed removal keeps the item counted but replaces its success line by an error |
| WorkerProperties.IterationWritten | orf.py:35-62 | the files one iteration leaves and removes are exactly those of its item; the progress signal touches no file |
| WorkerProperties.IterationTouches | orf.py:43-53 | an iteration leaves a file only at its item's output path, holding its item's JPEG, and removes only its item's source |
| WorkerProperties.IterationVerdict | orf.py:35-62 | one iteration logs one verdict about its own file |
| WorkerProperties.ItemsInListOrder | orf.py:31-36 | the started files are exactly the list up to the stop point, in list order; without a stop that is the whole list |
| WorkerProperties.ProgressPerVisitedItem | orf.py:60-62 | there is exactly one progress signal per visited item, and the `j`-th is the percentage after item `j` |
| WorkerProperties.ProgressMonotoneBounded | orf.py:60-62 | progress values lie in 0..100 and never decrease, and a run that visits every item of a non-empty list ends on 100, also when `stop()` comes during the last item |
| WorkerProperties.OneVerdictPerVisitedItem | orf.py:35-58 | the verdict lines of a run name exactly the visited files, one each, in list order: none is skipped silently or reported twice |
| WorkerProperties.SuccessfulCountsSaves | orf.py:47-48 | the success counter equals the number of visited items that decoded and saved, and also the number of JPEG saves in the trace |
| WorkerProperties.EventOrigin | orf.py:31-62 | every event of a run except the last two comes from the iteration of a visited item, and conversely |
| WorkerProperties.DeleteOnlyAfterSave | orf.py:50-53 | a file is removed exactly when a visited item with that path decoded and saved, deletion was asked for, and the removal worked |
| WorkerProperties.WriteOnlyAfterDecode | orf.py:39-47 | a JPEG is saved from a source into a directory exactly when that directory is the run's output directory and a visited item with that source decoded and saved |
| WorkerProperties.FinishedExactlyOnce | orf.py:63-65 | exactly one finished signal is sent, carrying `true` even after a stop; it comes after every per-item event, and only the summary line follows it |
| WorkerProperties.StopOnlyTruncates | orf.py:31-33 | a stopped run, without its last two events, is a prefix of the unstopped run, and it counts no more successes |
| WorkerProperties.StopRequestTakesEffect | orf.py:31-33 | after a `stop()` that comes before the check of iteration `i`, the started files are the first `min(v, i)`, where `v` is how far the run would otherwise have got |
| WorkerProperties.LastSaveWins | orf.py:44-53 | the file at a visited item's output path holds that item's JPEG when its own removal did not hit that path and no later visited item saved to or removed it |
| WorkerProperties.RemovedSourceIsGone | orf.py:44-53 | a removed original leaves no file at its path, even when that path is an output path, unless a later visited item saves there again |
| WorkerProperties.SameStemOverwrites | orf.py:43-53 | two saved items whose file names share a stem write to the same path; when the later one is the last to touch it, the file left there holds its JPEG and the earlier item's output is lost |
| Launcher.OutputDir | orf.py:242-252 | the output directory is the folder in effect, or else a `dirname`-shaped leading part of the FIRST file's path, whatever the other files are |
| Launcher.StartConversion | orf.py:236-255 | nothing starts exactly when the list is empty; creating the folder fails only when a folder is in effect and cannot be created; otherwise the worker runs over the whole list with the given quality and deletion setting |
| Launcher.StartsIffPossible | orf.py:236-255 | a run starts exactly when the list is non-empty and the chosen folder, if any, could be created, and it starts the files in list order |
| Launcher.ChosenFolderReceivesAll | orf.py:242-244 | with a folder in effect, every JPEG of the run is saved into that folder |
| Launcher.DefaultFolderIsFirstFiles | orf.py:245-252 | with no folder in effect, every JPEG is saved into the directory of the first file in the list, whatever directory its own source is in |

## Left out

- The GUI (`ORFConverterApp`'s widgets, dialogs, log view and status label) and the signal/slot plumbing are not modelled. Building the file list (`add_files`, `add_folder`) is left out for the same reason. Signals and log lines become events in a trace.
- Threading is not modelled. The race between `stop()` and the loop is reduced to the iteration at which the flag is first read cleared (`StopPoint`). `stop_conversion`'s `wait()` is not modelled.
- `rawpy` decoding, `imageio` encoding and writing, and `os.remove` are foreign calls. Their success per item is an oracle (`Outcome`). The model does not say why they fail. A failing save is assumed to leave no output file.
- `os.makedirs` is a foreign call. Its success is a flag of `StartConversion`. An exception it raises ends the handler before a thread is created.
- The JPEG quality is only forwarded to the encoder, and its value has no other effect. The window's spin box limits it to 1..100 (`orf.py:126`). The worker does not check it again, so the model takes any integer.
- Log texts are abstracted to their kind and the file they name. The success line names `OutputName(file)` of the recorded source.
- Worker.Percent: computes `(i + 1) * 100 / total` in integer arithmetic, while the source truncates the floating-point value `(i + 1) / total * 100`. The two can differ by one when the float rounds below an integer. Floating point is not modelled.
- The worker is given the window's own list object, not a copy (`orf.py:250-251`), and iterates it live (`orf.py:31`). `add_files`, `add_folder` and `clear_list` mutate that list (`orf.py:202`, `orf.py:214`, `orf.py:227`), and their buttons stay enabled during a run. The model takes the list as a snapshot `seq` fixed when the run starts. Items appended during a run would be visited past `total_files` (`orf.py:28`). `clear_list` during a run would end the loop early.
- WorkerProperties.ProgressMonotoneBounded: the 0..100 bound and "ends on 100" hold only when the list is not changed during the run. Items appended mid-run give percentages above 100, and a list cleared mid-run ends the loop short of 100.
- WorkerProperties.SuccessfulCountsSaves: the counter is bounded by the list length only when the list is not changed during the run. Items appended mid-run can take `successful` above `total_files`.
- Events.Written: paths are compared as exact strings, as on a case-sensitive filesystem with no links. On a case-insensitive filesystem two differently spelled paths can name one file, and the conclusions of `WorkerProperties.LastSaveWins` and `WorkerProperties.RemovedSourceIsGone`, which compare paths as strings, can be false there. For example, take the files `in/P1.orf` and `in2/p1.orf`, output directory `out`, both saved and no deletion. `LastSaveWins` for the first item concludes that `out/P1.jpg` holds the JPEG of `in/P1.orf`. On a case-insensitive disk the second save (`orf.py:47`) overwrites that same file.
- The outer `except` of `run` (`orf.py:67-69`), which logs a critical error and signals `finished(False)`, is not modelled. Inside the model nothing outside the per-item `try` can raise: the division by the list length only happens inside the loop, where the length is positive.
- `Paths` models POSIX path strings only. The Windows rules of `os.path` and `pathlib`'s normalisation of repeated or trailing separators are not modelled. `Path(p).stem` is taken as the stem of `os.path.basename(p)`; the two differ only for paths whose last component is empty or `.` (a trailing separator, `x/.`, or `.` itself), which never name files.
