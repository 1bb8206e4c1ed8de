/** Pressing "start" in the main window: refuse an empty file list, settle the
    output directory (the chosen folder, created if missing, or else the
    directory of the first file in the list) and run the worker over the
    list. Creating the folder is a foreign call whose success is supplied as a
    flag. */
module Launcher {
  import opened Paths
  import opened Naming
  import opened Events
  import opened Worker
  import opened WorkerProperties

  /** The output folder setting of the window: none chosen yet, or the path
      picked in the folder dialog. */
  datatype Folder = NoFolder | Chosen(path: string)

  /** A folder setting is in effect when a non-empty path was chosen (the
      window tests the setting for truth, so an empty path counts as none). */
  predicate InEffect(folder: Folder) {
    folder.Chosen? && folder.path != []
  }

  /** What pressing "start" leads to: a warning that the list is empty, the
      folder creation failing, or a run of the worker. */
  datatype Launch =
    | NothingToConvert
    | OutputDirFailed(dir: string)
    | Started(job: Job, report: Report)

  /** The directory the worker saves into: the folder in effect, or else a
      directory that leads the first file's path (its `dirname`), whatever
      the other files are. */
  function OutputDir(files: seq<string>, folder: Folder): (d: string)
    requires files != []
    ensures InEffect(folder) ==> d == folder.path
    ensures !InEffect(folder) ==> IsNormalDir(d) && |d| <= |files[0]| && files[0][..|d|] == d
  {
    if InEffect(folder) then folder.path else Dirname(files[0])
  }

  /** The start button's handler. `makedirsOk` says whether creating the
      chosen folder succeeds; it is only consulted when a folder is in
      effect. */
  function StartConversion(files: seq<string>, folder: Folder, makedirsOk: bool, quality: int,
                           deleteOriginal: bool, outcomes: seq<Outcome>, stop: StopPoint): (r: Launch)
    requires |outcomes| == |files|
    ensures r.NothingToConvert? <==> files == []
    ensures r.OutputDirFailed? <==> files != [] && InEffect(folder) && !makedirsOk
    ensures r.OutputDirFailed? ==> r.dir == folder.path
    ensures r.Started? ==> && r.job.files == files
                           && r.job.quality == quality
                           && r.job.deleteOriginal == deleteOriginal
                           && r.report.successful <= |files|
  {
    if files == [] then NothingToConvert
    else if InEffect(folder) && !makedirsOk then OutputDirFailed(folder.path)
    else
      var job := Job(files, OutputDir(files, folder), quality, deleteOriginal);
      Started(job, Run(job, outcomes, stop))
  }

  /** A run is started exactly when the list is non-empty and the chosen
      folder, if any, could be created; it is the worker's run over the whole
      list in its order. */
  lemma StartsIffPossible(files: seq<string>, folder: Folder, makedirsOk: bool, quality: int,
                          deleteOriginal: bool, outcomes: seq<Outcome>, stop: StopPoint)
    requires |outcomes| == |files|
    ensures var r := StartConversion(files, folder, makedirsOk, quality, deleteOriginal, outcomes, stop);
            && (r.Started? <==> files != [] && (!InEffect(folder) || makedirsOk))
            && (r.Started? ==> Project(r.report.events, ItemOf) == files[..Visited(|files|, stop)])
  {
    var r := StartConversion(files, folder, makedirsOk, quality, deleteOriginal, outcomes, stop);
    if r.Started? {
      ItemsInListOrder(r.job, outcomes, stop);
    }
  }

  /** With a folder in effect, every JPEG of the run is saved into that
      folder, and (when the folder has the shape `dirname` gives) each output
      path lies directly in it. */
  lemma ChosenFolderReceivesAll(files: seq<string>, folder: Folder, quality: int, deleteOriginal: bool,
                                outcomes: seq<Outcome>, stop: StopPoint, dir: string, src: string)
    requires |outcomes| == |files|
    requires files != [] && InEffect(folder)
    ensures var r := StartConversion(files, folder, true, quality, deleteOriginal, outcomes, stop);
            && r.Started?
            && (Wrote(dir, src) in r.report.events ==> dir == folder.path)
            && (Wrote(dir, src) in r.report.events && IsNormalDir(folder.path) ==>
                  Dirname(OutputPath(dir, src)) == folder.path)
  {
    var r := StartConversion(files, folder, true, quality, deleteOriginal, outcomes, stop);
    WriteOnlyAfterDecode(r.job, outcomes, stop, dir, src);
    OutputPathShape(dir, src);
  }

  /** With no folder in effect, every JPEG of the run is saved into the
      directory of the FIRST file in the list, whatever directory its own
      source lies in. */
  lemma DefaultFolderIsFirstFiles(files: seq<string>, folder: Folder, makedirsOk: bool, quality: int,
                                  deleteOriginal: bool, outcomes: seq<Outcome>, stop: StopPoint,
                                  dir: string, src: string)
    requires |outcomes| == |files|
    requires files != [] && !InEffect(folder)
    ensures var r := StartConversion(files, folder, makedirsOk, quality, deleteOriginal, outcomes, stop);
            && r.Started?
            && (Wrote(dir, src) in r.report.events ==>
                  dir == Dirname(files[0]) && Dirname(OutputPath(dir, src)) == Dirname(files[0]))
  {
    var r := StartConversion(files, folder, makedirsOk, quality, deleteOriginal, outcomes, stop);
    WriteOnlyAfterDecode(r.job, outcomes, stop, dir, src);
    OutputPathShape(dir, src);
  }
}
