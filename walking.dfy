/** The walk of the base tree that `criar_backup` and `gerar_relatorio`
    consume, and the `_backups` exclusion that both apply to it. */
module Walking {
  import opened Paths

  /** The folder, directly under the base, that holds the archives. */
  const BACKUP_FOLDER: string := "_backups"

  /** One triple of `os.walk(base)`: the folder, named by its path relative
      to the base ("" for the base itself), the names of its sub-folders and
      the names of its files, in the order the walk gives them. */
  datatype WalkStep = WalkStep(dir: string, dirs: seq<string>, files: seq<string>)

  /** The `root` the walk yields for a folder: the base itself, or the base
      joined with the folder's relative path. */
  function Root(base: string, dir: string): string {
    if dir == [] then base else Join(base, dir)
  }

  /** `"_backups" in root`: a plain substring test on the whole root path,
      not a test of path components. */
  predicate Skipped(base: string, step: WalkStep) {
    Contains(Root(base, step.dir), BACKUP_FOLDER)
  }

  /** `os.path.relpath(os.path.join(root, file), base)`, for a root that the
      walk reached from the base. */
  function RelName(dir: string, file: string): string {
    if dir == [] then file else dir + [SEP] + file
  }

  /** A path relative to the base as the walk gives it: empty, or with no
      separator at either end. */
  predicate RelativePath(dir: string) {
    dir == [] || (dir[0] != SEP && dir[|dir| - 1] != SEP)
  }

  /** Every folder is named by a relative path and no file name starts
      with a separator. */
  predicate RelativeWalk(walk: seq<WalkStep>) {
    forall i :: 0 <= i < |walk| ==>
      && RelativePath(walk[i].dir)
      && forall k :: 0 <= k < |walk[i].files| ==> walk[i].files[k] == [] || walk[i].files[k][0] != SEP
  }

  /** The number of files in the folders the walk does not skip. */
  function FileTotal(base: string, walk: seq<WalkStep>): nat
    decreases |walk|
  {
    if walk == [] then 0
    else
      var last := walk[|walk| - 1];
      FileTotal(base, walk[..|walk| - 1]) + if Skipped(base, last) then 0 else |last.files|
  }

  /** The sum of `len(dirs)` over the folders the walk does not skip. */
  function DirTotal(base: string, walk: seq<WalkStep>): nat
    decreases |walk|
  {
    if walk == [] then 0
    else
      var last := walk[|walk| - 1];
      DirTotal(base, walk[..|walk| - 1]) + if Skipped(base, last) then 0 else |last.dirs|
  }

  /** A folder whose relative path mentions `_backups` (the archive folder
      itself and everything below it) is skipped. */
  lemma BackupFolderSkipped(base: string, step: WalkStep)
    requires Contains(step.dir, BACKUP_FOLDER)
    ensures Skipped(base, step)
  {
    var root := Root(base, step.dir);
    assert step.dir != [];
    JoinSuffix(base, step.dir);
    ContainsInSuffix(root, |root| - |step.dir|, BACKUP_FOLDER);
  }

  /** The substring test also skips what it should not: when the base path
      itself contains `_backups`, every folder of the walk is skipped. */
  lemma BaseUnderBackupsSkipsAll(base: string, step: WalkStep)
    requires Contains(base, BACKUP_FOLDER)
    requires step.dir == [] || step.dir[0] != SEP
    ensures Skipped(base, step)
  {
    var root := Root(base, step.dir);
    if step.dir != [] {
      assert root[..|base|] == base;
      ContainsInPrefix(root, |base|, BACKUP_FOLDER);
    }
  }
}
