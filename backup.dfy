/** What `criar_backup` writes: the archive path, and the entries of the
    archive as pairs of a source path and an entry name. */
module Backup {
  import opened Wrappers
  import opened Paths
  import opened Walking

  /** One `zip_file.write(source, name)` call. */
  datatype ZipEntry = ZipEntry(source: string, name: string)

  /** `f"{nome_backup or 'backup'}_{timestamp}.zip"`: an absent or empty
      name gives way to "backup". */
  function ArchiveName(name: Option<string>, timestamp: string): string {
    (if name.None? || name.value == [] then "backup" else name.value) + "_" + timestamp + ".zip"
  }

  /** The archive path: the archive name joined to the archive folder. A
      given name that starts with a separator is absolute, and the archive
      then lands outside the archive folder. */
  function ArchivePath(backupDir: string, name: Option<string>, timestamp: string): (r: string)
    ensures (name.None? || name.value == [] || name.value[0] != SEP) && backupDir != [] && backupDir[|backupDir| - 1] != SEP ==>
      r == backupDir + [SEP] + ArchiveName(name, timestamp)
    ensures name.Some? && name.value != [] && name.value[0] == SEP ==> r == ArchiveName(name, timestamp)
  {
    Join(backupDir, ArchiveName(name, timestamp))
  }

  /** The entries for the files of one folder, in the walk's order. */
  function FileEntries(root: string, dir: string, files: seq<string>): (r: seq<ZipEntry>)
    ensures |r| == |files|
    ensures forall k :: 0 <= k < |files| ==> r[k] == ZipEntry(Join(root, files[k]), RelName(dir, files[k]))
    decreases |files|
  {
    if files == [] then []
    else
      var last := files[|files| - 1];
      FileEntries(root, dir, files[..|files| - 1]) + [ZipEntry(Join(root, last), RelName(dir, last))]
  }

  /** The entries one walk step contributes: none when its root is skipped. */
  function StepEntries(base: string, step: WalkStep): seq<ZipEntry> {
    if Skipped(base, step) then [] else FileEntries(Root(base, step.dir), step.dir, step.files)
  }

  /** The entries the loop writes over the whole walk, in order. */
  function Plan(base: string, walk: seq<WalkStep>): seq<ZipEntry>
    decreases |walk|
  {
    if walk == [] then []
    else Plan(base, walk[..|walk| - 1]) + StepEntries(base, walk[|walk| - 1])
  }

  /** The archive gets one entry per file the walk does not skip. */
  lemma {:induction false} PlanLength(base: string, walk: seq<WalkStep>)
    ensures |Plan(base, walk)| == FileTotal(base, walk)
    decreases |walk|
  {
    if walk != [] {
      PlanLength(base, walk[..|walk| - 1]);
    }
  }

  /** The entry for the `k`-th file of a walk step. */
  function EntryFor(base: string, step: WalkStep, k: nat): ZipEntry
    requires k < |step.files|
  {
    ZipEntry(Join(Root(base, step.dir), step.files[k]), RelName(step.dir, step.files[k]))
  }

  /** A prefix of the tail, after the same head, is a prefix of whatever
      that head and tail begin. */
  lemma PrefixThrough(a: seq<ZipEntry>, b: seq<ZipEntry>, c: seq<ZipEntry>, d: seq<ZipEntry>)
    requires b <= c && a + c <= d
    ensures a + b <= d
  {
    assert (a + c)[..|a + b|] == a + b;
  }

  /** One more walk step adds that step's entries, and the plan so far is
      a prefix of the whole plan. */
  lemma PlanStep(base: string, walk: seq<WalkStep>, i: nat)
    requires i < |walk|
    ensures Plan(base, walk[..i + 1]) == Plan(base, walk[..i]) + StepEntries(base, walk[i])
    ensures Plan(base, walk[..i + 1]) <= Plan(base, walk)
  {
    assert walk[..i + 1][..i] == walk[..i];
    PlanPrefix(base, walk, i + 1);
  }

  /** One more file adds that file's entry, and the entries so far are a
      prefix of the folder's entries. */
  lemma FileEntriesStep(root: string, dir: string, files: seq<string>, j: nat)
    requires j < |files|
    ensures FileEntries(root, dir, files[..j + 1])
         == FileEntries(root, dir, files[..j]) + [ZipEntry(Join(root, files[j]), RelName(dir, files[j]))]
    ensures FileEntries(root, dir, files[..j + 1]) <= FileEntries(root, dir, files)
  {
    assert files[..j + 1][..j] == files[..j];
  }

  /** The inner loop of `criar_backup` over the files of one folder: each
      entry is written in order until one whose source raises. `complete`
      says the folder was written to the end. */
  method WriteFolder(root: string, dir: string, files: seq<string>, unreadable: set<string>)
    returns (complete: bool, added: seq<ZipEntry>)
    ensures added <= FileEntries(root, dir, files)
    ensures forall e :: e in added ==> e.source !in unreadable
    ensures complete <==> added == FileEntries(root, dir, files)
    ensures !complete ==> |added| < |files| && FileEntries(root, dir, files)[|added|].source in unreadable
  {
    added := [];
    for j := 0 to |files|
      invariant added == FileEntries(root, dir, files[..j])
      invariant forall e :: e in added ==> e.source !in unreadable
    {
      var entry := ZipEntry(Join(root, files[j]), RelName(dir, files[j]));
      FileEntriesStep(root, dir, files, j);
      if entry.source in unreadable {
        return false, added;
      }
      added := added + [entry];
    }
    assert files[..|files|] == files;
    complete := true;
  }

  /** The entries of a prefix of the walk come first in the archive. */
  lemma {:induction false} PlanPrefix(base: string, walk: seq<WalkStep>, n: nat)
    requires n <= |walk|
    ensures Plan(base, walk[..n]) <= Plan(base, walk)
    decreases |walk|
  {
    if n < |walk| {
      var init := walk[..|walk| - 1];
      PlanPrefix(base, init, n);
      assert init[..n] == walk[..n];
      assert Plan(base, walk) == Plan(base, init) + StepEntries(base, walk[|walk| - 1]);
      PrefixTrans(Plan(base, walk[..n]), Plan(base, init), Plan(base, walk));
    } else {
      assert walk[..n] == walk;
    }
  }

  lemma PrefixTrans(a: seq<ZipEntry>, b: seq<ZipEntry>, c: seq<ZipEntry>)
    requires a <= b && b <= c
    ensures a <= c
  {
  }

  /** `e` is the entry of the `k`-th file of the `i`-th walk step, and that
      step is not skipped. */
  predicate PackedAt(base: string, walk: seq<WalkStep>, i: nat, k: nat, e: ZipEntry) {
    i < |walk| && k < |walk[i].files| && !Skipped(base, walk[i]) && e == EntryFor(base, walk[i], k)
  }

  /** Every entry of the archive is the entry of a file of a folder that the
      walk does not skip. */
  lemma {:induction false} PlanSound(base: string, walk: seq<WalkStep>, e: ZipEntry)
    requires e in Plan(base, walk)
    ensures exists i: nat, k: nat :: PackedAt(base, walk, i, k, e)
    decreases |walk|
  {
    var init := walk[..|walk| - 1];
    var last := |walk| - 1;
    assert Plan(base, walk) == Plan(base, init) + StepEntries(base, walk[last]);
    if e in Plan(base, init) {
      PlanSound(base, init, e);
      var i: nat, k: nat :| PackedAt(base, init, i, k, e);
      assert walk[i] == init[i];
      assert PackedAt(base, walk, i, k, e);
    } else {
      var entries := StepEntries(base, walk[last]);
      assert e in entries && !Skipped(base, walk[last]);
      var k :| 0 <= k < |entries| && entries[k] == e;
      assert PackedAt(base, walk, last, k, e);
    }
  }

  /** Every file of a folder that the walk does not skip has its entry in the
      archive: the source path and the path relative to the base. */
  lemma PlanComplete(base: string, walk: seq<WalkStep>, i: nat, k: nat)
    requires i < |walk| && k < |walk[i].files| && !Skipped(base, walk[i])
    ensures EntryFor(base, walk[i], k) in Plan(base, walk)
  {
    PlanStep(base, walk, i);
    var entries := StepEntries(base, walk[i]);
    var before := Plan(base, walk[..i]);
    StepEntryAt(base, walk[i], k);
    PrefixAt(before + entries, Plan(base, walk), |before| + k);
  }

  /** A folder that is not skipped contributes the entry of each of its files. */
  lemma StepEntryAt(base: string, step: WalkStep, k: nat)
    requires k < |step.files| && !Skipped(base, step)
    ensures k < |StepEntries(base, step)| && StepEntries(base, step)[k] == EntryFor(base, step, k)
  {
  }

  lemma PrefixAt(a: seq<ZipEntry>, b: seq<ZipEntry>, n: nat)
    requires a <= b && n < |a|
    ensures b[n] == a[n]
  {
  }

  lemma SepConcat(a: string, dir: string, file: string)
    ensures a + (dir + [SEP] + file) == a + dir + [SEP] + file
  {
  }

  /** Extracting the entry of `file` from folder `dir` under the base
      recreates its source path: the entry name is that path relative to the
      base, for a walk that names folders by relative paths. */
  lemma EntryNameLocatesSource(base: string, dir: string, file: string)
    requires RelativePath(dir) && (file == [] || file[0] != SEP)
    ensures Join(base, RelName(dir, file)) == Join(Root(base, dir), file)
  {
    if dir != [] {
      assert (dir + [SEP] + file)[0] == dir[0];
      if base == [] || base[|base| - 1] == SEP {
        SepConcat(base, dir, file);
      } else {
        SepConcat(base + [SEP], dir, file);
      }
      assert Root(base, dir)[|Root(base, dir)| - 1] == dir[|dir| - 1];
    }
  }

  /** Every entry of the archive, extracted under the base, lands on the
      file it was read from. */
  lemma PlanNamesLocateSources(base: string, walk: seq<WalkStep>, e: ZipEntry)
    requires RelativeWalk(walk)
    requires e in Plan(base, walk)
    ensures Join(base, e.name) == e.source
  {
    PlanSound(base, walk, e);
    var i: nat, k: nat :| PackedAt(base, walk, i, k, e);
    EntryNameLocatesSource(base, walk[i].dir, walk[i].files[k]);
  }

  /** An archive folder found next to an ordinary file: the archive holds
      the file under its own name and nothing from `_backups`, so an old
      archive is never packed into a new one. */
  lemma PlanSkipsOldArchives(base: string, file: string, archive: string)
    requires !Contains(base, BACKUP_FOLDER)
    ensures Plan(base, [WalkStep([], [BACKUP_FOLDER], [file]), WalkStep(BACKUP_FOLDER, [], [archive])])
         == [ZipEntry(Join(base, file), file)]
  {
    var walk := [WalkStep([], [BACKUP_FOLDER], [file]), WalkStep(BACKUP_FOLDER, [], [archive])];
    assert OccursAt(BACKUP_FOLDER, BACKUP_FOLDER, 0);
    BackupFolderSkipped(base, walk[1]);
    assert StepEntries(base, walk[1]) == [];
    assert !Skipped(base, walk[0]);
    assert StepEntries(base, walk[0]) == [ZipEntry(Join(base, file), file)];
    assert walk[..1] == [walk[0]] && walk[..1][..0] == [];
    assert Plan(base, walk[..1]) == StepEntries(base, walk[0]);
  }

  /** Without a name, or with an empty one, the archive is called
      `backup_<timestamp>.zip`. */
  lemma DefaultArchiveName(name: Option<string>, timestamp: string)
    requires name.None? || name.value == []
    ensures ArchiveName(name, timestamp) == "backup_" + timestamp + ".zip"
  {
  }
}
