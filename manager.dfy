/** `GerenciadorArquivos`: the manager object, bound to one base directory,
    with its three operations. The top level of the base directory is the
    one piece of the file system it updates in place; the clock, the walk of
    the tree and the failures of the file system are parameters. */
module Manager {
  import opened Wrappers
  import opened Paths
  import opened Categories
  import opened Organizing
  import opened Walking
  import opened Backup
  import opened Reporting

  /** `os.path.abspath(diretorio_base or os.getcwd())`: an absent or empty
      argument gives way to the working directory, and a relative path is
      taken from the working directory. */
  function BaseDir(dir: Option<string>, cwd: string): string {
    var given := if dir.None? || dir.value == [] then cwd else dir.value;
    if given != [] && given[0] == SEP then given else Join(cwd, given)
  }

  /** The base is absolute whenever the working directory is, an absent or
      empty argument gives the working directory, and an absolute argument
      is kept as given. */
  lemma BaseDirAbsolute(dir: Option<string>, cwd: string)
    requires cwd != [] && cwd[0] == SEP
    ensures BaseDir(dir, cwd) != [] && BaseDir(dir, cwd)[0] == SEP
    ensures dir.None? || dir.value == [] ==> BaseDir(dir, cwd) == cwd
    ensures dir.Some? && dir.value != [] && dir.value[0] == SEP ==> BaseDir(dir, cwd) == dir.value
  {
  }

  /** The name of the report file. */
  function ReportName(timestamp: string): string {
    "relatorio_" + timestamp + ".txt"
  }

  class FileManager {
    /** `diretorio_base` */
    const base: string
    /** `diretorio_backup` */
    const backupDir: string
    /** The entries directly under the base directory. */
    var entries: Listing

    /** `__init__`: fixes the base and the archive folder and makes the
        archive folder when it is missing. `initial` is what the base holds
        beforehand. */
    constructor (dir: Option<string>, cwd: string, initial: Listing)
      requires !(BACKUP_FOLDER in initial && initial[BACKUP_FOLDER].File?)
      ensures base == BaseDir(dir, cwd)
      ensures backupDir == Join(base, BACKUP_FOLDER)
      ensures entries == MakeDirs(initial, [BACKUP_FOLDER]).0
      ensures BACKUP_FOLDER in entries && entries[BACKUP_FOLDER].Dir?
    {
      base := BaseDir(dir, cwd);
      backupDir := Join(BaseDir(dir, cwd), BACKUP_FOLDER);
      if BACKUP_FOLDER in initial {
        entries := initial;
      } else {
        entries := initial[BACKUP_FOLDER := Dir(map[])];
      }
    }

    /** `organizar_por_extensao`. `listing` is what `os.listdir` gives after
        the category folders exist, in its order; `failing` holds the items
        whose `shutil.move` raises for reasons outside the model. The new
        top level and the outcome are those of `Organize`, whose lemmas say
        what they are. */
    method OrganizeByExtension(listing: seq<string>, failing: set<string>) returns (r: Result<nat, string>)
      modifies this
      ensures entries == Organize(old(entries), listing, failing).0
      ensures r == Organize(old(entries), listing, failing).1
    {
      // Make the category folders, in the order of the table.
      for k := 0 to |CATEGORY_NAMES|
        invariant MakeDirs(old(entries), CATEGORY_NAMES) == MakeDirs(entries, CATEGORY_NAMES[k..])
      {
        var name := CATEGORY_NAMES[k];
        MakeDirsStep(entries, CATEGORY_NAMES, k);
        if name in entries {
          if entries[name].File? {
            return Failure(name);
          }
        } else {
          entries := entries[name := Dir(map[])];
        }
      }
      ghost var ready := entries;
      assert MakeDirs(old(entries), CATEGORY_NAMES) == (ready, None);

      var moved := 0;
      for i := 0 to |listing|
        invariant entries == MoveAll(ready, listing[..i], failing)
      {
        var item := listing[i];
        MoveAllStep(ready, listing, i, failing);
        if item in entries && entries[item].Dir? {
          continue;
        }
        var category := LookupCategory(Lower(SplitExt(item).1));
        assert category == Classify(item);
        if item in entries && item !in failing && category in entries && entries[category].Dir? {
          entries := (entries - {item})[category := Dir(entries[category].children[item := entries[item]])];
        }
      }
      assert listing[..|listing|] == listing;
      return Success(moved);
    }

    /** `criar_backup`. `timestamp` is the clock reading, `walk` the triples
        of `os.walk(base)`; `openFails` says that the archive cannot be
        created, `unreadable` holds the source paths that raise when
        written. The archive receives the entries of `Plan` in order; any
        exception ends the call with no path, after the entries written so
        far. */
    method CreateBackup(name: Option<string>, timestamp: string, walk: seq<WalkStep>, openFails: bool, unreadable: set<string>)
      returns (path: Option<string>, written: seq<ZipEntry>)
      ensures written <= Plan(base, walk)
      ensures forall e :: e in written ==> e.source !in unreadable
      ensures path.Some? <==> !openFails && forall e :: e in Plan(base, walk) ==> e.source !in unreadable
      ensures path.Some? ==> path.value == ArchivePath(backupDir, name, timestamp) && written == Plan(base, walk)
      ensures path.None? && !openFails ==> |written| < |Plan(base, walk)| && Plan(base, walk)[|written|].source in unreadable
      ensures openFails ==> written == []
    {
      var archive := ArchivePath(backupDir, name, timestamp);
      written := [];
      if openFails {
        return None, written;
      }
      for i := 0 to |walk|
        invariant written == Plan(base, walk[..i])
        invariant forall e :: e in written ==> e.source !in unreadable
      {
        var step := walk[i];
        var root := Root(base, step.dir);
        PlanStep(base, walk, i);
        if Contains(root, BACKUP_FOLDER) {
          continue;
        }
        var complete, added := WriteFolder(root, step.dir, step.files, unreadable);
        PrefixThrough(Plan(base, walk[..i]), added, FileEntries(root, step.dir, step.files), Plan(base, walk));
        if !complete {
          assert (Plan(base, walk[..i]) + FileEntries(root, step.dir, step.files))[|written + added|]
              == FileEntries(root, step.dir, step.files)[|added|];
          return None, written + added;
        }
        written := written + added;
      }
      assert walk[..|walk|] == walk;
      path := Some(archive);
    }

    /** `gerar_relatorio`. `fileStamp` is the clock reading in the file name,
        `dateStamp` the one on the date line (the source reads the clock
        twice), `walk` the triples of `os.walk(base)`. Returns the report's
        path and the lines written to it, which are those of `BuildReport`
        rendered by `Render`. */
    method GenerateReport(fileStamp: string, dateStamp: string, walk: seq<WalkStep>) returns (path: string, lines: seq<string>)
      ensures path == Join(base, ReportName(fileStamp))
      ensures lines == Render(BuildReport(base, dateStamp, walk))
    {
      path := Join(base, ReportName(fileStamp));
      var files, folders := 0, 0;
      var counts: map<string, nat>, order: seq<string> := map[], [];
      for i := 0 to |walk|
        invariant files == FileTotal(base, walk[..i])
        invariant folders == DirTotal(base, walk[..i])
        invariant Histogram(counts, order) == Tally(base, walk[..i])
      {
        var step := walk[i];
        assert walk[..i + 1][..i] == walk[..i];
        if Contains(Root(base, step.dir), BACKUP_FOLDER) {
          continue;
        }
        folders := folders + |step.dirs|;
        files := files + |step.files|;
        counts, order := CountFolder(counts, order, step.files);
      }
      assert walk[..|walk|] == walk;

      lines := [HEADER + base, DATE + dateStamp, [], FILES + Decimal(files), FOLDERS + Decimal(folders), [], DISTRIBUTION];
      lines := WriteItems(lines, Sort(order), counts);
    }
  }
}
