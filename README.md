# File manager (separador de arquivos) in Dafny

This project models `GerenciadorArquivos`, the class at the heart of
`separadorDeArquivos.py`. The class is bound to a base directory and offers
three operations:

- **`organizar_por_extensao`** first makes one folder per category: documentos,
  imagens, audio_video, planilhas, codigo and outros. It then moves every
  regular file at the top level of the base into the folder of its category.
  The category is found by looking up the file's lower-cased extension in a
  fixed, ordered table.
- **`criar_backup`** walks the base tree and writes into
  `_backups/<name or "backup">_<timestamp>.zip` every file in a folder whose
  full path does not contain the substring `_backups`. Each file goes in under
  its path relative to the base. The test is on the substring, not on path
  components: it also skips a folder such as `<base>/old_backups_2020`, and
  every folder when the base path itself contains `_backups`.
- **`gerar_relatorio`** walks the tree with the same substring test and
  counts files, folders and files per extension. It writes the totals and the
  per-extension counts, sorted by extension, to `relatorio_<timestamp>.txt`.

The modules follow the structure of the program:

- `Paths`: the pieces of `posixpath` (POSIX paths only) and `str` the class relies on. These are
  `splitext`, `join`, `lower` and the substring test.
- `Categories`: the category table and the classification of a name.
- `Organizing`: the top level of the base as a map from names to entries.
  It also holds the two phases of `organizar_por_extensao` as functions,
  together with a declarative statement of the outcome and the lemmas about it.
- `Walking`: the walk of the tree as a sequence of
  `(relative folder, sub-folders, files)` steps, and the `_backups` exclusion.
- `Backup`: the archive name and the sequence of
  `(source path, entry name)` pairs written to the archive.
- `Reporting`: the histogram, Python's string order and `sorted`, the report
  content and its text lines.
- `Manager`: the class `FileManager`. Its field `entries` is the top level of
  the base, which it updates in place. Each operation is a method proved
  against the functions above.

The clock, `os.listdir`, `os.walk` and the failures of the file system are
parameters of the methods:

- timestamps are strings;
- the listing is a sequence of names;
- the walk is a sequence of steps;
- a set of names whose `shutil.move` raises;
- a flag saying that the archive cannot be opened;
- a set of source paths that raise when written into the archive.

## Model

| member | source | states |
|---|---|---|
| Paths.SplitExt | separadorDeArquivos.py:69 | The stem and the extension rebuild the name. A non-empty extension starts with its only dot and contains no separator. |
| Paths.SplitExtStem | separadorDeArquivos.py:69 | A non-empty extension always follows a non-dot character in the last path component, and the lemma returns its index, so leading dots alone never make an extension. |
| Paths.SplitExtOfSuffix | separadorDeArquivos.py:69 | Take a name `stem + ext` where the stem has a non-dot character and `ext` is a dot followed by no other dot. Then `splitext` returns exactly `(stem, ext)`. |
| Paths.HiddenNameHasNoExtension | separadorDeArquivos.py:69 | A name with one leading dot and no other dot (".bashrc") has no extension. |
| Paths.ExtensionOfLower | separadorDeArquivos.py:69-70 | Lower-casing a name and then taking its extension gives the same result as taking the extension and then lower-casing it. |
| Paths.JoinSuffix | separadorDeArquivos.py:83 | `os.path.join(a, b)` ends in `b`, and an absolute `b` replaces `a`. |
| Categories.CategoryNamesOfTable | separadorDeArquivos.py:42-56 | The folders the organizer makes are the table's category names, in table order. |
| Categories.CategoryFor | separadorDeArquivos.py:72-79 | The result is a category name. It is "outros" exactly when no list holds the extension. Otherwise it is the first category, in table order, whose list holds the extension. |
| Categories.LookupCategory | separadorDeArquivos.py:73-79 | The lookup loop with `break` returns the category `CategoryFor` specifies. |
| Categories.Classify | separadorDeArquivos.py:69-79 | The category of a name is one of the folders made, and it is "outros" exactly when no list holds the name's lower-cased extension. |
| Categories.ListedExtension | separadorDeArquivos.py:42-49 | No extension appears in two lists, so a listed extension always goes to the category that lists it. |
| Categories.ClassifyIgnoresCase | separadorDeArquivos.py:69-70 | Two names with the same lower-cased form get the same category, e.g. "A.JPG" and "a.jpg". |
| Categories.NoExtensionIsFallback | separadorDeArquivos.py:69-79 | A name without an extension goes to "outros". |
| Categories.ClassifyListed | separadorDeArquivos.py:69-79 | A file `stem + ext` whose lower-cased extension a category lists goes to that category, whatever the case of the extension. |
| Categories.HiddenFileIsFallback | separadorDeArquivos.py:69-79 | A hidden file such as ".bashrc" goes to "outros". |
| Organizing.MakeDirs | separadorDeArquivos.py:55-56 | Making the folders never changes an existing entry. When it raises, it raises at one of the names, and that name is a regular file. |
| Organizing.MakeDirsOutcome | separadorDeArquivos.py:55-56 | `mkdir(exist_ok=True)` over the names raises exactly when a name is taken by a regular file. Existing entries are kept, only empty folders are added, and on success every name is a folder. |
| Organizing.MakeDirsIdempotent | separadorDeArquivos.py:55-56 | Running the folder phase again on its own result changes nothing and does not raise. |
| Organizing.MoveOne | separadorDeArquivos.py:62-91 | One pass over an item, including the `shutil.move` at :84, adds no top-level name. Every entry left, other than the folder of the item's category, is unchanged. |
| Organizing.MoveAll | separadorDeArquivos.py:61-91 | The loop over the listing adds no top-level name. Every entry left that is not a category folder is unchanged. |
| Organizing.Organize | separadorDeArquivos.py:51-95 | The call either returns 0 or raises at a category name that is taken by a regular file. |
| Organizing.MoveAllIsOrganized | separadorDeArquivos.py:61-91 | Once the category folders exist, the loop over the listing ends in `Organized`. In that state the listed, movable regular files have left the top level, each category folder has gained the files of its category, and every other entry is unchanged. |
| Organizing.OrganizeMovesListedFile | separadorDeArquivos.py:82-84 | A listed regular file whose move does not fail leaves the top level. It lands, unchanged and under its own name, in the folder of its category. |
| Organizing.OrganizeKeepsOthers | separadorDeArquivos.py:61-91 | Folders, unlisted files and files whose move fails stay at the top level, and their contents are kept. A failure does not stop the loop. Category folders keep their contents except entries replaced by a moved file of the same name. |
| Organizing.OrganizeTopLevel | separadorDeArquivos.py:61-91 | The top level afterwards is the top level before, minus exactly the moved files. |
| Organizing.OrganizeLeavesOnlyFolders | separadorDeArquivos.py:61-91 | When every regular file is listed and none fails, only folders remain at the top level and the category folders are still there. |
| Organizing.NothingToMove | separadorDeArquivos.py:65-66 | With only folders at the top level the loop changes nothing: it skips folders and never recurses into them. |
| Organizing.OrganizeResult | separadorDeArquivos.py:51-95 | The operation raises exactly when a category name is taken by a regular file. Otherwise it returns 0, because the counter is never incremented, and every category folder exists afterwards. |
| Organizing.OrganizeTwice | separadorDeArquivos.py:51-95 | After a run that moved every regular file, a second run changes nothing and returns 0. |
| Walking.Skipped | separadorDeArquivos.py:112-113 | The `"_backups" in root` test on the whole root path. `BackupFolderSkipped` and `BaseUnderBackupsSkipsAll` state what it skips. |
| Walking.RelName | separadorDeArquivos.py:123 | `os.path.relpath` of a walked file. `EntryNameLocatesSource` shows that, joined to the base, it gives the file's source path. |
| Walking.BackupFolderSkipped | separadorDeArquivos.py:112-113 | A walked folder whose relative path contains `_backups` is skipped. This covers the archive folder and everything under it. |
| Walking.BaseUnderBackupsSkipsAll | separadorDeArquivos.py:149-150 | The test is a substring test on the whole root path. When the base path itself contains `_backups`, every folder is skipped. |
| Backup.ArchiveName | separadorDeArquivos.py:104 | The archive's file name. `DefaultArchiveName` states its default. |
| Backup.DefaultArchiveName | separadorDeArquivos.py:104 | An absent or empty name gives `backup_<timestamp>.zip`. |
| Backup.ArchivePath | separadorDeArquivos.py:104-105 | For a name that does not start with a separator, the archive path is the archive folder, one separator, then the archive name. A name that starts with a separator is an absolute path, and the archive then lands outside `_backups`. |
| Backup.Plan | separadorDeArquivos.py:110-124 | The entries the walk writes, in order. `PlanLength`, `PlanSound` and `PlanComplete` state what they are. |
| Backup.PlanLength | separadorDeArquivos.py:110-124 | The archive gets exactly one entry per file in the folders the walk does not skip. |
| Backup.PlanSound | separadorDeArquivos.py:110-124 | Every archive entry is the (joined path, relative name) of a file in a folder that is not skipped. |
| Backup.PlanComplete | separadorDeArquivos.py:110-124 | Every file in a folder that is not skipped has its entry in the archive. |
| Backup.EntryNameLocatesSource | separadorDeArquivos.py:116-123 | For any base and a folder named by a relative path, joining the entry name to the base gives the source path. |
| Backup.PlanNamesLocateSources | separadorDeArquivos.py:110-124 | For any base and a walk that names folders by relative paths, every archive entry extracted under the base lands on the file it was read from. |
| Backup.PlanSkipsOldArchives | separadorDeArquivos.py:112-113 | An old archive under `_backups` is never packed into a new archive. The file next to it is packed under its own name. |
| Backup.WriteFolder | separadorDeArquivos.py:115-124 | The inner loop writes a prefix of the folder's entries, none of them unreadable. It completes exactly when it wrote them all. Otherwise it stopped at an unreadable entry. |
| Manager.FileManager.CreateBackup | separadorDeArquivos.py:97-134 | The entries written are a prefix of `Plan`, with no unreadable source. A path is returned exactly when the archive opens and no planned source is unreadable, and it is `ArchivePath` in the archive folder. Otherwise `None` is returned after the entries before the first unreadable one. |
| Reporting.ReportKey | separadorDeArquivos.py:156-157 | A file is counted under "(sem extensão)" exactly when it has no extension. Otherwise its key is the lower-cased extension, which starts with a dot, so the two kinds of key never clash. |
| Reporting.CountFolder | separadorDeArquivos.py:155-163 | The in-place dictionary update over one folder's files computes `CountFiles`. |
| Reporting.BumpStep | separadorDeArquivos.py:160-163 | One count step keeps the dictionary well formed: each key is listed once in insertion order and every count is at least 1. It adds 1 to the total and to that key's count only. |
| Reporting.Tally | separadorDeArquivos.py:148-163 | The dictionary built over the walk. `TallyCounts` states what it holds. |
| Reporting.TallyCounts | separadorDeArquivos.py:148-163 | The histogram of the walk is well formed. Its counts sum to the file total. Each key's count is the number of counted files with that key. |
| Reporting.BelowTotal | separadorDeArquivos.py:173 | Python's string order is total on distinct strings. |
| Reporting.BelowTransitive | separadorDeArquivos.py:173 | Python's string order is transitive. |
| Reporting.AscendingDistinct | separadorDeArquivos.py:173 | No string is below itself, so a strictly ascending list of keys has no repeats. |
| Reporting.Sort | separadorDeArquivos.py:173 | `sorted` on the keys. `SortAscending` states what it returns. |
| Reporting.SortAscending | separadorDeArquivos.py:173 | `sorted` on distinct keys gives the same keys, each once, in strictly ascending order. |
| Reporting.SumOverSort | separadorDeArquivos.py:173 | Sorting the keys leaves the sum of their counts unchanged. |
| Reporting.BuildReport | separadorDeArquivos.py:143-174 | The report's values. The `Report...` lemmas below state what they are. |
| Reporting.ReportSumsToTotal | separadorDeArquivos.py:148-174 | The listed counts add up to "Total de arquivos". |
| Reporting.ReportAscending | separadorDeArquivos.py:173-174 | The distribution lines come in strictly ascending key order, so each key appears once. |
| Reporting.ReportListsOccurring | separadorDeArquivos.py:155-174 | A key is listed exactly when some counted file has it. |
| Reporting.ReportCounts | separadorDeArquivos.py:155-174 | Each listed key comes with the number of counted files that have it. |
| Reporting.DecimalRoundTrip | separadorDeArquivos.py:169-170 | `str(n)` is a non-empty string of digits with no leading zero, and it reads back as `n`. |
| Reporting.ItemRoundTrip | separadorDeArquivos.py:174 | A line "<key>: <n> arquivo(s)" reads back as its key and count, whatever characters the key contains. |
| Reporting.WriteItems | separadorDeArquivos.py:172-174 | The closing loop appends one line per key, in the order given. |
| Reporting.Render | separadorDeArquivos.py:166-174 | The report as text lines. `RenderReadsBack` shows the lines give back the report's values. |
| Reporting.RenderReadsBack | separadorDeArquivos.py:166-174 | The written report has 7 header lines and one line per key. Its totals and each distribution line read back as the report's values. |
| Manager.FileManager.GenerateReport | separadorDeArquivos.py:136-177 | The path is `<base>/relatorio_<timestamp>.txt`. The lines are those of `BuildReport`: the file and folder totals over folders that are not skipped, and the sorted histogram. |
| Manager.BaseDir | separadorDeArquivos.py:33 | The base directory. `BaseDirAbsolute` states its properties. |
| Manager.BaseDirAbsolute | separadorDeArquivos.py:33 | The base is absolute when the working directory is, and an absolute argument is kept as given. An absent or empty argument gives the working directory. |
| Manager.FileManager.constructor | separadorDeArquivos.py:29-49 | The constructor fixes the base and `<base>/_backups` and makes `_backups` when it is missing. |
| Manager.FileManager.OrganizeByExtension | separadorDeArquivos.py:51-95 | The new top level and the outcome are those of `Organize`. This covers the folder loop, which may raise on a regular file named like a category, and the move loop. The lemmas above state what they are. |

## Left out

- The tkinter window in `interface.py` is not part of this model. It only calls the three operations.
- The command-line block (`argparse` and dispatch) is not modelled. Neither are the logging configuration and log calls.
- The clock is not modelled. `datetime.now().strftime(...)` readings are string parameters. The report reads the clock twice, so it takes two of them.
- The order of `os.listdir` and `os.walk` comes from the parameters, as do their contents. The model does not tie the walk to `entries`.
- Organizing.MoveOne: when the category folder already holds a folder named like the moved file, `shutil.move` puts the file inside that folder, or raises if that folder already has such an entry. The model instead replaces the entry, as it does for a regular file of that name. Collisions are meant to be handled through the set of failing names.
- Manager.FileManager.constructor: requires that `_backups` is not a regular file. In that case the source raises from `mkdir`, and a Dafny constructor cannot fail. Other `mkdir` errors (missing base, permissions) are not modelled.
- Manager.BaseDir: `os.path.abspath` also normalises the path (`..`, `.`, repeated and trailing separators). The model only makes a relative path absolute by joining it to the working directory.
- Manager.BaseDirAbsolute: "an absolute argument is kept as given" holds for `abspath` only when the argument is already normalised (no `..`, `.`, repeated or trailing separators). The model keeps every absolute argument unchanged.
- Organizing.Entry: a directory entry is a regular file or a folder; symbolic links are not modelled. `os.path.isdir` at :65 follows links, so a link to a folder is skipped like a folder and a link to a file is moved.
- Backup.EntryNameLocatesSource: proved only for a walk that names folders by relative paths, which is what `os.walk` gives. `os.path.relpath` normalisation in general is not modelled.
- Backup.ArchivePath: a backup name that contains separators (`a/b`, `../x`) places the archive in a sub-folder of `_backups` or elsewhere, possibly inside the walked base. An archive inside the walked tree can then be packed into itself. The model cannot show this, because the walk is a parameter and is not tied to the archive.
- Only POSIX path semantics (`posixpath`) are modelled: `/` is the only separator and there are no drives. On Windows `os.path` is `ntpath`, where `\` is also a separator and drive letters are handled, as the comments at separadorDeArquivos.py:116-118 mention.
- Paths.Lower: lower-cases ASCII letters only. Python's `str.lower` also folds other Unicode letters.
- `shutil.move` errors other than the missing category folder and a name the caller marks as failing are not modelled. Neither are permission checks.
- The archive bytes and compression are not modelled. The archive is the sequence of `(source, entry name)` pairs written. A failed backup leaves the entries written so far, as the partially written file would.
- The archive and the report file are not added to `entries`. `CreateBackup` and `GenerateReport` leave the state unchanged.
- A failure to open or write the report file is not modelled. In the source the exception propagates.
- The unused `json` import is not modelled.
