/** The fixed category table of the file manager and the classification of
    a file name by its extension (`separadorDeArquivos.py`, `__init__` and
    the lookup inside `organizar_por_extensao`). */
module Categories {
  import opened Wrappers
  import opened Paths

  /** A destination folder and the lower-case extensions routed to it. */
  datatype Category = Category(name: string, extensions: seq<string>)

  /** The catch-all category; its extension list is empty. */
  const FALLBACK: string := "outros"

  /** The table in its insertion order, which is the order of lookup. */
  const TABLE: seq<Category> := [
    Category("documentos", [".pdf", ".doc", ".docx", ".txt"]),
    Category("imagens", [".jpg", ".jpeg", ".png", ".gif"]),
    Category("audio_video", [".mp3", ".mp4", ".wav", ".avi"]),
    Category("planilhas", [".xls", ".xlsx", ".csv"]),
    Category("codigo", [".py", ".js", ".html", ".css"]),
    Category(FALLBACK, [])
  ]

  /** The category names, in table order: the folders made under the base
      (`CategoryNamesOfTable` ties them to the table). */
  const CATEGORY_NAMES: seq<string> := ["documentos", "imagens", "audio_video", "planilhas", "codigo", FALLBACK]

  /** The names of a table's categories, in its order. */
  function NamesOf(table: seq<Category>): (r: seq<string>)
    ensures |r| == |table|
    ensures forall i :: 0 <= i < |table| ==> r[i] == table[i].name
  {
    if table == [] then [] else [table[0].name] + NamesOf(table[1..])
  }

  /** The folders made are the categories of the table, in its order. */
  lemma CategoryNamesOfTable()
    ensures CATEGORY_NAMES == NamesOf(TABLE)
  {
  }

  /** Index of the first category at or after `from` whose list holds `ext`. */
  function FirstMatch(ext: string, from: nat): (r: Option<nat>)
    requires from <= |TABLE|
    ensures r.Some? ==> from <= r.value < |TABLE| && ext in TABLE[r.value].extensions
    ensures forall j :: from <= j < (if r.Some? then r.value else |TABLE|) ==> ext !in TABLE[j].extensions
    decreases |TABLE| - from
  {
    if from == |TABLE| then None
    else if ext in TABLE[from].extensions then Some(from)
    else FirstMatch(ext, from + 1)
  }

  /** The destination of an already lower-cased extension: the first
      category in table order whose list holds it, else the fallback. */
  function CategoryFor(ext: string): (r: string)
    ensures r in CATEGORY_NAMES
    ensures r == FALLBACK <==> forall i :: 0 <= i < |TABLE| ==> ext !in TABLE[i].extensions
    ensures r != FALLBACK ==>
      exists i :: 0 <= i < |TABLE| && TABLE[i].name == r && ext in TABLE[i].extensions &&
        forall j :: 0 <= j < i ==> ext !in TABLE[j].extensions
  {
    match FirstMatch(ext, 0)
    case Some(i) => TABLE[i].name
    case None => FALLBACK
  }

  /** The category of a file name: its extension, lower-cased, looked up. */
  function Classify(name: string): (r: string)
    ensures r in CATEGORY_NAMES
    ensures r == FALLBACK <==> forall i :: 0 <= i < |TABLE| ==> Lower(SplitExt(name).1) !in TABLE[i].extensions
  {
    CategoryFor(Lower(SplitExt(name).1))
  }

  /** The lookup loop of `organizar_por_extensao`: start from the fallback
      and stop at the first category whose list holds the extension. */
  method LookupCategory(ext: string) returns (category: string)
    ensures category == CategoryFor(ext)
  {
    category := FALLBACK;
    var i := 0;
    while i < |TABLE|
      invariant 0 <= i <= |TABLE|
      invariant forall j :: 0 <= j < i ==> ext !in TABLE[j].extensions
    {
      if ext in TABLE[i].extensions {
        category := TABLE[i].name;
        break;
      }
      i := i + 1;
    }
  }

  /** No extension is listed under two categories, so a listed extension
      always lands in the category that lists it. */
  lemma ListedExtension(i: nat, ext: string)
    requires i < |TABLE| && ext in TABLE[i].extensions
    ensures CategoryFor(ext) == TABLE[i].name
  {
    var r := FirstMatch(ext, 0);
    assert r.Some?;
    if r.value < i {
      NotListedTwice(r.value, i, ext);
    }
    assert r.value == i;
    assert CategoryFor(ext) == TABLE[r.value].name;
  }

  lemma NotListedTwice(a: nat, b: nat, ext: string)
    requires a < b < |TABLE|
    ensures !(ext in TABLE[a].extensions && ext in TABLE[b].extensions)
  {
    if ext in TABLE[a].extensions {
      var k :| 0 <= k < |TABLE[a].extensions| && TABLE[a].extensions[k] == ext;
    }
  }

  /** Names whose lower-cased forms agree are classified alike; in
      particular ".JPG" and ".jpg" share a category. */
  lemma ClassifyIgnoresCase(a: string, b: string)
    requires Lower(a) == Lower(b)
    ensures Classify(a) == Classify(b)
  {
    ExtensionOfLower(a);
    ExtensionOfLower(b);
  }

  /** A name without an extension (".bashrc", "README") goes to the fallback. */
  lemma NoExtensionIsFallback(name: string)
    requires SplitExt(name).1 == []
    ensures Classify(name) == FALLBACK
  {
    assert Lower([]) == [];
    if CategoryFor([]) != FALLBACK {
      var i :| 0 <= i < |TABLE| && [] in TABLE[i].extensions;
      TableExtensions(i, []);
    }
  }

  /** Every listed extension starts with a dot and has something after it,
      as the extensions `splitext` produces do. */
  lemma TableExtensions(i: nat, ext: string)
    requires i < |TABLE| && ext in TABLE[i].extensions
    ensures |ext| > 1 && ext[0] == EXT_SEP
  {
  }

  /** A file `stem + ext` whose lower-cased extension a category lists
      lands in that category, whatever the case of the extension: "b.JPG"
      goes to "imagens". */
  lemma ClassifyListed(stem: string, ext: string, i: nat)
    requires exists k :: 0 <= k < |stem| && stem[k] != EXT_SEP
    requires |ext| > 0 && ext[0] == EXT_SEP
    requires forall j :: 0 < j < |ext| ==> ext[j] != EXT_SEP
    requires forall j :: 0 <= j < |stem + ext| ==> (stem + ext)[j] != SEP
    requires i < |TABLE| && Lower(ext) in TABLE[i].extensions
    ensures Classify(stem + ext) == TABLE[i].name
  {
    SplitExtOfSuffix(stem, ext);
    ListedExtension(i, Lower(ext));
  }

  /** A hidden file such as ".bashrc" has no extension and is sent to the
      fallback category. */
  lemma HiddenFileIsFallback(rest: string)
    requires forall j :: 0 <= j < |rest| ==> rest[j] != EXT_SEP && rest[j] != SEP
    ensures Classify([EXT_SEP] + rest) == FALLBACK
  {
    HiddenNameHasNoExtension(rest);
    NoExtensionIsFallback([EXT_SEP] + rest);
  }
}
