/** What `gerar_relatorio` counts over the walk, and the lines it writes. */
module Reporting {
  import opened Paths
  import opened Wrappers
  import opened Walking

  /** The key under which files without an extension are counted. */
  const NO_EXTENSION: string := "(sem extensão)"

  /** The histogram key of a file: its extension lower-cased, or the
      no-extension key when it has none. The two never clash: a lowered
      extension starts with a dot, the no-extension key does not. */
  function ReportKey(file: string): (r: string)
    ensures r == NO_EXTENSION <==> SplitExt(file).1 == []
    ensures r != NO_EXTENSION ==> r == Lower(SplitExt(file).1) && r[0] == EXT_SEP
  {
    var ext := SplitExt(file).1;
    if ext == [] then NO_EXTENSION
    else
      assert Lower(ext)[0] == LowerChar(ext[0]) == EXT_SEP;
      Lower(ext)
  }

  /** `contagem_extensoes`: the count per key, and the keys in the order
      they were first met (the dictionary's own order). */
  datatype Histogram = Histogram(counts: map<string, nat>, order: seq<string>)

  const EMPTY: Histogram := Histogram(map[], [])

  /** The count of a key, 0 when it was never met. */
  function Get(counts: map<string, nat>, key: string): nat {
    if key in counts then counts[key] else 0
  }

  /** One step of the inner loop: bump the key, or enter it with count 1. */
  function Bump(h: Histogram, key: string): Histogram {
    if key in h.counts then h.(counts := h.counts[key := h.counts[key] + 1])
    else Histogram(h.counts[key := 1], h.order + [key])
  }

  /** The inner loop over the files of one folder. */
  function CountFiles(h: Histogram, files: seq<string>): Histogram
    decreases |files|
  {
    if files == [] then h
    else Bump(CountFiles(h, files[..|files| - 1]), ReportKey(files[|files| - 1]))
  }

  /** The histogram over the whole walk; skipped folders add nothing. */
  function Tally(base: string, walk: seq<WalkStep>): Histogram
    decreases |walk|
  {
    if walk == [] then EMPTY
    else
      var last := walk[|walk| - 1];
      var h := Tally(base, walk[..|walk| - 1]);
      if Skipped(base, last) then h else CountFiles(h, last.files)
  }

  /** The inner loop of `gerar_relatorio` over the files of one folder,
      updating the dictionary and its insertion order in place. */
  method CountFolder(counts0: map<string, nat>, order0: seq<string>, files: seq<string>)
    returns (counts: map<string, nat>, order: seq<string>)
    ensures Histogram(counts, order) == CountFiles(Histogram(counts0, order0), files)
  {
    counts, order := counts0, order0;
    for j := 0 to |files|
      invariant Histogram(counts, order) == CountFiles(Histogram(counts0, order0), files[..j])
    {
      var key := ReportKey(files[j]);
      ghost var before := Histogram(counts, order);
      assert files[..j + 1][..j] == files[..j];
      assert CountFiles(Histogram(counts0, order0), files[..j + 1]) == Bump(before, key);
      if key in counts {
        counts := counts[key := counts[key] + 1];
      } else {
        counts := counts[key := 1];
        order := order + [key];
      }
      assert Histogram(counts, order) == Bump(before, key);
    }
    assert files[..|files|] == files;
  }

  /** The number of files in `files` whose key is `key`. */
  function KeyCount(files: seq<string>, key: string): nat
    decreases |files|
  {
    if files == [] then 0
    else KeyCount(files[..|files| - 1], key) + if ReportKey(files[|files| - 1]) == key then 1 else 0
  }

  /** The number of files with key `key` in the folders the walk does not
      skip: the count the histogram is meant to hold. */
  function Occurrences(base: string, walk: seq<WalkStep>, key: string): nat
    decreases |walk|
  {
    if walk == [] then 0
    else
      var last := walk[|walk| - 1];
      Occurrences(base, walk[..|walk| - 1], key) + if Skipped(base, last) then 0 else KeyCount(last.files, key)
  }

  predicate Distinct(s: seq<string>) {
    forall i, j :: 0 <= i < j < |s| ==> s[i] != s[j]
  }

  /** The sum of the counts of `keys`. */
  function SumOver(keys: seq<string>, counts: map<string, nat>): nat
    decreases |keys|
  {
    if keys == [] then 0 else Get(counts, keys[0]) + SumOver(keys[1..], counts)
  }

  /** The order lists each key of the histogram once, and every count is
      at least 1. */
  ghost predicate WellFormed(h: Histogram) {
    && Distinct(h.order)
    && (forall k :: k in h.order <==> k in h.counts)
    && (forall k :: k in h.counts ==> h.counts[k] >= 1)
  }

  lemma {:induction false} SumOverAppend(keys: seq<string>, key: string, counts: map<string, nat>)
    ensures SumOver(keys + [key], counts) == SumOver(keys, counts) + Get(counts, key)
    decreases |keys|
  {
    if keys != [] {
      assert (keys + [key])[1..] == keys[1..] + [key];
      SumOverAppend(keys[1..], key, counts);
    }
  }

  lemma {:induction false} SumOverOther(keys: seq<string>, counts: map<string, nat>, key: string, v: nat)
    requires key !in keys
    ensures SumOver(keys, counts[key := v]) == SumOver(keys, counts)
    decreases |keys|
  {
    if keys != [] {
      SumOverOther(keys[1..], counts, key, v);
    }
  }

  lemma {:induction false} SumOverBump(keys: seq<string>, counts: map<string, nat>, key: string)
    requires Distinct(keys) && key in keys && key in counts
    ensures SumOver(keys, counts[key := counts[key] + 1]) == SumOver(keys, counts) + 1
    decreases |keys|
  {
    if keys[0] == key {
      assert key !in keys[1..];
      SumOverOther(keys[1..], counts, key, counts[key] + 1);
    } else {
      SumOverBump(keys[1..], counts, key);
    }
  }

  /** One step of the inner loop keeps the histogram well formed, adds one
      to the sum of its counts and one to the count of that key only. */
  lemma BumpStep(h: Histogram, key: string)
    requires WellFormed(h)
    ensures WellFormed(Bump(h, key))
    ensures SumOver(Bump(h, key).order, Bump(h, key).counts) == SumOver(h.order, h.counts) + 1
    ensures forall k :: Get(Bump(h, key).counts, k) == Get(h.counts, k) + if k == key then 1 else 0
  {
    if key in h.counts {
      BumpSeen(h, key);
    } else {
      BumpNew(h, key);
    }
  }

  lemma BumpSeen(h: Histogram, key: string)
    requires WellFormed(h) && key in h.counts
    ensures WellFormed(Bump(h, key))
    ensures SumOver(Bump(h, key).order, Bump(h, key).counts) == SumOver(h.order, h.counts) + 1
  {
    SumOverBump(h.order, h.counts, key);
  }

  lemma BumpNew(h: Histogram, key: string)
    requires WellFormed(h) && key !in h.counts
    ensures WellFormed(Bump(h, key))
    ensures SumOver(Bump(h, key).order, Bump(h, key).counts) == SumOver(h.order, h.counts) + 1
  {
    var order := h.order + [key];
    assert key !in h.order;
    assert Distinct(order) by {
      forall i, j | 0 <= i < j < |order|
        ensures order[i] != order[j]
      {
        if j == |h.order| {
          assert order[i] == h.order[i];
        }
      }
    }
    SumOverAppend(h.order, key, h.counts[key := 1]);
    SumOverOther(h.order, h.counts, key, 1);
  }

  /** The inner loop over a folder's files keeps the histogram well formed,
      adds the number of files to the sum of its counts, and adds to each
      key the number of files with that key. */
  lemma {:induction false} CountFilesStep(h: Histogram, files: seq<string>)
    requires WellFormed(h)
    ensures WellFormed(CountFiles(h, files))
    ensures SumOver(CountFiles(h, files).order, CountFiles(h, files).counts) == SumOver(h.order, h.counts) + |files|
    ensures forall k :: Get(CountFiles(h, files).counts, k) == Get(h.counts, k) + KeyCount(files, k)
    decreases |files|
  {
    if files != [] {
      CountFilesStep(h, files[..|files| - 1]);
      BumpStep(CountFiles(h, files[..|files| - 1]), ReportKey(files[|files| - 1]));
    }
  }

  /** The histogram of the walk is well formed, its counts sum to the number
      of files the walk does not skip, and the count of every key is the
      number of those files with that key. */
  lemma {:induction false} TallyCounts(base: string, walk: seq<WalkStep>)
    ensures WellFormed(Tally(base, walk))
    ensures SumOver(Tally(base, walk).order, Tally(base, walk).counts) == FileTotal(base, walk)
    ensures forall k :: Get(Tally(base, walk).counts, k) == Occurrences(base, walk, k)
    decreases |walk|
  {
    if walk != [] {
      var init := walk[..|walk| - 1];
      TallyCounts(base, init);
      if !Skipped(base, walk[|walk| - 1]) {
        CountFilesStep(Tally(base, init), walk[|walk| - 1].files);
      }
    }
  }

  // Python orders strings by code point, a proper prefix first; `sorted`
  // on the (key, count) pairs of a dictionary orders them by key alone,
  // since the keys are distinct.

  /** `a < b` on Python strings. */
  predicate Below(a: string, b: string)
    decreases |a|
  {
    if a == [] then b != []
    else if b == [] then false
    else if a[0] != b[0] then a[0] < b[0]
    else Below(a[1..], b[1..])
  }

  lemma {:induction false} BelowIrreflexive(a: string)
    ensures !Below(a, a)
    decreases |a|
  {
    if a != [] {
      BelowIrreflexive(a[1..]);
    }
  }

  /** Strictly ascending keys are distinct: no key is below itself. */
  lemma AscendingDistinct(s: seq<string>)
    requires Ascending(s)
    ensures Distinct(s)
  {
    forall i, j | 0 <= i < j < |s|
      ensures s[i] != s[j]
    {
      BelowIrreflexive(s[i]);
    }
  }

  lemma {:induction false} BelowTransitive(a: string, b: string, c: string)
    requires Below(a, b) && Below(b, c)
    ensures Below(a, c)
    decreases |a|
  {
    if a != [] && a[0] == b[0] && b[0] == c[0] {
      BelowTransitive(a[1..], b[1..], c[1..]);
    }
  }

  lemma {:induction false} BelowTotal(a: string, b: string)
    requires a != b
    ensures Below(a, b) || Below(b, a)
    decreases |a|
  {
    if a != [] && b != [] && a[0] == b[0] {
      assert a == [a[0]] + a[1..] && b == [b[0]] + b[1..];
      BelowTotal(a[1..], b[1..]);
    }
  }

  /** Strictly increasing keys: each key appears once, in `sorted` order. */
  predicate Ascending(s: seq<string>) {
    forall i, j :: 0 <= i < j < |s| ==> Below(s[i], s[j])
  }

  /** Insertion of one key into an ascending list. */
  function Insert(x: string, s: seq<string>): seq<string>
    decreases |s|
  {
    if s == [] then [x]
    else if Below(x, s[0]) then [x] + s
    else [s[0]] + Insert(x, s[1..])
  }

  /** The keys in ascending order. */
  function Sort(s: seq<string>): seq<string>
    decreases |s|
  {
    if s == [] then [] else Insert(s[0], Sort(s[1..]))
  }

  /** Insertion adds exactly the inserted key. */
  lemma {:induction false} InsertPermutes(x: string, s: seq<string>)
    ensures multiset(Insert(x, s)) == multiset(s) + multiset{x}
    decreases |s|
  {
    if s != [] && !Below(x, s[0]) {
      InsertPermutes(x, s[1..]);
      assert s == [s[0]] + s[1..];
    }
  }

  /** A key below `x` and below every key of `s` is below every key after
      inserting `x`. */
  lemma {:induction false} InsertAbove(low: string, x: string, s: seq<string>)
    requires Below(low, x)
    requires forall j :: 0 <= j < |s| ==> Below(low, s[j])
    ensures forall j :: 0 <= j < |Insert(x, s)| ==> Below(low, Insert(x, s)[j])
    decreases |s|
  {
    if s != [] && !Below(x, s[0]) {
      InsertAbove(low, x, s[1..]);
    }
  }

  /** Inserting a new key keeps the list ascending. */
  lemma {:induction false} InsertAscending(x: string, s: seq<string>)
    requires Ascending(s) && x !in s
    ensures Ascending(Insert(x, s))
    decreases |s|
  {
    if s == [] {
    } else if Below(x, s[0]) {
      forall j | 0 < j < |s|
        ensures Below(x, s[j])
      {
        BelowTransitive(x, s[0], s[j]);
      }
    } else {
      BelowTotal(x, s[0]);
      InsertAscending(x, s[1..]);
      InsertAbove(s[0], x, s[1..]);
    }
  }

  /** Sorting distinct keys yields them ascending, each exactly once. */
  lemma {:induction false} SortAscending(s: seq<string>)
    requires Distinct(s)
    ensures Ascending(Sort(s))
    ensures multiset(Sort(s)) == multiset(s)
    decreases |s|
  {
    if s != [] {
      assert s == [s[0]] + s[1..];
      SortAscending(s[1..]);
      assert s[0] !in multiset(Sort(s[1..]));
      InsertAscending(s[0], Sort(s[1..]));
      InsertPermutes(s[0], Sort(s[1..]));
    }
  }

  lemma {:induction false} SumOverInsert(x: string, s: seq<string>, counts: map<string, nat>)
    ensures SumOver(Insert(x, s), counts) == Get(counts, x) + SumOver(s, counts)
    decreases |s|
  {
    if s != [] && !Below(x, s[0]) {
      SumOverInsert(x, s[1..], counts);
      assert ([s[0]] + Insert(x, s[1..]))[1..] == Insert(x, s[1..]);
    } else if s != [] {
      assert ([x] + s)[1..] == s;
    }
  }

  /** Sorting the keys does not change the sum of their counts. */
  lemma {:induction false} SumOverSort(s: seq<string>, counts: map<string, nat>)
    ensures SumOver(Sort(s), counts) == SumOver(s, counts)
    decreases |s|
  {
    if s != [] {
      SumOverSort(s[1..], counts);
      SumOverInsert(s[0], Sort(s[1..]), counts);
    }
  }

  /** The lines of the distribution: each key with its count. */
  function Distribution(keys: seq<string>, counts: map<string, nat>): (r: seq<(string, nat)>)
    ensures |r| == |keys|
    ensures forall i :: 0 <= i < |r| ==> r[i] == (keys[i], Get(counts, keys[i]))
    decreases |keys|
  {
    if keys == [] then [] else [(keys[0], Get(counts, keys[0]))] + Distribution(keys[1..], counts)
  }

  /** The content of the report, before it is written out as text. */
  datatype Report = Report(base: string, date: string, files: nat, dirs: nat, distribution: seq<(string, nat)>)

  /** What `gerar_relatorio` computes over the walk of `base`; `date` is the
      clock reading it prints. */
  function BuildReport(base: string, date: string, walk: seq<WalkStep>): Report {
    var h := Tally(base, walk);
    Report(base, date, FileTotal(base, walk), DirTotal(base, walk), Distribution(Sort(h.order), h.counts))
  }

  /** The sum of the counts listed in a distribution. */
  function Listed(d: seq<(string, nat)>): nat
    decreases |d|
  {
    if d == [] then 0 else d[0].1 + Listed(d[1..])
  }

  lemma {:induction false} ListedDistribution(keys: seq<string>, counts: map<string, nat>)
    ensures Listed(Distribution(keys, counts)) == SumOver(keys, counts)
    decreases |keys|
  {
    if keys != [] {
      ListedDistribution(keys[1..], counts);
      assert Distribution(keys, counts)[1..] == Distribution(keys[1..], counts);
    }
  }

  /** The counts in the distribution add up to the total number of files. */
  lemma ReportSumsToTotal(base: string, date: string, walk: seq<WalkStep>)
    ensures Listed(BuildReport(base, date, walk).distribution) == BuildReport(base, date, walk).files
  {
    var h := Tally(base, walk);
    TallyCounts(base, walk);
    ListedDistribution(Sort(h.order), h.counts);
    SumOverSort(h.order, h.counts);
  }

  /** The distribution lists its keys in strictly ascending order, so each
      key once. */
  lemma ReportAscending(base: string, date: string, walk: seq<WalkStep>)
    ensures var d := BuildReport(base, date, walk).distribution;
      forall i, j :: 0 <= i < j < |d| ==> Below(d[i].0, d[j].0)
  {
    TallyCounts(base, walk);
    SortAscending(Tally(base, walk).order);
  }

  /** The report lists the keys of the histogram, sorted, each with its
      count. */
  lemma ReportKeys(base: string, date: string, walk: seq<WalkStep>)
    ensures var d := BuildReport(base, date, walk).distribution;
      && |d| == |Sort(Tally(base, walk).order)|
      && multiset(Sort(Tally(base, walk).order)) == multiset(Tally(base, walk).order)
      && forall i :: 0 <= i < |d| ==> d[i] == (Sort(Tally(base, walk).order)[i], Get(Tally(base, walk).counts, Sort(Tally(base, walk).order)[i]))
  {
    TallyCounts(base, walk);
    SortAscending(Tally(base, walk).order);
  }

  /** A key is listed exactly when some counted file has it. */
  lemma ReportListsOccurring(base: string, date: string, walk: seq<WalkStep>, key: string)
    ensures var d := BuildReport(base, date, walk).distribution;
      (exists i :: 0 <= i < |d| && d[i].0 == key) <==> Occurrences(base, walk, key) > 0
  {
    var h := Tally(base, walk);
    TallyCounts(base, walk);
    ReportKeys(base, date, walk);
    var keys := Sort(h.order);
    var d := BuildReport(base, date, walk).distribution;
    if Occurrences(base, walk, key) > 0 {
      assert key in h.counts && key in h.order;
      assert key in multiset(keys);
      var i :| 0 <= i < |keys| && keys[i] == key;
      assert d[i].0 == key;
    }
    if exists i :: 0 <= i < |d| && d[i].0 == key {
      var i :| 0 <= i < |d| && d[i].0 == key;
      assert keys[i] in multiset(h.order);
      assert key in h.order;
    }
  }

  /** Every listed key comes with the number of counted files that have it. */
  lemma ReportCounts(base: string, date: string, walk: seq<WalkStep>)
    ensures var d := BuildReport(base, date, walk).distribution;
      forall i :: 0 <= i < |d| ==> d[i].1 == Occurrences(base, walk, d[i].0)
  {
    TallyCounts(base, walk);
    ReportKeys(base, date, walk);
  }

  // The text of the report.

  predicate IsDigit(c: char) {
    '0' <= c <= '9'
  }

  predicate AllDigits(s: string) {
    forall i :: 0 <= i < |s| ==> IsDigit(s[i])
  }

  function DigitChar(d: nat): char
    requires d < 10
  {
    (48 + d) as char
  }

  /** `str(n)` for a natural number. */
  function Decimal(n: nat): string
    decreases n
  {
    if n < 10 then [DigitChar(n)] else Decimal(n / 10) + [DigitChar(n % 10)]
  }

  /** The number a string of digits denotes. */
  function DecimalValue(s: string): nat
    requires AllDigits(s)
    decreases |s|
  {
    if s == [] then 0 else 10 * DecimalValue(s[..|s| - 1]) + (s[|s| - 1] as int - 48)
  }

  /** `str(n)` is a non-empty string of digits without a leading zero, and
      it reads back as `n`. */
  lemma {:induction false} DecimalRoundTrip(n: nat)
    ensures Decimal(n) != [] && AllDigits(Decimal(n))
    ensures |Decimal(n)| > 1 ==> Decimal(n)[0] != '0'
    ensures DecimalValue(Decimal(n)) == n
    decreases n
  {
    if n >= 10 {
      DecimalRoundTrip(n / 10);
      var s := Decimal(n);
      assert s[..|s| - 1] == Decimal(n / 10);
    }
  }

  const HEADER: string := "RELATÓRIO DE DIRETÓRIO: "
  const DATE: string := "Data: "
  const FILES: string := "Total de arquivos: "
  const FOLDERS: string := "Total de pastas: "
  const DISTRIBUTION: string := "DISTRIBUIÇÃO POR EXTENSÃO:"
  const ITEM_SEP: string := ": "
  const ITEM_SUFFIX: string := " arquivo(s)"

  /** The line of one key. */
  function ItemLine(key: string, count: nat): string {
    key + ITEM_SEP + Decimal(count) + ITEM_SUFFIX
  }

  /** The report as the lines of the text file (each ends in a newline). */
  function Render(r: Report): seq<string> {
    [HEADER + r.base, DATE + r.date, [], FILES + Decimal(r.files), FOLDERS + Decimal(r.dirs), [], DISTRIBUTION]
      + RenderItems(r.distribution)
  }

  function RenderItems(d: seq<(string, nat)>): (r: seq<string>)
    ensures |r| == |d|
    ensures forall i :: 0 <= i < |d| ==> r[i] == ItemLine(d[i].0, d[i].1)
    decreases |d|
  {
    if d == [] then [] else [ItemLine(d[0].0, d[0].1)] + RenderItems(d[1..])
  }

  lemma {:induction false} DistributionAppend(keys: seq<string>, key: string, counts: map<string, nat>)
    ensures Distribution(keys + [key], counts) == Distribution(keys, counts) + [(key, Get(counts, key))]
    decreases |keys|
  {
    if keys != [] {
      assert (keys + [key])[1..] == keys[1..] + [key];
      DistributionAppend(keys[1..], key, counts);
    }
  }

  lemma {:induction false} RenderItemsAppend(d: seq<(string, nat)>, item: (string, nat))
    ensures RenderItems(d + [item]) == RenderItems(d) + [ItemLine(item.0, item.1)]
    decreases |d|
  {
    if d != [] {
      assert (d + [item])[1..] == d[1..] + [item];
      RenderItemsAppend(d[1..], item);
    }
  }

  /** One more key adds its line after the lines of the keys before it. */
  lemma ItemsStep(keys: seq<string>, counts: map<string, nat>, k: nat)
    requires k < |keys|
    ensures RenderItems(Distribution(keys[..k + 1], counts))
         == RenderItems(Distribution(keys[..k], counts)) + [ItemLine(keys[k], Get(counts, keys[k]))]
  {
    assert keys[..k + 1] == keys[..k] + [keys[k]];
    DistributionAppend(keys[..k], keys[k], counts);
    RenderItemsAppend(Distribution(keys[..k], counts), (keys[k], Get(counts, keys[k])));
  }

  /** The closing loop of `gerar_relatorio`: one line per key, in the order
      given, after the lines already written. */
  method WriteItems(header: seq<string>, keys: seq<string>, counts: map<string, nat>) returns (lines: seq<string>)
    ensures lines == header + RenderItems(Distribution(keys, counts))
  {
    lines := header;
    for k := 0 to |keys|
      invariant lines == header + RenderItems(Distribution(keys[..k], counts))
    {
      ItemsStep(keys, counts, k);
      lines := lines + [ItemLine(keys[k], Get(counts, keys[k]))];
    }
    assert keys[..|keys|] == keys;
  }

  /** Reads a number after a fixed caption, as a reader of the report would. */
  function ReadNumber(caption: string, line: string): Option<nat> {
    if |caption| <= |line| && line[..|caption|] == caption && AllDigits(line[|caption|..]) && |line| > |caption| then
      Some(DecimalValue(line[|caption|..]))
    else None
  }

  /** Reads a key line back: strips the suffix, then splits what is left. */
  function ReadItem(line: string): Option<(string, nat)> {
    if |line| < |ITEM_SUFFIX| || line[|line| - |ITEM_SUFFIX|..] != ITEM_SUFFIX then None
    else ReadPair(line[..|line| - |ITEM_SUFFIX|])
  }

  /** The count is the digits after the last space; the key is what
      precedes the ": " before them. */
  function ReadPair(body: string): Option<(string, nat)> {
    var space := LastIndexOf(body, ' ');
    if space < 1 || body[space - 1] != ':' || space + 1 == |body| || !AllDigits(body[space + 1..]) then None
    else Some((body[..space - 1], DecimalValue(body[space + 1..])))
  }

  lemma ReadNumberRoundTrip(caption: string, n: nat)
    ensures ReadNumber(caption, caption + Decimal(n)) == Some(n)
  {
    DecimalRoundTrip(n);
    assert (caption + Decimal(n))[|caption|..] == Decimal(n);
  }

  /** Digits hold no space, so the space of ": " is the last one. */
  lemma LastSpace(key: string, digits: string)
    requires AllDigits(digits)
    ensures LastIndexOf(key + ITEM_SEP + digits, ' ') == |key| + 1
  {
    var body := key + ITEM_SEP + digits;
    assert body[|key| + 1] == ' ';
    forall k | |key| + 1 < k < |body|
      ensures body[k] != ' '
    {
      assert body[k] == digits[k - |key| - 2];
    }
  }

  lemma PairRoundTrip(key: string, digits: string)
    requires AllDigits(digits) && digits != []
    ensures ReadPair(key + ITEM_SEP + digits) == Some((key, DecimalValue(digits)))
  {
    var body := key + ITEM_SEP + digits;
    LastSpace(key, digits);
    assert body[|key|] == ':';
    assert body[|key| + 2..] == digits;
    assert body[..|key|] == key;
  }

  /** Every key line reads back as its key and count, whatever characters
      the key holds. */
  lemma ItemRoundTrip(key: string, count: nat)
    ensures ReadItem(ItemLine(key, count)) == Some((key, count))
  {
    var digits := Decimal(count);
    DecimalRoundTrip(count);
    var line := ItemLine(key, count);
    var body := key + ITEM_SEP + digits;
    assert line == body + ITEM_SUFFIX;
    assert line[..|line| - |ITEM_SUFFIX|] == body;
    assert line[|line| - |ITEM_SUFFIX|..] == ITEM_SUFFIX;
    PairRoundTrip(key, digits);
  }

  /** The written report reads back as the report: its totals, and each
      distribution line in order. */
  lemma RenderReadsBack(r: Report)
    ensures |Render(r)| == 7 + |r.distribution|
    ensures ReadNumber(FILES, Render(r)[3]) == Some(r.files)
    ensures ReadNumber(FOLDERS, Render(r)[4]) == Some(r.dirs)
    ensures forall i :: 0 <= i < |r.distribution| ==> ReadItem(Render(r)[7 + i]) == Some(r.distribution[i])
  {
    var head := [HEADER + r.base, DATE + r.date, [], FILES + Decimal(r.files), FOLDERS + Decimal(r.dirs), [], DISTRIBUTION];
    var items := RenderItems(r.distribution);
    assert Render(r) == head + items;
    ReadNumberRoundTrip(FILES, r.files);
    ReadNumberRoundTrip(FOLDERS, r.dirs);
    forall i | 0 <= i < |r.distribution|
      ensures ReadItem(Render(r)[7 + i]) == Some(r.distribution[i])
    {
      assert Render(r)[7 + i] == items[i] == ItemLine(r.distribution[i].0, r.distribution[i].1);
      ItemRoundTrip(r.distribution[i].0, r.distribution[i].1);
    }
  }
}
