/** The top level of the base directory as `organizar_por_extensao` sees it,
    and the two phases of that operation as functions of it: making the
    category folders, then moving every listed regular file into the folder
    of its category. */
module Organizing {
  import opened Wrappers
  import opened Categories

  /** A directory entry: a regular file, whose content stays abstract, or a
      folder with its own entries by name. */
  datatype Entry = File(content: string) | Dir(children: map<string, Entry>)

  /** The entries directly under one folder, by name. */
  type Listing = map<string, Entry>

  /** `Path(base/name).mkdir(exist_ok=True)` for each name in turn: a missing
      name becomes an empty folder, an existing folder is left alone, and a
      regular file of that name raises, which stops the sequence there. The
      second component is the name that raised, if any. */
  function MakeDirs(entries: Listing, names: seq<string>): (r: (Listing, Option<string>))
    ensures forall k :: k in entries ==> k in r.0 && r.0[k] == entries[k]
    ensures r.1.Some? ==> r.1.value in names && r.1.value in entries && entries[r.1.value].File?
    decreases |names|
  {
    if names == [] then (entries, None)
    else if names[0] in entries && entries[names[0]].File? then (entries, Some(names[0]))
    else MakeDirs(if names[0] in entries then entries else entries[names[0] := Dir(map[])], names[1..])
  }

  /** One pass of the loop body for `item`: a folder is skipped; anything
      else is moved to `<category>/<item>` unless the move raises (the item
      is not there, it is one the file system refuses to move, or the
      category folder is missing), in which case nothing changes. An entry
      of the same name already in the category folder is replaced. */
  function MoveOne(entries: Listing, item: string, failing: set<string>): (r: Listing)
    ensures r.Keys <= entries.Keys
    ensures forall k :: k in r && k != Classify(item) ==> r[k] == entries[k]
  {
    if item in entries && entries[item].Dir? then entries
    else
      var category := Classify(item);
      if item in entries && item !in failing && category in entries && entries[category].Dir? then
        (entries - {item})[category := Dir(entries[category].children[item := entries[item]])]
      else
        entries
  }

  /** The loop of `organizar_por_extensao` over the listing, in its order. */
  function MoveAll(entries: Listing, listing: seq<string>, failing: set<string>): (r: Listing)
    ensures r.Keys <= entries.Keys
    ensures forall k :: k in r && k !in CATEGORY_NAMES ==> r[k] == entries[k]
    decreases |listing|
  {
    if listing == [] then entries
    else MoveOne(MoveAll(entries, listing[..|listing| - 1], failing), listing[|listing| - 1], failing)
  }

  /** The whole operation on the base listing. The second component is what
      the call gives back: the number it returns, or the category name whose
      folder could not be made (the exception it propagates). */
  function Organize(entries: Listing, listing: seq<string>, failing: set<string>): (r: (Listing, Result<nat, string>))
    ensures r.1 == Success(0) || (r.1.Failure? && r.1.error in CATEGORY_NAMES && r.1.error in entries && entries[r.1.error].File?)
  {
    var (ready, failed) := MakeDirs(entries, CATEGORY_NAMES);
    if failed.Some? then (ready, Failure(failed.value))
    else (MoveAll(ready, listing, failing), Success(0))
  }

  /** One more name for `mkdir`: a regular file of that name stops the
      sequence there; otherwise the rest continues from the updated listing. */
  lemma MakeDirsStep(entries: Listing, names: seq<string>, k: nat)
    requires k < |names|
    ensures MakeDirs(entries, names[k..]) ==
      if names[k] in entries && entries[names[k]].File? then (entries, Some(names[k]))
      else MakeDirs(if names[k] in entries then entries else entries[names[k] := Dir(map[])], names[k + 1..])
  {
    assert names[k..][1..] == names[k + 1..];
  }

  /** One more pass of the loop over the listing. */
  lemma MoveAllStep(entries: Listing, listing: seq<string>, i: nat, failing: set<string>)
    requires i < |listing|
    ensures MoveAll(entries, listing[..i + 1], failing) == MoveOne(MoveAll(entries, listing[..i], failing), listing[i], failing)
  {
    assert listing[..i + 1][..i] == listing[..i];
  }

  /** Every category name is a folder of the listing. */
  ghost predicate CategoriesReady(entries: Listing) {
    forall c :: c in CATEGORY_NAMES ==> c in entries && entries[c].Dir?
  }

  /** The regular files the loop moves: listed, present and not refused. */
  ghost function Moved(entries: Listing, listing: seq<string>, failing: set<string>): set<string> {
    set n | n in entries && entries[n].File? && n in listing && n !in failing
  }

  /** The moved files whose category is `category`, by name. */
  ghost function Arrivals(entries: Listing, moved: set<string>, category: string): Listing
    requires moved <= entries.Keys
  {
    Gather(entries, moved, Classify, category)
  }

  /** The entries of `moved` that `sort` sends to `category`. */
  ghost function Gather(entries: Listing, moved: set<string>, sort: string -> string, category: string): Listing
    requires moved <= entries.Keys
  {
    map n | n in moved && sort(n) == category :: entries[n]
  }

  /** The outcome of the loop stated without the loop: the moved files leave
      the top level, each category folder gains the moved files of its
      category, and every other entry is as it was. */
  ghost function Organized(entries: Listing, listing: seq<string>, failing: set<string>): Listing {
    var moved := Moved(entries, listing, failing);
    map k | k in entries && k !in moved ::
      if k in CATEGORY_NAMES && entries[k].Dir? then Dir(entries[k].children + Arrivals(entries, moved, k))
      else entries[k]
  }

  /** `mkdir(exist_ok=True)` over `names` raises exactly when one of the names
      is a regular file, and then at such a name; it never changes an entry
      that exists; what it adds are empty folders named in `names`; and when
      it does not raise, every name is a folder afterwards. */
  lemma {:induction false} MakeDirsOutcome(entries: Listing, names: seq<string>)
    ensures var (after, failed) := MakeDirs(entries, names);
      && (failed.None? <==> forall n :: n in names ==> !(n in entries && entries[n].File?))
      && (failed.Some? ==> failed.value in names && failed.value in entries && entries[failed.value].File?)
      && (forall k :: k in entries ==> k in after && after[k] == entries[k])
      && (forall k :: k in after && k !in entries ==> k in names && after[k] == Dir(map[]))
      && (failed.None? ==> forall n :: n in names ==> n in after && after[n].Dir?)
    decreases |names|
  {
    if names != [] && !(names[0] in entries && entries[names[0]].File?) {
      var next := if names[0] in entries then entries else entries[names[0] := Dir(map[])];
      MakeDirsOutcome(next, names[1..]);
      assert forall n :: n in names <==> n == names[0] || n in names[1..];
    }
  }

  /** Making folders that are all there already changes nothing. */
  lemma {:induction false} MakeDirsOfFolders(entries: Listing, names: seq<string>)
    requires forall n :: n in names ==> n in entries && entries[n].Dir?
    ensures MakeDirs(entries, names) == (entries, None)
    decreases |names|
  {
    if names != [] {
      MakeDirsOfFolders(entries, names[1..]);
    }
  }

  /** `exist_ok=True` makes the folder phase idempotent: run again on its own
      result, it changes nothing and does not raise. */
  lemma MakeDirsIdempotent(entries: Listing, names: seq<string>)
    requires MakeDirs(entries, names).1.None?
    ensures MakeDirs(MakeDirs(entries, names).0, names) == (MakeDirs(entries, names).0, None)
  {
    MakeDirsOutcome(entries, names);
    MakeDirsOfFolders(MakeDirs(entries, names).0, names);
  }

  lemma UpdateOfUnion(a: Listing, b: Listing, k: string, v: Entry)
    ensures (a + b)[k := v] == a + b[k := v]
  {
  }

  /** A pass that moves `item`: the state stays equal to the stated outcome. */
  lemma OrganizedStepMove(entries: Listing, listing: seq<string>, item: string, failing: set<string>)
    requires CategoriesReady(entries)
    requires item in entries && entries[item].File? && item !in failing && item !in listing
    ensures MoveOne(Organized(entries, listing, failing), item, failing) == Organized(entries, listing + [item], failing)
  {
    var before := Organized(entries, listing, failing);
    var category := Classify(item);
    OrganizedAfterMove(entries, listing, item, failing);
    assert MoveOne(before, item, failing) == (before - {item})[category := Dir(before[category].children[item := entries[item]])];
  }

  /** The stated outcome with one more movable file read: that file leaves
      the top level and joins the folder of its category. */
  lemma OrganizedAfterMove(entries: Listing, listing: seq<string>, item: string, failing: set<string>)
    requires CategoriesReady(entries)
    requires item in entries && entries[item].File? && item !in failing && item !in listing
    ensures var before := Organized(entries, listing, failing);
      && item in before && Classify(item) in before && before[Classify(item)].Dir?
      && Organized(entries, listing + [item], failing)
         == (before - {item})[Classify(item) := Dir(before[Classify(item)].children[item := entries[item]])]
  {
    var before := Organized(entries, listing, failing);
    var after := Organized(entries, listing + [item], failing);
    var category := Classify(item);
    MovedGrows(entries, listing, item, failing);
    OrganizedMoveKeys(entries, listing, item, failing);
    var result := (before - {item})[category := Dir(before[category].children[item := entries[item]])];
    assert result.Keys == after.Keys;
    forall k | k in result.Keys
      ensures result[k] == after[k]
    {
      OrganizedMoveAt(entries, listing, item, failing, k);
    }
  }

  /** One more movable file read takes exactly that file off the top level
      of the stated outcome; its category folder stays. */
  lemma OrganizedMoveKeys(entries: Listing, listing: seq<string>, item: string, failing: set<string>)
    requires CategoriesReady(entries)
    requires item in entries && entries[item].File? && item !in failing && item !in listing
    requires Moved(entries, listing + [item], failing) == Moved(entries, listing, failing) + {item}
    ensures var before := Organized(entries, listing, failing);
      && item in before && Classify(item) in before && before[Classify(item)].Dir?
      && Organized(entries, listing + [item], failing).Keys == before.Keys - {item}
  {
    assert Classify(item) in CATEGORY_NAMES && item !in CATEGORY_NAMES;
  }

  /** The entry `k` of the stated outcome once one more movable file is
      read: the file's category folder gains it, anything else stays. */
  lemma OrganizedMoveAt(entries: Listing, listing: seq<string>, item: string, failing: set<string>, k: string)
    requires CategoriesReady(entries)
    requires item in entries && entries[item].File? && item !in failing && item !in listing
    requires Moved(entries, listing + [item], failing) == Moved(entries, listing, failing) + {item}
    requires k in Organized(entries, listing + [item], failing)
    ensures k in Organized(entries, listing, failing)
    ensures var before := Organized(entries, listing, failing);
      Organized(entries, listing + [item], failing)[k]
        == if k == Classify(item) then Dir(before[k].children[item := entries[item]]) else before[k]
  {
    var moved := Moved(entries, listing, failing);
    ArrivalsStep(entries, moved, item);
    if k == Classify(item) {
      UpdateOfUnion(entries[k].children, Arrivals(entries, moved, k), item, entries[item]);
    }
  }

  /** Reading a movable file adds it, and only it, to the moved set. */
  lemma MovedGrows(entries: Listing, listing: seq<string>, item: string, failing: set<string>)
    requires item in entries && entries[item].File? && item !in failing
    ensures Moved(entries, listing + [item], failing) == Moved(entries, listing, failing) + {item}
  {
    assert forall n :: n in listing + [item] <==> n in listing || n == item;
  }

  /** Adding one file to the moved set adds it to the arrivals of its own
      category only. */
  lemma ArrivalsStep(entries: Listing, moved: set<string>, item: string)
    requires moved <= entries.Keys && item in entries
    ensures Arrivals(entries, moved + {item}, Classify(item)) == Arrivals(entries, moved, Classify(item))[item := entries[item]]
    ensures forall c :: c != Classify(item) ==> Arrivals(entries, moved + {item}, c) == Arrivals(entries, moved, c)
  {
    GatherOwn(entries, moved, Classify, item, Classify(item));
    forall c | c != Classify(item)
      ensures Arrivals(entries, moved + {item}, c) == Arrivals(entries, moved, c)
    {
      GatherOther(entries, moved, Classify, item, c);
    }
  }

  lemma GatherOwn(entries: Listing, moved: set<string>, sort: string -> string, item: string, own: string)
    requires moved <= entries.Keys && item in entries && sort(item) == own
    ensures Gather(entries, moved + {item}, sort, own) == Gather(entries, moved, sort, own)[item := entries[item]]
  {
    var grown := Gather(entries, moved + {item}, sort, own);
    var updated := Gather(entries, moved, sort, own)[item := entries[item]];
    forall n
      ensures n in grown <==> n in updated
    {
    }
    assert grown.Keys == updated.Keys;
  }

  lemma GatherOther(entries: Listing, moved: set<string>, sort: string -> string, item: string, other: string)
    requires moved <= entries.Keys && item in entries && sort(item) != other
    ensures Gather(entries, moved + {item}, sort, other) == Gather(entries, moved, sort, other)
  {
    var grown := Gather(entries, moved + {item}, sort, other);
    var same := Gather(entries, moved, sort, other);
    forall n
      ensures n in grown <==> n in same
    {
    }
    assert grown.Keys == same.Keys;
  }

  /** A pass that moves nothing new leaves the stated outcome as it was. */
  lemma OrganizedStepSkip(entries: Listing, listing: seq<string>, item: string, failing: set<string>)
    requires CategoriesReady(entries)
    requires !(item in entries && entries[item].File? && item !in failing && item !in listing)
    ensures MoveOne(Organized(entries, listing, failing), item, failing) == Organized(entries, listing + [item], failing)
  {
    assert forall n :: n in listing + [item] <==> n in listing || n == item;
    assert Moved(entries, listing + [item], failing) == Moved(entries, listing, failing);
  }

  /** One more pass of the loop keeps the state equal to the stated outcome
      for the listing read so far. */
  lemma OrganizedStep(entries: Listing, listing: seq<string>, item: string, failing: set<string>)
    requires CategoriesReady(entries)
    ensures MoveOne(Organized(entries, listing, failing), item, failing) == Organized(entries, listing + [item], failing)
  {
    if item in entries && entries[item].File? && item !in failing && item !in listing {
      OrganizedStepMove(entries, listing, item, failing);
    } else {
      OrganizedStepSkip(entries, listing, item, failing);
    }
  }

  /** With nothing listed, nothing moves. */
  lemma OrganizedEmpty(entries: Listing, failing: set<string>)
    ensures Organized(entries, [], failing) == entries
  {
    assert Moved(entries, [], failing) == {};
    var none := Organized(entries, [], failing);
    forall k | k in none
      ensures none[k] == entries[k]
    {
      if k in CATEGORY_NAMES && entries[k].Dir? {
        assert Arrivals(entries, {}, k) == map[];
        assert entries[k].children + map[] == entries[k].children;
      }
    }
  }

  lemma LastSplit(listing: seq<string>)
    requires listing != []
    ensures listing[..|listing| - 1] + [listing[|listing| - 1]] == listing
  {
  }

  /** The loop over the listing ends in the stated outcome, provided the
      category folders are there when it starts. */
  lemma {:induction false} MoveAllIsOrganized(entries: Listing, listing: seq<string>, failing: set<string>)
    requires CategoriesReady(entries)
    ensures MoveAll(entries, listing, failing) == Organized(entries, listing, failing)
    decreases |listing|
  {
    if listing == [] {
      OrganizedEmpty(entries, failing);
    } else {
      var init, last := listing[..|listing| - 1], listing[|listing| - 1];
      assert MoveAll(entries, listing, failing) == MoveOne(MoveAll(entries, init, failing), last, failing);
      MoveAllIsOrganized(entries, init, failing);
      OrganizedStep(entries, init, last, failing);
      LastSplit(listing);
    }
  }

  /** A regular file that is listed and not refused ends up, unchanged and
      under its own name, in the folder of its category, and is no longer at
      the top level. */
  lemma OrganizeMovesListedFile(entries: Listing, listing: seq<string>, failing: set<string>, name: string)
    requires CategoriesReady(entries)
    requires name in entries && entries[name].File? && name in listing && name !in failing
    ensures var after := MoveAll(entries, listing, failing);
      && name !in after
      && Classify(name) in after && after[Classify(name)].Dir?
      && name in after[Classify(name)].children
      && after[Classify(name)].children[name] == entries[name]
  {
    MoveAllIsOrganized(entries, listing, failing);
    var moved := Moved(entries, listing, failing);
    assert name in moved;
    var category := Classify(name);
    assert category in CATEGORY_NAMES && category !in moved;
    assert name in Arrivals(entries, moved, category);
  }

  /** Every other entry stays at the top level. A folder other than a
      category folder, and a file that was not listed or whose move failed,
      is exactly as it was; a category folder stays a folder and keeps what
      it held, except entries replaced by a moved file of the same name. */
  lemma OrganizeKeepsOthers(entries: Listing, listing: seq<string>, failing: set<string>, name: string)
    requires CategoriesReady(entries)
    requires name in entries && !(entries[name].File? && name in listing && name !in failing)
    ensures var after := MoveAll(entries, listing, failing);
      && name in after
      && (name !in CATEGORY_NAMES ==> after[name] == entries[name])
      && (name in CATEGORY_NAMES ==>
            after[name].Dir? &&
            forall k :: k in entries[name].children && k !in Moved(entries, listing, failing) ==>
              k in after[name].children && after[name].children[k] == entries[name].children[k])
  {
    MoveAllIsOrganized(entries, listing, failing);
  }

  /** The top level afterwards is the top level before, less the moved files. */
  lemma OrganizeTopLevel(entries: Listing, listing: seq<string>, failing: set<string>)
    requires CategoriesReady(entries)
    ensures MoveAll(entries, listing, failing).Keys == entries.Keys - Moved(entries, listing, failing)
  {
    MoveAllIsOrganized(entries, listing, failing);
  }

  /** When every regular file is listed and none is refused, only folders
      remain at the top level, and the category folders are still there. */
  lemma OrganizeLeavesOnlyFolders(entries: Listing, listing: seq<string>, failing: set<string>)
    requires CategoriesReady(entries)
    requires forall n :: n in entries && entries[n].File? ==> n in listing && n !in failing
    ensures var after := MoveAll(entries, listing, failing);
      CategoriesReady(after) && forall n :: n in after ==> after[n].Dir?
  {
    MoveAllIsOrganized(entries, listing, failing);
  }

  /** With no regular file at the top level the loop changes nothing: it
      never descends into folders. */
  lemma NothingToMove(entries: Listing, listing: seq<string>, failing: set<string>)
    requires CategoriesReady(entries)
    requires forall n :: n in entries ==> entries[n].Dir?
    ensures MoveAll(entries, listing, failing) == entries
  {
    MoveAllIsOrganized(entries, listing, failing);
    var moved := Moved(entries, listing, failing);
    assert moved == {};
    forall k | k in CATEGORY_NAMES
      ensures Arrivals(entries, moved, k) == map[]
    {
    }
    var after := Organized(entries, listing, failing);
    forall k | k in after
      ensures after[k] == entries[k]
    {
      if k in CATEGORY_NAMES {
        assert entries[k].children + map[] == entries[k].children;
      }
    }
  }

  /** The operation raises exactly when a category name is taken by a
      regular file, naming such a file; otherwise it returns 0 (the counter
      of moved files is never incremented) and every category folder exists
      afterwards. */
  lemma OrganizeResult(entries: Listing, listing: seq<string>, failing: set<string>)
    ensures var (after, result) := Organize(entries, listing, failing);
      && (result.Failure? <==> exists c :: c in CATEGORY_NAMES && c in entries && entries[c].File?)
      && (result.Failure? ==> result.error in CATEGORY_NAMES && result.error in entries && entries[result.error].File?)
      && (result.Success? ==> result.value == 0 && CategoriesReady(after))
  {
    MakeDirsOutcome(entries, CATEGORY_NAMES);
    var (ready, failed) := MakeDirs(entries, CATEGORY_NAMES);
    if failed.None? {
      var after := MoveAll(ready, listing, failing);
      forall c | c in CATEGORY_NAMES
        ensures c in after && after[c].Dir?
      {
        OrganizeKeepsOthers(ready, listing, failing, c);
      }
    }
  }

  /** Organizing twice is organizing once: when the first run moves every
      regular file, a second run, whatever its listing, finds only folders
      at the top level and returns 0 without changing anything. */
  lemma OrganizeTwice(entries: Listing, listing: seq<string>, failing: set<string>, listing2: seq<string>, failing2: set<string>)
    requires Organize(entries, listing, failing).1.Success?
    requires forall n :: n in entries && entries[n].File? ==> n in listing && n !in failing
    ensures var once := Organize(entries, listing, failing).0;
      Organize(once, listing2, failing2) == (once, Success(0))
  {
    MakeDirsOutcome(entries, CATEGORY_NAMES);
    var ready := MakeDirs(entries, CATEGORY_NAMES).0;
    OrganizeLeavesOnlyFolders(ready, listing, failing);
    var once := MoveAll(ready, listing, failing);
    MakeDirsOfFolders(once, CATEGORY_NAMES);
    NothingToMove(once, listing2, failing2);
  }
}
