/** Effective candidate entries from the index and the working tree, and why staging changes nothing. */
module Staging {
  import opened Common
  import opened JsonTree
  import Representation

  type Entry = Representation.Entry

  const REGULAR_MODE := "100644"
  const EXECUTABLE_MODE := "100755"
  const SYMLINK_MODE := "120000"
  const GITLINK_MODE := "160000"

  /** A nested repository: none, one whose head resolves, or one whose head does not. */
  datatype Nested = NotInitialized | Head(id: string) | Unresolvable

  /** What is found at a path, without following links; absent contents could not be read. */
  datatype Kind =
    | Unstattable
    | Absent
    | Link(target: Option<string>)
    | Regular(content: Option<string>, executable: bool)
    | Directory(nested: Nested)
    | Other

  /** The working tree and git's read-only answers about it. */
  datatype World = World(
    kind: string -> Kind,
    trustedFilemode: bool,
    blobId: string -> string,
    filtered: string -> bool,
    cleanId: (string, string) -> Option<string>)

  datatype Error = FingerprintError

  function IndexMode(indexed: Option<Entry>): string {
    if indexed.Some? then indexed.value.0 else ""
  }

  function IndexId(indexed: Option<Entry>): string {
    if indexed.Some? then indexed.value.1 else ""
  }

  function BlobEntry(w: World, content: Option<string>): Result<Option<Entry>, Error> {
    if content.None? then Err(FingerprintError) else Ok(Some((SYMLINK_MODE, w.blobId(content.value))))
  }

  function CleanEntry(w: World, path: string, executable: bool): Result<Option<Entry>, Error> {
    if w.kind(path).Regular? && w.kind(path).content.Some? && !w.filtered(path) then
      var id := w.cleanId(path, w.kind(path).content.value);
      if id.None? then Err(FingerprintError)
      else Ok(Some((if executable then EXECUTABLE_MODE else REGULAR_MODE, id.value)))
    else Err(FingerprintError)
  }

  predicate IsExecutable(w: World, path: string, indexed: Option<Entry>) {
    (w.trustedFilemode && w.kind(path).Regular? && w.kind(path).executable) || IndexMode(indexed) == EXECUTABLE_MODE
  }

  /** A regular working-tree file whose identity needs git's clean rules. */
  predicate NeedsCleaning(w: World, path: string, indexed: Option<Entry>) {
    w.kind(path).Regular? && IndexMode(indexed) != SYMLINK_MODE && IndexMode(indexed) != GITLINK_MODE
  }

  /** The entry of every other kind of path: `Ok(None)` is an effective deletion. */
  function PlainEntry(w: World, path: string, indexed: Option<Entry>): Result<Option<Entry>, Error> {
    match w.kind(path)
    case Unstattable => Err(FingerprintError)
    case Link(target) => BlobEntry(w, target)
    case Regular(content, _) =>
      if IndexMode(indexed) == SYMLINK_MODE then BlobEntry(w, content) else Err(FingerprintError)
    case Directory(nested) =>
      if IndexMode(indexed) != GITLINK_MODE then Ok(None)
      else if nested.Unresolvable? then Err(FingerprintError)
      else Ok(Some((GITLINK_MODE, if nested.Head? then nested.id else IndexId(indexed))))
    case _ =>
      if IndexMode(indexed) == SYMLINK_MODE then Ok(Some((SYMLINK_MODE, IndexId(indexed))))
      else if IndexMode(indexed) == GITLINK_MODE then Err(FingerprintError)
      else Ok(None)
  }

  function EffectiveEntry(w: World, path: string, indexed: Option<Entry>): Result<Option<Entry>, Error> {
    if NeedsCleaning(w, path, indexed) then CleanEntry(w, path, IsExecutable(w, path, indexed))
    else PlainEntry(w, path, indexed)
  }

  function Get(index: map<string, Entry>, path: string): Option<Entry> {
    if path in index then Some(index[path]) else None
  }

  /** Every path of the index or the untracked listing, or an error if any of them is ambiguous. */
  function Effective(w: World, index: map<string, Entry>, untracked: set<string>): Result<map<string, Entry>, Error> {
    if forall p | p in index.Keys + untracked :: EffectiveEntry(w, p, Get(index, p)).Ok? then
      Ok(map p | p in index.Keys + untracked && EffectiveEntry(w, p, Get(index, p)).value.Some?
           :: EffectiveEntry(w, p, Get(index, p)).value.value)
    else Err(FingerprintError)
  }

  predicate Classified(
    w: World, index: map<string, Entry>, path: string, entries: map<string, Entry>, regular: seq<(string, bool)>)
  {
    var indexed := Get(index, path);
    if NeedsCleaning(w, path, indexed) then (path, IsExecutable(w, path, indexed)) in regular
    else PlainEntry(w, path, indexed).Ok? && Get(entries, path) == PlainEntry(w, path, indexed).value
  }

  predicate IsRegular(w: World, index: map<string, Entry>, item: (string, bool)) {
    NeedsCleaning(w, item.0, Get(index, item.0)) && item.1 == IsExecutable(w, item.0, Get(index, item.0))
  }

  predicate Cleaned(w: World, item: (string, bool), entries: map<string, Entry>) {
    var entry := CleanEntry(w, item.0, item.1);
    entry.Ok? && Get(entries, item.0) == entry.value
  }

  predicate Distinctness(regular: seq<(string, bool)>) {
    forall j, k | 0 <= j < k < |regular| :: regular[j].0 != regular[k].0
  }

  /** First pass, in sorted order: links, gitlinks and deletions; regular files are only collected. */
  method Classify(w: World, index: map<string, Entry>, paths: seq<string>)
    returns (r: Result<(map<string, Entry>, seq<(string, bool)>), Error>)
    requires forall i | 0 <= i < |paths| :: paths[i] !in paths[..i]
    ensures r.Err? ==> exists p | p in paths :: EffectiveEntry(w, p, Get(index, p)).Err?
    ensures r.Ok? ==>
              var (entries, regular) := r.value;
              && (forall p | p in paths :: Classified(w, index, p, entries, regular))
              && (forall p | p in entries :: p in paths && !NeedsCleaning(w, p, Get(index, p)))
              && (forall k | 0 <= k < |regular| :: regular[k].0 in paths && IsRegular(w, index, regular[k]))
              && Distinctness(regular)
  {
    hide PlainEntry, CleanEntry, NeedsCleaning, IsExecutable;
    var entries: map<string, Entry> := map[];
    var regular: seq<(string, bool)> := [];
    for i := 0 to |paths|
      invariant forall p | p in paths[..i] :: Classified(w, index, p, entries, regular)
      invariant forall p | p in entries :: p in paths[..i] && !NeedsCleaning(w, p, Get(index, p))
      invariant forall k | 0 <= k < |regular| :: regular[k].0 in paths[..i] && IsRegular(w, index, regular[k])
      invariant Distinctness(regular)
    {
      var path := paths[i];
      var indexed := Get(index, path);
      assert paths[..i + 1] == paths[..i] + [path];
      if NeedsCleaning(w, path, indexed) {
        regular := regular + [(path, IsExecutable(w, path, indexed))];
      } else {
        var entry := PlainEntry(w, path, indexed);
        if entry.Err? {
          assert path in paths && EffectiveEntry(w, path, indexed).Err?;
          return Err(FingerprintError);
        }
        if entry.value.Some? {
          entries := entries[path := entry.value.value];
        }
      }
    }
    assert paths[..|paths|] == paths;
    return Ok((entries, regular));
  }

  /** Second pass: refuse every path with an external clean filter, then add one clean id per file. */
  method CleanRegular(w: World, index: map<string, Entry>, regular: seq<(string, bool)>, plain: map<string, Entry>)
    returns (r: Result<map<string, Entry>, Error>)
    requires forall k | 0 <= k < |regular| :: IsRegular(w, index, regular[k])
    requires Distinctness(regular)
    ensures r.Err? ==> exists k | 0 <= k < |regular| :: EffectiveEntry(w, regular[k].0, Get(index, regular[k].0)).Err?
    ensures r.Ok? ==>
              && (forall k | 0 <= k < |regular| :: Cleaned(w, regular[k], r.value))
              && (forall p :: (forall k | 0 <= k < |regular| :: regular[k].0 != p) ==> Get(r.value, p) == Get(plain, p))
  {
    hide PlainEntry, CleanEntry, NeedsCleaning, IsExecutable, EffectiveEntry;
    var entries := plain;
    for i := 0 to |regular|
      invariant forall k | 0 <= k < i :: !w.filtered(regular[k].0)
    {
      if w.filtered(regular[i].0) {
        RegularFails(w, index, regular[i]);
        return Err(FingerprintError);
      }
    }
    for i := 0 to |regular|
      invariant forall k | 0 <= k < i :: Cleaned(w, regular[k], entries)
      invariant forall p :: (forall k | 0 <= k < i :: regular[k].0 != p) ==> Get(entries, p) == Get(plain, p)
    {
      var item := regular[i];
      var entry := CleanEntry(w, item.0, item.1);
      if entry.Err? {
        RegularFails(w, index, item);
        return Err(FingerprintError);
      }
      CleanIsPresent(w, item);
      entries := entries[item.0 := entry.value.value];
    }
    return Ok(entries);
  }

  lemma RegularFails(w: World, index: map<string, Entry>, item: (string, bool))
    requires IsRegular(w, index, item) && (w.filtered(item.0) || CleanEntry(w, item.0, item.1).Err?)
    ensures EffectiveEntry(w, item.0, Get(index, item.0)).Err?
  {}

  lemma CleanIsPresent(w: World, item: (string, bool))
    requires CleanEntry(w, item.0, item.1).Ok?
    ensures CleanEntry(w, item.0, item.1).value.Some?
  {}

  lemma DistinctPaths(paths: seq<string>)
    requires Representation.StrictlySorted(paths)
    ensures forall i | 0 <= i < |paths| :: paths[i] !in paths[..i]
  {
    forall i, j | 0 <= j < i < |paths|
      ensures paths[j] != paths[i]
    {
      Representation.Irreflexive(paths[i]);
    }
  }

  function Elements(paths: seq<string>): set<string> {
    set p | p in paths
  }

  /** Both passes together compute the effective entries, or fail exactly when some path is ambiguous. */
  method EffectiveEntries(w: World, index: map<string, Entry>, tracked: seq<string>, untracked: seq<string>)
    returns (r: Result<map<string, Entry>, Error>)
    requires forall p :: p in tracked <==> p in index
    ensures r == Effective(w, index, Elements(untracked))
  {
    ghost var all := index.Keys + Elements(untracked);
    var paths := Representation.Sorted(tracked + untracked);
    Representation.SortedSorts(tracked + untracked);
    assert forall p :: p in paths <==> p in all;
    DistinctPaths(paths);
    hide Representation.Sorted, Representation.StrictlySorted, EffectiveEntry;
    var classified := Classify(w, index, paths);
    if classified.Err? {
      ghost var p :| p in paths && EffectiveEntry(w, p, Get(index, p)).Err?;
      assert p in all;
      return Err(FingerprintError);
    }
    var (plain, regular) := classified.value;
    r := CleanRegular(w, index, regular, plain);
    if r.Err? {
      ghost var k :| 0 <= k < |regular| && EffectiveEntry(w, regular[k].0, Get(index, regular[k].0)).Err?;
      assert regular[k].0 in all;
      return Err(FingerprintError);
    } else {
      forall p | p in all
        ensures EffectiveEntry(w, p, Get(index, p)).Ok? && Get(r.value, p) == EffectiveEntry(w, p, Get(index, p)).value
      {
        PathIsEffective(w, index, p, plain, regular, r.value);
      }
      forall p | p in r.value
        ensures p in all
      {
        if forall k | 0 <= k < |regular| :: regular[k].0 != p {
          assert Get(r.value, p) == Get(plain, p);
        }
      }
      SameMap(w, index, Elements(untracked), r.value);
    }
  }

  lemma PathIsEffective(
    w: World, index: map<string, Entry>, p: string, plain: map<string, Entry>, regular: seq<(string, bool)>,
    entries: map<string, Entry>)
    requires Classified(w, index, p, plain, regular)
    requires forall k | 0 <= k < |regular| :: Cleaned(w, regular[k], entries) && IsRegular(w, index, regular[k])
    requires (forall k | 0 <= k < |regular| :: regular[k].0 != p) ==> Get(entries, p) == Get(plain, p)
    ensures EffectiveEntry(w, p, Get(index, p)).Ok? && Get(entries, p) == EffectiveEntry(w, p, Get(index, p)).value
  {
    hide PlainEntry, CleanEntry, NeedsCleaning, IsExecutable;
    if NeedsCleaning(w, p, Get(index, p)) {
      var k :| 0 <= k < |regular| && regular[k] == (p, IsExecutable(w, p, Get(index, p)));
      assert Cleaned(w, regular[k], entries);
    }
  }

  lemma SameMap(w: World, index: map<string, Entry>, untracked: set<string>, entries: map<string, Entry>)
    requires forall p | p in index.Keys + untracked ::
               EffectiveEntry(w, p, Get(index, p)).Ok? && Get(entries, p) == EffectiveEntry(w, p, Get(index, p)).value
    requires entries.Keys <= index.Keys + untracked
    ensures Effective(w, index, untracked) == Ok(entries)
  {
    hide EffectiveEntry;
    var r := Effective(w, index, untracked);
    assert r.Ok?;
    forall p | p in index.Keys + untracked
      ensures p in r.value <==> p in entries
      ensures p in entries ==> r.value[p] == entries[p]
    {
      assert Get(entries, p) == EffectiveEntry(w, p, Get(index, p)).value;
    }
    assert r.value == entries;
  }

  // ---- what an effective entry is, by the kind of path and the mode in the index ----

  /** The path's identity cannot be told. */
  predicate Ambiguous(w: World, path: string, mode: string) {
    match w.kind(path)
    case Unstattable => true
    case Link(target) => target.None?
    case Regular(content, _) =>
      || mode == "160000"
      || content.None?
      || (mode != "120000" && (w.filtered(path) || w.cleanId(path, content.value).None?))
    case Directory(nested) => mode == "160000" && nested.Unresolvable?
    case Absent => mode == "160000"
    case Other => mode == "160000"
  }

  /** Nothing at the path could be staged: it counts as deleted. */
  predicate Gone(w: World, path: string, mode: string) {
    match w.kind(path)
    case Directory(_) => mode != "160000"
    case Absent => mode != "160000" && mode != "120000"
    case Other => mode != "160000" && mode != "120000"
    case _ => false
  }

  /** The mode and id of everything else. */
  function Identity(w: World, path: string, mode: string, id: string): Entry
    requires !Ambiguous(w, path, mode) && !Gone(w, path, mode)
  {
    match w.kind(path)
    case Link(target) => ("120000", w.blobId(target.value))
    case Regular(content, executable) =>
      if mode == "120000" then ("120000", w.blobId(content.value))
      else
        var runnable := (executable && w.trustedFilemode) || mode == "100755";
        (if runnable then "100755" else "100644", w.cleanId(path, content.value).value)
    case Directory(Head(head)) => ("160000", head)
    case Directory(_) => ("160000", id)
    case _ => ("120000", id)
  }

  lemma EntryMeaning(w: World, path: string, indexed: Option<Entry>)
    ensures var (mode, id) := if indexed.Some? then indexed.value else ("", "");
            EffectiveEntry(w, path, indexed) ==
            if Ambiguous(w, path, mode) then Err(FingerprintError)
            else if Gone(w, path, mode) then Ok(None)
            else Ok(Some(Identity(w, path, mode, id)))
  {
  }

  function ModeAt(index: map<string, Entry>, path: string): string {
    if path in index then index[path].0 else ""
  }

  function IdAt(index: map<string, Entry>, path: string): string {
    if path in index then index[path].1 else ""
  }

  /** The effective entries exist exactly when no indexed or untracked path is ambiguous; they then hold exactly
      the paths among these that are not gone, each with its identity. */
  lemma EffectiveMeaning(w: World, index: map<string, Entry>, untracked: set<string>)
    ensures var all, r := index.Keys + untracked, Effective(w, index, untracked);
            && (r.Ok? <==> forall p | p in all :: !Ambiguous(w, p, ModeAt(index, p)))
            && (r.Ok? ==> forall p :: p in r.value <==> p in all && !Gone(w, p, ModeAt(index, p)))
            && (r.Ok? ==> forall p | p in r.value ::
                  !Ambiguous(w, p, ModeAt(index, p)) && !Gone(w, p, ModeAt(index, p))
                  && r.value[p] == Identity(w, p, ModeAt(index, p), IdAt(index, p)))
  {
    hide EffectiveEntry, Ambiguous, Gone, Identity;
    forall p | p in index.Keys + untracked
      ensures EffectiveEntry(w, p, Get(index, p)) ==
              if Ambiguous(w, p, ModeAt(index, p)) then Err(FingerprintError)
              else if Gone(w, p, ModeAt(index, p)) then Ok(None)
              else Ok(Some(Identity(w, p, ModeAt(index, p), IdAt(index, p))))
    {
      EntryMeaning(w, p, Get(index, p));
    }
  }

  // ---- staging ----

  /** Writing the effective entry of some paths into the index, removing those effectively deleted. */
  function StagedIndex(index: map<string, Entry>, present: map<string, Entry>, paths: set<string>): map<string, Entry> {
    map p | p in index.Keys + present.Keys && (if p in paths then p in present else p in index)
      :: if p in paths then present[p] else index[p]
  }

  /** What was staged is no longer untracked. */
  function StagedUntracked(untracked: set<string>, present: map<string, Entry>, paths: set<string>): set<string> {
    untracked - (paths * present.Keys)
  }

  /** A path's own effective entry, once in the index, is its effective entry again. */
  lemma StagedEntryStays(w: World, path: string, indexed: Option<Entry>)
    requires EffectiveEntry(w, path, indexed).Ok?
    ensures EffectiveEntry(w, path, EffectiveEntry(w, path, indexed).value) == EffectiveEntry(w, path, indexed)
  {}

  /** Staging any subset of paths leaves the effective entries as they were. */
  lemma StagingChangesNothing(w: World, index: map<string, Entry>, untracked: set<string>, paths: set<string>)
    requires Effective(w, index, untracked).Ok?
    ensures var present := Effective(w, index, untracked).value;
            Effective(w, StagedIndex(index, present, paths), StagedUntracked(untracked, present, paths)) == Ok(present)
  {
    var present := Effective(w, index, untracked).value;
    var index', untracked' := StagedIndex(index, present, paths), StagedUntracked(untracked, present, paths);
    assert forall p | p in index.Keys + untracked :: EffectiveEntry(w, p, Get(index, p)).Ok?;
    hide EffectiveEntry;
    forall p | p in index'.Keys + untracked'
      ensures EffectiveEntry(w, p, Get(index', p)).Ok? && Get(present, p) == EffectiveEntry(w, p, Get(index', p)).value
    {
      assert p in index.Keys + untracked;
      assert Get(present, p) == EffectiveEntry(w, p, Get(index, p)).value;
      StagedEntryStays(w, p, Get(index, p));
    }
    SameMap(w, index', untracked', present);
  }

  // ---- the diff against the base tree, and its bytes ----

  /** A listing of the changed files and of the deleted base paths, in any order. */
  ghost predicate IsDiff(
    base: map<string, Entry>, present: map<string, Entry>, deleted: seq<string>, files: seq<(string, Entry)>)
  {
    && Distinct(files)
    && Dict(files) == (map p | p in present && Get(base, p) != Some(present[p]) :: present[p])
    && (forall p :: p in deleted <==> p in base && p !in present)
  }

  /** Staging never changes the representation: for any diff listed before and any listed after
      staging any subset of paths, the bytes are the same. */
  lemma StagingKeepsBytes(w: World, index: map<string, Entry>, untracked: set<string>, paths: set<string>,
                          baseTree: map<string, Entry>, base: string, objfmt: string,
                          deleted1: seq<string>, files1: seq<(string, Entry)>,
                          deleted2: seq<string>, files2: seq<(string, Entry)>)
    requires Effective(w, index, untracked).Ok?
    requires IsDiff(baseTree, Effective(w, index, untracked).value, deleted1, files1)
    requires var present := Effective(w, index, untracked).value;
             var staged := Effective(w, StagedIndex(index, present, paths), StagedUntracked(untracked, present, paths));
             staged.Ok? ==> IsDiff(baseTree, staged.value, deleted2, files2)
    requires Distinct(files2)
    ensures Representation.Representation(base, objfmt, deleted1, files1) ==
            Representation.Representation(base, objfmt, deleted2, files2)
  {
    hide Effective;
    StagingChangesNothing(w, index, untracked, paths);
    Representation.SameItems(deleted1, files1, deleted2, files2);
  }
}
