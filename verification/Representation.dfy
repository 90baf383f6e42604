/** The length-prefixed byte representation of a candidate: built in one pass over the sorted
    paths, and uniquely decodable. Bytes are characters 0 to 255. */
module Representation {
  import opened Common
  import opened Text
  import opened JsonTree

  /** Git mode and content id of a present path. */
  type Entry = (string, string)

  const FORMAT_VERSION := "candidate-fingerprint 3"
  const NUL := [0 as char]
  const FIELD_LIMIT := 0x1_0000_0000_0000_0000

  function BigEndian(n: nat, width: nat): (s: string)
    ensures |s| == width
  {
    if width == 0 then "" else BigEndian(n / 256, width - 1) + [(n % 256) as char]
  }

  function Number(s: string): nat {
    if s == "" then 0 else 256 * Number(s[..|s| - 1]) + s[|s| - 1] as int
  }

  function Power256(k: nat): nat {
    if k == 0 then 1 else 256 * Power256(k - 1)
  }

  lemma {:induction false} BigEndianNumber(n: nat, width: nat)
    requires n < Power256(width)
    ensures Number(BigEndian(n, width)) == n
  {
    if width > 0 {
      BigEndianNumber(n / 256, width - 1);
    }
  }

  /** Eight bytes of length, then the data; longer data does not fit the prefix. */
  function Field(data: string): Option<string> {
    if |data| < FIELD_LIMIT then Some(BigEndian(|data|, 8) + data) else None
  }

  // ---- sorted paths ----

  predicate StrictlySorted(paths: seq<string>) {
    forall i, j | 0 <= i < j < |paths| :: Less(paths[i], paths[j])
  }

  lemma Irreflexive(path: string)
    ensures !Less(path, path)
  {
    Trichotomy(path, path);
  }

  function Insert(paths: seq<string>, path: string): seq<string> {
    if paths == [] || Less(path, paths[0]) then [path] + paths
    else if path == paths[0] then paths
    else [paths[0]] + Insert(paths[1..], path)
  }

  /** Python's `sorted(set(paths))`. */
  function Sorted(paths: seq<string>): seq<string> {
    if paths == [] then [] else Insert(Sorted(paths[1..]), paths[0])
  }

  lemma {:induction false} InsertSorts(paths: seq<string>, path: string)
    requires StrictlySorted(paths)
    ensures StrictlySorted(Insert(paths, path))
    ensures forall p :: p in Insert(paths, path) <==> p in paths || p == path
  {
    if paths == [] {
    } else if Less(path, paths[0]) {
      forall i | 0 <= i < |paths|
        ensures Less(path, paths[i])
      {
        if i > 0 {
          Transitivity(path, paths[0], paths[i]);
        }
      }
    } else if path != paths[0] {
      Trichotomy(path, paths[0]);
      var rest := Insert(paths[1..], path);
      InsertSorts(paths[1..], path);
      assert paths == [paths[0]] + paths[1..];
      forall i | 0 <= i < |rest|
        ensures Less(paths[0], rest[i])
      {
        assert rest[i] in rest;
      }
    }
  }

  lemma {:induction false} SortedSorts(paths: seq<string>)
    ensures StrictlySorted(Sorted(paths))
    ensures forall p :: p in Sorted(paths) <==> p in paths
  {
    if paths != [] {
      SortedSorts(paths[1..]);
      InsertSorts(Sorted(paths[1..]), paths[0]);
      assert paths == [paths[0]] + paths[1..];
    }
  }

  /** A strictly sorted sequence is determined by its elements. */
  lemma {:induction false} SortedIsUnique(a: seq<string>, b: seq<string>)
    requires StrictlySorted(a) && StrictlySorted(b)
    requires forall p :: p in a <==> p in b
    ensures a == b
    decreases |a|
  {
    assert a != [] ==> a[0] in a && a[0] in b;
    assert b != [] ==> b[0] in b && b[0] in a;
    if a != [] {
      FirstIsLeast(a, b[0]);
      FirstIsLeast(b, a[0]);
      Trichotomy(a[0], b[0]);
      forall p
        ensures p in a[1..] <==> p in b[1..]
      {
        TailMembers(a, p);
        TailMembers(b, p);
      }
      SortedIsUnique(a[1..], b[1..]);
      assert a == [a[0]] + a[1..] && b == [b[0]] + b[1..];
    }
  }

  lemma FirstIsLeast(a: seq<string>, p: string)
    requires StrictlySorted(a) && p in a
    ensures p == a[0] || Less(a[0], p)
  {}

  lemma TailMembers(a: seq<string>, p: string)
    requires StrictlySorted(a) && a != []
    ensures p in a[1..] <==> p in a && p != a[0]
  {
    Trichotomy(a[0], a[0]);
    assert a == [a[0]] + a[1..];
  }

  // ---- building ----

  function Names(files: seq<(string, Entry)>): (names: seq<string>)
    ensures |names| == |files|
  {
    seq(|files|, i requires 0 <= i < |files| => files[i].0)
  }

  function Lookup(files: seq<(string, Entry)>, path: string): Option<Entry>
    requires Distinct(files)
  {
    if path in Dict(files) then Some(Dict(files)[path]) else None
  }

  function Chunk(path: string, entry: Option<Entry>): Option<string> {
    if Field(path).None? then None
    else if entry.None? then Some("D" + Field(path).value)
    else if Field(entry.value.1).None? then None
    else Some("F" + Field(path).value + entry.value.0 + Field(entry.value.1).value)
  }

  function Header(base: string, objfmt: string): string {
    FORMAT_VERSION + NUL + ("base " + base + NUL) + ("objfmt " + objfmt + NUL)
  }

  type Files = seq<(string, Entry)>

  type Item = (string, Option<Entry>)

  /** One item per sorted path: an entry when the path has one, otherwise a deletion. */
  function Items(paths: seq<string>, files: seq<(string, Entry)>): (items: seq<Item>)
    requires Distinct(files)
    ensures |items| == |paths|
  {
    seq(|paths|, i requires 0 <= i < |paths| => (paths[i], Lookup(files, paths[i])))
  }

  function Body(items: seq<Item>): Option<string> {
    if items == [] then Some("")
    else
      var before, last := Body(items[..|items| - 1]), Chunk(items[|items| - 1].0, items[|items| - 1].1);
      if before.None? || last.None? then None else Some(before.value + last.value)
  }

  function Representation(base: string, objfmt: string, deleted: seq<string>, files: seq<(string, Entry)>)
    : Option<string>
    requires Distinct(files)
  {
    var body := Body(Items(Sorted(deleted + Names(files)), files));
    if body.None? then None else Some(Header(base, objfmt) + body.value)
  }

  lemma {:induction false} BodyFails(items: seq<Item>, k: nat)
    requires k <= |items| && Body(items[..k]).None?
    ensures Body(items).None?
    decreases |items| - k
  {
    if k == |items| {
      assert items[..k] == items;
    } else {
      assert items[..k + 1][..k] == items[..k];
      BodyFails(items, k + 1);
    }
  }

  lemma NoItems(items: seq<Item>)
    ensures Body(items[..0]) == Some("")
  {
  }

  lemma NextItem(items: seq<Item>, i: nat)
    requires i < |items|
    ensures var before, chunk := Body(items[..i]), Chunk(items[i].0, items[i].1);
            Body(items[..i + 1]) == if before.None? || chunk.None? then None else Some(before.value + chunk.value)
  {
    assert items[..i + 1][..i] == items[..i];
  }

  /** The builder's own loop: one chunk appended per sorted path. */
  method BuildRepresentation(base: string, objfmt: string, deleted: seq<string>, files: seq<(string, Entry)>)
    returns (bytes: Option<string>)
    requires Distinct(files)
    ensures bytes == Representation(base, objfmt, deleted, files)
  {
    hide Sorted, Field, Distinct, Dict;
    var paths := Sorted(deleted + Names(files));
    ghost var items := Items(paths, files);
    var chunks := FORMAT_VERSION + NUL + ("base " + base + NUL) + ("objfmt " + objfmt + NUL);
    assert chunks == Header(base, objfmt);
    hide Header, Lookup, Body;
    NoItems(items);
    for i := 0 to |paths|
      invariant Body(items[..i]).Some? && chunks == Header(base, objfmt) + Body(items[..i]).value
    {
      NextItem(items, i);
      var path := Field(paths[i]);
      if path.None? {
        BodyFails(items, i + 1);
        return None;
      }
      var entry := Lookup(files, paths[i]);
      if entry.None? {
        chunks := chunks + ("D" + path.value);
      } else {
        var id := Field(entry.value.1);
        if id.None? {
          BodyFails(items, i + 1);
          return None;
        }
        chunks := chunks + ("F" + path.value + entry.value.0 + id.value);
      }
    }
    assert items[..|paths|] == items;
    return Some(chunks);
  }

  // ---- reading back ----

  /** A field and what follows it. */
  function ReadField(s: string): Option<(string, string)> {
    if |s| >= 8 && Number(s[..8]) <= |s| - 8 then
      var n := Number(s[..8]);
      Some((s[8..8 + n], s[8 + n..]))
    else None
  }

  function ReadItems(s: string): Option<seq<Item>>
    decreases |s|
  {
    if s == "" then Some([])
    else
      var path := ReadField(s[1..]);
      if path.None? then None
      else if s[0] == 'D' then
        var rest := ReadItems(path.value.1);
        if rest.None? then None else Some([(path.value.0, None)] + rest.value)
      else if s[0] == 'F' && |path.value.1| >= 6 then
        var id := ReadField(path.value.1[6..]);
        if id.None? then None
        else
          var rest := ReadItems(id.value.1);
          if rest.None? then None else Some([(path.value.0, Some((path.value.1[..6], id.value.0)))] + rest.value)
      else None
  }

  /** Text up to the first NUL, and what follows it. */
  function UpToNul(s: string): Option<(string, string)> {
    if s == "" then None
    else if s[0] == NUL[0] then Some(("", s[1..]))
    else
      var rest := UpToNul(s[1..]);
      if rest.None? then None else Some(([s[0]] + rest.value.0, rest.value.1))
  }

  function After(s: string, prefix: string): Option<string> {
    if prefix <= s then Some(s[|prefix|..]) else None
  }

  datatype Candidate = Candidate(base: string, objfmt: string, items: seq<Item>)

  function Read(s: string): Option<Candidate> {
    var s1 := After(s, FORMAT_VERSION + NUL + "base ");
    if s1.None? then None
    else
      var base := UpToNul(s1.value);
      if base.None? then None
      else
        var s2 := After(base.value.1, "objfmt ");
        if s2.None? then None
        else
          var objfmt := UpToNul(s2.value);
          if objfmt.None? then None
          else
            var items := ReadItems(objfmt.value.1);
            if items.None? then None else Some(Candidate(base.value.0, objfmt.value.0, items.value))
  }

  lemma FieldReads(data: string, rest: string)
    requires Field(data).Some?
    ensures ReadField(Field(data).value + rest) == Some((data, rest))
  {
    var s := Field(data).value + rest;
    assert Power256(4) == 0x1_0000_0000;
    assert Power256(8) == 256 * (256 * (256 * (256 * Power256(4))));
    BigEndianNumber(|data|, 8);
    assert s[..8] == BigEndian(|data|, 8);
    assert s[8..8 + |data|] == data && s[8 + |data|..] == rest;
  }

  lemma {:induction false} NulEnds(text: string, rest: string)
    requires NUL[0] !in text
    ensures UpToNul(text + NUL + rest) == Some((text, rest))
  {
    if text == "" {
      assert (text + NUL + rest)[1..] == rest;
    } else {
      assert text[0] in text && [text[0]] + text[1..] == text;
      NulEnds(text[1..], rest);
      assert (text + NUL + rest)[1..] == text[1..] + NUL + rest;
    }
  }

  predicate SixByteModes(items: seq<Item>) {
    forall i | 0 <= i < |items| :: items[i].1.Some? ==> |items[i].1.value.0| == 6
  }

  lemma ChunkReads(item: Item, rest: string)
    requires Chunk(item.0, item.1).Some? && (item.1.Some? ==> |item.1.value.0| == 6)
    ensures var tail := ReadItems(rest);
            ReadItems(Chunk(item.0, item.1).value + rest) == if tail.None? then None else Some([item] + tail.value)
  {
    hide Field, ReadField;
    var s := Chunk(item.0, item.1).value + rest;
    if item.1.None? {
      assert s[1..] == Field(item.0).value + rest;
      FieldReads(item.0, rest);
    } else {
      var mode, id := item.1.value.0, item.1.value.1;
      var after := mode + (Field(id).value + rest);
      assert s[1..] == Field(item.0).value + after;
      FieldReads(item.0, after);
      assert after[..6] == mode && after[6..] == Field(id).value + rest;
      FieldReads(id, rest);
    }
  }

  lemma {:induction false} BodyReads(items: seq<Item>, rest: string)
    requires Body(items).Some? && SixByteModes(items)
    ensures var tail := ReadItems(rest);
            ReadItems(Body(items).value + rest) == if tail.None? then None else Some(items + tail.value)
    decreases |items|
  {
    hide Chunk, ReadItems;
    if items == [] {
      assert Body(items).value + rest == rest;
      if ReadItems(rest).Some? {
        assert items + ReadItems(rest).value == ReadItems(rest).value;
      }
    } else {
      var before, last := items[..|items| - 1], items[|items| - 1];
      var chunk := Chunk(last.0, last.1).value;
      ChunkReads(last, rest);
      BodyReads(before, chunk + rest);
      assert Body(items).value + rest == Body(before).value + (chunk + rest);
      if ReadItems(rest).Some? {
        assert before + ([last] + ReadItems(rest).value) == items + ReadItems(rest).value;
      }
    }
  }

  /** Reading inverts building. */
  lemma ReadInvertsBuild(base: string, objfmt: string, items: seq<Item>)
    requires NUL[0] !in base && NUL[0] !in objfmt && SixByteModes(items) && Body(items).Some?
    ensures Read(Header(base, objfmt) + Body(items).value) == Some(Candidate(base, objfmt, items))
  {
    hide Body, ReadItems;
    var body := Body(items).value;
    var s := Header(base, objfmt) + body;
    var s1 := base + NUL + ("objfmt " + objfmt + NUL + body);
    assert s == FORMAT_VERSION + NUL + "base " + s1;
    assert s[|FORMAT_VERSION + NUL + "base "|..] == s1;
    NulEnds(base, "objfmt " + objfmt + NUL + body);
    var s2 := objfmt + NUL + body;
    assert "objfmt " + objfmt + NUL + body == "objfmt " + s2;
    assert ("objfmt " + s2)[|"objfmt "|..] == s2;
    NulEnds(objfmt, body);
    BodyReads(items, "");
    assert body + "" == body && items + [] == items;
    EmptyReads();
  }

  lemma EmptyReads()
    ensures ReadItems("") == Some([])
  {}

  predicate WellFormed(base: string, objfmt: string, files: seq<(string, Entry)>) {
    && NUL[0] !in base && NUL[0] !in objfmt && Distinct(files)
    && forall i | 0 <= i < |files| :: |files[i].1.0| == 6
  }

  /** The same present entries, and the same deletions among the paths without one. */
  ghost predicate SameCandidate(deleted1: seq<string>, files1: Files, deleted2: seq<string>, files2: Files)
    requires Distinct(files1) && Distinct(files2)
  {
    && (forall p :: Lookup(files1, p) == Lookup(files2, p))
    && (forall p :: Lookup(files1, p).None? ==> (p in deleted1 <==> p in deleted2))
  }

  lemma NamesArePresent(files: seq<(string, Entry)>, p: string)
    requires Distinct(files)
    ensures p in Names(files) <==> Lookup(files, p).Some?
  {
    if p in Names(files) {
      var i :| 0 <= i < |files| && Names(files)[i] == p;
      assert files[i].0 == p;
    }
    if p in Dict(files) {
      var i :| 0 <= i < |files| && files[i].0 == p;
      assert Names(files)[i] == p;
    }
  }

  lemma PathsAre(deleted: seq<string>, files: seq<(string, Entry)>, p: string)
    requires Distinct(files)
    ensures p in Sorted(deleted + Names(files)) <==> p in deleted || Lookup(files, p).Some?
  {
    SortedSorts(deleted + Names(files));
    NamesArePresent(files, p);
  }

  /** Equal candidates have equal items, whatever the order deletions and files were listed in. */
  lemma SameItems(deleted1: seq<string>, files1: Files, deleted2: seq<string>, files2: Files)
    requires Distinct(files1) && Distinct(files2) && SameCandidate(deleted1, files1, deleted2, files2)
    ensures Items(Sorted(deleted1 + Names(files1)), files1) == Items(Sorted(deleted2 + Names(files2)), files2)
  {
    var paths1, paths2 := Sorted(deleted1 + Names(files1)), Sorted(deleted2 + Names(files2));
    SortedSorts(deleted1 + Names(files1));
    SortedSorts(deleted2 + Names(files2));
    hide Sorted, Lookup;
    forall p
      ensures p in paths1 <==> p in paths2
    {
      PathsAre(deleted1, files1, p);
      PathsAre(deleted2, files2, p);
    }
    SortedIsUnique(paths1, paths2);
  }

  /** Equal items come from equal candidates. */
  lemma ItemsDetermine(deleted1: seq<string>, files1: Files, deleted2: seq<string>, files2: Files)
    requires Distinct(files1) && Distinct(files2)
    requires Items(Sorted(deleted1 + Names(files1)), files1) == Items(Sorted(deleted2 + Names(files2)), files2)
    ensures SameCandidate(deleted1, files1, deleted2, files2)
  {
    var paths1, paths2 := Sorted(deleted1 + Names(files1)), Sorted(deleted2 + Names(files2));
    hide Sorted, Lookup;
    var items1, items2 := Items(paths1, files1), Items(paths2, files2);
    assert forall i | 0 <= i < |items1| :: items1[i].0 == paths1[i] && items1[i].1 == Lookup(files1, paths1[i]);
    assert forall i | 0 <= i < |items2| :: items2[i].0 == paths2[i] && items2[i].1 == Lookup(files2, paths2[i]);
    assert paths1 == paths2;
    forall p
      ensures Lookup(files1, p) == Lookup(files2, p)
      ensures Lookup(files1, p).None? ==> (p in deleted1 <==> p in deleted2)
    {
      PathsAre(deleted1, files1, p);
      PathsAre(deleted2, files2, p);
      if p in paths1 {
        var i :| 0 <= i < |paths1| && paths1[i] == p;
        assert items1[i].1 == items2[i].1;
      }
    }
  }

  lemma ItemsWellFormed(base: string, objfmt: string, paths: seq<string>, files: seq<(string, Entry)>)
    requires WellFormed(base, objfmt, files)
    ensures SixByteModes(Items(paths, files))
  {}

  /** The bytes identify the candidate: two representations are equal exactly when base, object
      format, present entries and deletions are, in whatever order they were listed. */
  lemma RepresentationIdentifies(base1: string, objfmt1: string, deleted1: seq<string>, files1: seq<(string, Entry)>,
                                 base2: string, objfmt2: string, deleted2: seq<string>, files2: seq<(string, Entry)>)
    requires WellFormed(base1, objfmt1, files1) && WellFormed(base2, objfmt2, files2)
    requires Representation(base1, objfmt1, deleted1, files1).Some?
    requires Representation(base2, objfmt2, deleted2, files2).Some?
    ensures Representation(base1, objfmt1, deleted1, files1) == Representation(base2, objfmt2, deleted2, files2)
            <==> base1 == base2 && objfmt1 == objfmt2 && SameCandidate(deleted1, files1, deleted2, files2)
  {
    hide Sorted, Items, Body, Header, SixByteModes, SameCandidate, Read;
    var paths1, paths2 := Sorted(deleted1 + Names(files1)), Sorted(deleted2 + Names(files2));
    ItemsWellFormed(base1, objfmt1, paths1, files1);
    ItemsWellFormed(base2, objfmt2, paths2, files2);
    ReadInvertsBuild(base1, objfmt1, Items(paths1, files1));
    ReadInvertsBuild(base2, objfmt2, Items(paths2, files2));
    if Representation(base1, objfmt1, deleted1, files1) == Representation(base2, objfmt2, deleted2, files2) {
      ItemsDetermine(deleted1, files1, deleted2, files2);
    }
    if SameCandidate(deleted1, files1, deleted2, files2) {
      SameItems(deleted1, files1, deleted2, files2);
    }
  }

  /** A NUL inside the base name would break this: two different pairs share their bytes. */
  lemma NulInBaseIsAmbiguous()
    ensures Representation("a", "b" + NUL + "objfmt c", [], []) == Representation("a" + NUL + "objfmt b", "c", [], [])
    ensures Representation("a", "b" + NUL + "objfmt c", [], []).Some?
  {
    var start := FORMAT_VERSION + NUL;
    var middle := "base a" + NUL + "objfmt b" + NUL + "objfmt c" + NUL;
    assert "base " + "a" == "base a" && "objfmt " + "c" == "objfmt c";
    assert Header("a", "b" + NUL + "objfmt c") == start + middle;
    assert Header("a" + NUL + "objfmt b", "c") == start + middle;
  }
}
