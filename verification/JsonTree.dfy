/** JSON documents as the parser delivers them: object members in order, names possibly repeated. */
module JsonTree {
  import opened Common
  import opened Text

  /** Integers are separate from every other number form, which keeps its literal. */
  datatype Json =
    | JNull
    | JBool(b: bool)
    | JInt(n: int)
    | JFloat(literal: string)
    | JString(s: string)
    | JArray(elements: seq<Json>)
    | JObject(pairs: seq<(string, Json)>)

  predicate Distinct<T(==)>(pairs: seq<(string, T)>) {
    forall i, j | 0 <= i < j < |pairs| :: pairs[i].0 != pairs[j].0
  }

  /** The dictionary of an object without repeated names. */
  function Dict<T>(pairs: seq<(string, T)>): map<string, T>
    requires Distinct(pairs)
  {
    map i | 0 <= i < |pairs| :: pairs[i].0 := pairs[i].1
  }

  /** The members' hook: fills a dictionary in order and refuses at the first repeated name
      (section 4 of RFC 8259 leaves such names to the receiver). */
  method UniquePairs<T>(pairs: seq<(string, T)>) returns (r: Option<map<string, T>>)
    ensures r.Some? <==> Distinct(pairs)
    ensures r.Some? ==> r.value == Dict(pairs)
  {
    var result: map<string, T> := map[];
    for k := 0 to |pairs|
      invariant forall i, j | 0 <= i < j < k :: pairs[i].0 != pairs[j].0
      invariant forall i | 0 <= i < k :: pairs[i].0 in result && result[pairs[i].0] == pairs[i].1
      invariant forall name | name in result :: exists i | 0 <= i < k :: pairs[i].0 == name
    {
      if pairs[k].0 in result {
        return None;
      }
      result := result[pairs[k].0 := pairs[k].1];
    }
    return Some(result);
  }

  /** No object at any depth repeats a name. */
  predicate DuplicateFree(j: Json) {
    match j
    case JArray(elements) => forall e | e in elements :: DuplicateFree(e)
    case JObject(pairs) => Distinct(pairs) && forall p | p in pairs :: DuplicateFree(p.1)
    case _ => true
  }

  /** What lies below a document: the elements of an array, the values of an object. */
  function Children(j: Json): seq<Json> {
    match j
    case JArray(elements) => elements
    case JObject(pairs) => seq(|pairs|, i requires 0 <= i < |pairs| => pairs[i].1)
    case _ => []
  }

  /** What a path of positions leads to. */
  function At(j: Json, path: seq<nat>): Option<Json> {
    if path == [] then Some(j)
    else if path[0] < |Children(j)| then At(Children(j)[path[0]], path[1..])
    else None
  }

  predicate NoRepeatAt(j: Json, path: seq<nat>) {
    match At(j, path)
    case Some(JObject(pairs)) => Distinct(pairs)
    case _ => true
  }

  /** Wherever a path leads, an object there has no repeated name, and the other way round. */
  lemma DuplicateFreeMeaning(j: Json)
    ensures DuplicateFree(j) <==> forall path :: NoRepeatAt(j, path)
  {
    if DuplicateFree(j) {
      forall path
        ensures NoRepeatAt(j, path)
      {
        NoRepeatBelow(j, path);
      }
    }
    if forall path :: NoRepeatAt(j, path) {
      FreeByPaths(j);
    }
  }

  lemma {:induction false} NoRepeatBelow(j: Json, path: seq<nat>)
    requires DuplicateFree(j)
    ensures NoRepeatAt(j, path)
    decreases |path|
  {
    if path != [] && path[0] < |Children(j)| {
      ChildrenAreFree(j, path[0]);
      NoRepeatBelow(Children(j)[path[0]], path[1..]);
    }
  }

  lemma ChildrenAreFree(j: Json, i: nat)
    requires DuplicateFree(j) && i < |Children(j)|
    ensures DuplicateFree(Children(j)[i])
  {
    match j
    case JArray(elements) =>
      assert elements[i] in elements;
    case JObject(pairs) =>
      assert pairs[i] in pairs;
    case _ =>
  }

  lemma {:induction false} FreeByPaths(j: Json)
    requires forall path :: NoRepeatAt(j, path)
    ensures DuplicateFree(j)
  {
    assert NoRepeatAt(j, []);
    match j
    case JArray(elements) =>
      forall i | 0 <= i < |elements|
        ensures DuplicateFree(elements[i])
      {
        PathsBelow(j, i);
        FreeByPaths(elements[i]);
      }
    case JObject(pairs) =>
      forall i | 0 <= i < |pairs|
        ensures DuplicateFree(pairs[i].1)
      {
        PathsBelow(j, i);
        assert Children(j)[i] == pairs[i].1;
        FreeByPaths(pairs[i].1);
      }
    case _ =>
  }

  lemma PathsBelow(j: Json, i: nat)
    requires i < |Children(j)| && forall path :: NoRepeatAt(j, path)
    ensures forall path :: NoRepeatAt(Children(j)[i], path)
  {
    forall path
      ensures NoRepeatAt(Children(j)[i], path)
    {
      assert NoRepeatAt(j, [i] + path);
      assert ([i] + path)[1..] == path;
    }
  }

  lemma ObjectIsDuplicateFree(pairs: seq<(string, Json)>, names: seq<string>)
    requires |pairs| == |names| && forall i | 0 <= i < |names| :: pairs[i].0 == names[i]
    requires forall i, j | 0 <= i < j < |names| :: names[i] != names[j]
    requires forall i | 0 <= i < |pairs| :: DuplicateFree(pairs[i].1)
    ensures DuplicateFree(JObject(pairs))
  {
  }

  predicate HasExactly(pairs: seq<(string, Json)>, names: set<string>) {
    Distinct(pairs) && Dict(pairs).Keys == names
  }

  /** Members listed under known distinct names are found under those names. */
  lemma DictOf(pairs: seq<(string, Json)>, names: seq<string>)
    requires |pairs| == |names| && forall i | 0 <= i < |names| :: pairs[i].0 == names[i]
    requires forall i, j | 0 <= i < j < |names| :: names[i] != names[j]
    ensures HasExactly(pairs, set name | name in names)
    ensures forall i | 0 <= i < |names| :: names[i] in Dict(pairs) && Dict(pairs)[names[i]] == pairs[i].1
  {
    assert forall i | 0 <= i < |names| :: names[i] in names;
    forall i | 0 <= i < |names|
      ensures names[i] in Dict(pairs) && Dict(pairs)[names[i]] == pairs[i].1
    {
      assert pairs[i].0 == names[i];
    }
  }

  // ---- compact text, for documents whose strings need no escape ----

  predicate PlainText(s: string) {
    forall i | 0 <= i < |s| :: ' ' <= s[i] <= '~' && s[i] != '"' && s[i] != '\\'
  }

  predicate Plain(j: Json) {
    match j
    case JString(s) => PlainText(s)
    case JArray(elements) => forall e | e in elements :: Plain(e)
    case JObject(pairs) => forall p | p in pairs :: PlainText(p.0) && Plain(p.1)
    case _ => true
  }

  function Print(j: Json): string
    requires Plain(j)
  {
    match j
    case JNull => "null"
    case JBool(b) => if b then "true" else "false"
    case JInt(n) => if n < 0 then "-" + Decimal(-n) else Decimal(n)
    case JFloat(literal) => literal
    case JString(s) => "\"" + s + "\""
    case JArray(elements) => "[" + PrintElements(elements) + "]"
    case JObject(pairs) => "{" + PrintMembers(pairs) + "}"
  }

  function PrintElements(elements: seq<Json>): string
    requires forall e | e in elements :: Plain(e)
  {
    if elements == [] then ""
    else Print(elements[0]) + (if |elements| == 1 then "" else "," + PrintElements(elements[1..]))
  }

  function PrintMembers(pairs: seq<(string, Json)>): string
    requires forall p | p in pairs :: PlainText(p.0) && Plain(p.1)
  {
    if pairs == [] then ""
    else PrintMember(pairs[0]) + (if |pairs| == 1 then "" else "," + PrintMembers(pairs[1..]))
  }

  function PrintMember(p: (string, Json)): string
    requires PlainText(p.0) && Plain(p.1)
  {
    "\"" + p.0 + "\":" + Print(p.1)
  }
}
