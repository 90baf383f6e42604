/** The per-node secret tokens: every node its own. */
module Credentials {
  import opened Common
  import opened Text
  import opened JsonTree

  datatype Fault = BlankNode | BlankToken(node: string) | SharedToken(owner: string, node: string)

  /** The first k entries (node, token) may form a credential set. */
  predicate SoundUpTo(entries: seq<(string, string)>, k: nat)
    requires k <= |entries|
  {
    && (forall i | 0 <= i < k :: !Blank(entries[i].0) && !Blank(entries[i].1))
    && (forall i, j | 0 <= i < j < k :: entries[i].1 != entries[j].1)
  }

  predicate Sound(entries: seq<(string, string)>) {
    SoundUpTo(entries, |entries|)
  }

  predicate Owns(entries: seq<(string, string)>, k: nat, owner: string, token: string)
    requires k <= |entries|
  {
    exists i | 0 <= i < k :: entries[i] == (owner, token)
  }

  /** The first entry that cannot be taken, and why. */
  ghost predicate FirstFault(entries: seq<(string, string)>, k: nat, fault: Fault) {
    && k < |entries| && SoundUpTo(entries, k)
    && var (node, token) := entries[k];
       match fault
       case BlankNode => Blank(node)
       case BlankToken(named) => !Blank(node) && Blank(token) && named == node
       case SharedToken(owner, named) =>
         !Blank(node) && !Blank(token) && named == node && Owns(entries, k, owner, token)
  }

  /** Fills the node and the owner dictionaries in one pass and stops at the first fault. */
  method MakeNodeCredentials(entries: seq<(string, string)>) returns (r: Result<map<string, string>, Fault>)
    requires Distinct(entries)
    ensures r.Ok? <==> Sound(entries)
    ensures r.Ok? ==> r.value == Dict(entries)
    ensures r.Err? ==> exists k: nat :: FirstFault(entries, k, r.error)
  {
    hide Blank, Owns, SoundUpTo;
    var validated: map<string, string>, owner: map<string, string> := map[], map[];
    Nothing(entries);
    for k := 0 to |entries|
      invariant SoundUpTo(entries, k)
      invariant Recorded(entries, k, owner)
      invariant forall i | 0 <= i < k :: entries[i].0 in validated && validated[entries[i].0] == entries[i].1
      invariant forall node | node in validated :: exists i | 0 <= i < k :: entries[i].0 == node
    {
      var (node, token) := entries[k];
      if Blank(node) || Blank(token) || token in owner {
        var fault := if Blank(node) then BlankNode
                     else if Blank(token) then BlankToken(node)
                     else SharedToken(owner[token], node);
        TakeFails(entries, k, owner);
        assert FirstFault(entries, k, fault);
        return Err(fault);
      }
      TakeSucceeds(entries, k, owner);
      owner := owner[token := node];
      validated := validated[node := token];
    }
    return Ok(validated);
  }

  /** The owner dictionary holds the tokens of the first k entries, each with a node that has it. */
  ghost predicate Recorded(entries: seq<(string, string)>, k: nat, owner: map<string, string>)
    requires k <= |entries|
  {
    && (forall i | 0 <= i < k :: entries[i].1 in owner)
    && (forall token | token in owner :: Owns(entries, k, owner[token], token))
  }

  lemma Nothing(entries: seq<(string, string)>)
    ensures SoundUpTo(entries, 0)
  {
  }

  lemma TakeSucceeds(entries: seq<(string, string)>, k: nat, owner: map<string, string>)
    requires k < |entries| && SoundUpTo(entries, k) && Recorded(entries, k, owner)
    requires !Blank(entries[k].0) && !Blank(entries[k].1) && entries[k].1 !in owner
    ensures SoundUpTo(entries, k + 1) && Recorded(entries, k + 1, owner[entries[k].1 := entries[k].0])
  {
    hide Blank;
    var longer := owner[entries[k].1 := entries[k].0];
    forall token | token in longer
      ensures Owns(entries, k + 1, longer[token], token)
    {
      if token == entries[k].1 {
        assert entries[k] == (longer[token], token);
      }
    }
  }

  lemma TakeFails(entries: seq<(string, string)>, k: nat, owner: map<string, string>)
    requires k < |entries| && Recorded(entries, k, owner)
    requires Blank(entries[k].0) || Blank(entries[k].1) || entries[k].1 in owner
    ensures !Sound(entries)
  {
    hide Blank;
  }

  /** No token is blank and no two nodes share one. */
  ghost predicate OwnTokens(credentials: map<string, string>) {
    && (forall node | node in credentials :: !Blank(node) && !Blank(credentials[node]))
    && (forall a, b | a in credentials && b in credentials && credentials[a] == credentials[b] :: a == b)
  }

  lemma SoundEntriesAreOwnTokens(entries: seq<(string, string)>)
    requires Distinct(entries)
    ensures Sound(entries) <==> OwnTokens(Dict(entries))
  {
    hide Blank;
    var credentials := Dict(entries);
    assert forall i | 0 <= i < |entries| :: entries[i].0 in credentials && credentials[entries[i].0] == entries[i].1;
  }
}
