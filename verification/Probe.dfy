/** Classifying one observed dead-man response: the canonical signature and nothing else is healthy. */
module Probe {
  import opened Text
  import DeadMan

  datatype Response = Response(status: int, allow: seq<string>, body: string)

  const BLANKS := {' ', '\t'}

  /** Some `Allow` value lists POST: it is a comma-joined list of comma-free tokens, one of which is
      POST once surrounding blanks are removed. */
  predicate PostListed(allow: seq<string>) {
    exists value | value in allow :: Lists(value)
  }

  predicate Lists(value: string) {
    NamesPost(Split(value, ','))
  }

  predicate NamesPost(tokens: seq<string>) {
    exists token | token in tokens :: IsPost(token)
  }

  predicate IsPost(token: string) {
    Strip(token, BLANKS) == "POST"
  }

  method PostIsAllowed(allow: seq<string>) returns (allowed: bool)
    ensures allowed <==> PostListed(allow)
  {
    hide Strip, Split;
    var methods: set<string> := {};
    for i := 0 to |allow|
      invariant "POST" in methods <==> exists k | 0 <= k < i :: Lists(allow[k])
    {
      var tokens := Split(allow[i], ',');
      for j := 0 to |tokens|
        invariant "POST" in methods <==>
                  (exists k | 0 <= k < i :: Lists(allow[k])) || exists k | 0 <= k < j :: IsPost(tokens[k])
      {
        var name := Strip(tokens[j], BLANKS);
        if name != "" {
          methods := methods + {name};
        }
      }
      assert Lists(allow[i]) <==> exists k | 0 <= k < |tokens| :: IsPost(tokens[k]);
    }
    return "POST" in methods;
  }

  predicate Healthy(response: Response) {
    response.status == 405 && PostListed(response.allow) && response.body == ""
  }

  method ClassifyDeadManProbe(response: Response) returns (outcome: DeadMan.Outcome)
    ensures outcome == DeadMan.HEALTHY <==> Healthy(response)
  {
    var allowed := PostIsAllowed(response.allow);
    return if response.status == 405 && allowed && response.body == "" then DeadMan.HEALTHY else DeadMan.FAILED;
  }

  /** The value is these comma-free tokens, joined. */
  predicate Consists(value: string, tokens: seq<string>) {
    && tokens != [] && (forall i | 0 <= i < |tokens| :: ',' !in tokens[i])
    && value == Join(tokens, ',')
  }

  /** A value lists POST exactly when one of the comma-free tokens it is made of is POST, and it is
      always made of some. */
  lemma ListsByTokens(value: string)
    ensures exists tokens :: Consists(value, tokens)
    ensures forall tokens | Consists(value, tokens) :: Lists(value) <==> NamesPost(tokens)
  {
    JoinInvertsSplit(value, ',');
    assert Consists(value, Split(value, ','));
    forall tokens | Consists(value, tokens)
      ensures Lists(value) <==> NamesPost(tokens)
    {
      SplitInvertsJoin(tokens, ',');
    }
  }

  predicate SpacesAndTabs(s: string) {
    forall i | 0 <= i < |s| :: s[i] == ' ' || s[i] == '\t'
  }

  /** A token is POST in capitals with nothing but spaces and tabs around it. */
  lemma IsPostMeaning(token: string)
    ensures IsPost(token) <==>
            exists left, right :: SpacesAndTabs(left) && SpacesAndTabs(right) && token == left + "POST" + right
  {
    hide Strip;
    var l, r := StripSplits(token, BLANKS);
    if left, right :| SpacesAndTabs(left) && SpacesAndTabs(right) && token == left + "POST" + right {
      StripRemoves(left, "POST", right, BLANKS);
    }
    if IsPost(token) {
      assert SpacesAndTabs(l) && SpacesAndTabs(r) && token == l + "POST" + r;
    }
  }
}
