/** The Content-Type a heartbeat may carry: JSON, at most once declared as UTF-8. */
module ContentType {
  import opened Common
  import opened Text

  const JSON_MEDIA_TYPE := "application/json"
  const UTF8_CHARSET := "utf-8"
  const BAD_REQUEST := 400
  const UNSUPPORTED := 415

  datatype Parameter = Unreadable | Foreign | OtherCharset | Utf8

  predicate Visible(c: char) {
    ' ' < c < '\U{7F}'
  }

  function Count(s: string, c: char): nat {
    if s == "" then 0 else (if s[0] == c then 1 else 0) + Count(s[1..], c)
  }

  predicate Malformed(media: string) {
    media == "" || Count(media, '/') != 1 || exists i | 0 <= i < |media| :: !Visible(media[i])
  }

  predicate MalformedMediaType(part: string) {
    Malformed(Strip(part, WHITE_SPACE))
  }

  /** Comparisons are made on lower-cased text; every constant compared with is ASCII. */
  function Folded(s: string): string {
    Lower(Strip(s, WHITE_SPACE))
  }

  function Classify(parameter: string): Parameter {
    var token := Strip(parameter, WHITE_SPACE);
    var (name, found, value) := Partition(token, '=');
    if token == "" || !found || Folded(name) == "" || Folded(value) == "" then Unreadable
    else if Folded(name) != "charset" then Foreign
    else if Folded(value) != UTF8_CHARSET then OtherCharset
    else Utf8
  }

  /** The first parameter must be the UTF-8 charset, and no second one is tolerated. */
  function ParametersVerdict(parameters: seq<string>): Option<int> {
    if parameters == [] then None
    else match Classify(parameters[0])
      case Unreadable => Some(BAD_REQUEST)
      case Foreign => Some(UNSUPPORTED)
      case OtherCharset => Some(UNSUPPORTED)
      case Utf8 =>
        if |parameters| == 1 then None
        else if Classify(parameters[1]) == Foreign then Some(UNSUPPORTED)
        else Some(BAD_REQUEST)
  }

  function Verdict(value: string): Option<int> {
    var parts := Split(value, ';');
    if MalformedMediaType(parts[0]) then Some(BAD_REQUEST)
    else if Folded(parts[0]) != JSON_MEDIA_TYPE then Some(UNSUPPORTED)
    else ParametersVerdict(parts[1..])
  }

  method Rejection(value: string) returns (status: Option<int>)
    ensures status == Verdict(value)
  {
    hide Strip, Split, Partition, MalformedMediaType;
    var parts := Split(value, ';');
    if MalformedMediaType(parts[0]) {
      return Some(BAD_REQUEST);
    }
    if Folded(parts[0]) != JSON_MEDIA_TYPE {
      return Some(UNSUPPORTED);
    }
    var sawCharset := false;
    for i := 1 to |parts|
      invariant i <= 2 && sawCharset == (i == 2)
      invariant sawCharset ==> Classify(parts[1]) == Utf8
    {
      assert parts[i] == parts[1..][i - 1];
      var token := Strip(parts[i], WHITE_SPACE);
      var (name, found, charset) := Partition(token, '=');
      if token == "" || !found {
        return Some(BAD_REQUEST);
      }
      name, charset := Folded(name), Folded(charset);
      if name == "" || charset == "" {
        return Some(BAD_REQUEST);
      }
      if name != "charset" {
        return Some(UNSUPPORTED);
      }
      if sawCharset {
        return Some(BAD_REQUEST);
      }
      sawCharset := true;
      if charset != UTF8_CHARSET {
        return Some(UNSUPPORTED);
      }
    }
    return None;
  }

  // ---- letter case never matters ----

  lemma {:induction false} CountIgnoresCase(s: string)
    ensures Count(Lower(s), '/') == Count(s, '/')
  {
    if s != "" {
      CountIgnoresCase(s[1..]);
      assert Lower(s)[1..] == Lower(s[1..]);
    }
  }

  lemma FoldedIgnoresCase(s: string)
    ensures Folded(Lower(s)) == Folded(s)
  {
    StripLower(s, WHITE_SPACE);
    LowerTwice(Strip(s, WHITE_SPACE));
  }

  lemma ClassifyIgnoresCase(parameter: string)
    ensures Classify(Lower(parameter)) == Classify(parameter)
  {
    hide Strip, Partition, Lower, Folded;
    var token := Strip(parameter, WHITE_SPACE);
    StripLower(parameter, WHITE_SPACE);
    PartitionLower(token, '=');
    var (name, found, value) := Partition(token, '=');
    FoldedIgnoresCase(name);
    FoldedIgnoresCase(value);
    assert |Lower(token)| == |token|;
  }

  lemma MalformedIgnoresCase(media: string)
    ensures Malformed(Lower(media)) == Malformed(media)
  {
    CountIgnoresCase(media);
    assert forall i | 0 <= i < |media| :: Visible(Lower(media)[i]) <==> Visible(media[i]);
  }

  lemma MediaTypeIgnoresCase(part: string)
    ensures MalformedMediaType(Lower(part)) == MalformedMediaType(part)
  {
    hide Strip, Malformed;
    StripLower(part, WHITE_SPACE);
    MalformedIgnoresCase(Strip(part, WHITE_SPACE));
  }

  /** Values that differ in letter case alone get the same verdict. */
  lemma VerdictIgnoresCase(a: string, b: string)
    requires Lower(a) == Lower(b)
    ensures Verdict(a) == Verdict(b)
  {
    LowerHasSameVerdict(a);
    LowerHasSameVerdict(b);
  }

  lemma LowerHasSameVerdict(value: string)
    ensures Verdict(Lower(value)) == Verdict(value)
  {
    hide Strip, Split, Classify, MalformedMediaType, Lower, Folded;
    var parts, lowered := Split(value, ';'), Split(Lower(value), ';');
    SplitLower(value, ';');
    MediaTypeIgnoresCase(parts[0]);
    FoldedIgnoresCase(parts[0]);
    if |parts| > 1 {
      assert lowered[1..][0] == lowered[1] && parts[1..][0] == parts[1];
      ClassifyIgnoresCase(parts[1]);
    }
    if |parts| > 2 {
      assert lowered[1..][1] == lowered[2] && parts[1..][1] == parts[2];
      ClassifyIgnoresCase(parts[2]);
    }
  }

  predicate Acceptable(media: string, parameters: seq<string>) {
    && Folded(media) == JSON_MEDIA_TYPE
    && |parameters| <= 1
    && forall p | p in parameters :: Classify(p) == Utf8
  }

  /** The value is these semicolon-free parts, joined. */
  predicate Consists(value: string, media: string, parameters: seq<string>) {
    && ';' !in media && (forall p | p in parameters :: ';' !in p)
    && value == Join([media] + parameters, ';')
  }

  /** A value is accepted exactly when it is the JSON media type alone or followed by the one UTF-8
      charset parameter. */
  lemma AcceptedExactly(value: string)
    ensures Verdict(value) == None <==>
            exists media, parameters :: Consists(value, media, parameters) && Acceptable(media, parameters)
  {
    hide Strip, Verdict, Acceptable, Join, Split;
    var parts := Split(value, ';');
    var media, parameters := parts[0], parts[1..];
    JoinInvertsSplit(value, ';');
    assert [media] + parameters == parts;
    assert Consists(value, media, parameters);
    JoinedAccepted(media, parameters);
    forall media', parameters' | Consists(value, media', parameters')
      ensures Verdict(value) == None <==> Acceptable(media', parameters')
    {
      JoinedAccepted(media', parameters');
    }
  }

  lemma JoinedAccepted(media: string, parameters: seq<string>)
    requires ';' !in media && forall p | p in parameters :: ';' !in p
    ensures Verdict(Join([media] + parameters, ';')) == None <==> Acceptable(media, parameters)
  {
    hide Strip, Classify, Join, Split, Lower;
    var parts := [media] + parameters;
    SplitInvertsJoin(parts, ';');
    assert parts[1..] == parameters;
    if Folded(media) == JSON_MEDIA_TYPE {
      JsonIsWellFormed(media);
    }
  }

  lemma {:induction false} CountOne(a: string, b: string)
    requires '/' !in a && '/' !in b
    ensures Count(a + "/" + b, '/') == 1
  {
    if a != "" {
      CountOne(a[1..], b);
      assert (a + "/" + b)[1..] == a[1..] + "/" + b;
    } else {
      assert (a + "/" + b)[1..] == b;
      CountNone(b);
    }
  }

  lemma {:induction false} CountNone(s: string)
    requires '/' !in s
    ensures Count(s, '/') == 0
  {
    if s != "" {
      CountNone(s[1..]);
    }
  }

  lemma JsonMediaType()
    ensures !Malformed(JSON_MEDIA_TYPE)
  {
    hide Count;
    CountOne("application", "json");
    assert JSON_MEDIA_TYPE == "application" + "/" + "json";
  }

  lemma JsonIsWellFormed(media: string)
    requires Folded(media) == JSON_MEDIA_TYPE
    ensures !MalformedMediaType(media)
  {
    hide Strip, Malformed, Lower;
    JsonMediaType();
    MalformedIgnoresCase(Strip(media, WHITE_SPACE));
  }

  // ---- the verdict in characters ----

  /** The text is the word in any letter case, with white space around it at most. */
  ghost predicate Spelled(text: string, word: string) {
    exists left, core, right :: SpelledAs(text, left, core, right, word)
  }

  predicate SpelledAs(text: string, left: string, core: string, right: string, word: string) {
    text == left + core + right && Blank(left) && Blank(right) && SameLetters(core, word)
  }

  predicate PlainWord(word: string) {
    word != "" && NoCapitals(word) && Trimmed(word, WHITE_SPACE)
  }

  lemma FoldedIsSpelled(text: string, word: string)
    requires PlainWord(word)
    ensures Folded(text) == word <==> Spelled(text, word)
  {
    hide Strip, Lower, WHITE_SPACE;
    var l, r := StripSplits(text, WHITE_SPACE);
    LowerIs(Strip(text, WHITE_SPACE), word);
    if Folded(text) == word {
      assert SpelledAs(text, l, Strip(text, WHITE_SPACE), r, word);
    }
    if Spelled(text, word) {
      var left, core, right :| SpelledAs(text, left, core, right, word);
      SpellingIsTrimmed(core, word);
      StripRemoves(left, core, right, WHITE_SPACE);
      LowerIs(core, word);
    }
  }

  lemma SpellingIsTrimmed(core: string, word: string)
    requires PlainWord(word) && SameLetters(core, word)
    ensures Trimmed(core, WHITE_SPACE)
  {
    assert SameLetter(core[0], word[0]) && SameLetter(core[|core| - 1], word[|core| - 1]);
    forall c, w | SameLetter(c, w) && w !in WHITE_SPACE
      ensures c !in WHITE_SPACE
    {
      LetterIsNoSpace(c, w);
    }
  }

  lemma LetterIsNoSpace(c: char, w: char)
    requires SameLetter(c, w) && w !in WHITE_SPACE
    ensures c !in WHITE_SPACE
  {
    WhiteSpaceIs(c);
    hide WHITE_SPACE;
  }

  lemma PlainWords()
    ensures PlainWord("application/json") && PlainWord("charset") && PlainWord("utf-8")
  {
    WhiteSpaceIs('a');
    WhiteSpaceIs('n');
    WhiteSpaceIs('c');
    WhiteSpaceIs('t');
    WhiteSpaceIs('u');
    WhiteSpaceIs('8');
    hide WHITE_SPACE;
  }

  lemma ClassifySplits(k: string, v: string)
    requires '=' !in k
    ensures Classify(k + "=" + v) ==
            if Blank(k) || Blank(v) then Unreadable
            else if !Spelled(k, "charset") then Foreign
            else if !Spelled(v, "utf-8") then OtherCharset
            else Utf8
  {
    var p := k + "=" + v;
    SplitsAround(k, v);
    PlainWords();
    hide Strip, WHITE_SPACE, Spelled, Lower, Partition;
    var token := Strip(p, WHITE_SPACE);
    var (name, found, value) := Partition(token, '=');
    FoldedIsSpelled(k, "charset");
    FoldedIsSpelled(v, "utf-8");
    FoldedBlank(k);
    FoldedBlank(v);
    assert Folded(name) == Folded(k) && Folded(value) == Folded(v);
  }

  /** Stripping around the first equals sign leaves both sides stripped. */
  lemma SplitsAround(k: string, v: string)
    requires '=' !in k
    ensures var token := Strip(k + "=" + v, WHITE_SPACE);
            var (name, found, value) := Partition(token, '=');
            && token != "" && found
            && Strip(name, WHITE_SPACE) == Strip(k, WHITE_SPACE)
            && Strip(value, WHITE_SPACE) == Strip(v, WHITE_SPACE)
  {
    WhiteSpaceIs('=');
    hide Strip, Partition, WHITE_SPACE;
    var p := k + "=" + v;
    var l, r := StripSplits(p, WHITE_SPACE);
    var token := Strip(p, WHITE_SPACE);
    assert l + token + r == l + (token + r);
    LeftOfEquals(l, token + r, k, v);
    var name := k[|l|..];
    RightOfEquals(token, r, name, v);
    var value := v[..|v| - |r|];
    PartitionIs(name, value, '=');
    assert l + name + "" == k && "" + value + r == v;
    StripIgnoresOuter(l, name, "", WHITE_SPACE);
    StripIgnoresOuter("", value, r, WHITE_SPACE);
  }

  lemma LeftOfEquals(l: string, x: string, k: string, v: string)
    requires '=' !in l && l + x == k + "=" + v
    ensures |l| <= |k| && l + k[|l|..] == k && x == k[|l|..] + "=" + v
  {
    var p := k + "=" + v;
    assert p[|k|] == '=';
    assert forall i | 0 <= i < |l| :: p[i] == l[i];
    assert |l| <= |k|;
    assert x == p[|l|..];
    assert l == p[..|l|] == k[..|l|];
  }

  lemma RightOfEquals(x: string, r: string, k: string, v: string)
    requires '=' !in r && x + r == k + "=" + v
    ensures |r| <= |v| && v[..|v| - |r|] + r == v && x == k + "=" + v[..|v| - |r|]
  {
    var p := k + "=" + v;
    assert p[|k|] == '=';
    assert forall i | 0 <= i < |r| :: p[|x| + i] == r[i];
    assert |r| <= |v|;
    assert x == p[..|x|];
    assert r == p[|x|..] == v[|v| - |r|..];
  }

  lemma FoldedBlank(s: string)
    ensures Folded(s) == "" <==> Blank(s)
  {
    hide Strip, WHITE_SPACE;
    StripBlank(s, WHITE_SPACE);
  }

  lemma ClassifyNeedsEquals(p: string)
    requires '=' !in p
    ensures Classify(p) == Unreadable
  {
    hide WHITE_SPACE, Strip;
    var l, r := StripSplits(p, WHITE_SPACE);
    assert forall i | 0 <= i < |Strip(p, WHITE_SPACE)| :: Strip(p, WHITE_SPACE)[i] == p[|l| + i];
  }

  /** A parameter splits at its first equals sign into a name and a value that are not blank. */
  predicate ReadsAs(p: string, k: string, v: string) {
    p == k + "=" + v && '=' !in k && !Blank(k) && !Blank(v)
  }

  ghost predicate Readable(p: string) {
    exists k, v :: ReadsAs(p, k, v)
  }

  ghost predicate CharsetParameter(p: string) {
    exists k, v :: ReadsAs(p, k, v) && Spelled(k, "charset")
  }

  ghost predicate Utf8Parameter(p: string) {
    exists k, v :: ReadsAs(p, k, v) && Spelled(k, "charset") && Spelled(v, "utf-8")
  }

  lemma ClassifyMeaning(p: string)
    ensures Classify(p) != Unreadable <==> Readable(p)
    ensures Classify(p) == OtherCharset || Classify(p) == Utf8 <==> CharsetParameter(p)
    ensures Classify(p) == Utf8 <==> Utf8Parameter(p)
  {
    hide Classify, Blank, Spelled, Partition;
    if '=' in p {
      var (k, _, v) := Partition(p, '=');
      ClassifySplits(k, v);
      forall k', v' | ReadsAs(p, k', v')
        ensures k' == k && v' == v
      {
        PartitionIs(k', v', '=');
      }
      assert Readable(p) <==> ReadsAs(p, k, v);
    } else {
      ClassifyNeedsEquals(p);
    }
  }

  predicate Printing(s: string) {
    forall i | 0 <= i < |s| :: '!' <= s[i] <= '~'
  }

  /** White space around visible ASCII characters with exactly one slash among them. */
  predicate MediaAs(media: string, left: string, a: string, b: string, right: string) {
    && media == left + (a + "/" + b) + right && Blank(left) && Blank(right)
    && Printing(a) && Printing(b) && '/' !in a && '/' !in b
  }

  ghost predicate WellFormedMedia(media: string) {
    exists left, a, b, right :: MediaAs(media, left, a, b, right)
  }

  lemma {:induction false} CountSplit(a: string, b: string)
    requires '/' !in a
    ensures Count(a + "/" + b, '/') == 1 + Count(b, '/')
  {
    if a != "" {
      CountSplit(a[1..], b);
      assert (a + "/" + b)[1..] == a[1..] + "/" + b;
    } else {
      assert (a + "/" + b)[1..] == b;
    }
  }

  lemma {:induction false} CountZero(s: string)
    ensures Count(s, '/') == 0 <==> '/' !in s
  {
    if s != "" {
      CountZero(s[1..]);
      assert s == [s[0]] + s[1..];
    }
  }

  lemma CoreIsMedia(core: string)
    ensures !Malformed(core) <==> exists a, b :: MediaAs(core, "", a, b, "")
  {
    hide Partition, Count, WHITE_SPACE;
    CountZero(core);
    if '/' in core {
      var (a, _, b) := Partition(core, '/');
      CountSplit(a, b);
      CountZero(b);
      assert core == a + "/" + b == "" + (a + "/" + b) + "";
      if !Malformed(core) {
        assert forall i | 0 <= i < |a| :: core[i] == a[i];
        assert forall i | 0 <= i < |b| :: core[|a| + 1 + i] == b[i];
        assert MediaAs(core, "", a, b, "");
      }
    }
    if a, b :| MediaAs(core, "", a, b, "") {
      assert core == a + "/" + b;
      CountSplit(a, b);
      CountZero(b);
      assert forall i | 0 <= i < |core| :: Visible(core[i]);
    }
  }

  lemma MediaMeaning(media: string)
    ensures !MalformedMediaType(media) <==> WellFormedMedia(media)
  {
    hide Strip, Malformed, WHITE_SPACE;
    var core := Strip(media, WHITE_SPACE);
    var l, r := StripSplits(media, WHITE_SPACE);
    CoreIsMedia(core);
    if !Malformed(core) {
      var a, b :| MediaAs(core, "", a, b, "");
      assert "" + (a + "/" + b) + "" == a + "/" + b;
      assert MediaAs(media, l, a, b, r);
    }
    if left, a, b, right :| MediaAs(media, left, a, b, right) {
      var inner := a + "/" + b;
      PrintingIsTrimmed(inner);
      StripRemoves(left, inner, right, WHITE_SPACE);
      assert "" + inner + "" == inner;
      assert MediaAs(core, "", a, b, "");
    }
  }

  lemma PrintingIsTrimmed(s: string)
    requires s != "" && Printing(s)
    ensures Trimmed(s, WHITE_SPACE)
  {
    WhiteSpaceIs(s[0]);
    WhiteSpaceIs(s[|s| - 1]);
    hide WHITE_SPACE;
  }

  /** Every value is a media type followed by parameters; it is accepted for JSON alone or with the one UTF-8
      charset, it is 400 where something cannot be read or a charset is given twice, and 415 where a readable media
      type, parameter or charset is not supported. */
  lemma VerdictMeaning(value: string, media: string, ps: seq<string>)
    requires Consists(value, media, ps)
    ensures Verdict(value) == None <==>
            Spelled(media, "application/json") && (ps == [] || (|ps| == 1 && Utf8Parameter(ps[0])))
    ensures Verdict(value) == Some(400) <==>
            || !WellFormedMedia(media)
            || (Spelled(media, "application/json") && ps != []
                && (!Readable(ps[0])
                    || (Utf8Parameter(ps[0]) && |ps| > 1 && (!Readable(ps[1]) || CharsetParameter(ps[1])))))
    ensures Verdict(value) == Some(415) <==>
            && WellFormedMedia(media)
            && (!Spelled(media, "application/json")
                || (ps != [] && Readable(ps[0])
                    && (!Utf8Parameter(ps[0]) || (|ps| > 1 && Readable(ps[1]) && !CharsetParameter(ps[1])))))
  {
    hide Strip, Classify, Join, Split, Lower, Spelled, Readable, Utf8Parameter, CharsetParameter, WellFormedMedia;
    hide WHITE_SPACE, MalformedMediaType;
    SplitInvertsJoin([media] + ps, ';');
    assert ([media] + ps)[1..] == ps;
    PlainWords();
    FoldedIsSpelled(media, "application/json");
    MediaMeaning(media);
    if Spelled(media, "application/json") {
      JsonIsWellFormed(media);
    }
    if ps != [] {
      ClassifyMeaning(ps[0]);
    }
    if |ps| > 1 {
      ClassifyMeaning(ps[1]);
    }
  }

  lemma ValuesConsist(value: string)
    ensures exists media, ps :: Consists(value, media, ps)
  {
    hide Split, Join;
    var parts := Split(value, ';');
    JoinInvertsSplit(value, ';');
    assert [parts[0]] + parts[1..] == parts;
    assert Consists(value, parts[0], parts[1..]);
  }
}
