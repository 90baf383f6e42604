/** Strings compared as texts and read as decimal numbers. */
module Text {
  /** Lexicographic order by character. */
  predicate Less(a: string, b: string) {
    b != "" && (a == "" || a[0] < b[0] || (a[0] == b[0] && Less(a[1..], b[1..])))
  }

  lemma {:induction false} Trichotomy(a: string, b: string)
    ensures a == b || Less(a, b) || Less(b, a)
    ensures !(Less(a, b) && Less(b, a)) && (a == b ==> !Less(a, b))
  {
    if a != "" && b != "" {
      Trichotomy(a[1..], b[1..]);
      assert a == [a[0]] + a[1..] && b == [b[0]] + b[1..];
    }
  }

  lemma {:induction false} Transitivity(a: string, b: string, c: string)
    requires Less(a, b) && Less(b, c)
    ensures Less(a, c)
  {
    if a != "" && a[0] == b[0] == c[0] {
      Transitivity(a[1..], b[1..], c[1..]);
    }
  }

  /** What Python's argument-less `strip` removes. */
  const WHITE_SPACE := {
    '\t', '\n', '\U{B}', '\U{C}', '\r', '\U{1C}', '\U{1D}', '\U{1E}', '\U{1F}', ' ', '\U{85}', '\U{A0}', '\U{1680}',
    '\U{2000}', '\U{2001}', '\U{2002}', '\U{2003}', '\U{2004}', '\U{2005}', '\U{2006}', '\U{2007}', '\U{2008}',
    '\U{2009}', '\U{200A}', '\U{2028}', '\U{2029}', '\U{202F}', '\U{205F}', '\U{3000}'
  }

  /** Nothing but white space. */
  predicate Blank(s: string) {
    forall i | 0 <= i < |s| :: s[i] in WHITE_SPACE
  }

  /** Python's `strip` of the given characters. */
  function Strip(s: string, blanks: set<char>): (r: string) {
    if s != "" && s[0] in blanks then Strip(s[1..], blanks)
    else if s != "" && s[|s| - 1] in blanks then Strip(s[..|s| - 1], blanks)
    else s
  }

  /** The code points Python calls white space. */
  lemma WhiteSpaceIs(c: char)
    ensures c in WHITE_SPACE <==>
            var n := c as int;
            || 9 <= n <= 13 || 28 <= n <= 32 || n in {133, 160, 5760}
            || 8192 <= n <= 8202 || n in {8232, 8233, 8239, 8287, 12288}
  {
  }

  predicate Only(s: string, blanks: set<char>) {
    forall i | 0 <= i < |s| :: s[i] in blanks
  }

  /** Neither end of the text is one of the characters. */
  predicate Trimmed(s: string, blanks: set<char>) {
    s != "" ==> s[0] !in blanks && s[|s| - 1] !in blanks
  }

  lemma {:induction false} StripSplits(s: string, blanks: set<char>) returns (left: string, right: string)
    ensures s == left + Strip(s, blanks) + right
    ensures Only(left, blanks) && Only(right, blanks) && Trimmed(Strip(s, blanks), blanks)
    decreases |s|
  {
    left, right := "", "";
    if s != "" && s[0] in blanks {
      left, right := StripSplits(s[1..], blanks);
      left := [s[0]] + left;
    } else if s != "" && s[|s| - 1] in blanks {
      left, right := StripSplits(s[..|s| - 1], blanks);
      right := right + [s[|s| - 1]];
    }
  }

  /** Stripping removes exactly the outer characters of the set. */
  lemma {:induction false} StripRemoves(left: string, core: string, right: string, blanks: set<char>)
    requires Only(left, blanks) && Only(right, blanks) && Trimmed(core, blanks)
    ensures Strip(left + core + right, blanks) == core
    decreases |left| + |right|
  {
    var s := left + core + right;
    if left != "" {
      assert s[1..] == left[1..] + core + right;
      StripRemoves(left[1..], core, right, blanks);
    } else if right != "" {
      if core == "" {
        assert s == right && s[1..] == left + core + right[1..];
        StripRemoves(left, core, right[1..], blanks);
      } else {
        assert s[0] == core[0] && s[..|s| - 1] == left + core + right[..|right| - 1];
        StripRemoves(left, core, right[..|right| - 1], blanks);
      }
    } else {
      assert s == core;
    }
  }

  lemma StripIgnoresOuter(left: string, s: string, right: string, blanks: set<char>)
    requires Only(left, blanks) && Only(right, blanks)
    ensures Strip(left + s + right, blanks) == Strip(s, blanks)
  {
    hide Strip;
    var l, r := StripSplits(s, blanks);
    var core := Strip(s, blanks);
    assert left + s + right == (left + l) + core + (r + right);
    StripRemoves(left + l, core, r + right, blanks);
  }

  lemma StripBlank(s: string, blanks: set<char>)
    ensures Strip(s, blanks) == "" <==> Only(s, blanks)
  {
    hide Strip;
    var l, r := StripSplits(s, blanks);
    if Only(s, blanks) {
      assert s + "" + "" == s;
      StripRemoves(s, "", "", blanks);
    }
  }

  /** The same letters, capital or not, as a word without capitals; every other character exactly. */
  predicate SameLetters(s: string, word: string) {
    |s| == |word| && forall i | 0 <= i < |s| :: SameLetter(s[i], word[i])
  }

  predicate SameLetter(c: char, w: char) {
    c == w || ('a' <= w <= 'z' && c as int + 32 == w as int)
  }

  predicate NoCapitals(word: string) {
    forall i | 0 <= i < |word| :: !('A' <= word[i] <= 'Z')
  }

  /** Python's `split` on one character: the stretches between separators. */
  function Split(s: string, separator: char): (parts: seq<string>)
    ensures parts != []
  {
    if s == "" then [""]
    else if s[0] == separator then [""] + Split(s[1..], separator)
    else
      var rest := Split(s[1..], separator);
      [[s[0]] + rest[0]] + rest[1..]
  }

  function Join(parts: seq<string>, separator: char): string
    requires parts != []
  {
    if |parts| == 1 then parts[0] else parts[0] + [separator] + Join(parts[1..], separator)
  }

  /** Splitting loses nothing and leaves no separator inside a part. */
  lemma {:induction false} JoinInvertsSplit(s: string, separator: char)
    ensures Join(Split(s, separator), separator) == s
    ensures forall i | 0 <= i < |Split(s, separator)| :: separator !in Split(s, separator)[i]
  {
    if s != "" {
      var rest, parts := Split(s[1..], separator), Split(s, separator);
      JoinInvertsSplit(s[1..], separator);
      assert s == [s[0]] + s[1..];
      if s[0] == separator {
        assert parts[1..] == rest;
      } else {
        assert parts[1..] == rest[1..];
        assert parts[0] == [s[0]] + rest[0];
      }
    }
  }

  /** Any separator-free parts are recovered from their joined text. */
  lemma {:induction false} SplitInvertsJoin(parts: seq<string>, separator: char)
    requires parts != [] && forall i | 0 <= i < |parts| :: separator !in parts[i]
    ensures Split(Join(parts, separator), separator) == parts
    decreases |parts|, |parts[0]|
  {
    var s := Join(parts, separator);
    if parts[0] != "" {
      var shorter := [parts[0][1..]] + parts[1..];
      assert parts[0][0] in parts[0] && parts[0] == [parts[0][0]] + parts[0][1..];
      SplitInvertsJoin(shorter, separator);
      assert shorter[1..] == parts[1..];
      assert s == [parts[0][0]] + Join(shorter, separator);
      assert s[1..] == Join(shorter, separator);
      assert [parts[0]] + parts[1..] == parts;
    } else if |parts| > 1 {
      SplitInvertsJoin(parts[1..], separator);
      assert s[1..] == Join(parts[1..], separator);
      assert [""] + parts[1..] == parts;
    }
  }

  /** Python's `lower` on ASCII letters. */
  function Lower(s: string): (r: string)
    ensures |r| == |s|
  {
    seq(|s|, i requires 0 <= i < |s| => if 'A' <= s[i] <= 'Z' then (s[i] as int + 32) as char else s[i])
  }

  /** Lower-casing gives a word exactly for its spellings in any letter case. */
  lemma LowerIs(s: string, word: string)
    requires NoCapitals(word)
    ensures Lower(s) == word <==> SameLetters(s, word)
  {
    if SameLetters(s, word) {
      forall i | 0 <= i < |s|
        ensures Lower(s)[i] == word[i]
      {
        assert SameLetter(s[i], word[i]);
      }
    }
    if Lower(s) == word {
      forall i | 0 <= i < |s|
        ensures SameLetter(s[i], word[i])
      {
        assert Lower(s)[i] == word[i];
      }
    }
  }

  /** Python's `partition`: what precedes the first separator, whether there is one, what follows. */
  function Partition(s: string, separator: char): (r: (string, bool, string))
    ensures r.1 <==> separator in s
    ensures separator !in r.0
    ensures s == if r.1 then r.0 + [separator] + r.2 else r.0
  {
    if s == "" then ("", false, "")
    else if s[0] == separator then ("", true, s[1..])
    else
      var (before, found, after) := Partition(s[1..], separator);
      ([s[0]] + before, found, after)
  }

  /** The partition is the only way to split at the first separator. */
  lemma {:induction false} PartitionIs(before: string, after: string, separator: char)
    requires separator !in before
    ensures Partition(before + [separator] + after, separator) == (before, true, after)
  {
    var s := before + [separator] + after;
    if before == "" {
      assert s[1..] == after;
    } else {
      assert s[0] == before[0] && s[1..] == before[1..] + [separator] + after;
      PartitionIs(before[1..], after, separator);
      assert [before[0]] + before[1..] == before;
    }
  }

  // ---- lower-casing commutes with taking texts apart ----

  predicate Caseless(c: char) {
    !('A' <= c <= 'Z') && !('a' <= c <= 'z')
  }

  lemma LowerTwice(s: string)
    ensures Lower(Lower(s)) == Lower(s)
  {
  }

  lemma {:induction false} StripLower(s: string, blanks: set<char>)
    requires forall c | c in blanks :: Caseless(c)
    ensures Strip(Lower(s), blanks) == Lower(Strip(s, blanks))
    decreases |s|
  {
    if s != "" && s[0] in blanks {
      assert Lower(s)[1..] == Lower(s[1..]);
      StripLower(s[1..], blanks);
    } else if s != "" && s[|s| - 1] in blanks {
      assert Lower(s)[..|s| - 1] == Lower(s[..|s| - 1]);
      StripLower(s[..|s| - 1], blanks);
    }
  }

  lemma LowerCons(s: string, t: string, separator: char)
    requires s != "" && Caseless(separator)
    ensures Lower(s)[1..] == Lower(s[1..])
    ensures Lower(s)[0] == separator <==> s[0] == separator
    ensures Lower([s[0]] + t) == [Lower(s)[0]] + Lower(t)
  {
  }

  lemma {:induction false} SplitLower(s: string, separator: char)
    requires Caseless(separator)
    ensures |Split(Lower(s), separator)| == |Split(s, separator)|
    ensures forall i | 0 <= i < |Split(s, separator)| :: Split(Lower(s), separator)[i] == Lower(Split(s, separator)[i])
  {
    assert Lower("") == "";
    if s != "" {
      LowerCons(s, Split(s[1..], separator)[0], separator);
      hide Lower;
      SplitLower(s[1..], separator);
    }
  }

  lemma {:induction false} PartitionLower(s: string, separator: char)
    requires Caseless(separator)
    ensures var (before, found, after) := Partition(s, separator);
            Partition(Lower(s), separator) == (Lower(before), found, Lower(after))
  {
    assert Lower("") == "";
    if s != "" {
      LowerCons(s, Partition(s[1..], separator).0, separator);
      hide Lower;
      if s[0] != separator {
        PartitionLower(s[1..], separator);
      }
    }
  }

  predicate IsDigits(s: string) {
    forall i | 0 <= i < |s| :: '0' <= s[i] <= '9'
  }

  function Digit(n: nat): (c: char)
    requires n < 10
  {
    ('0' as int + n) as char
  }

  function Value(s: string): nat
    requires IsDigits(s)
  {
    if s == "" then 0 else 10 * Value(s[..|s| - 1]) + (s[|s| - 1] as int - '0' as int)
  }

  /** The last `width` decimal digits of n. */
  function Padded(n: nat, width: nat): (s: string)
    ensures |s| == width && IsDigits(s)
  {
    if width == 0 then "" else Padded(n / 10, width - 1) + [Digit(n % 10)]
  }

  function Decimal(n: nat): (s: string)
    ensures s != "" && IsDigits(s)
  {
    if n < 10 then [Digit(n)] else Decimal(n / 10) + [Digit(n % 10)]
  }

  function Power10(k: nat): nat {
    if k == 0 then 1 else 10 * Power10(k - 1)
  }

  lemma ValueSnoc(s: string, n: nat)
    requires IsDigits(s) && n < 10
    ensures Value(s + [Digit(n)]) == 10 * Value(s) + n
  {
    assert (s + [Digit(n)])[..|s|] == s;
  }

  lemma {:induction false} PaddedValue(n: nat, width: nat)
    requires n < Power10(width)
    ensures Value(Padded(n, width)) == n
  {
    if width > 0 {
      PaddedValue(n / 10, width - 1);
      ValueSnoc(Padded(n / 10, width - 1), n % 10);
    }
  }

  /** Digits are the padded text of their number. */
  lemma {:induction false} PaddedInverts(s: string)
    requires IsDigits(s)
    ensures Padded(Value(s), |s|) == s
  {
    if s != "" {
      var n, d := Value(s[..|s| - 1]), s[|s| - 1] as int - '0' as int;
      assert s == s[..|s| - 1] + [Digit(d)];
      assert Value(s) == 10 * n + d;
      PaddedInverts(s[..|s| - 1]);
      hide Padded, Value, Digit;
      PaddedSnoc(n, d, |s| - 1);
    }
  }

  lemma PaddedSnoc(n: nat, d: nat, width: nat)
    requires d < 10
    ensures Padded(10 * n + d, width + 1) == Padded(n, width) + [Digit(d)]
  {
    LastDigit(n, d);
  }

  lemma LastDigit(n: nat, d: nat)
    requires d < 10
    ensures (10 * n + d) / 10 == n && (10 * n + d) % 10 == d
  {
  }

  lemma {:induction false} DecimalValue(n: nat)
    ensures Value(Decimal(n)) == n
    ensures Decimal(n)[0] == '0' ==> n == 0
  {
    if n < 10 {
      ValueSnoc("", n);
      assert "" + [Digit(n)] == [Digit(n)];
    } else {
      DecimalValue(n / 10);
      ValueSnoc(Decimal(n / 10), n % 10);
    }
  }

  /** Digit fields of one width order texts as their numbers do, then by what follows. */
  lemma {:induction false} FieldOrder(a: string, b: string, x: string, y: string)
    requires IsDigits(a) && IsDigits(b) && |a| == |b|
    ensures Less(a + x, b + y) <==> Value(a) < Value(b) || (Value(a) == Value(b) && Less(x, y))
    decreases |a|
  {
    if a == "" {
      assert a + x == x && b + y == y;
    } else {
      var n := |a| - 1;
      FieldOrder(a[..n], b[..n], [a[n]] + x, [b[n]] + y);
      assert a + x == a[..n] + ([a[n]] + x) && b + y == b[..n] + ([b[n]] + y);
      assert ([a[n]] + x)[1..] == x && ([b[n]] + y)[1..] == y;
    }
  }

  /** Without leading zeros, the longer digit string is the larger number. */
  lemma {:induction false} LongerIsLarger(a: string, b: string)
    requires IsDigits(a) && IsDigits(b) && |a| > |b| && a[0] != '0'
    ensures Value(a) > Value(b)
    decreases |a|
  {
    if |a| > 1 {
      LongerIsLarger(a[..|a| - 1], if b == "" then "" else b[..|b| - 1]);
    }
  }
}
