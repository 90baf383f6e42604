/** The declared body length, decided on the digits alone (section 8.6 of RFC 9110). */
module ContentLength {
  import opened Common
  import opened Text

  const BAD_REQUEST := 400
  const PAYLOAD_TOO_LARGE := 413
  const BLANKS := {' ', '\t'}

  function StripZeros(s: string): (r: string) {
    if s != "" && s[0] == '0' then StripZeros(s[1..]) else s
  }

  /** Refuses by comparing lengths first and texts second; no number is ever built. */
  function DeclaredLengthStatus(raw: string, max: nat): Option<int> {
    var maxText := Decimal(max);
    var significant := StripZeros(raw);
    if significant == "" then None
    else if |significant| > |maxText| || (|significant| == |maxText| && Less(maxText, significant))
    then Some(PAYLOAD_TOO_LARGE)
    else None
  }

  /** The values are those of every Content-Length header; none at all is `Ok(None)`. */
  function ContentLengthOrNone(values: seq<string>, max: nat): Result<Option<nat>, int> {
    if values == [] then Ok(None)
    else if |values| != 1 then Err(BAD_REQUEST)
    else
      var raw := Strip(values[0], BLANKS);
      if raw == "" || !IsDigits(raw) then Err(BAD_REQUEST)
      else if DeclaredLengthStatus(raw, max).Some? then Err(PAYLOAD_TOO_LARGE)
      else
        var significant := StripZeros(raw);
        StripZerosKeepsDigits(raw);
        if significant == "" then Ok(Some(0)) else Ok(Some(Value(significant)))
  }

  lemma {:induction false} StripZerosKeepsDigits(s: string)
    requires IsDigits(s)
    ensures IsDigits(StripZeros(s))
  {
    if s != "" && s[0] == '0' {
      StripZerosKeepsDigits(s[1..]);
    }
  }

  lemma {:induction false} LeadingZero(s: string)
    requires IsDigits(s) && s != "" && s[0] == '0'
    ensures Value(s) == Value(s[1..])
    decreases |s|
  {
    if |s| > 1 {
      LeadingZero(s[..|s| - 1]);
      assert s[1..][..|s| - 2] == s[..|s| - 1][1..];
    }
  }

  lemma {:induction false} StripZerosKeepsValue(s: string)
    requires IsDigits(s)
    ensures IsDigits(StripZeros(s)) && Value(StripZeros(s)) == Value(s)
    ensures StripZeros(s) != "" ==> StripZeros(s)[0] != '0'
  {
    if s != "" && s[0] == '0' {
      StripZerosKeepsValue(s[1..]);
      LeadingZero(s);
    }
  }

  /** For digit strings of any length and any bound, the textual comparison refuses exactly the
      values above the bound, and what remains to be converted is no longer than the bound. */
  lemma TextualComparisonIsNumeric(raw: string, max: nat)
    requires IsDigits(raw)
    ensures DeclaredLengthStatus(raw, max) == if Value(raw) > max then Some(PAYLOAD_TOO_LARGE) else None
    ensures Value(raw) <= max ==> |StripZeros(raw)| <= |Decimal(max)|
  {
    var significant, maxText := StripZeros(raw), Decimal(max);
    StripZerosKeepsValue(raw);
    DecimalValue(max);
    if |significant| > |maxText| {
      LongerIsLarger(significant, maxText);
    } else if |significant| == |maxText| {
      FieldOrder(maxText, significant, "", "");
      assert maxText + "" == maxText && significant + "" == significant;
    } else if significant != "" && max > 0 {
      LongerIsLarger(maxText, significant);
    } else if max == 0 {
      assert |maxText| == 1;
    }
  }

  /** The decision over any set of headers: absent, or one blank-trimmed digit string within the
      bound whose exact value is returned; 413 exactly for one such string above the bound. */
  lemma DeclaredLengthIsExact(values: seq<string>, max: nat)
    ensures var r := ContentLengthOrNone(values, max);
            if values == [] then r == Ok(None)
            else if |values| == 1 && Strip(values[0], BLANKS) != "" && IsDigits(Strip(values[0], BLANKS)) then
              var n := Value(Strip(values[0], BLANKS));
              r == if n > max then Err(PAYLOAD_TOO_LARGE) else Ok(Some(n))
            else r == Err(BAD_REQUEST)
  {
    if |values| == 1 && IsDigits(Strip(values[0], BLANKS)) {
      TextualComparisonIsNumeric(Strip(values[0], BLANKS), max);
      StripZerosKeepsValue(Strip(values[0], BLANKS));
    }
  }

  /** Decimal digits for the number, with nothing but spaces and tabs around them. */
  predicate Declares(value: string, left: string, digits: string, right: string, n: nat) {
    && value == left + digits + right
    && (forall i | 0 <= i < |left| :: left[i] == ' ' || left[i] == '\t')
    && (forall i | 0 <= i < |right| :: right[i] == ' ' || right[i] == '\t')
    && digits != "" && IsDigits(digits) && Value(digits) == n
  }

  /** The blank-trimmed text is a number exactly when the value declares it. */
  lemma DeclarationMeaning(value: string, n: nat)
    ensures (exists left, digits, right :: Declares(value, left, digits, right, n)) <==>
            var text := Strip(value, BLANKS); text != "" && IsDigits(text) && Value(text) == n
  {
    hide Strip, Value;
    var l, r := StripSplits(value, BLANKS);
    if left, digits, right :| Declares(value, left, digits, right, n) {
      StripRemoves(left, digits, right, BLANKS);
    }
    var text := Strip(value, BLANKS);
    if text != "" && IsDigits(text) && Value(text) == n {
      assert Declares(value, l, text, r, n);
    }
  }
}
