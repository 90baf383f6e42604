/** Canonical UTC ISO 8601 text of aware datetimes, used both as stored value and as sort key. */
module Timestamps {
  import opened Common
  import opened Text
  import opened Calendar

  /** A datetime as the program receives it: without an offset, or with one in microseconds. */
  datatype Stamp = Naive(local: Civil) | Aware(local: Civil, offset: int)

  datatype TimestampError = NotAware | OutOfRange

  predicate ValidStamp(s: Stamp) {
    Calendar.Valid(s.local) && (s.Aware? ==> -MICROS_PER_DAY < s.offset < MICROS_PER_DAY)
  }

  /** Every datetime the program can hold has real calendar fields and an offset below a day. */
  type Datetime = s: Stamp | ValidStamp(s) witness Naive(Civil(1, 1, 1, 0, 0, 0, 0))

  function Instant(s: Stamp): int
    requires s.Aware?
  {
    Micros(s.local) - s.offset
  }

  predicate Representable(instant: int) {
    MIN_MICROS <= instant <= MAX_MICROS
  }

  function Utc(instant: int): (c: Civil)
    requires Representable(instant)
    ensures Calendar.Valid(c) && Micros(c) == instant
  {
    FromMicros(instant)
  }

  lemma UtcIsValid(instant: int)
    requires Representable(instant)
    ensures ValidStamp(Aware(Utc(instant), 0))
  {
    hide Calendar.Valid, FromMicros, Micros;
  }

  /** The instant as a datetime in UTC. */
  function UtcDatetime(instant: int): (d: Datetime)
    requires Representable(instant)
    ensures d == Aware(Utc(instant), 0)
  {
    UtcIsValid(instant);
    Aware(Utc(instant), 0)
  }

  function Tail(micro: nat, suffix: string): string {
    if micro == 0 then suffix else "." + Padded(micro, 6) + suffix
  }

  function TimeText(c: Civil, suffix: string): string
    requires Calendar.Valid(c)
  {
    Padded(c.hour, 2) + (":" + (Padded(c.minute, 2) + (":" + (Padded(c.second, 2) + Tail(c.micro, suffix)))))
  }

  /** A local civil time followed by the text of its offset. */
  function LocalText(c: Civil, suffix: string): string
    requires Calendar.Valid(c)
  {
    Padded(c.year, 4) + ("-" + (Padded(c.month, 2) + ("-" + (Padded(c.day, 2) + ("T" + TimeText(c, suffix))))))
  }

  const UTC_SUFFIX := "+00:00"

  function IsoText(c: Civil): string
    requires Calendar.Valid(c)
  {
    LocalText(c, UTC_SUFFIX)
  }

  function IsoInstant(instant: int): string
    requires Representable(instant)
  {
    IsoText(Utc(instant))
  }

  function Serialize(s: Stamp): Result<string, TimestampError>
    requires ValidStamp(s)
  {
    if s.Naive? then Err(NotAware)
    else if !Representable(Instant(s)) then Err(OutOfRange)
    else Ok(IsoInstant(Instant(s)))
  }

  // ---- order ----

  lemma FieldThen(a: nat, b: nat, width: nat, x: string, y: string)
    requires a < Power10(width) && b < Power10(width)
    ensures Less(Padded(a, width) + x, Padded(b, width) + y) <==> a < b || (a == b && Less(x, y))
  {
    PaddedValue(a, width);
    PaddedValue(b, width);
    FieldOrder(Padded(a, width), Padded(b, width), x, y);
  }

  lemma Separator(c: string, x: string, y: string)
    requires |c| == 1
    ensures Less(c + x, c + y) <==> Less(x, y)
  {
    assert (c + x)[1..] == x && (c + y)[1..] == y;
  }

  /** A whole second sorts before its fractions because '+' sorts before '.'. */
  lemma TailOrder(a: nat, b: nat)
    requires a < 1_000_000 && b < 1_000_000
    ensures Less(Tail(a, UTC_SUFFIX), Tail(b, UTC_SUFFIX)) <==> a < b
  {
    var s, t := Tail(a, UTC_SUFFIX), Tail(b, UTC_SUFFIX);
    assert Power10(6) == 1_000_000;
    if a > 0 && b > 0 {
      assert s == "." + (Padded(a, 6) + UTC_SUFFIX) && t == "." + (Padded(b, 6) + UTC_SUFFIX);
      Separator(".", Padded(a, 6) + UTC_SUFFIX, Padded(b, 6) + UTC_SUFFIX);
      FieldThen(a, b, 6, UTC_SUFFIX, UTC_SUFFIX);
      Trichotomy(UTC_SUFFIX, UTC_SUFFIX);
    } else if a == b {
      Trichotomy(s, t);
    } else {
      assert s[0] != t[0];
    }
  }

  lemma TwoDigits(a: nat, b: nat, separator: string, x: string, y: string)
    requires a < 100 && b < 100 && |separator| == 1
    ensures Less(Padded(a, 2) + (separator + x), Padded(b, 2) + (separator + y)) <==> a < b || (a == b && Less(x, y))
  {
    assert Power10(2) == 100;
    FieldThen(a, b, 2, separator + x, separator + y);
    Separator(separator, x, y);
  }

  /** Lexicographic order of the canonical text is chronological order. */
  lemma TextOrder(a: Civil, b: Civil)
    requires Calendar.Valid(a) && Calendar.Valid(b)
    ensures Less(IsoText(a), IsoText(b)) <==> Micros(a) < Micros(b)
    ensures IsoText(a) == IsoText(b) <==> a == b
  {
    hide LocalText, Micros, Earlier;
    MicrosOrder(a, b);
    TextOrderByFields(a, b);
    TextOrderByFields(b, a);
    MicrosOrder(b, a);
    Trichotomy(IsoText(a), IsoText(b));
  }

  lemma TextOrderByFields(a: Civil, b: Civil)
    requires Calendar.Valid(a) && Calendar.Valid(b)
    ensures Less(IsoText(a), IsoText(b)) <==> Earlier(a, b)
  {
    assert Power10(2) == 100 && Power10(4) == 10000;
    ClockOrder(a, b);
    Bounds(a);
    Bounds(b);
    hide Padded, Tail, Less, IsDigits, Power10, TimeText, DayMicros, Calendar.Valid, ValidDate;
    TimeOrder(a, b);
    var t1, t2 := TimeText(a, UTC_SUFFIX), TimeText(b, UTC_SUFFIX);
    var d1, d2 := Padded(a.day, 2) + ("T" + t1), Padded(b.day, 2) + ("T" + t2);
    TwoDigits(a.day, b.day, "T", t1, t2);
    var n1, n2 := Padded(a.month, 2) + ("-" + d1), Padded(b.month, 2) + ("-" + d2);
    TwoDigits(a.month, b.month, "-", d1, d2);
    FieldThen(a.year, b.year, 4, "-" + n1, "-" + n2);
    Separator("-", n1, n2);
  }

  predicate EarlierTime(a: Civil, b: Civil) {
    || a.hour < b.hour
    || (a.hour == b.hour && (a.minute < b.minute
                             || (a.minute == b.minute && (a.second < b.second
                                                          || (a.second == b.second && a.micro < b.micro)))))
  }

  lemma ClockOrder(a: Civil, b: Civil)
    requires Calendar.Valid(a) && Calendar.Valid(b)
    ensures DayMicros(a) < DayMicros(b) <==> EarlierTime(a, b)
  {
    hide Calendar.ValidDate;
  }

  lemma TimeOrder(a: Civil, b: Civil)
    requires Calendar.Valid(a) && Calendar.Valid(b)
    ensures Less(TimeText(a, UTC_SUFFIX), TimeText(b, UTC_SUFFIX)) <==> EarlierTime(a, b)
  {
    assert Power10(2) == 100;
    hide Padded, Tail, Less, IsDigits, Power10, Calendar.ValidDate;
    TailOrder(a.micro, b.micro);
    var s1, s2 := Padded(a.second, 2) + Tail(a.micro, UTC_SUFFIX), Padded(b.second, 2) + Tail(b.micro, UTC_SUFFIX);
    FieldThen(a.second, b.second, 2, Tail(a.micro, UTC_SUFFIX), Tail(b.micro, UTC_SUFFIX));
    var m1, m2 := Padded(a.minute, 2) + (":" + s1), Padded(b.minute, 2) + (":" + s2);
    TwoDigits(a.minute, b.minute, ":", s1, s2);
    TwoDigits(a.hour, b.hour, ":", m1, m2);
  }

  /** For every two UTC instants the text order is the time order. */
  lemma InstantOrder(s: int, t: int)
    requires Representable(s) && Representable(t)
    ensures Less(IsoInstant(s), IsoInstant(t)) <==> s < t
    ensures IsoInstant(s) == IsoInstant(t) <==> s == t
  {
    hide LocalText;
    TextOrder(Utc(s), Utc(t));
    MicrosOrder(Utc(s), Utc(t));
  }

  // ---- reading ----

  function Number(s: string, from: nat, width: nat): Option<nat> {
    if from + width <= |s| && IsDigits(s[from..from + width]) then Some(Value(s[from..from + width])) else None
  }

  predicate At(s: string, i: nat, c: char) {
    i < |s| && s[i] == c
  }

  /** "+HH:MM" or "-HH:MM". */
  function ParseOffset(s: string): Option<int> {
    if |s| == 6 && s[0] in {'+', '-'} && s[3] == ':' && Number(s, 1, 2).Some? && Number(s, 4, 2).Some? then
      var hours, minutes := Number(s, 1, 2).value, Number(s, 4, 2).value;
      if hours < 24 && minutes < 60 then
        Some((if s[0] == '+' then 1 else -1) * (hours * 60 + minutes) * 60_000_000)
      else None
    else None
  }

  /** A sign, two digits of hours, a colon and two digits of minutes. */
  predicate OffsetText(s: string, east: bool, hours: nat, minutes: nat) {
    && hours < 24 && minutes < 60
    && s == (if east then "+" else "-") + Padded(hours, 2) + ":" + Padded(minutes, 2)
  }

  function OffsetOf(east: bool, hours: nat, minutes: nat): int {
    (if east then 1 else -1) * (hours * 3_600_000_000 + minutes * 60_000_000)
  }

  /** An offset is read exactly from its text, positive to the east of UTC and negative to the west. */
  lemma OffsetMeaning(s: string, offset: int)
    ensures ParseOffset(s) == Some(offset) <==>
            exists east: bool, hours: nat, minutes: nat ::
              OffsetText(s, east, hours, minutes) && offset == OffsetOf(east, hours, minutes)
  {
    hide ParseOffset, OffsetText, OffsetOf;
    forall east: bool, hours: nat, minutes: nat | OffsetText(s, east, hours, minutes)
      ensures ParseOffset(s) == Some(OffsetOf(east, hours, minutes))
    {
      OffsetReads(s, east, hours, minutes);
    }
    if ParseOffset(s) == Some(offset) {
      var east, hours, minutes := OffsetIsText(s);
    }
  }

  lemma OffsetReads(s: string, east: bool, hours: nat, minutes: nat)
    requires OffsetText(s, east, hours, minutes)
    ensures ParseOffset(s) == Some(OffsetOf(east, hours, minutes))
  {
    assert s[1..3] == Padded(hours, 2) && s[4..6] == Padded(minutes, 2);
    hide Padded, IsDigits, Number;
    TwoDigitsAt(s, 1, hours);
    TwoDigitsAt(s, 4, minutes);
  }

  lemma OffsetIsText(s: string) returns (east: bool, hours: nat, minutes: nat)
    requires ParseOffset(s).Some?
    ensures OffsetText(s, east, hours, minutes) && ParseOffset(s).value == OffsetOf(east, hours, minutes)
  {
    east, hours, minutes := s[0] == '+', Number(s, 1, 2).value, Number(s, 4, 2).value;
    PaddedInverts(s[1..3]);
    PaddedInverts(s[4..6]);
    hide Padded, Value, IsDigits;
    SixCharacters(s, s[1..3], s[4..6]);
  }

  lemma SixCharacters(s: string, hours: string, minutes: string)
    requires |s| == 6 && s[0] in {'+', '-'} && s[3] == ':' && hours == s[1..3] && minutes == s[4..6]
    ensures s == (if s[0] == '+' then "+" else "-") + hours + ":" + minutes
  {
  }

  predicate Punctuated(s: string) {
    At(s, 4, '-') && At(s, 7, '-') && At(s, 10, 'T') && At(s, 13, ':') && At(s, 16, ':')
  }

  /** "YYYY-MM-DDTHH:MM:SS". */
  function ParseSeconds(s: string): Option<Civil> {
    var year, month, day := Number(s, 0, 4), Number(s, 5, 2), Number(s, 8, 2);
    var hour, minute, second := Number(s, 11, 2), Number(s, 14, 2), Number(s, 17, 2);
    if Punctuated(s) && year.Some? && month.Some? && day.Some? && hour.Some? && minute.Some? && second.Some? then
      Some(Civil(year.value, month.value, day.value, hour.value, minute.value, second.value, 0))
    else None
  }

  /** A local time with an optional offset, if the calendar has it. */
  function WithOffset(local: Civil, offset: string): Option<Stamp> {
    if !Calendar.Valid(local) then None
    else if offset == "" then Some(Naive(local))
    else if ParseOffset(offset).None? then None
    else Some(Aware(local, ParseOffset(offset).value))
  }

  /** "YYYY-MM-DDTHH:MM:SS[.ffffff][+HH:MM]", with real calendar fields. */
  function Parse(s: string): Option<Stamp> {
    var whole := ParseSeconds(s);
    if whole.None? || |s| < 19 then None
    else if !At(s, 19, '.') then WithOffset(whole.value, s[19..])
    else if Number(s, 20, 6).None? then None
    else WithOffset(whole.value.(micro := Number(s, 20, 6).value), s[26..])
  }

  function ParseTimestamp(s: string): Option<Stamp> {
    var parsed := Parse(s);
    if parsed.Some? && parsed.value.Aware? then parsed else None
  }

  lemma NumberAt(s: string, from: nat, n: nat, width: nat)
    requires n < Power10(width) && from + width <= |s| && s[from..from + width] == Padded(n, width)
    ensures Number(s, from, width) == Some(n)
  {
    PaddedValue(n, width);
  }

  /** Where the fields of the text lie. */
  lemma Layout(c: Civil, suffix: string)
    requires Calendar.Valid(c)
    ensures var s := LocalText(c, suffix);
            && |s| >= 19
            && s[0..4] == Padded(c.year, 4) && s[5..7] == Padded(c.month, 2) && s[8..10] == Padded(c.day, 2)
            && (s[4], s[7], s[10]) == ('-', '-', 'T')
            && s[11..13] == Padded(c.hour, 2) && s[14..16] == Padded(c.minute, 2) && s[17..19] == Padded(c.second, 2)
            && (s[13], s[16]) == (':', ':')
            && s[19..] == Tail(c.micro, suffix)
  {
    hide Padded, Tail, IsDigits, TimeText, Calendar.DaysInMonth;
    var s := LocalText(c, suffix);
    assert s[0..] == s;
    LayoutDate(s, Padded(c.year, 4), Padded(c.month, 2), Padded(c.day, 2), TimeText(c, suffix));
    TimeTextIs(c, suffix);
    LayoutTime(s, Padded(c.hour, 2), Padded(c.minute, 2), Padded(c.second, 2), Tail(c.micro, suffix));
  }

  lemma TimeTextIs(c: Civil, suffix: string)
    requires Calendar.Valid(c)
    ensures TimeText(c, suffix) ==
            Padded(c.hour, 2)
            + (":" + (Padded(c.minute, 2) + (":" + (Padded(c.second, 2) + ("" + Tail(c.micro, suffix))))))
  {
    hide Padded, Tail, IsDigits, Calendar.DaysInMonth;
    assert "" + Tail(c.micro, suffix) == Tail(c.micro, suffix);
  }

  lemma LayoutDate(s: string, year: string, month: string, day: string, rest: string)
    requires |year| == 4 && |month| == |day| == 2
    requires s == year + ("-" + (month + ("-" + (day + ("T" + rest)))))
    ensures |s| >= 11 && s[0..4] == year && s[5..7] == month && s[8..10] == day
    ensures (s[4], s[7], s[10]) == ('-', '-', 'T') && s[11..] == rest
  {
    assert s[0..] == s;
    Field(s, 0, year, "-", month + ("-" + (day + ("T" + rest))));
    Field(s, 5, month, "-", day + ("T" + rest));
    Field(s, 8, day, "T", rest);
  }

  lemma LayoutTime(s: string, hour: string, minute: string, second: string, rest: string)
    requires |hour| == |minute| == |second| == 2
    requires |s| >= 11 && s[11..] == hour + (":" + (minute + (":" + (second + ("" + rest)))))
    ensures |s| >= 19 && s[11..13] == hour && s[14..16] == minute && s[17..19] == second
    ensures (s[13], s[16]) == (':', ':') && s[19..] == rest
  {
    Field(s, 11, hour, ":", minute + (":" + (second + ("" + rest))));
    Field(s, 14, minute, ":", second + ("" + rest));
    Field(s, 17, second, "", rest);
  }

  lemma Field(s: string, from: nat, field: string, separator: string, rest: string)
    requires from <= |s| && s[from..] == field + (separator + rest) && |separator| <= 1
    ensures var end := from + |field|;
            && end + |separator| <= |s|
            && s[from..end] == field
            && (separator != "" ==> s[end] == separator[0])
            && s[end + |separator|..] == rest
  {
    var end := from + |field|;
    assert s[from..end] == s[from..][..|field|];
    assert s[end..] == s[from..][|field|..] == separator + rest;
    assert s[end + |separator|..] == s[end..][|separator|..];
    if separator != "" {
      assert s[end] == s[end..][0];
    }
  }

  lemma FieldsAt(c: Civil, suffix: string)
    requires Calendar.Valid(c)
    ensures var s := LocalText(c, suffix);
            && Number(s, 0, 4) == Some(c.year) && Number(s, 5, 2) == Some(c.month) && Number(s, 8, 2) == Some(c.day)
            && Number(s, 11, 2) == Some(c.hour) && Number(s, 14, 2) == Some(c.minute)
            && Number(s, 17, 2) == Some(c.second)
  {
    hide Number, LocalText, Padded, Tail, IsDigits, Power10, Calendar.Valid;
    Bounds(c);
    var s := LocalText(c, suffix);
    Layout(c, suffix);
    YearAt(s, c.year);
    TwoDigitsAt(s, 5, c.month);
    TwoDigitsAt(s, 8, c.day);
    TwoDigitsAt(s, 11, c.hour);
    TwoDigitsAt(s, 14, c.minute);
    TwoDigitsAt(s, 17, c.second);
  }

  lemma Bounds(c: Civil)
    requires Calendar.Valid(c)
    ensures 0 < c.year < 10000 && 0 < c.month < 100 && 0 < c.day < 100
    ensures 0 <= c.hour < 100 && 0 <= c.minute < 100 && 0 <= c.second < 100
  {
  }

  lemma YearAt(s: string, n: nat)
    requires n < 10000 && 4 <= |s| && s[0..4] == Padded(n, 4)
    ensures Number(s, 0, 4) == Some(n)
  {
    assert Power10(4) == 10000;
    NumberAt(s, 0, n, 4);
  }

  lemma TwoDigitsAt(s: string, from: nat, n: nat)
    requires n < 100 && from + 2 <= |s| && s[from..from + 2] == Padded(n, 2)
    ensures Number(s, from, 2) == Some(n)
  {
    assert Power10(2) == 100;
    NumberAt(s, from, n, 2);
  }

  lemma FractionAt(s: string, micro: nat, suffix: string)
    requires |s| >= 19 && s[19..] == Tail(micro, suffix) && micro < 1_000_000
    requires suffix != "" && suffix[0] != '.'
    ensures At(s, 19, '.') <==> micro != 0
    ensures if micro == 0 then s[19..] == suffix else Number(s, 20, 6) == Some(micro) && s[26..] == suffix
  {
    assert s[19] == s[19..][0];
    if micro != 0 {
      assert Power10(6) == 1_000_000;
      assert s[20..26] == s[19..][1..7] == Padded(micro, 6);
      NumberAt(s, 20, micro, 6);
      assert s[26..] == s[19..][7..];
    }
  }

  lemma OffsetStart(suffix: string)
    requires ParseOffset(suffix).Some?
    ensures suffix != "" && suffix[0] != '.'
  {
    hide Number;
  }

  lemma SecondsReadBack(c: Civil, suffix: string)
    requires Calendar.Valid(c)
    ensures ParseSeconds(LocalText(c, suffix)) == Some(c.(micro := 0))
  {
    hide Number, LocalText, Tail, Calendar.Valid;
    Layout(c, suffix);
    FieldsAt(c, suffix);
  }

  /** Parsing inverts the text of any local time with a readable offset. */
  lemma ParseInvertsText(c: Civil, suffix: string)
    requires Calendar.Valid(c) && ParseOffset(suffix).Some?
    ensures Parse(LocalText(c, suffix)) == Some(Aware(c, ParseOffset(suffix).value))
  {
    assert 0 <= c.micro < 1_000_000;
    hide Number, LocalText, ParseOffset, ParseSeconds, Calendar.Valid, Tail;
    Layout(c, suffix);
    SecondsReadBack(c, suffix);
    OffsetStart(suffix);
    FractionAt(LocalText(c, suffix), c.micro, suffix);
    assert c.(micro := 0).(micro := c.micro) == c;
  }

  lemma TwoDigitValue(s: string)
    requires |s| == 2 && IsDigits(s)
    ensures Value(s) == 10 * (s[0] as int - '0' as int) + (s[1] as int - '0' as int)
  {
    assert s[..1][..0] == "";
    assert Value(s[..1]) == s[0] as int - '0' as int;
  }

  lemma ParseUtcOffset()
    ensures ParseOffset(UTC_SUFFIX) == Some(0)
  {
    TwoDigitValue(UTC_SUFFIX[1..3]);
    TwoDigitValue(UTC_SUFFIX[4..6]);
  }

  /** The stored text of an instant reads back as that instant in UTC. */
  lemma InstantReadsBack(instant: int)
    requires Representable(instant)
    ensures ParseTimestamp(IsoInstant(instant)) == Some(Aware(Utc(instant), 0))
  {
    hide Parse, LocalText, FromMicros, ParseOffset;
    ParseUtcOffset();
    ParseInvertsText(Utc(instant), UTC_SUFFIX);
  }

  /** A serialized datetime reads back as an aware datetime of the same instant; serialization
      refuses exactly naive datetimes and instants outside the years 1 to 9999. */
  lemma RoundTrip(s: Stamp)
    requires ValidStamp(s)
    ensures Serialize(s).Ok? <==> s.Aware? && Representable(Instant(s))
    ensures Serialize(s).Ok? ==>
              var parsed := ParseTimestamp(Serialize(s).value);
              parsed.Some? && parsed.value.Aware? && Instant(parsed.value) == Instant(s)
  {
    hide ParseTimestamp, IsoInstant;
    if s.Aware? && Representable(Instant(s)) {
      InstantReadsBack(Instant(s));
    }
  }
}
