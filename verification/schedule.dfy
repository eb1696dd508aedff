/**
 * The `ScheduleSlot` validators: the seven day names, the `HH:MM` time
 * pattern, and the rule that `end` comes after `start`.
 */
module Schedule {
  import opened Wrappers

  datatype Day = Monday | Tuesday | Wednesday | Thursday | Friday | Saturday | Sunday

  /** The accepted spelling of each day: lower case, in full. */
  function DayName(d: Day): string {
    match d
    case Monday => "monday"
    case Tuesday => "tuesday"
    case Wednesday => "wednesday"
    case Thursday => "thursday"
    case Friday => "friday"
    case Saturday => "saturday"
    case Sunday => "sunday"
  }

  /** The day a token names; only the exact lower-case full names are accepted. */
  function ParseDay(s: string): (r: Option<Day>)
    ensures r.Some? ==> DayName(r.value) == s
    ensures r.None? ==> forall d: Day :: DayName(d) != s
  {
    if s == "monday" then Some(Monday)
    else if s == "tuesday" then Some(Tuesday)
    else if s == "wednesday" then Some(Wednesday)
    else if s == "thursday" then Some(Thursday)
    else if s == "friday" then Some(Friday)
    else if s == "saturday" then Some(Saturday)
    else if s == "sunday" then Some(Sunday)
    else None
  }

  lemma DayNameRoundTrip(d: Day)
    ensures ParseDay(DayName(d)) == Some(d)
  {
    match d
    case Monday =>
    case Tuesday =>
    case Wednesday =>
    case Thursday =>
    case Friday =>
    case Saturday =>
    case Sunday =>
  }

  /** Capitalised names and abbreviations are rejected. */
  lemma NoAliases()
    ensures ParseDay("Monday") == None && ParseDay("mon") == None && ParseDay("MONDAY") == None
  {
  }

  // ---------------------------------------------------------------------
  // Lexical order of Python strings
  // ---------------------------------------------------------------------

  /** Python's `<` on `str`: code point by code point, a proper prefix first. */
  predicate LexLess(a: string, b: string) {
    if a == [] then b != []
    else if b == [] then false
    else if a[0] != b[0] then a[0] < b[0]
    else LexLess(a[1..], b[1..])
  }

  /** Python's `<=` on `str`. */
  predicate LexLessEq(a: string, b: string) {
    LexLess(a, b) || a == b
  }

  lemma {:induction false} LexLessIrreflexive(a: string)
    ensures !LexLess(a, a)
  {
    if a != [] { LexLessIrreflexive(a[1..]); }
  }

  /** Two different strings are ordered one way round. */
  lemma {:induction false} LexLessTotal(a: string, b: string)
    requires a != b
    ensures LexLess(a, b) || LexLess(b, a)
  {
    if a != [] && b != [] && a[0] == b[0] {
      assert a == [a[0]] + a[1..] && b == [b[0]] + b[1..];
      LexLessTotal(a[1..], b[1..]);
    }
  }

  lemma {:induction false} LexLessAsymmetric(a: string, b: string)
    requires LexLess(a, b)
    ensures !LexLess(b, a)
  {
    if a != [] && b != [] && a[0] == b[0] { LexLessAsymmetric(a[1..], b[1..]); }
  }

  /**
   * The usual definition of lexicographic order: past a common prefix of
   * length `k`, the first differing code point decides, and when one string
   * ends there, the shorter string is the lesser.
   */
  lemma {:induction false} LexLessFirstDifference(a: string, b: string, k: nat)
    requires k <= |a| && k <= |b| && a[..k] == b[..k]
    requires k == |a| || k == |b| || a[k] != b[k]
    ensures LexLess(a, b) <==> (k < |a| && k < |b| && a[k] < b[k]) || (k == |a| && k < |b|)
  {
    if k > 0 {
      assert a[0] == a[..k][0] && b[0] == b[..k][0];
      assert a[1..][..k - 1] == a[..k][1..] && b[1..][..k - 1] == b[..k][1..];
      LexLessFirstDifference(a[1..], b[1..], k - 1);
    }
  }

  // ---------------------------------------------------------------------
  // The time pattern
  // ---------------------------------------------------------------------

  /**
   * Code point of the digit zero of each run of ten decimal digits (Unicode
   * category Nd) in the Basic Multilingual Plane.
   */
  const DigitZeros: seq<int> := [
    0x0030, 0x0660, 0x06F0, 0x07C0, 0x0966, 0x09E6, 0x0A66, 0x0AE6, 0x0B66, 0x0BE6,
    0x0C66, 0x0CE6, 0x0D66, 0x0DE6, 0x0E50, 0x0ED0, 0x0F20, 0x1040, 0x1090, 0x17E0,
    0x1810, 0x1946, 0x19D0, 0x1A80, 0x1A90, 0x1B50, 0x1BB0, 0x1C40, 0x1C50, 0xA620,
    0xA8D0, 0xA900, 0xA9D0, 0xA9F0, 0xAA50, 0xABF0, 0xFF10]

  /** What `\d` matches in a pattern over `str`: any decimal digit, not only `0`-`9`. */
  predicate IsDecimalDigit(c: char) {
    exists k :: 0 <= k < |DigitZeros| && DigitZeros[k] <= c as int < DigitZeros[k] + 10
  }

  predicate IsAsciiDigit(c: char) { '0' <= c <= '9' }

  /** `HH:MM` as the pattern spells it, with `\d` read as any decimal digit. */
  predicate PatternBody(s: string)
    requires |s| == 5
  {
    && (((s[0] == '0' || s[0] == '1') && IsDecimalDigit(s[1])) || (s[0] == '2' && '0' <= s[1] <= '3'))
    && s[2] == ':'
    && '0' <= s[3] <= '5'
    && IsDecimalDigit(s[4])
  }

  /**
   * Whether the time pattern matches: anchored at the start, and its end
   * anchor also matches just before one final line feed.
   */
  predicate TimeMatches(s: string)
    // every strict time matches
    ensures IsStrictTime(s) ==> TimeMatches(s)
    // on five ASCII characters the pattern is exactly the strict check
    ensures |s| == 5 && (forall i :: 0 <= i < |s| ==> s[i] < '\U{80}') ==> (TimeMatches(s) <==> IsStrictTime(s))
    // anything else it matches is a five-character match followed by one line feed
    ensures TimeMatches(s) && |s| != 5 ==> |s| == 6 && s[5] == '\n' && TimeMatches(s[..5])
  {
    if |s| < 5 then false
    else
      DecimalDigitAscii(s[1]);
      DecimalDigitAscii(s[4]);
      (|s| == 5 && PatternBody(s)) || (|s| == 6 && s[5] == '\n' && PatternBody(s[..5]))
  }

  /** `\d` agrees with `0`-`9` on ASCII characters. */
  lemma DecimalDigitAscii(c: char)
    ensures IsAsciiDigit(c) ==> IsDecimalDigit(c)
    ensures c < '\U{80}' && IsDecimalDigit(c) ==> IsAsciiDigit(c)
  {
    assert DigitZeros[0] == 0x30;
    if c < '\U{80}' && IsDecimalDigit(c) {
      var k :| 0 <= k < |DigitZeros| && DigitZeros[k] <= c as int < DigitZeros[k] + 10;
      assert forall j :: 1 <= j < |DigitZeros| ==> DigitZeros[j] >= 0x660;
    }
  }

  /** Strict `HH:MM`: five ASCII characters, hours 00-23, minutes 00-59. */
  predicate IsStrictTime(s: string) {
    && |s| == 5
    && (((s[0] == '0' || s[0] == '1') && IsAsciiDigit(s[1])) || (s[0] == '2' && '0' <= s[1] <= '3'))
    && s[2] == ':'
    && '0' <= s[3] <= '5'
    && IsAsciiDigit(s[4])
  }

  function DigitValue(c: char): int { c as int - '0' as int }

  /** Minutes since midnight of a strict time. */
  function Minutes(s: string): (m: int)
    requires IsStrictTime(s)
    ensures 0 <= m < 24 * 60
  {
    (DigitValue(s[0]) * 10 + DigitValue(s[1])) * 60 + DigitValue(s[3]) * 10 + DigitValue(s[4])
  }

  function DigitChar(v: int): (c: char)
    requires 0 <= v < 10
    ensures IsAsciiDigit(c) && DigitValue(c) == v
  {
    ('0' as int + v) as char
  }

  /** The strict time for a number of minutes since midnight. */
  function FormatTime(m: int): (s: string)
    requires 0 <= m < 24 * 60
    ensures IsStrictTime(s) && Minutes(s) == m
  {
    var h, mm := m / 60, m % 60;
    [DigitChar(h / 10), DigitChar(h % 10), ':', DigitChar(mm / 10), DigitChar(mm % 10)]
  }

  /** A strict time is determined by its minutes. */
  lemma FormatMinutes(s: string)
    requires IsStrictTime(s)
    ensures FormatTime(Minutes(s)) == s
  {
    var h := DigitValue(s[0]) * 10 + DigitValue(s[1]);
    var mm := DigitValue(s[3]) * 10 + DigitValue(s[4]);
    assert Minutes(s) / 60 == h && Minutes(s) % 60 == mm;
    var r := FormatTime(Minutes(s));
    assert r[0] == s[0] && r[1] == s[1] && r[2] == s[2] && r[3] == s[3] && r[4] == s[4];
  }

  /** Out-of-range and unpadded times are rejected, with or without the strict reading. */
  lemma RejectedTimes()
    ensures !TimeMatches("24:00") && !TimeMatches("8:00") && !TimeMatches("12:60")
    ensures !IsStrictTime("24:00") && !IsStrictTime("8:00") && !IsStrictTime("12:60")
  {
  }

  /** For strict times, the lexical order is the chronological order. */
  lemma LexOrderIsChronological(a: string, b: string)
    requires IsStrictTime(a) && IsStrictTime(b)
    ensures LexLess(a, b) <==> Minutes(a) < Minutes(b)
  {
    assert LexLess(a, b) == if a[0] != b[0] then a[0] < b[0] else LexLess(a[1..], b[1..]);
    if a[0] == b[0] {
      assert LexLess(a[1..], b[1..]) == if a[1] != b[1] then a[1] < b[1] else LexLess(a[2..], b[2..]);
      if a[1] == b[1] {
        assert a[2..][1..] == a[3..] && b[2..][1..] == b[3..];
        assert LexLess(a[2..], b[2..]) == LexLess(a[3..], b[3..]);
        assert LexLess(a[3..], b[3..]) == if a[3] != b[3] then a[3] < b[3] else LexLess(a[4..], b[4..]);
        if a[3] == b[3] {
          assert LexLess(a[4..], b[4..]) == if a[4] != b[4] then a[4] < b[4] else LexLess(a[5..], b[5..]);
          assert a[5..] == [] && b[5..] == [];
        }
      }
    }
  }

  // ---------------------------------------------------------------------
  // Slot validation
  // ---------------------------------------------------------------------

  datatype SlotField = DayField | StartField | EndField

  datatype SlotError =
    | Missing(field: SlotField)
    | UnknownDay(token: string)
    | BadTimeFormat(field: SlotField)
    | EndNotAfterStart

  /** A slot as received: each field may be absent. */
  datatype RawSlot = RawSlot(day: Option<string>, start: Option<string>, end: Option<string>)

  /** A validated slot. */
  datatype ScheduleSlot = ScheduleSlot(day: Day, start: string, end: string)

  function DayErrors(day: Option<string>): seq<SlotError> {
    match day
    case None => [Missing(DayField)]
    case Some(s) => if ParseDay(s).None? then [UnknownDay(s)] else []
  }

  /**
   * Slot validation with a given time check. Fields are validated in order;
   * the range check on `end` runs only when `end` passed the time check, and
   * only against a `start` that passed it too.
   */
  function ValidateSlotWith(timeOk: string -> bool, raw: RawSlot): (r: Result<ScheduleSlot, seq<SlotError>>)
    ensures r.Ok? <==>
      && raw.day.Some? && ParseDay(raw.day.value).Some?
      && raw.start.Some? && timeOk(raw.start.value)
      && raw.end.Some? && timeOk(raw.end.value)
      && !(raw.start.value != "" && LexLessEq(raw.end.value, raw.start.value))
    ensures r.Ok? ==> r.value == ScheduleSlot(ParseDay(raw.day.value).value, raw.start.value, raw.end.value)
    ensures r.Err? ==> r.error != []
  {
    var checkedStart := if raw.start.Some? && timeOk(raw.start.value) then raw.start else None;
    var startErrors :=
      match raw.start
      case None => [Missing(StartField)]
      case Some(s) => if timeOk(s) then [] else [BadTimeFormat(StartField)];
    var endErrors :=
      match raw.end
      case None => [Missing(EndField)]
      case Some(v) =>
        if !timeOk(v) then [BadTimeFormat(EndField)]
        else if checkedStart.Some? && checkedStart.value != "" && LexLessEq(v, checkedStart.value) then [EndNotAfterStart]
        else [];
    var errors := DayErrors(raw.day) + startErrors + endErrors;
    if errors == [] then Ok(ScheduleSlot(ParseDay(raw.day.value).value, raw.start.value, raw.end.value))
    else Err(errors)
  }

  /**
   * The validator as the pattern is written. It accepts every slot the strict
   * validator accepts, and differs from it only on times that are not strict.
   */
  function ValidateSlotAsWritten(raw: RawSlot): (r: Result<ScheduleSlot, seq<SlotError>>)
    ensures ValidateSlot(raw).Ok? ==> r == ValidateSlot(raw)
    ensures r.Ok? && IsStrictTime(r.value.start) && IsStrictTime(r.value.end) ==> r == ValidateSlot(raw)
  {
    ValidateSlotWith(TimeMatches, raw)
  }

  /**
   * The validator with strict ASCII `HH:MM` times; the rest of the model uses
   * this one. Every slot it accepts lies inside one day.
   */
  function ValidateSlot(raw: RawSlot): (r: Result<ScheduleSlot, seq<SlotError>>)
    ensures r.Ok? ==> WellFormedSlot(r.value)
  {
    var r := ValidateSlotWith(IsStrictTime, raw);
    if r.Ok? then
      var s, e := raw.start.value, raw.end.value;
      LexLessTotal(s, e);
      LexOrderIsChronological(s, e);
      r
    else r
  }

  /** A slot inside one day, with strict times and `start` before `end`. */
  predicate WellFormedSlot(s: ScheduleSlot) {
    IsStrictTime(s.start) && IsStrictTime(s.end) && Minutes(s.start) < Minutes(s.end)
  }

  /** Conversely, every well-formed slot passes the validator unchanged. */
  lemma WellFormedSlotValidates(slot: ScheduleSlot)
    requires WellFormedSlot(slot)
    ensures ValidateSlot(RawSlot(Some(DayName(slot.day)), Some(slot.start), Some(slot.end))) == Ok(slot)
  {
    DayNameRoundTrip(slot.day);
    LexOrderIsChronological(slot.start, slot.end);
    LexOrderIsChronological(slot.end, slot.start);
  }

  /** A slot that would run past midnight is refused. */
  lemma OvernightSlotRejected()
    ensures ValidateSlot(RawSlot(Some("monday"), Some("23:00"), Some("00:00"))).Err?
    ensures ValidateSlotAsWritten(RawSlot(Some("monday"), Some("23:00"), Some("00:00"))).Err?
  {
    assert LexLess("00:00", "23:00");
  }

  /** Equal start and end are refused. */
  lemma EmptySlotRejected(day: Day, t: string)
    requires IsStrictTime(t)
    ensures ValidateSlot(RawSlot(Some(DayName(day)), Some(t), Some(t))).Err?
  {
  }

  /**
   * When `start` is absent or malformed, `end` is checked for format only:
   * no range error is reported, whatever `end` is.
   */
  lemma NoRangeCheckWithoutValidStart(timeOk: string -> bool, raw: RawSlot)
    requires raw.start.None? || !timeOk(raw.start.value)
    ensures ValidateSlotWith(timeOk, raw).Err?
    ensures EndNotAfterStart !in ValidateSlotWith(timeOk, raw).error
  {
  }

  // ---------------------------------------------------------------------
  // The pattern as written: the two ways it departs from strict HH:MM
  // ---------------------------------------------------------------------

  /** `0٠:00` (second digit U+0660, ARABIC-INDIC DIGIT ZERO): midnight, written with a non-ASCII digit. */
  const ArabicIndicMidnight: string := ['0', 0x0660 as char, ':', '0', '0']

  /**
   * The pattern accepts a non-ASCII digit, and such a time sorts after
   * `09:00`: a slot from 09:00 to "00:00" is accepted.
   */
  lemma UnicodeDigitSlotAccepted()
    ensures TimeMatches(ArabicIndicMidnight) && !IsStrictTime(ArabicIndicMidnight)
    ensures ValidateSlotAsWritten(RawSlot(Some("monday"), Some("09:00"), Some(ArabicIndicMidnight))).Ok?
    ensures ValidateSlot(RawSlot(Some("monday"), Some("09:00"), Some(ArabicIndicMidnight))).Err?
  {
    assert DigitZeros[1] == 0x0660;
    assert IsDecimalDigit(ArabicIndicMidnight[1]);
    assert IsDecimalDigit('0') by { assert DigitZeros[0] == 0x30; }
    assert TimeMatches("09:00");
    assert LexLess("09:00", ArabicIndicMidnight);
    assert !LexLess(ArabicIndicMidnight, "09:00") by { LexLessAsymmetric("09:00", ArabicIndicMidnight); }
  }

  /**
   * The end anchor lets `12:30\n` through, and it sorts after `12:30`: a slot
   * of zero length is accepted.
   */
  lemma TrailingNewlineSlotAccepted()
    ensures TimeMatches("12:30\n") && !IsStrictTime("12:30\n")
    ensures ValidateSlotAsWritten(RawSlot(Some("friday"), Some("12:30"), Some("12:30\n"))).Ok?
    ensures ValidateSlot(RawSlot(Some("friday"), Some("12:30"), Some("12:30\n"))).Err?
  {
    assert IsDecimalDigit('0') && IsDecimalDigit('2') by { assert DigitZeros[0] == 0x30; }
    assert "12:30\n"[..5] == "12:30";
    assert TimeMatches("12:30");
    assert LexLess("12:30", "12:30\n");
    assert !LexLess("12:30\n", "12:30") by { LexLessAsymmetric("12:30", "12:30\n"); }
  }
}
