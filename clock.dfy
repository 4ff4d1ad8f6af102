/**
 * Times of day and calendar dates as the source prints and parses them with
 * `SimpleDateFormat`: times as minutes after midnight, dates as day, month and year.
 */
module Clock {
  import opened Text

  const MinutesPerDay: nat := 1440

  /**
   * `SimpleDateFormat("HH:mm")` of the instant `t` minutes after today's midnight.
   * The hour field is the hour of day, so 24:00 is printed as "00:00".
   */
  function FormatHHmm(t: nat): (s: string)
    ensures IsHHmm(s)
  {
    Pad2(t / 60 % 24) + ":" + Pad2(t % 60)
  }

  /** An HH:mm text holds neither a blank nor a dash, so `" - "` never occurs inside one. */
  lemma HHmmLacks(s: string)
    requires IsHHmm(s)
    ensures Lacks(s, ' ') && Lacks(s, '-')
  {
  }

  /** Text of the form two digits, ':', two digits. */
  predicate IsHHmm(s: string)
  {
    |s| == 5 && IsDigit(s[0]) && IsDigit(s[1]) && s[2] == ':' && IsDigit(s[3]) && IsDigit(s[4])
  }

  /**
   * The minute of day that `getTimeCalendar` reads from "HH:mm" text: hours times 60
   * plus minutes. Text of any other form reads as minute 0.
   */
  function TimeOf(s: string): (t: nat)
    ensures !IsHHmm(s) ==> t == 0
    ensures IsHHmm(s) ==> t == (DigitValue(s[0]) * 10 + DigitValue(s[1])) * 60 + DigitValue(s[3]) * 10 + DigitValue(s[4])
  {
    if IsHHmm(s) then (DigitValue(s[0]) * 10 + DigitValue(s[1])) * 60 + DigitValue(s[3]) * 10 + DigitValue(s[4])
    else 0
  }

  /** Reading back a printed time gives the time itself, except that 24:00 reads as midnight. */
  lemma TimeOfFormat(t: nat)
    requires t <= MinutesPerDay
    ensures TimeOf(FormatHHmm(t)) == t % MinutesPerDay
  {
    var s := FormatHHmm(t);
    assert s[..2] == Pad2(t / 60 % 24) && s[3..] == Pad2(t % 60);
    assert DigitValue(s[0]) * 10 + DigitValue(s[1]) == t / 60 % 24;
    assert DigitValue(s[3]) * 10 + DigitValue(s[4]) == t % 60;
    if t < MinutesPerDay {
      assert t / 60 < 24;
      assert t / 60 % 24 == t / 60;
    } else {
      assert t / 60 == 24;
    }
  }

  /** A calendar day as `SimpleDateFormat` fields; `Printable` dates fit the fixed-width patterns. */
  datatype CalendarDate = CalendarDate(day: nat, month: nat, year: nat)

  predicate Printable(d: CalendarDate) { d.day < 100 && d.month < 100 && d.year < 10000 }

  /** `SimpleDateFormat("dd/MM/yyyy")`, the date the reservation records store. */
  function FormatDisplay(d: CalendarDate): (s: string)
    requires Printable(d)
    ensures |s| == 10
  {
    Pad2(d.day) + "/" + Pad2(d.month) + "/" + Pad4(d.year)
  }

  /** `SimpleDateFormat("yyyy-MM-dd")`, the date the room index of the remote store is keyed by. */
  function FormatFirebase(d: CalendarDate): (s: string)
    requires Printable(d)
    ensures |s| == 10
  {
    Pad4(d.year) + "-" + Pad2(d.month) + "-" + Pad2(d.day)
  }

  /** Text of the form dd/MM/yyyy with decimal digits in every field. */
  predicate IsDisplayDate(s: string)
  {
    && |s| == 10 && s[2] == '/' && s[5] == '/'
    && AllDigits(s[..2]) && AllDigits(s[3..5]) && AllDigits(s[6..])
  }

  /** Fieldwise reading of dd/MM/yyyy text. */
  function ParseDisplay(s: string): (d: CalendarDate)
    requires IsDisplayDate(s)
    ensures Printable(d)
  {
    CalendarDate(
      DigitValue(s[0]) * 10 + DigitValue(s[1]),
      DigitValue(s[3]) * 10 + DigitValue(s[4]),
      DigitValue(s[6]) * 1000 + DigitValue(s[7]) * 100 + DigitValue(s[8]) * 10 + DigitValue(s[9]))
  }

  lemma ParseDisplayOfFormat(d: CalendarDate)
    requires Printable(d)
    ensures IsDisplayDate(FormatDisplay(d)) && ParseDisplay(FormatDisplay(d)) == d
  {
    var s := FormatDisplay(d);
    assert s[..2] == Pad2(d.day) && s[3..5] == Pad2(d.month) && s[6..] == Pad4(d.year);
  }

  /** The catch branch of the newer conversion: reverse the "/"-separated parts and join them with "-". */
  function FallbackFirebaseDate(s: string): string
  {
    Join(Reverse(Split(s, "/")), "-")
  }

  /**
   * The newer date conversion (viewmodel/ReservasViewModel.kt): parse dd/MM/yyyy and print
   * yyyy-MM-dd, or use the fallback when the text does not parse.
   */
  function ToFirebaseDate(s: string): (r: string)
    ensures IsDisplayDate(s) ==> r == s[6..] + "-" + s[3..5] + "-" + s[..2]
    ensures !IsDisplayDate(s) ==> r == FallbackFirebaseDate(s)
  {
    if IsDisplayDate(s) then ParseThenFormat(s); FormatFirebase(ParseDisplay(s)) else FallbackFirebaseDate(s)
  }

  /** The older conversion (screens/ReservasViewModel.kt): text that does not parse is kept as it is. */
  function LegacyFirebaseDate(s: string): (r: string)
    ensures IsDisplayDate(s) ==> r == s[6..] + "-" + s[3..5] + "-" + s[..2]
    ensures !IsDisplayDate(s) ==> r == s
  {
    if IsDisplayDate(s) then ParseThenFormat(s); FormatFirebase(ParseDisplay(s)) else s
  }

  /** On well-formed text the fallback computes what the parser does, so the conversion is the fallback everywhere. */
  lemma ToFirebaseDateIsFallback(s: string)
    ensures ToFirebaseDate(s) == FallbackFirebaseDate(s)
  {
    if IsDisplayDate(s) {
      SplitDisplayDate(s);
      ReverseJoin3(s[..2], s[3..5], s[6..]);
      ParseThenFormat(s);
    }
  }

  lemma SplitDisplayDate(s: string)
    requires IsDisplayDate(s)
    ensures Split(s, "/") == [s[..2], s[3..5], s[6..]]
  {
    var dd, mm, yyyy := s[..2], s[3..5], s[6..];
    assert s == dd + "/" + (mm + "/" + yyyy);
    assert Lacks(dd, '/') && Lacks(mm, '/') && Lacks(yyyy, '/');
    SplitFirst(dd, "/", mm + "/" + yyyy);
    SplitFirst(mm, "/", yyyy);
    SplitWhole(yyyy, "/");
  }

  lemma ReverseJoin3(a: string, b: string, c: string)
    ensures Join(Reverse([a, b, c]), "-") == c + "-" + b + "-" + a
  {
    assert [a, b, c][1..] == [b, c] && [b, c][1..] == [c] && [c][1..] == [];
    assert Reverse([c]) == [c];
    assert Reverse([b, c]) == [c, b];
    assert Reverse([a, b, c]) == [c, b, a];
    assert [c, b, a][1..] == [b, a] && [b, a][1..] == [a];
    assert Join([b, a], "-") == b + "-" + a;
  }

  lemma ParseThenFormat(s: string)
    requires IsDisplayDate(s)
    ensures FormatFirebase(ParseDisplay(s)) == s[6..] + "-" + s[3..5] + "-" + s[..2]
  {
    var d := ParseDisplay(s);
    var dd, mm, yyyy := s[..2], s[3..5], s[6..];
    assert dd[0] == s[0] && dd[1] == s[1] && mm[0] == s[3] && mm[1] == s[4];
    assert yyyy[0] == s[6] && yyyy[1] == s[7] && yyyy[2] == s[8] && yyyy[3] == s[9];
    Pad2OfDigits(dd);
    Pad2OfDigits(mm);
    Pad4OfDigits(yyyy);
    assert Pad2(d.day) == dd && Pad2(d.month) == mm && Pad4(d.year) == yyyy;
  }

  /** A date printed dd/MM/yyyy converts, by either generation's conversion, to the same date printed yyyy-MM-dd. */
  lemma ConvertDisplayDate(d: CalendarDate)
    requires Printable(d)
    ensures ToFirebaseDate(FormatDisplay(d)) == FormatFirebase(d)
    ensures LegacyFirebaseDate(FormatDisplay(d)) == FormatFirebase(d)
  {
    ParseDisplayOfFormat(d);
  }
}
