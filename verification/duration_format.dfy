/** The display format of durations (DurationFormat.java): a persisted enum
    like the others, which also turns a signed number of minutes into text. */
module DurationFormatEnum {
  import Constants
  import JavaInt
  import Decimal
  import TranslatableEnum
  import DurationText
  import DurationLiterals

  datatype DurationFormat = None | HoursMinutes | DaysHoursMinutes | Minutes

  /** Every variant, in declaration order (Java's values()). */
  const Values: seq<DurationFormat> := [None, HoursMinutes, DaysHoursMinutes, Minutes]

  /** The persisted code (getEnumCode). */
  function Code(v: DurationFormat): int {
    match v
    case None => 0
    case HoursMinutes => 1
    case DaysHoursMinutes => 2
    case Minutes => 3
  }

  /** The name of the string resource holding the label (getTranslationId). */
  function TranslationKey(v: DurationFormat): string {
    match v
    case None => "enum_duration_format_none"
    case HoursMinutes => "enum_duration_format_hours_minutes"
    case DaysHoursMinutes => "enum_duration_format_days_hours_minutes"
    case Minutes => "enum_duration_format_minutes"
  }

  /** getDurationFormatByCode: the variant carrying the code, or None when no
      variant carries it. */
  function ByCode(enumCode: int): (v: DurationFormat)
    ensures Code(v) == enumCode || (v == None && forall w :: Code(w) != enumCode)
  {
    match enumCode
    case 1 => HoursMinutes
    case 2 => DaysHoursMinutes
    case 3 => Minutes
    case _ => None
  }

  /** The instance method getByEnumCode: the receiver plays no part. */
  function GetByEnumCode(receiver: DurationFormat, enumCode: int): (v: DurationFormat)
    ensures v == ByCode(enumCode)
    ensures Code(v) == enumCode || v == None
  {
    ByCode(enumCode)
  }

  /** The formats offered to users (getVisibleValues): the sentinel is left
      out and, unlike the other families, the list is not in code order: the
      days format comes first, the other two follow in code order. */
  function VisibleValues(): (vs: seq<DurationFormat>)
    ensures None !in vs
    ensures |vs| == |Values| - 1
    ensures vs[0] == DaysHoursMinutes && Code(vs[0]) > Code(vs[1])
    ensures forall i, j :: 1 <= i < j < |vs| ==> Code(vs[i]) < Code(vs[j])
    ensures forall i, j :: 0 <= i < j < |vs| ==> vs[i] != vs[j]
    ensures Minutes in vs
  {
    [DaysHoursMinutes, HoursMinutes, Minutes]
  }

  /** A format is offered to users exactly when it is not the sentinel. */
  lemma VisibleValuesAreNonSentinel()
    ensures forall v :: v in VisibleValues() <==> v != None
  {
    var vs := VisibleValues();
    forall v
      ensures v in vs <==> v != None
    {
      match v
      case None =>
      case DaysHoursMinutes => assert vs[0] == v;
      case HoursMinutes => assert vs[1] == v;
      case Minutes => assert vs[2] == v;
    }
  }

  /** getTranslatedValue: the label through the variant's cache cell. */
  function TranslatedValue(v: DurationFormat, cache: TranslatableEnum.LabelCache, getString: string -> string): (r: (string, TranslatableEnum.LabelCache))
    ensures cache.Resolved? ==> r.0 == cache.text
    ensures cache.Unresolved? ==> r.0 == getString(TranslationKey(v))
    ensures r.1 == TranslatableEnum.Resolved(r.0)
  {
    TranslatableEnum.CachedLabel(cache, TranslationKey(v), getString)
  }

  /** Values lists every variant exactly once. */
  lemma ValuesEnumerateFamily()
    ensures forall v :: v in Values
    ensures forall i, j :: 0 <= i < j < |Values| ==> Values[i] != Values[j]
  {
    forall v
      ensures v in Values
    {
      match v
      case None => assert Values[0] == v;
      case HoursMinutes => assert Values[1] == v;
      case DaysHoursMinutes => assert Values[2] == v;
      case Minutes => assert Values[3] == v;
    }
  }

  /** DurationFormat satisfies the shared codec contract with None as
      sentinel. */
  lemma IsTranslatableEnum()
    ensures TranslatableEnum.IsCodec(Code, ByCode, None)
  {
    forall c | forall v :: Code(v) != c
      ensures ByCode(c) == None
    {
      assert Code(ByCode(c)) != c;
    }
  }

  /** format(int) exactly as the source computes it with Java ints:
      Math.abs wraps for the most negative int, and `/` and `%` truncate.
      The plain-number branch (None, Minutes and any other mode) is the
      locale's NumberFormat, passed in as `numberFormat`. */
  function FormatAsWritten(f: DurationFormat, duration: JavaInt.Int32, numberFormat: int -> string): string {
    var absMinutes := JavaInt.Abs(duration);
    match f
    case DaysHoursMinutes =>
      var days := JavaInt.Div(absMinutes, Constants.MinutesInADay);
      var hours := JavaInt.Div(JavaInt.Rem(absMinutes, Constants.MinutesInADay), Constants.MinutesInAHour);
      DurationText.DaysHoursMinutesText(duration < 0, days, hours, JavaInt.Rem(absMinutes, Constants.MinutesInAHour))
    case HoursMinutes =>
      DurationText.HoursMinutesText(duration < 0,
        JavaInt.Div(absMinutes, Constants.MinutesInAHour), JavaInt.Rem(absMinutes, Constants.MinutesInAHour))
    case _ => numberFormat(duration)
  }

  /** The magnitude of a duration, exact for every Java int. */
  function AbsMinutes(duration: int): nat {
    if duration < 0 then -duration else duration
  }

  /** format(int) with the magnitude taken exactly, so that no field is ever
      negative; it agrees with FormatAsWritten on every int except the most
      negative one (see FormatMatchesSourceAwayFromMinValue). */
  function Format(f: DurationFormat, duration: JavaInt.Int32, numberFormat: int -> string): string {
    var absMinutes := AbsMinutes(duration);
    match f
    case DaysHoursMinutes =>
      var days := absMinutes / Constants.MinutesInADay;
      var hours := (absMinutes % Constants.MinutesInADay) / Constants.MinutesInAHour;
      DurationText.DaysHoursMinutesText(duration < 0, days, hours, absMinutes % Constants.MinutesInAHour)
    case HoursMinutes =>
      DurationText.HoursMinutesText(duration < 0,
        absMinutes / Constants.MinutesInAHour, absMinutes % Constants.MinutesInAHour)
    case _ => numberFormat(duration)
  }

  /** The two definitions coincide on every int but the most negative. */
  lemma FormatMatchesSourceAwayFromMinValue(f: DurationFormat, duration: JavaInt.Int32, numberFormat: int -> string)
    requires duration != JavaInt.MinValue
    ensures FormatAsWritten(f, duration, numberFormat) == Format(f, duration, numberFormat)
  {
    var a := JavaInt.Abs(duration);
    assert a == AbsMinutes(duration);
  }

  /** Reading the hours-and-minutes text back recovers the duration: the
      sign is there exactly for negative durations, the minutes field is
      below an hour, and hours and minutes recombine to the magnitude. The
      reader takes only `%02d` fields, so no other text reads back alike. */
  lemma HoursMinutesRoundTrip(duration: JavaInt.Int32, numberFormat: int -> string)
    ensures var c := DurationText.ParseHoursMinutes(Format(HoursMinutes, duration, numberFormat));
      && c.Some? && c.value.negative == (duration < 0)
      && c.value.days == 0 && c.value.minutes < Constants.MinutesInAHour
      && DurationText.Magnitude(c.value) == AbsMinutes(duration)
      && DurationText.SignedMinutes(c.value) == duration
    ensures var text := Format(HoursMinutes, duration, numberFormat);
      forall s :: DurationText.ParseHoursMinutes(s) == DurationText.ParseHoursMinutes(text) ==> s == text
  {
    var a := AbsMinutes(duration);
    var text := Format(HoursMinutes, duration, numberFormat);
    DurationText.ParseHoursMinutesText(duration < 0, a / Constants.MinutesInAHour, a % Constants.MinutesInAHour);
    DurationText.ParseHoursMinutesUnique(text);
  }

  /** Reading the days-hours-minutes text back recovers the duration: the
      sign is there exactly for negative durations, hours are below a day,
      minutes below an hour, and the three fields recombine to the
      magnitude. No other text, such as one with zeros in front of the days,
      reads back alike. */
  lemma DaysHoursMinutesRoundTrip(duration: JavaInt.Int32, numberFormat: int -> string)
    ensures var c := DurationText.ParseDaysHoursMinutes(Format(DaysHoursMinutes, duration, numberFormat));
      && c.Some? && c.value.negative == (duration < 0)
      && c.value.hours < Constants.HoursInADay && c.value.minutes < Constants.MinutesInAHour
      && DurationText.Magnitude(c.value) == AbsMinutes(duration)
      && DurationText.SignedMinutes(c.value) == duration
    ensures var text := Format(DaysHoursMinutes, duration, numberFormat);
      forall s :: DurationText.ParseDaysHoursMinutes(s) == DurationText.ParseDaysHoursMinutes(text) ==> s == text
  {
    DaysHoursMinutesReadBack(duration, numberFormat);
    DurationText.ParseDaysHoursMinutesUnique(Format(DaysHoursMinutes, duration, numberFormat));
  }

  /** The first half of DaysHoursMinutesRoundTrip: the fields read back. */
  lemma DaysHoursMinutesReadBack(duration: JavaInt.Int32, numberFormat: int -> string)
    ensures var c := DurationText.ParseDaysHoursMinutes(Format(DaysHoursMinutes, duration, numberFormat));
      && c.Some? && c.value.negative == (duration < 0)
      && c.value.hours < Constants.HoursInADay && c.value.minutes < Constants.MinutesInAHour
      && DurationText.Magnitude(c.value) == AbsMinutes(duration)
      && DurationText.SignedMinutes(c.value) == duration
  {
    var a := AbsMinutes(duration);
    DaysHoursMinutesFields(duration, numberFormat);
    DayClockRoundTrip(duration < 0, a);
  }

  /** The days-hours-minutes text of a sign and a magnitude reads back as
      that sign and magnitude. */
  lemma DayClockRoundTrip(negative: bool, a: nat)
    ensures var c := DurationText.ParseDaysHoursMinutes(DurationText.DaysHoursMinutesText(negative,
        a / Constants.MinutesInADay, (a % Constants.MinutesInADay) / Constants.MinutesInAHour, a % Constants.MinutesInAHour));
      && c.Some? && c.value.negative == negative
      && c.value.hours < Constants.HoursInADay && c.value.minutes < Constants.MinutesInAHour
      && DurationText.Magnitude(c.value) == a
  {
    Constants.HourOfDayBounded(a);
    DurationText.ParseDaysHoursMinutesText(negative, a / Constants.MinutesInADay,
      (a % Constants.MinutesInADay) / Constants.MinutesInAHour, a % Constants.MinutesInAHour);
    DayClockMagnitude(negative, a);
  }

  /** The clock of a magnitude's days, hour of the day and minute of the
      hour stands for that magnitude. */
  lemma DayClockMagnitude(negative: bool, a: nat)
    ensures DurationText.Magnitude(DurationText.Clock(negative, a / Constants.MinutesInADay,
      (a % Constants.MinutesInADay) / Constants.MinutesInAHour, a % Constants.MinutesInAHour)) == a
  {
    Constants.DayClockRecombines(a);
  }

  /** In both clock layouts the only '-' is a leading one, present exactly
      when the duration is negative. */
  lemma SignOnlyAsPrefix(f: DurationFormat, duration: JavaInt.Int32, numberFormat: int -> string)
    requires f == HoursMinutes || f == DaysHoursMinutes
    ensures var s := Format(f, duration, numberFormat);
      && |s| > 0 && (s[0] == '-' <==> duration < 0)
      && forall i :: 0 < i < |s| ==> s[i] != '-'
  {
    var a := AbsMinutes(duration);
    DurationText.SignOnlyInFront(duration < 0, a / Constants.MinutesInADay, a / Constants.MinutesInAHour, a % Constants.MinutesInAHour);
    DurationText.SignOnlyInFront(duration < 0, a / Constants.MinutesInADay,
      (a % Constants.MinutesInADay) / Constants.MinutesInAHour, a % Constants.MinutesInAHour);
  }

  /** Negating a positive duration only puts a '-' in front of its clock
      text. */
  lemma NegationAddsMinus(f: DurationFormat, duration: JavaInt.Int32, numberFormat: int -> string)
    requires f == HoursMinutes || f == DaysHoursMinutes
    requires 0 < duration
    ensures Format(f, -duration, numberFormat) == "-" + Format(f, duration, numberFormat)
  {
    assert AbsMinutes(-duration) == AbsMinutes(duration);
    var a := AbsMinutes(duration);
    var body :=
      if f == HoursMinutes then
        DurationText.HoursMinutesBody(a / Constants.MinutesInAHour, a % Constants.MinutesInAHour)
      else
        Decimal.FormatInt(a / Constants.MinutesInADay, 1) + " "
        + DurationText.HoursMinutesBody((a % Constants.MinutesInADay) / Constants.MinutesInAHour, a % Constants.MinutesInAHour);
    assert Format(f, duration, numberFormat) == Constants.Empty + body;
    assert Constants.Empty + body == body;
  }

  /** None, Minutes and every other mode fall through to the same plain
      localized number, in the source as written and in the corrected
      definition alike. */
  lemma PlainNumberModes(duration: JavaInt.Int32, numberFormat: int -> string)
    ensures Format(None, duration, numberFormat) == Format(Minutes, duration, numberFormat) == numberFormat(duration)
    ensures FormatAsWritten(None, duration, numberFormat) == FormatAsWritten(Minutes, duration, numberFormat) == numberFormat(duration)
  {
  }

  /** The durations the source's tests format, plus zero and five hours
      (the hours field is zero-padded as well). */
  lemma TestedDurations(numberFormat: int -> string)
    ensures Format(HoursMinutes, 2325486, numberFormat) == "38758:06"
    ensures Format(DaysHoursMinutes, 2325486, numberFormat) == "1614 22:06"
    ensures Format(HoursMinutes, 0, numberFormat) == "00:00"
    ensures Format(DaysHoursMinutes, 0, numberFormat) == "0 00:00"
    ensures Format(HoursMinutes, 300, numberFormat) == "05:00"
  {
    TestedHoursMinutes(numberFormat);
    TestedDaysHoursMinutes(numberFormat);
    ZeroAndFiveHours(numberFormat);
  }

  /** The tested negative duration gets the same text with a '-' in front,
      in the source as written too. */
  lemma TestedNegativeDurations(numberFormat: int -> string)
    ensures Format(HoursMinutes, -2325486, numberFormat) == "-38758:06"
    ensures Format(DaysHoursMinutes, -2325486, numberFormat) == "-1614 22:06"
    ensures FormatAsWritten(HoursMinutes, -2325486, numberFormat) == "-38758:06"
    ensures FormatAsWritten(DaysHoursMinutes, -2325486, numberFormat) == "-1614 22:06"
  {
    TestedHoursMinutes(numberFormat);
    TestedDaysHoursMinutes(numberFormat);
    NegationAddsMinus(HoursMinutes, 2325486, numberFormat);
    NegationAddsMinus(DaysHoursMinutes, 2325486, numberFormat);
    DurationLiterals.NegativeTestedTexts();
    FormatMatchesSourceAwayFromMinValue(HoursMinutes, -2325486, numberFormat);
    FormatMatchesSourceAwayFromMinValue(DaysHoursMinutes, -2325486, numberFormat);
  }

  lemma TestedHoursMinutes(numberFormat: int -> string)
    ensures Format(HoursMinutes, 2325486, numberFormat) == "38758:06"
  {
    HoursMinutesFields(2325486, numberFormat);
    assert AbsMinutes(2325486) / Constants.MinutesInAHour == 38758;
    assert AbsMinutes(2325486) % Constants.MinutesInAHour == 6;
    DurationLiterals.TestedHoursText();
  }

  lemma TestedDaysHoursMinutes(numberFormat: int -> string)
    ensures Format(DaysHoursMinutes, 2325486, numberFormat) == "1614 22:06"
  {
    DaysHoursMinutesFields(2325486, numberFormat);
    TestedDayFields();
    DurationLiterals.TestedDaysText();
  }

  /** The fields of the tested duration in the days layout. */
  lemma TestedDayFields()
    ensures AbsMinutes(2325486) / Constants.MinutesInADay == 1614
    ensures (AbsMinutes(2325486) % Constants.MinutesInADay) / Constants.MinutesInAHour == 22
    ensures AbsMinutes(2325486) % Constants.MinutesInAHour == 6
  {
    Constants.MinutesInADayValue();
  }

  lemma ZeroAndFiveHours(numberFormat: int -> string)
    ensures Format(HoursMinutes, 0, numberFormat) == "00:00"
    ensures Format(DaysHoursMinutes, 0, numberFormat) == "0 00:00"
    ensures Format(HoursMinutes, 300, numberFormat) == "05:00"
  {
    HoursMinutesFields(0, numberFormat);
    DaysHoursMinutesFields(0, numberFormat);
    HoursMinutesFields(300, numberFormat);
    Constants.MinutesInADayValue();
    assert AbsMinutes(300) / Constants.MinutesInAHour == 5;
    assert AbsMinutes(300) % Constants.MinutesInAHour == 0;
    DurationLiterals.ZeroTexts();
    DurationLiterals.FiveHoursText();
  }

  /** The hours-and-minutes text is built from the sign, the whole hours and
      the minute of the hour of the magnitude. */
  lemma HoursMinutesFields(duration: JavaInt.Int32, numberFormat: int -> string)
    ensures Format(HoursMinutes, duration, numberFormat)
      == DurationText.HoursMinutesText(duration < 0,
           AbsMinutes(duration) / Constants.MinutesInAHour, AbsMinutes(duration) % Constants.MinutesInAHour)
  {
  }

  /** The days-hours-minutes text is built from the sign, the whole days, the
      hour of the day and the minute of the hour of the magnitude. */
  lemma DaysHoursMinutesFields(duration: JavaInt.Int32, numberFormat: int -> string)
    ensures Format(DaysHoursMinutes, duration, numberFormat)
      == DurationText.DaysHoursMinutesText(duration < 0,
           AbsMinutes(duration) / Constants.MinutesInADay,
           (AbsMinutes(duration) % Constants.MinutesInADay) / Constants.MinutesInAHour,
           AbsMinutes(duration) % Constants.MinutesInAHour)
  {
  }

  /** The fields FormatAsWritten computes for the most negative int: the
      wrapped Math.abs leaves the dividend negative, so every truncated
      quotient and remainder is negative too. */
  lemma MinValueFields()
    ensures JavaInt.Abs(JavaInt.MinValue) == JavaInt.MinValue
    ensures JavaInt.Div(JavaInt.MinValue, Constants.MinutesInAHour) == -35791394
    ensures JavaInt.Rem(JavaInt.MinValue, Constants.MinutesInAHour) == -8
    ensures JavaInt.Div(JavaInt.MinValue, Constants.MinutesInADay) == -1491308
    ensures JavaInt.Div(JavaInt.Rem(JavaInt.MinValue, Constants.MinutesInADay), Constants.MinutesInAHour) == -2
  {
  }

  /** FormatAsWritten and Format on the most negative int, reduced to the
      fields each computes. */
  lemma MinValueFieldTexts(numberFormat: int -> string)
    ensures FormatAsWritten(HoursMinutes, JavaInt.MinValue, numberFormat) == DurationText.HoursMinutesText(true, -35791394, -8)
    ensures FormatAsWritten(DaysHoursMinutes, JavaInt.MinValue, numberFormat) == DurationText.DaysHoursMinutesText(true, -1491308, -2, -8)
    ensures Format(HoursMinutes, JavaInt.MinValue, numberFormat) == DurationText.HoursMinutesText(true, 35791394, 8)
    ensures Format(DaysHoursMinutes, JavaInt.MinValue, numberFormat) == DurationText.DaysHoursMinutesText(true, 1491308, 2, 8)
  {
    MinValueFields();
    assert AbsMinutes(JavaInt.MinValue) == 2147483648;
  }

  /** Neither reader accepts the malformed texts: the field after the sign
      starts with another '-'. */
  lemma MalformedTextsRejected()
    ensures DurationText.ParseHoursMinutes("--35791394:-8").None?
    ensures DurationText.ParseDaysHoursMinutes("--1491308 -2:-8").None?
  {
    assert DurationText.SplitSign("--35791394:-8") == (true, "-35791394:-8");
    assert DurationText.SplitSign("--1491308 -2:-8") == (true, "-1491308 -2:-8");
    assert !Decimal.IsDigit('-');
    assert "-35791394:-8"[..9][0] == '-';
    assert "-1491308 -2:-8"[..8][0] == '-';
  }

  /** For the most negative int the source's output is malformed: a doubled
      sign and negative fields, which neither reader of the layouts accepts,
      while with the exact magnitude the same input renders as intended. */
  lemma MinValueBreaksFormatAsWritten(numberFormat: int -> string)
    ensures FormatAsWritten(HoursMinutes, JavaInt.MinValue, numberFormat) == "--35791394:-8"
    ensures FormatAsWritten(DaysHoursMinutes, JavaInt.MinValue, numberFormat) == "--1491308 -2:-8"
    ensures DurationText.ParseHoursMinutes(FormatAsWritten(HoursMinutes, JavaInt.MinValue, numberFormat)).None?
    ensures DurationText.ParseDaysHoursMinutes(FormatAsWritten(DaysHoursMinutes, JavaInt.MinValue, numberFormat)).None?
    ensures Format(HoursMinutes, JavaInt.MinValue, numberFormat) == "-35791394:08"
    ensures Format(DaysHoursMinutes, JavaInt.MinValue, numberFormat) == "-1491308 02:08"
  {
    MinValueFieldTexts(numberFormat);
    DurationLiterals.MinValueTexts();
    MalformedTextsRejected();
  }
}
