/** The two clock layouts the duration formatter produces, "[-]HH:mm" and
    "[-]d HH:mm", and the readers that take such text apart again. */
module DurationText {
  import opened Wrappers
  import Constants
  import Decimal

  /** A duration as a sign and clock fields; `days` is 0 in the hours-and-minutes
      layout, whose hours are not bounded. */
  datatype Clock = Clock(negative: bool, days: nat, hours: nat, minutes: nat)

  /** The number of minutes the fields stand for, ignoring the sign. */
  function Magnitude(c: Clock): nat {
    c.days * Constants.MinutesInADay + c.hours * Constants.MinutesInAHour + c.minutes
  }

  function SignedMinutes(c: Clock): int {
    if c.negative then -(Magnitude(c) as int) else Magnitude(c)
  }

  const Minus: string := "-"

  /** "-" in front of a negative duration, the empty string otherwise. */
  function SignPrefix(negative: bool): string {
    if negative then Minus else Constants.Empty
  }

  /** "%02d:%02d" applied to two Java ints. */
  function HoursMinutesBody(hours: int, minutes: int): string {
    Decimal.FormatInt(hours, 2) + ":" + Decimal.FormatInt(minutes, 2)
  }

  /** "%s%02d:%02d" applied to the sign of a duration and two Java ints. */
  function HoursMinutesText(negative: bool, hours: int, minutes: int): string {
    SignPrefix(negative) + HoursMinutesBody(hours, minutes)
  }

  /** "%s%01d %02d:%02d" applied to the sign of a duration and three Java
      ints. */
  function DaysHoursMinutesText(negative: bool, days: int, hours: int, minutes: int): string {
    SignPrefix(negative) + (Decimal.FormatInt(days, 1) + " " + HoursMinutesBody(hours, minutes))
  }

  /** Separates one leading '-' from the rest of the text. */
  function SplitSign(s: string): (r: (bool, string))
    ensures r.0 ==> s == Minus + r.1
    ensures !r.0 ==> s == r.1
  {
    if |s| > 0 && s[0] == '-' then (true, s[1..]) else (false, s)
  }

  /** Reads "[-]HH:mm" as `%02d:%02d` prints it: hours of two digits, or
      more without a leading zero, and two minute digits below 60; anything
      else is rejected. */
  function ParseHoursMinutes(s: string): Option<Clock> {
    var (negative, body) := SplitSign(s);
    ReadHoursMinutes(negative, body)
  }

  /** The unsigned part of ParseHoursMinutes. */
  function ReadHoursMinutes(negative: bool, body: string): Option<Clock> {
    if |body| < 4 || body[|body| - 3] != ':' then None
    else
      var hh := body[..|body| - 3];
      var mm := body[|body| - 2..];
      if Decimal.IsPaddedField(hh, 2) && Decimal.IsPaddedField(mm, 2) && Decimal.Value(mm) < 60
      then Some(Clock(negative, 0, Decimal.Value(hh), Decimal.Value(mm)))
      else None
  }

  /** Reads "[-]d HH:mm" as `%01d %02d:%02d` prints it: days without a
      leading zero (unless zero), two hour digits below 24 and two minute
      digits below 60; anything else is rejected. */
  function ParseDaysHoursMinutes(s: string): Option<Clock> {
    var (negative, body) := SplitSign(s);
    ReadDaysHoursMinutes(negative, body)
  }

  /** The unsigned part of ParseDaysHoursMinutes. */
  function ReadDaysHoursMinutes(negative: bool, body: string): Option<Clock> {
    if |body| < 7 || body[|body| - 6] != ' ' then None
    else
      var dd := body[..|body| - 6];
      match ReadHoursMinutes(negative, body[|body| - 5..])
      case Some(c) =>
        if Decimal.IsPaddedField(dd, 1) && c.hours < 24
        then Some(Clock(negative, Decimal.Value(dd), c.hours, c.minutes))
        else None
      case None => None
  }

  /** A sign prefix in front of text that does not itself start with '-' is
      split off again as it was put on. */
  lemma SplitSignPrefix(negative: bool, body: string)
    requires |body| > 0 && body[0] != '-'
    ensures SplitSign(SignPrefix(negative) + body) == (negative, body)
  {
    if negative {
      assert (Minus + body)[1..] == body;
    } else {
      assert SignPrefix(negative) + body == body;
    }
  }

  /** "H:mm" assembled from digit strings reads back as their values. */
  lemma ReadHoursMinutesFields(negative: bool, h: string, m: string)
    requires Decimal.IsPaddedField(h, 2)
    requires |m| == 2 && Decimal.IsPaddedField(m, 2) && Decimal.Value(m) < 60
    ensures ReadHoursMinutes(negative, h + ":" + m) == Some(Clock(negative, 0, Decimal.Value(h), Decimal.Value(m)))
  {
    var body := h + ":" + m;
    assert |body| == |h| + 3;
    assert body[|h|] == ':';
    assert body[..|body| - 3] == h;
    assert body[|body| - 2..] == m;
    ReadHoursMinutesAt(negative, body, h, m);
  }

  /** The hours-and-minutes reader on a text already known to be two valid
      fields around the ':' three from the end. */
  lemma ReadHoursMinutesAt(negative: bool, body: string, hh: string, mm: string)
    requires |body| >= 4 && body[|body| - 3] == ':'
    requires body[..|body| - 3] == hh && body[|body| - 2..] == mm
    requires Decimal.IsPaddedField(hh, 2) && Decimal.IsPaddedField(mm, 2) && Decimal.Value(mm) < 60
    ensures ReadHoursMinutes(negative, body) == Some(Clock(negative, 0, Decimal.Value(hh), Decimal.Value(mm)))
  {
  }

  /** The unsigned hours-and-minutes text of non-negative fields starts with
      a digit and is five characters long while the hours have two digits. */
  lemma HoursMinutesBodyShape(hours: nat, minutes: nat)
    requires minutes < 60
    ensures var body := HoursMinutesBody(hours, minutes);
      && |body| >= 5 && Decimal.IsDigit(body[0])
      && (hours < 100 ==> |body| == 5)
  {
    var h := Decimal.FormatInt(hours, 2);
    Decimal.ValueOfFormatInt(hours, 2);
    Decimal.TwoDigitField(minutes);
    if hours < 100 {
      Decimal.TwoDigitField(hours);
    }
    assert HoursMinutesBody(hours, minutes)[0] == h[0];
  }

  /** The unsigned hours-and-minutes text of non-negative fields reads back
      as those fields. */
  lemma ReadHoursMinutesBody(negative: bool, hours: nat, minutes: nat)
    requires minutes < 60
    ensures ReadHoursMinutes(negative, HoursMinutesBody(hours, minutes)) == Some(Clock(negative, 0, hours, minutes))
  {
    Decimal.TwoDigitField(minutes);
    Decimal.ValueOfFormatInt(hours, 2);
    Decimal.ValueOfFormatInt(minutes, 2);
    Decimal.FormatIntIsPaddedField(hours, 2);
    Decimal.FormatIntIsPaddedField(minutes, 2);
    ReadHoursMinutesFields(negative, Decimal.FormatInt(hours, 2), Decimal.FormatInt(minutes, 2));
  }

  /** Reading back an hours-and-minutes text gives the fields it was built
      from, provided they are non-negative and the minutes are below an hour. */
  lemma ParseHoursMinutesText(negative: bool, hours: nat, minutes: nat)
    requires minutes < 60
    ensures ParseHoursMinutes(HoursMinutesText(negative, hours, minutes)) == Some(Clock(negative, 0, hours, minutes))
  {
    ReadHoursMinutesBody(negative, hours, minutes);
    HoursMinutesBodyShape(hours, minutes);
    SplitSignPrefix(negative, HoursMinutesBody(hours, minutes));
  }

  /** "d HH:mm" assembled from a digit string and a valid hours-and-minutes
      text reads back as their values. */
  lemma ReadDaysHoursMinutesFields(negative: bool, d: string, hm: string, hours: nat, minutes: nat)
    requires Decimal.IsPaddedField(d, 1)
    requires |hm| == 5 && ReadHoursMinutes(negative, hm) == Some(Clock(negative, 0, hours, minutes))
    requires hours < 24
    ensures ReadDaysHoursMinutes(negative, d + " " + hm) == Some(Clock(negative, Decimal.Value(d), hours, minutes))
  {
    var body := d + " " + hm;
    assert |body| == |d| + 6;
    assert body[|d|] == ' ';
    assert body[..|d|] == d;
    assert body[|d| + 1..] == hm;
  }

  /** Reading back a days-hours-minutes text gives the fields it was built
      from, provided they are non-negative, the hours are below a day and the
      minutes below an hour. */
  lemma ParseDaysHoursMinutesText(negative: bool, days: nat, hours: nat, minutes: nat)
    requires hours < 24 && minutes < 60
    ensures ParseDaysHoursMinutes(DaysHoursMinutesText(negative, days, hours, minutes))
      == Some(Clock(negative, days, hours, minutes))
  {
    var d := Decimal.FormatInt(days, 1);
    var hm := HoursMinutesBody(hours, minutes);
    Decimal.ValueOfFormatInt(days, 1);
    Decimal.FormatIntIsPaddedField(days, 1);
    ReadHoursMinutesBody(negative, hours, minutes);
    HoursMinutesBodyShape(hours, minutes);
    ReadDaysHoursMinutesFields(negative, d, hm, hours, minutes);
    var body := d + " " + hm;
    assert body[0] == d[0];
    SplitSignPrefix(negative, body);
  }

  /** The hours-and-minutes reader accepts nothing but layout output: the
      unsigned text it reads is the body of the fields it returns. */
  lemma ReadHoursMinutesCanonical(negative: bool, body: string)
    requires ReadHoursMinutes(negative, body).Some?
    ensures var c := ReadHoursMinutes(negative, body).value;
      body == HoursMinutesBody(c.hours, c.minutes)
  {
    ReadHoursMinutesAccepted(negative, body);
    BodyOfFields(body, body[..|body| - 3], body[|body| - 2..]);
  }

  /** What the hours-and-minutes reader has checked of a text it accepts. */
  lemma ReadHoursMinutesAccepted(negative: bool, body: string)
    requires ReadHoursMinutes(negative, body).Some?
    ensures |body| >= 4 && body[|body| - 3] == ':'
    ensures var hh := body[..|body| - 3];
      var mm := body[|body| - 2..];
      && Decimal.IsPaddedField(hh, 2) && Decimal.IsPaddedField(mm, 2)
      && ReadHoursMinutes(negative, body).value == Clock(negative, 0, Decimal.Value(hh), Decimal.Value(mm))
  {
  }

  /** Two padded fields around a ':' are the body of their values. */
  lemma BodyOfFields(body: string, hh: string, mm: string)
    requires |body| >= 4 && body[|body| - 3] == ':'
    requires body[..|body| - 3] == hh && body[|body| - 2..] == mm
    requires Decimal.IsPaddedField(hh, 2) && Decimal.IsPaddedField(mm, 2)
    ensures body == HoursMinutesBody(Decimal.Value(hh), Decimal.Value(mm))
  {
    SplitColon(body, hh, mm);
    Decimal.FormatIntOfPaddedField(hh, 2);
    Decimal.FormatIntOfPaddedField(mm, 2);
  }

  /** A text with a ':' three from the end is what precedes it, the ':' and
      what follows it. */
  lemma SplitColon(body: string, hh: string, mm: string)
    requires |body| >= 4 && body[|body| - 3] == ':'
    requires body[..|body| - 3] == hh && body[|body| - 2..] == mm
    ensures body == hh + ":" + mm
  {
    SplitAround(body, |body| - 3);
  }

  /** A text is what comes before position k, the character at k, and what
      comes after. */
  lemma SplitAround(s: string, k: nat)
    requires k < |s|
    ensures s == s[..k] + [s[k]] + s[k + 1..]
  {
  }

  /** Every text the hours-and-minutes reader accepts is the layout of the
      sign and fields it reads: no other spelling of the same clock, such
      as "5:00" or "0005:00", gets through. */
  lemma ParseHoursMinutesCanonical(s: string)
    requires ParseHoursMinutes(s).Some?
    ensures var c := ParseHoursMinutes(s).value;
      s == HoursMinutesText(c.negative, c.hours, c.minutes)
  {
    var (negative, body) := SplitSign(s);
    ReadHoursMinutesCanonical(negative, body);
  }

  /** Every text the days-hours-minutes reader accepts is the layout of the
      sign and fields it reads; in particular the days carry no leading
      zero. */
  lemma ParseDaysHoursMinutesCanonical(s: string)
    requires ParseDaysHoursMinutes(s).Some?
    ensures var c := ParseDaysHoursMinutes(s).value;
      s == DaysHoursMinutesText(c.negative, c.days, c.hours, c.minutes)
  {
    var (negative, body) := SplitSign(s);
    var dd := body[..|body| - 6];
    var hm := body[|body| - 5..];
    ReadHoursMinutesCanonical(negative, hm);
    Decimal.FormatIntOfPaddedField(dd, 1);
    SplitAround(body, |body| - 6);
  }

  /** Spellings of a clock that the layouts never print are rejected: hours
      without their padding zero, hours with extra zeros, and days with a
      leading zero. */
  lemma OtherSpellingsRejected()
    ensures ParseHoursMinutes("5:00").None?
    ensures ParseHoursMinutes("0005:00").None?
    ensures ParseDaysHoursMinutes("01 22:06").None?
  {
    assert SplitSign("5:00") == (false, "5:00");
    assert "5:00"[..1] == "5";
    assert SplitSign("0005:00") == (false, "0005:00");
    assert "0005:00"[..4][0] == '0';
    assert SplitSign("01 22:06") == (false, "01 22:06");
    assert "01 22:06"[..2][0] == '0';
  }

  /** No other text reads back as the clock an accepted hours-and-minutes
      text reads as. */
  lemma ParseHoursMinutesUnique(text: string)
    requires ParseHoursMinutes(text).Some?
    ensures forall s :: ParseHoursMinutes(s) == ParseHoursMinutes(text) ==> s == text
  {
    forall s | ParseHoursMinutes(s) == ParseHoursMinutes(text)
      ensures s == text
    {
      ParseHoursMinutesInjective(text, s);
    }
  }

  /** No other text reads back as the clock an accepted days-hours-minutes
      text reads as. */
  lemma ParseDaysHoursMinutesUnique(text: string)
    requires ParseDaysHoursMinutes(text).Some?
    ensures forall s :: ParseDaysHoursMinutes(s) == ParseDaysHoursMinutes(text) ==> s == text
  {
    forall s | ParseDaysHoursMinutes(s) == ParseDaysHoursMinutes(text)
      ensures s == text
    {
      ParseDaysHoursMinutesInjective(text, s);
    }
  }

  /** Two texts the hours-and-minutes reader reads alike are the same text. */
  lemma ParseHoursMinutesInjective(s: string, t: string)
    requires ParseHoursMinutes(s).Some? && ParseHoursMinutes(s) == ParseHoursMinutes(t)
    ensures s == t
  {
    ParseHoursMinutesCanonical(s);
    ParseHoursMinutesCanonical(t);
  }

  /** Two texts the days-hours-minutes reader reads alike are the same text. */
  lemma ParseDaysHoursMinutesInjective(s: string, t: string)
    requires ParseDaysHoursMinutes(s).Some? && ParseDaysHoursMinutes(s) == ParseDaysHoursMinutes(t)
    ensures s == t
  {
    ParseDaysHoursMinutesCanonical(s);
    ParseDaysHoursMinutesCanonical(t);
  }

  /** Text without '-' keeps none after the sign is put in front: the sign is
      the first character exactly when it is negative. */
  lemma SignOnlyInFrontOf(negative: bool, body: string)
    requires |body| > 0 && forall i :: 0 <= i < |body| ==> body[i] != '-'
    ensures var s := SignPrefix(negative) + body;
      && (s[0] == '-' <==> negative)
      && forall i :: 0 < i < |s| ==> s[i] != '-'
  {
    if !negative {
      assert SignPrefix(negative) + body == body;
    }
  }

  /** Text joined from '-'-free pieces and a separator other than '-' has
      no '-' either. */
  lemma JoinedWithoutMinus(a: string, sep: char, b: string)
    requires sep != '-'
    requires forall i :: 0 <= i < |a| ==> a[i] != '-'
    requires forall i :: 0 <= i < |b| ==> b[i] != '-'
    ensures forall i :: 0 <= i < |a + [sep] + b| ==> (a + [sep] + b)[i] != '-'
  {
    var t := a + [sep] + b;
    forall i | 0 <= i < |t|
      ensures t[i] != '-'
    {
      if i < |a| {
        assert t[i] == a[i];
      } else if i > |a| {
        assert t[i] == b[i - |a| - 1];
      }
    }
  }

  /** A digit string contains no '-'. */
  lemma DigitsWithoutMinus(s: string)
    requires Decimal.IsDigits(s)
    ensures forall i :: 0 <= i < |s| ==> s[i] != '-'
  {
    forall i | 0 <= i < |s|
      ensures s[i] != '-'
    {
      assert Decimal.IsDigit(s[i]);
    }
  }

  /** The unsigned hours-and-minutes text of non-negative fields contains no
      '-'. */
  lemma HoursMinutesBodyWithoutMinus(hours: nat, minutes: nat)
    ensures var hm := HoursMinutesBody(hours, minutes);
      forall i :: 0 <= i < |hm| ==> hm[i] != '-'
  {
    var h := Decimal.FormatInt(hours, 2);
    var m := Decimal.FormatInt(minutes, 2);
    Decimal.ValueOfFormatInt(hours, 2);
    Decimal.ValueOfFormatInt(minutes, 2);
    DigitsWithoutMinus(h);
    DigitsWithoutMinus(m);
    JoinedWithoutMinus(h, ':', m);
    assert HoursMinutesBody(hours, minutes) == h + [':'] + m;
  }

  /** The unsigned days-hours-minutes text of non-negative fields contains no
      '-'. */
  lemma DaysHoursMinutesBodyWithoutMinus(days: nat, hours: nat, minutes: nat)
    ensures var dhm := Decimal.FormatInt(days, 1) + " " + HoursMinutesBody(hours, minutes);
      forall i :: 0 <= i < |dhm| ==> dhm[i] != '-'
  {
    var d := Decimal.FormatInt(days, 1);
    var hm := HoursMinutesBody(hours, minutes);
    Decimal.ValueOfFormatInt(days, 1);
    DigitsWithoutMinus(d);
    HoursMinutesBodyWithoutMinus(hours, minutes);
    JoinedWithoutMinus(d, ' ', hm);
    assert d + " " + hm == d + [' '] + hm;
  }

  /** In both layouts of non-negative fields a '-' can only be the first
      character, and it is there exactly when the sign is negative. */
  lemma SignOnlyInFront(negative: bool, days: nat, hours: nat, minutes: nat)
    ensures var s := HoursMinutesText(negative, hours, minutes);
      && |s| > 0 && (s[0] == '-' <==> negative)
      && forall i :: 0 < i < |s| ==> s[i] != '-'
    ensures var s := DaysHoursMinutesText(negative, days, hours, minutes);
      && |s| > 0 && (s[0] == '-' <==> negative)
      && forall i :: 0 < i < |s| ==> s[i] != '-'
  {
    HoursMinutesBodyWithoutMinus(hours, minutes);
    DaysHoursMinutesBodyWithoutMinus(days, hours, minutes);
    SignOnlyInFrontOf(negative, HoursMinutesBody(hours, minutes));
    SignOnlyInFrontOf(negative, Decimal.FormatInt(days, 1) + " " + HoursMinutesBody(hours, minutes));
  }

  /** An hours-and-minutes text is the sign followed by the two rendered
      fields around a ':'. */
  lemma HoursMinutesTextOf(negative: bool, hours: int, minutes: int, h: string, m: string)
    requires Decimal.FormatInt(hours, 2) == h && Decimal.FormatInt(minutes, 2) == m
    ensures HoursMinutesText(negative, hours, minutes) == SignPrefix(negative) + (h + ":" + m)
  {
  }

  /** A days-hours-minutes text is the sign, the rendered days, a blank and
      the hours-and-minutes body. */
  lemma DaysHoursMinutesTextOf(negative: bool, days: int, hours: int, minutes: int, d: string, h: string, m: string)
    requires Decimal.FormatInt(days, 1) == d
    requires Decimal.FormatInt(hours, 2) == h && Decimal.FormatInt(minutes, 2) == m
    ensures DaysHoursMinutesText(negative, days, hours, minutes) == SignPrefix(negative) + (d + " " + (h + ":" + m))
  {
  }
}
