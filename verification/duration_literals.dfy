/** Proof steps for particular durations, kept apart from the formatter:
    the text of each literal field is built digit by digit, and each join of
    literal pieces is a lemma of its own, so that the lemmas about the
    formatter stay small and stable. Nothing here is behaviour of its own. */
module DurationLiterals {
  import Decimal
  import DurationText

  lemma NegativeTestedTexts()
    ensures "-" + "38758:06" == "-38758:06"
    ensures "-" + "1614 22:06" == "-1614 22:06"
  {
  }

  // The texts of the tested fields, assembled from the single fields.
  lemma TestedHoursText()
    ensures DurationText.HoursMinutesText(false, 38758, 6) == "38758:06"
  {
    FieldTestedHours();
    FieldTestedMinutes();
    DurationText.HoursMinutesTextOf(false, 38758, 6, "38758", "06");
    TestedHoursTextJoined();
  }

  lemma TestedDaysText()
    ensures DurationText.DaysHoursMinutesText(false, 1614, 22, 6) == "1614 22:06"
  {
    FieldTestedDays();
    FieldTestedHourOfDay();
    FieldTestedMinutes();
    DurationText.DaysHoursMinutesTextOf(false, 1614, 22, 6, "1614", "22", "06");
    TestedDaysTextJoined();
  }

  lemma ZeroTexts()
    ensures DurationText.HoursMinutesText(false, 0, 0) == "00:00"
    ensures DurationText.DaysHoursMinutesText(false, 0, 0, 0) == "0 00:00"
  {
    FieldZero();
    FieldZeroDays();
    DurationText.HoursMinutesTextOf(false, 0, 0, "00", "00");
    DurationText.DaysHoursMinutesTextOf(false, 0, 0, 0, "0", "00", "00");
    ZeroTextsJoined();
    ZeroDaysTextJoined();
  }

  lemma FiveHoursText()
    ensures DurationText.HoursMinutesText(false, 5, 0) == "05:00"
  {
    FieldFive();
    FieldZero();
    DurationText.HoursMinutesTextOf(false, 5, 0, "05", "00");
    FiveHoursTextJoined();
  }

  // The single fields of the tested texts; the longer renderings are built
  // digit by digit.
  lemma FieldTestedHours() ensures Decimal.FormatInt(38758, 2) == "38758" {
    Decimal.DigitsStep(3, "3", 8);
    Decimal.DigitsStep(38, "38", 7);
    Decimal.DigitsStep(387, "387", 5);
    Decimal.DigitsStep(3875, "3875", 8);
    Decimal.FormatWide(38758, 2, "38758");
  }
  lemma FieldTestedDays() ensures Decimal.FormatInt(1614, 1) == "1614" {
    Decimal.DigitsStep(1, "1", 6);
    Decimal.DigitsStep(16, "16", 1);
    Decimal.DigitsStep(161, "161", 4);
    Decimal.FormatWide(1614, 1, "1614");
  }
  lemma FieldTestedHourOfDay() ensures Decimal.FormatInt(22, 2) == "22" {
    Decimal.DigitsStep(2, "2", 2);
    Decimal.FormatWide(22, 2, "22");
  }
  lemma FieldTestedMinutes() ensures Decimal.FormatInt(6, 2) == "06" {}
  lemma FieldZero() ensures Decimal.FormatInt(0, 2) == "00" {}
  lemma FieldZeroDays() ensures Decimal.FormatInt(0, 1) == "0" {}
  lemma FieldFive() ensures Decimal.FormatInt(5, 2) == "05" {}

  // The joins of literal pieces used above, each proved on its own.
  lemma TestedHoursTextJoined() ensures "" + ("38758" + ":" + "06") == "38758:06" {}
  lemma TestedDaysTextJoined() ensures "" + ("1614" + " " + ("22" + ":" + "06")) == "1614 22:06" {}
  lemma ZeroTextsJoined() ensures "" + ("00" + ":" + "00") == "00:00" {}
  lemma ZeroDaysTextJoined() ensures "" + ("0" + " " + ("00" + ":" + "00")) == "0 00:00" {}
  lemma FiveHoursTextJoined() ensures "" + ("05" + ":" + "00") == "05:00" {}
  lemma NegativeFieldsTextJoined() ensures "-" + ("-35791394" + ":" + "-8") == "--35791394:-8" {}
  lemma NegativeDayFieldsTextJoined() ensures "-" + ("-1491308" + " " + ("-2" + ":" + "-8")) == "--1491308 -2:-8" {}
  lemma MagnitudeFieldsTextJoined() ensures "-" + ("35791394" + ":" + "08") == "-35791394:08" {}
  lemma MagnitudeDayFieldsTextJoined() ensures "-" + ("1491308" + " " + ("02" + ":" + "08")) == "-1491308 02:08" {}

  /** The texts Java's Formatter makes of the negative fields of the most
      negative int, and of the fields of its exact magnitude. */
  lemma MinValueTexts()
    ensures DurationText.HoursMinutesText(true, -35791394, -8) == "--35791394:-8"
    ensures DurationText.DaysHoursMinutesText(true, -1491308, -2, -8) == "--1491308 -2:-8"
    ensures DurationText.HoursMinutesText(true, 35791394, 8) == "-35791394:08"
    ensures DurationText.DaysHoursMinutesText(true, 1491308, 2, 8) == "-1491308 02:08"
  {
    NegativeFieldsText();
    NegativeDayFieldsText();
    MagnitudeFieldsText();
    MagnitudeDayFieldsText();
  }

  lemma NegativeFieldsText()
    ensures DurationText.HoursMinutesText(true, -35791394, -8) == "--35791394:-8"
  {
    FieldNegativeHours();
    FieldNegativeMinutes();
    DurationText.HoursMinutesTextOf(true, -35791394, -8, "-35791394", "-8");
    NegativeFieldsTextJoined();
  }

  lemma NegativeDayFieldsText()
    ensures DurationText.DaysHoursMinutesText(true, -1491308, -2, -8) == "--1491308 -2:-8"
  {
    FieldNegativeDays();
    FieldNegativeHourOfDay();
    FieldNegativeMinutes();
    DurationText.DaysHoursMinutesTextOf(true, -1491308, -2, -8, "-1491308", "-2", "-8");
    NegativeDayFieldsTextJoined();
  }

  lemma MagnitudeFieldsText()
    ensures DurationText.HoursMinutesText(true, 35791394, 8) == "-35791394:08"
  {
    FieldHours();
    FieldMinutes();
    DurationText.HoursMinutesTextOf(true, 35791394, 8, "35791394", "08");
    MagnitudeFieldsTextJoined();
  }

  lemma MagnitudeDayFieldsText()
    ensures DurationText.DaysHoursMinutesText(true, 1491308, 2, 8) == "-1491308 02:08"
  {
    FieldDays();
    FieldHourOfDay();
    FieldMinutes();
    DurationText.DaysHoursMinutesTextOf(true, 1491308, 2, 8, "1491308", "02", "08");
    MagnitudeDayFieldsTextJoined();
  }

  // The single fields of the texts above.
  lemma FieldNegativeHours() ensures Decimal.FormatInt(-35791394, 2) == "-35791394" {
    HoursOfMinValue();
    Decimal.FormatNegativeWide(35791394, 2, "35791394");
    NegativeHoursJoined();
  }
  lemma FieldNegativeDays() ensures Decimal.FormatInt(-1491308, 1) == "-1491308" {
    DaysOfMinValue();
    Decimal.FormatNegativeWide(1491308, 1, "1491308");
    NegativeDaysJoined();
  }
  lemma FieldNegativeHourOfDay() ensures Decimal.FormatInt(-2, 2) == "-2" {}
  lemma FieldNegativeMinutes() ensures Decimal.FormatInt(-8, 2) == "-8" {}
  lemma FieldHours() ensures Decimal.FormatInt(35791394, 2) == "35791394" {
    HoursOfMinValue();
    Decimal.FormatWide(35791394, 2, "35791394");
  }
  lemma FieldDays() ensures Decimal.FormatInt(1491308, 1) == "1491308" {
    DaysOfMinValue();
    Decimal.FormatWide(1491308, 1, "1491308");
  }

  lemma NegativeHoursJoined() ensures "-" + "35791394" == "-35791394" {}
  lemma NegativeDaysJoined() ensures "-" + "1491308" == "-1491308" {}

  lemma HoursOfMinValue() ensures Decimal.Digits(35791394) == "35791394" {
    Decimal.DigitsStep(3, "3", 5);
    Decimal.DigitsStep(35, "35", 7);
    Decimal.DigitsStep(357, "357", 9);
    Decimal.DigitsStep(3579, "3579", 1);
    Decimal.DigitsStep(35791, "35791", 3);
    Decimal.DigitsStep(357913, "357913", 9);
    Decimal.DigitsStep(3579139, "3579139", 4);
  }

  lemma DaysOfMinValue() ensures Decimal.Digits(1491308) == "1491308" {
    Decimal.DigitsStep(1, "1", 4);
    Decimal.DigitsStep(14, "14", 9);
    Decimal.DigitsStep(149, "149", 1);
    Decimal.DigitsStep(1491, "1491", 3);
    Decimal.DigitsStep(14913, "14913", 0);
    Decimal.DigitsStep(149130, "149130", 8);
  }
  lemma FieldHourOfDay() ensures Decimal.FormatInt(2, 2) == "02" {}
  lemma FieldMinutes() ensures Decimal.FormatInt(8, 2) == "08" {}
}
