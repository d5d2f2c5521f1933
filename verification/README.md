# Time-tracking contract library: enums, duration text and column lists

This project models the behavioural core of the WDZeit contract library, the
part of an Android time-tracking app that its content provider and clients
share:

- the persisted enum families `TimeKind`, `PauseDefinitionType`,
  `ReportType`, `ConfigDataType` and `DurationFormat`. Each has a numeric
  code per variant, a fallback variant with code 0 for unknown codes, and a
  label looked up through a resource provider. All but `ConfigDataType`
  also have a list of user-visible variants, and cache the label the first
  time it is asked for; `ConfigDataType` looks it up on every call.
- the shared contract those families implement (`ITranslatableEnum`),
  stated once as `TranslatableEnum.IsCodec` and proved for every family.
- `DurationFormat.format`, which turns a signed number of minutes into
  `[-]HH:mm` or `[-]d HH:mm`, or into a plain localized number.
  `DurationText` models the two `String.format` layouts. It also provides
  readers that take such text apart again, and these serve as the partner
  of the formatter in the round-trip lemmas.
- `TimeTrackingContract.concatArrays`, which builds column lists, together
  with the reserved row ids and the encoding of boolean columns.
- the constants of `Constants.java`.

Java semantics are written out where they matter. `JavaInt` models the
32-bit `Math.abs`, which wraps at the most negative int, and the
truncating `/` and `%`. `Decimal` models `%0wd`, which puts the zero
padding after the minus sign. A `String[]` is an
`Option<seq<Option<string>>>`, because both the array and its elements
may be null.

`DurationFormatEnum.FormatAsWritten` is `format` exactly as the source
computes it. `DurationFormatEnum.Format` is the corrected definition, which
takes the magnitude exactly. The two agree on every int except
-2147483648 (see Findings). All the other properties are proved about the
corrected definition.

The hours-and-minutes layout pads the hours to two digits (`%02d`), so 300
minutes become "05:00", as the example "09:15" in the documentation of
`HoursMinutes` shows (DurationFormat.java:41). The readers accept exactly
the texts the two layouts print, so the round-trip lemmas fix the text
itself and not only the duration it stands for.

## Model

| member | source | states |
|---|---|---|
| Constants.MinutesInADayValue | contract/src/main/java/de/webducer/android/zeiterfassung/contract/Constants.java:36-46 | A day has 1440 minutes, and that number is the product of the hours in a day and the minutes in an hour. |
| Constants.HourOfDayBounded | contract/src/main/java/de/webducer/android/zeiterfassung/contract/Constants.java:36-46 | For any non-negative minute count, the hour of the day (minutes within the day divided by 60) is a valid hour below 24. |
| Constants.DayClockRecombines | contract/src/main/java/de/webducer/android/zeiterfassung/contract/Constants.java:36-46 | The whole days, the hour of the day and the minute of the hour taken from a non-negative count add back up to that count. |
| JavaInt.Abs | contract/src/main/java/de/webducer/android/zeiterfassung/contract/enums/DurationFormat.java:98 | Math.abs on a Java int: the true magnitude for every int except -2147483648, which comes back unchanged and negative. |
| JavaInt.Div | contract/src/main/java/de/webducer/android/zeiterfassung/contract/enums/DurationFormat.java:102-107 | Java int `/` truncates toward zero: for a negative dividend the quotient is rounded up, not down. |
| JavaInt.Rem | contract/src/main/java/de/webducer/android/zeiterfassung/contract/enums/DurationFormat.java:103-107 | Java int `%` agrees with the truncating division, lies strictly between -b and b, takes the sign of the dividend, and agrees with the Euclidean remainder for non-negative dividends. |
| Decimal.Digits | contract/src/main/java/de/webducer/android/zeiterfassung/contract/enums/DurationFormat.java:54-55 | The decimal text of a non-negative number: at least one digit, with a leading zero only for 0, and a single digit exactly below 10. |
| Decimal.ValueOfDigits | contract/src/main/java/de/webducer/android/zeiterfassung/contract/enums/DurationFormat.java:54-55 | Reading back the decimal text of n gives n. |
| Decimal.ZeroPad | contract/src/main/java/de/webducer/android/zeiterfassung/contract/enums/DurationFormat.java:54-55 | The `0` flag with a width: the result is at least as long as the width, ends with the unpadded text, and everything in front of it is a zero. |
| Decimal.ValueOfZeroPad | contract/src/main/java/de/webducer/android/zeiterfassung/contract/enums/DurationFormat.java:54-55 | Leading zeros from padding do not change the value a digit string denotes. |
| Decimal.FormatInt | contract/src/main/java/de/webducer/android/zeiterfassung/contract/enums/DurationFormat.java:54-55 | `%0wd` of one int: never empty, exactly as long as the wider of the width and the unpadded text (counting the '-' of a negative int), and starting with '-' for a negative int. FormatIntIsPaddedField states that the padding is all zeros. |
| Decimal.ValueOfFormatInt | contract/src/main/java/de/webducer/android/zeiterfassung/contract/enums/DurationFormat.java:54-55 | For a non-negative int, `%0wd` yields only digits and reads back as the int itself. |
| Decimal.ValueOfFormatNegative | contract/src/main/java/de/webducer/android/zeiterfassung/contract/enums/DurationFormat.java:54-55 | For a negative int, `%0wd` yields a minus sign followed by digits that read back as the magnitude. |
| Decimal.FormatIntIsPaddedField | contract/src/main/java/de/webducer/android/zeiterfassung/contract/enums/DurationFormat.java:54-55 | For a non-negative int, `%0wd` yields a digit string of at least the width whose only leading zeros are padding (or the single digit of 0), with zeros in every position in front of the unpadded text. |
| Decimal.FormatIntOfPaddedField | contract/src/main/java/de/webducer/android/zeiterfassung/contract/enums/DurationFormat.java:54-55 | Every such field is `%0wd` of the number it denotes, so `%0wd` and reading back are inverse on the non-negative ints and these fields. |
| Decimal.DigitsOfCanonical | contract/src/main/java/de/webducer/android/zeiterfassung/contract/enums/DurationFormat.java:54-55 | A digit string with no leading zero, or "0", is the decimal text of its own value. |
| TranslatableEnum.DecodeIsExactOrSentinel | contract/src/main/java/de/webducer/android/zeiterfassung/contract/enums/ITranslatableEnum.java:37-65 | For a family satisfying the shared contract, decoding a code yields either the variant with that code or the sentinel, and the only variant with code 0 is the sentinel. |
| TranslatableEnum.CachedLabel | contract/src/main/java/de/webducer/android/zeiterfassung/contract/enums/DurationFormat.java:82-89 | The lazy label cache: a filled cell is returned untouched, an empty one is filled with the provider's answer, and the cell is filled afterwards in both cases. |
| TranslatableEnum.LabelResolvedOnce | contract/src/main/java/de/webducer/android/zeiterfassung/contract/enums/TimeKind.java:84-92 | Across any sequence of calls, whatever providers later calls pass, every call returns the label of the first call, which is the cached text or the first provider's answer. |
| TimeKindEnum.ByCode | contract/src/main/java/de/webducer/android/zeiterfassung/contract/enums/TimeKind.java:100-115 | getTimeKindByCode returns the kind that carries the code, or None when no kind carries it. |
| TimeKindEnum.GetByEnumCode | contract/src/main/java/de/webducer/android/zeiterfassung/contract/enums/TimeKind.java:122-126 | The instance lookup ignores its receiver and agrees with the static lookup. |
| TimeKindEnum.VisibleValues | contract/src/main/java/de/webducer/android/zeiterfassung/contract/enums/TimeKind.java:117-120 | The visible kinds leave out the None sentinel and list the others once each, in code order. |
| TimeKindEnum.VisibleValuesAreNonSentinel | contract/src/main/java/de/webducer/android/zeiterfassung/contract/enums/TimeKind.java:117-120 | A kind is visible if and only if it is not None. |
| TimeKindEnum.TranslatedValue | contract/src/main/java/de/webducer/android/zeiterfassung/contract/enums/TimeKind.java:84-92 | The label comes from the cache once it is filled, otherwise from the provider for the kind's resource, and afterwards the cache holds it. |
| TimeKindEnum.ValuesEnumerateFamily | contract/src/main/java/de/webducer/android/zeiterfassung/contract/enums/TimeKind.java:43-58 | values() lists every kind exactly once. |
| TimeKindEnum.IsTranslatableEnum | contract/src/main/java/de/webducer/android/zeiterfassung/contract/enums/TimeKind.java:43-58 | The codes are pairwise distinct, decoding inverts encoding, and unknown codes fall back to None, whose code is 0. |
| PauseDefinitionTypeEnum.ByCode | contract/src/main/java/de/webducer/android/zeiterfassung/contract/enums/PauseDefinitionType.java:92-104 | getPauseDefinitionTypeByCode returns the type that carries the code, or None when no type carries it. |
| PauseDefinitionTypeEnum.GetByEnumCode | contract/src/main/java/de/webducer/android/zeiterfassung/contract/enums/PauseDefinitionType.java:112-115 | The instance lookup ignores its receiver and agrees with the static lookup. |
| PauseDefinitionTypeEnum.VisibleValues | contract/src/main/java/de/webducer/android/zeiterfassung/contract/enums/PauseDefinitionType.java:106-109 | The visible types leave out None and list the others once each, in code order. |
| PauseDefinitionTypeEnum.VisibleValuesAreNonSentinel | contract/src/main/java/de/webducer/android/zeiterfassung/contract/enums/PauseDefinitionType.java:106-109 | A type is visible if and only if it is not None. |
| PauseDefinitionTypeEnum.TranslatedValue | contract/src/main/java/de/webducer/android/zeiterfassung/contract/enums/PauseDefinitionType.java:77-84 | The label comes from the cache once it is filled, otherwise from the provider, and afterwards the cache holds it. |
| PauseDefinitionTypeEnum.ValuesEnumerateFamily | contract/src/main/java/de/webducer/android/zeiterfassung/contract/enums/PauseDefinitionType.java:42-50 | values() lists every type exactly once. |
| PauseDefinitionTypeEnum.IsTranslatableEnum | contract/src/main/java/de/webducer/android/zeiterfassung/contract/enums/PauseDefinitionType.java:42-50 | Codes are distinct, decoding inverts encoding, and unknown codes fall back to None, whose code is 0. |
| ReportTypeEnum.ByCode | wd-timetracking-contract/src/main/java/de/webducer/android/zeiterfassung/contract/enums/ReportType.java:92-104 | getReportTypeByCode returns the type that carries the code, or None when no type carries it. |
| ReportTypeEnum.GetByEnumCode | wd-timetracking-contract/src/main/java/de/webducer/android/zeiterfassung/contract/enums/ReportType.java:112-115 | The instance lookup ignores its receiver and agrees with the static lookup. |
| ReportTypeEnum.VisibleValues | wd-timetracking-contract/src/main/java/de/webducer/android/zeiterfassung/contract/enums/ReportType.java:106-109 | The visible types leave out None and list the others once each, in code order. |
| ReportTypeEnum.VisibleValuesAreNonSentinel | wd-timetracking-contract/src/main/java/de/webducer/android/zeiterfassung/contract/enums/ReportType.java:106-109 | A report type is visible if and only if it is not None. |
| ReportTypeEnum.TranslatedValue | wd-timetracking-contract/src/main/java/de/webducer/android/zeiterfassung/contract/enums/ReportType.java:77-84 | The label comes from the cache once it is filled, otherwise from the provider, and afterwards the cache holds it. |
| ReportTypeEnum.ValuesEnumerateFamily | wd-timetracking-contract/src/main/java/de/webducer/android/zeiterfassung/contract/enums/ReportType.java:42-50 | values() lists every report type exactly once. |
| ReportTypeEnum.IsTranslatableEnum | wd-timetracking-contract/src/main/java/de/webducer/android/zeiterfassung/contract/enums/ReportType.java:42-50 | Codes are distinct, decoding inverts encoding, and unknown codes fall back to None, whose code is 0. |
| ConfigDataTypeEnum.ByCode | contract/src/main/java/de/webducer/android/zeiterfassung/contract/enums/ConfigDataType.java:123-147 | getConfigDataTypeByCode returns the type that carries the code, or NotSet when no type carries it. |
| ConfigDataTypeEnum.GetByEnumCode | contract/src/main/java/de/webducer/android/zeiterfassung/contract/enums/ConfigDataType.java:149-153 | The instance lookup ignores its receiver and agrees with the static lookup. |
| ConfigDataTypeEnum.LabelFollowsProvider | contract/src/main/java/de/webducer/android/zeiterfassung/contract/enums/ConfigDataType.java:112-115 | There is no cache: each call returns the string the provider passed to it gives for the type's resource, so two providers that disagree give two different labels. |
| ConfigDataTypeEnum.ValuesEnumerateFamily | contract/src/main/java/de/webducer/android/zeiterfassung/contract/enums/ConfigDataType.java:43-73 | values() lists all seven types exactly once. |
| ConfigDataTypeEnum.IsTranslatableEnum | contract/src/main/java/de/webducer/android/zeiterfassung/contract/enums/ConfigDataType.java:43-73 | Codes 0..6 are distinct, decoding inverts encoding, and unknown codes fall back to NotSet, whose code is 0. |
| DurationFormatEnum.ByCode | contract/src/main/java/de/webducer/android/zeiterfassung/contract/enums/DurationFormat.java:120-135 | getDurationFormatByCode returns the format that carries the code, or None when no format carries it. |
| DurationFormatEnum.GetByEnumCode | contract/src/main/java/de/webducer/android/zeiterfassung/contract/enums/DurationFormat.java:142-146 | The instance lookup ignores its receiver and agrees with the static lookup. |
| DurationFormatEnum.VisibleValues | contract/src/main/java/de/webducer/android/zeiterfassung/contract/enums/DurationFormat.java:137-140 | The visible formats leave out None and hold each of the other three once, Minutes included. DaysHoursMinutes comes first, ahead of the lower code of HoursMinutes, and the rest follow in code order. |
| DurationFormatEnum.VisibleValuesAreNonSentinel | contract/src/main/java/de/webducer/android/zeiterfassung/contract/enums/DurationFormat.java:137-140 | A format is visible if and only if it is not None. |
| DurationFormatEnum.TranslatedValue | contract/src/main/java/de/webducer/android/zeiterfassung/contract/enums/DurationFormat.java:82-89 | The label comes from the cache once it is filled, otherwise from the provider, and afterwards the cache holds it. |
| DurationFormatEnum.ValuesEnumerateFamily | contract/src/main/java/de/webducer/android/zeiterfassung/contract/enums/DurationFormat.java:39-51 | values() lists every format exactly once. |
| DurationFormatEnum.IsTranslatableEnum | contract/src/main/java/de/webducer/android/zeiterfassung/contract/enums/DurationFormat.java:39-51 | Codes are distinct, decoding inverts encoding, and unknown codes fall back to None, whose code is 0. |
| DurationFormatEnum.FormatAsWritten | contract/src/main/java/de/webducer/android/zeiterfassung/contract/enums/DurationFormat.java:97-112 | `format` as the code computes it with Java ints. It has no contract of its own: FormatMatchesSourceAwayFromMinValue ties it to Format for every int but -2147483648, and MinValueFields and MinValueBreaksFormatAsWritten state what it does there. |
| DurationFormatEnum.Format | contract/src/main/java/de/webducer/android/zeiterfassung/contract/enums/DurationFormat.java:97-112 | `format` with the exact magnitude. It has no contract of its own: HoursMinutesRoundTrip, DaysHoursMinutesRoundTrip, SignOnlyAsPrefix, NegationAddsMinus, PlainNumberModes and the tested durations state it. |
| DurationFormatEnum.FormatMatchesSourceAwayFromMinValue | contract/src/main/java/de/webducer/android/zeiterfassung/contract/enums/DurationFormat.java:97-112 | format with Java's wrapping Math.abs and truncating `/` and `%` gives the same text as the exact-magnitude definition for every int other than -2147483648. |
| DurationFormatEnum.HoursMinutesRoundTrip | contract/src/main/java/de/webducer/android/zeiterfassung/contract/enums/DurationFormat.java:97-112 | Parsing the HoursMinutes text gives back the duration: a leading minus exactly for negative durations, minutes below 60, and hours*60 + minutes equal to the magnitude. No other text reads back as the same clock, so the text, `%02d` padding included, is fixed. |
| DurationFormatEnum.DaysHoursMinutesRoundTrip | contract/src/main/java/de/webducer/android/zeiterfassung/contract/enums/DurationFormat.java:97-112 | Parsing the DaysHoursMinutes text gives back the duration: minus exactly for negatives, hours below 24, minutes below 60, and days*1440 + hours*60 + minutes equal to the magnitude. No other text reads back as the same clock, so days without leading zeros and padded hours and minutes are fixed. |
| DurationFormatEnum.SignOnlyAsPrefix | contract/src/main/java/de/webducer/android/zeiterfassung/contract/enums/DurationFormat.java:101-107 | In both clock layouts the text starts with a minus if and only if the duration is negative, and no minus appears anywhere else. |
| DurationFormatEnum.NegationAddsMinus | contract/src/main/java/de/webducer/android/zeiterfassung/contract/enums/DurationFormat.java:101-107 | For a positive duration d, the text of -d is the text of d with a minus in front. |
| DurationFormatEnum.PlainNumberModes | contract/src/main/java/de/webducer/android/zeiterfassung/contract/enums/DurationFormat.java:109-110 | None, Minutes and any other mode all render the plain localized number, both as written and corrected. |
| DurationFormatEnum.TestedDurations | contract/src/androidTest/java/de/webducer/android/zeiterfassung/contract/DurationFormatTests.java:100-116 | 2325486 minutes give "38758:06" and "1614 22:06", 0 gives "00:00" and "0 00:00", and 300 gives "05:00". |
| DurationFormatEnum.TestedNegativeDurations | contract/src/androidTest/java/de/webducer/android/zeiterfassung/contract/DurationFormatTests.java:139-156 | -2325486 minutes give "-38758:06" and "-1614 22:06", both as written and corrected. |
| DurationFormatEnum.MinValueFields | contract/src/main/java/de/webducer/android/zeiterfassung/contract/enums/DurationFormat.java:98-107 | For -2147483648 the wrapped magnitude stays negative, so the source computes the fields -35791394 hours, -8 minutes, -1491308 days and -2 hours of the day. |
| DurationFormatEnum.MinValueBreaksFormatAsWritten | contract/src/main/java/de/webducer/android/zeiterfassung/contract/enums/DurationFormat.java:98-107 | The counterexample: as written, -2147483648 gives "--35791394:-8" and "--1491308 -2:-8", which the readers of the two layouts reject. The corrected definition gives "-35791394:08" and "-1491308 02:08". |
| DurationText.HoursMinutesText | contract/src/main/java/de/webducer/android/zeiterfassung/contract/enums/DurationFormat.java:54 | The "%s%02d:%02d" layout. It has no contract of its own: ParseHoursMinutesText and ParseHoursMinutesCanonical make ParseHoursMinutes its inverse, and SignOnlyInFront states where a minus can appear. |
| DurationText.DaysHoursMinutesText | contract/src/main/java/de/webducer/android/zeiterfassung/contract/enums/DurationFormat.java:55 | The "%s%01d %02d:%02d" layout. It has no contract of its own: ParseDaysHoursMinutesText and ParseDaysHoursMinutesCanonical make ParseDaysHoursMinutes its inverse, and SignOnlyInFront states where a minus can appear. |
| DurationText.ParseHoursMinutesText | contract/src/main/java/de/webducer/android/zeiterfassung/contract/enums/DurationFormat.java:54 | A "%s%02d:%02d" text with non-negative fields and minutes below 60 reads back as exactly those fields and that sign. |
| DurationText.ParseDaysHoursMinutesText | contract/src/main/java/de/webducer/android/zeiterfassung/contract/enums/DurationFormat.java:55 | A "%s%01d %02d:%02d" text with hours below 24 and minutes below 60 reads back as exactly those fields and that sign. |
| DurationText.SignOnlyInFront | contract/src/main/java/de/webducer/android/zeiterfassung/contract/enums/DurationFormat.java:54-56 | With non-negative fields, both layouts hold a minus only in front, and only when the sign is negative. |
| DurationText.ParseHoursMinutesCanonical | contract/src/main/java/de/webducer/android/zeiterfassung/contract/enums/DurationFormat.java:54 | Every text the hours-and-minutes reader accepts is the "%s%02d:%02d" text of the sign and fields it reads. |
| DurationText.ParseDaysHoursMinutesCanonical | contract/src/main/java/de/webducer/android/zeiterfassung/contract/enums/DurationFormat.java:55 | Every text the days-hours-minutes reader accepts is the "%s%01d %02d:%02d" text of the sign and fields it reads. |
| DurationText.ParseHoursMinutesInjective | contract/src/main/java/de/webducer/android/zeiterfassung/contract/enums/DurationFormat.java:54 | Two texts the hours-and-minutes reader reads as the same clock are the same text. |
| DurationText.ParseDaysHoursMinutesInjective | contract/src/main/java/de/webducer/android/zeiterfassung/contract/enums/DurationFormat.java:55 | Two texts the days-hours-minutes reader reads as the same clock are the same text. |
| DurationText.OtherSpellingsRejected | contract/src/main/java/de/webducer/android/zeiterfassung/contract/enums/DurationFormat.java:54-55 | "5:00" and "0005:00", which `%02d` never prints, and "01 22:06", which `%01d` never prints, are rejected. |
| TimeTrackingContract.ReservedIdsNegativeAndDistinct | contract/src/main/java/de/webducer/android/zeiterfassung/contract/TimeTrackingContract.java:60-68 | NO_ID, ALL_ID and NULL_ID are negative and pairwise distinct. |
| TimeTrackingContract.BooleanFormsAgree | contract/src/main/java/de/webducer/android/zeiterfassung/contract/TimeTrackingContract.java:72-84 | The string forms of BOOL_TRUE and BOOL_FALSE are the decimal texts of their int forms and read back as them, and true differs from false in both forms. |
| TimeTrackingContract.ConcatArrays | contract/src/main/java/de/webducer/android/zeiterfassung/contract/TimeTrackingContract.java:98-113 | A null or empty first gives params unchanged, even when params is null. Otherwise, params that are null, empty or a single null give first unchanged. Otherwise the result is first followed by params, in order and nulls included, with no element from elsewhere. |

## Left out

- Content-provider naming: authority, URIs, MIME types, permission and action strings, and column-name tables. These are static names built with Android APIs that have no behaviour to model.
- Date and time converters (`TimeTrackingContract.Converter`): they wrap `SimpleDateFormat` for `Locale.GERMANY`, whose behaviour is not visible here.
- The plain-number branch of `format` (`NumberFormat.getInstance().format`): locale grouping is not modelled. The formatter is a parameter `numberFormat`, and only the fact that None, Minutes and other modes all use it is proved.
- `Locale.getDefault()` in `String.format`: digits are assumed to be ASCII decimal digits.
- `Context.getString`: modelled as a provider function from resource name to string. A null answer from it, which would leave the cache empty, is not modelled.
- Translation ids (`R.string.*`): the model names the resource instead of carrying the generated integer. The tests' claim that every id is positive depends on the build and is not modelled.
- Concurrency of the lazy label cache: the cache is a single cell updated sequentially, with no races.
- `getEnumCode` and `getTranslationId` are the plain functions `Code` and `TranslationKey` of each family. Their properties are stated through `ByCode` and `IsTranslatableEnum`.
- ConfigDataTypeEnum.TranslatedValue: has no contract of its own, because it only forwards to the provider. `ConfigDataTypeEnum.LabelFollowsProvider` states that every call returns the provider's string for the type's resource.
- TimeTrackingContract.ConcatArrays: the value model does not keep object identity. In the two short-circuit branches the source returns the caller's own array (TimeTrackingContract.java:101,105), so a later write through the result shows in the argument; otherwise the result is a fresh array.
- The copies of the ids and boolean constants in `TimeTrackingContract.Values`: these equal the top-level constants and are not modelled twice.
- The test classes: they are cited as evidence for lemmas, not modelled.

## Findings

| source | as written | input that shows it | evidently intended | confidence | as-written member | corrected member |
|---|---|---|---|---|---|---|
| contract/src/main/java/de/webducer/android/zeiterfassung/contract/enums/DurationFormat.java:98 | `Math.abs(duration)` stays negative for -2147483648, so the `/` and `%` that follow yield negative fields under a leading minus | -2147483648 in HoursMinutes gives "--35791394:-8" and in DaysHoursMinutes gives "--1491308 -2:-8" | "-35791394:08" and "-1491308 02:08", as for every other negative duration | not executed | DurationFormatEnum.MinValueBreaksFormatAsWritten | DurationFormatEnum.HoursMinutesRoundTrip |
