# Soil moisture polling: a verified model of its data handling

The program polls a web endpoint for soil-moisture readings. It appends every complete
reading to one in-memory table that lives as long as the process. Each training cycle
removes from that table, for good, every row whose date and time do not read as a
datetime, fits a straight line of moisture against time, and prints a ten-minute-ahead
forecast with a label: "Dry", "Slightly Wet" or "Wet".

This project models the parts of that cycle that are exact logic, and proves their
properties in Dafny:

- **Intake** (`intake.dfy`, `store.dfy`). `DataStore.Fetch` runs over an already-decoded
  response. It appends a `(time, date, soil_moisture)` row for every record in which all
  three keys hold a value, in response order.
  - A transport failure, a status other than 200, or a body that does not decode or
    cannot be iterated leaves the table untouched.
  - An element that is not an object raises. The rows appended before it stay.
  - The count reported on success is the number of elements, skipped records included.
- **Cleaning** (`preprocess.dfy`, `datetime_text.dfy`). `date + " " + time` is read in
  the layout `%d-%m-%Y %I:%M %p`. `DateTimeText.Parse` follows the matcher that Python's
  `strptime` builds for that layout; pandas applies the same matcher:
  - day, month, 12-hour clock hour and minute may have one or two digits (the day may
    also be a space and a digit); the year has exactly four;
  - each space in the layout matches any run of whitespace;
  - the marker is `am`/`pm` in any letter case;
  - the whole string must match;
  - the date must exist (year at least 1), and 12 AM is hour 0 while 12 PM is hour 12.

  `DateTimeText.Layout` writes six field texts and two whitespace runs into that shape.
  `DateTimeText.ScanMatchesLayout` proves that the matcher accepts exactly such strings,
  and `DateTimeText.ParseMatchesLayout` does the same for the parsed datetime.

  Rows that do not parse are removed from the shared table itself (`soil.py:51`,
  `DataStore.Clean`), not from a per-cycle copy. The rows that remain keep their
  relative order.
- **Feature** (`calendar.dfy`, `preprocess.dfy`). `time_numeric` is the parsed datetime's
  nanosecond count floor-divided by 10^9. That equals its whole seconds since the epoch,
  read as UTC, and is always a whole number of minutes. `Calendar.EpochSeconds` is a
  proleptic Gregorian closed form. It is proved equal to counting the days year by year,
  and, from 1970 on, to the "Seconds Since the Epoch" formula of POSIX.1-2017 (Base
  Definitions, section 4.16). It preserves chronological order.
- **Forecast** (`prediction.dfy`, `store.dfy`).
  - Training runs only when the table holds more than five rows. The count is taken
    before cleaning.
  - The forecast instant is the last row's `time_numeric` plus 600 seconds. "Last" means
    last in table order.
  - The label splits the predicted value at 20 and 50; both bounds count as
    "Slightly Wet".

The table is a class (`Store.DataStore`) with a `seq<Row>` field, because the source
mutates it in place. Fetching is a loop with invariants. Parsing, epoch arithmetic, the
forecast instant and the label are functions, and their properties are lemmas.

A cycle whose gate passes may still fail. If fewer than two rows survive cleaning, the
80/20 split leaves an empty training set and raises. Only `KeyboardInterrupt` is caught
around the polling loop, so this ends the process. The model reports that case as
`Outcome.Unhandled`. `Store.GateBeforeCleaning` exhibits six rows that pass the gate and
all vanish in cleaning.

## Model

| member | source | states |
|---|---|---|
| `Store.DataStore.constructor` | soil.py:10 | the table starts empty |
| `Store.DataStore.Fetch` | soil.py:16-39 | transport failure, non-200 status, undecodable or non-iterable body: table unchanged, matching report; otherwise the table grows by exactly the rows the iteration accepts, and the report is the element count when every element was an object, an error otherwise |
| `Intake.Accepted` | soil.py:24-33 | iterating the elements appends at most one row per element |
| `Intake.AcceptedCountsComplete` | soil.py:24-33 | iterating objects appends exactly as many rows as there are records holding all three values |
| `Intake.RowsOf` | soil.py:25-33 | a record yields one row iff soil_moisture, time and date all hold a value, and that row carries exactly those three values |
| `Intake.AcceptedConcat` | soil.py:24-33 | iterating two runs of objects appends the rows of the first run, then those of the second |
| `Intake.AcceptedRecord` | soil.py:24-33 | a reached record contributes its row, at its own position, exactly when it is complete; incomplete ones are skipped silently |
| `Intake.AcceptedStops` | soil.py:24-39 | after an element that raises, nothing later is appended; the rows before it stay |
| `Intake.AcceptedCount` | soil.py:24-35 | the table grows by the reported count iff every element was a complete record |
| `Intake.AcceptedFromRecords` | soil.py:29-33 | every appended row equals the values of some complete record of the response |
| `DateTimeText.ScanMatchesLayout` | soil.py:48 | the matcher yields fields `f` iff the string is `f`'s six texts joined by `-`, `-`, a whitespace run, `:` and a whitespace run, each text of the shape its directive accepts; every other string is rejected |
| `DateTimeText.ScanSound` | soil.py:48 | every accepted string is the layout of the fields returned, with nonempty whitespace runs |
| `DateTimeText.ScanComplete` | soil.py:48 | every layout of well-formed fields, with any nonempty whitespace runs, is taken apart into exactly those fields |
| `DateTimeText.LayoutExamples` | soil.py:48 | a day written as space and digit, one-digit month and hour, a tab in the run and a lower-case marker are accepted, 12 AM reads as hour 0; `PM ` is no marker and `150` no minute |
| `DateTimeText.ConvertRejects` | soil.py:48 | 31 April, 29 February 2023 and year 0 give no datetime; 29 February 2024 does |
| `DateTimeText.Convert` | soil.py:48 | matched fields give a valid datetime of years 1-9999 whose year, month, day and minute are the numbers the texts spell and whose hour is the 12-hour reading turned to 24-hour by the marker; they give none exactly when the year is 0 or the day exceeds the month's length |
| `DateTimeText.NumeralPadding` | soil.py:48 | a digit alone, after a zero or after a space reads as the same number |
| `DateTimeText.To24Hour` | soil.py:48 | a 12-hour reading maps to hour 0-23, below 12 iff AM, congruent mod 12 (so 12 AM is 0 and 12 PM is 12) |
| `DateTimeText.Parse` | soil.py:48 | whatever parses is a valid calendar datetime with hour 0-23 and minute 0-59, year 1-9999 |
| `DateTimeText.ParseMatchesLayout` | soil.py:48 | a string parses to `dt` iff it is the layout of well-formed fields, with any whitespace runs, whose numbers denote `dt` |
| `DateTimeText.ParseFormatted` | soil.py:48 | every valid datetime written as `DD-MM-YYYY` plus `hh:mm AM/PM` parses back to itself |
| `Calendar.DayOfYear` | soil.py:54 | the zero-based day of the year lies within the year's length; its month table is fixed by `DaysBeforeMonthAccumulates` |
| `Calendar.DaysBeforeMonthAccumulates` | soil.py:54 | the days before a month are the running sum of the month lengths, starting at 0 in January, and the twelve months fill the year |
| `Calendar.EpochSeconds` | soil.py:54 | seconds since the epoch of a minute-precision datetime are divisible by 60 |
| `Calendar.LeapStep` | soil.py:54 | the closed-form leap-year count grows by one at year `y` exactly when `y` is a Gregorian leap year |
| `Calendar.DaysBeforeYearCounts` | soil.py:54 | the closed-form day count between two New Year's Days equals summing the lengths of the years in between |
| `Calendar.EpochSecondsWithinYear` | soil.py:54 | 1970-01-01 is day zero, and every instant lies between its year's first second and the next year's |
| `Calendar.EpochSecondsOrder` | soil.py:54 | epoch seconds preserve chronological order in both directions and are one-to-one |
| `Calendar.PosixAgreement` | soil.py:54 | from 1970 on, epoch seconds equal the POSIX formula evaluated with C's truncating division |
| `Preprocess.RowDateTime` | soil.py:48 | the datetime read from `date + " " + time`, when there is one, is a valid datetime of years 1-9999 |
| `Preprocess.HasDateTimeLayout` | soil.py:48-51 | a row is not NaT iff its `date + " " + time` is the layout of well-formed fields naming a day that exists |
| `Preprocess.EpochNanos` | soil.py:54 | the nanosecond count is a whole number of minutes, and floor-dividing it by 10^9 gives exactly the epoch seconds |
| `Preprocess.Cleaned` | soil.py:48-51 | cleaning never lengthens the table and keeps only rows of the table that parse |
| `Preprocess.CleanedMembership` | soil.py:48-51 | a row survives iff it was in the table and its `date + " " + time` parses |
| `Preprocess.CleanedKeepsOrder` | soil.py:51 | surviving rows are a subsequence of the table: relative order is kept |
| `Preprocess.CleanedConcat` | soil.py:48-51 | each row is judged on its own: cleaning old rows followed by new ones cleans each part |
| `Preprocess.CleanedUnchanged` | soil.py:48-51 | cleaning drops nothing iff every row parses |
| `Preprocess.CleanedIdempotent` | soil.py:51 | a second cleaning drops nothing more |
| `Preprocess.TimeNumeric` | soil.py:54 | the nanosecond count floor-divided by 10^9 is exactly the epoch seconds of the parsed datetime, a multiple of 60 |
| `Preprocess.TimeNumericOrder` | soil.py:54 | the feature orders rows chronologically and equal features mean equal datetimes |
| `Preprocess.FormattedRowSurvives` | soil.py:48-54 | a row written in the layout survives cleaning and its feature is its epoch seconds |
| `Store.DataStore.Clean` | soil.py:48-51 | the new table is the cleaned old table |
| `Prediction.NextTime` | soil.py:73 | the forecast instant is the last row's epoch seconds plus 600, a whole minute |
| `Prediction.Classify` | soil.py:78-83 | exactly one label: Dry iff below 20, Slightly Wet iff within 20..50 inclusive, Wet iff above 50 |
| `Prediction.ClassifyMonotone` | soil.py:78-83 | a larger prediction never gets a drier label |
| `Store.DataStore.TrainAndPredict` | soil.py:42-85 | at most five rows: table and output untouched; otherwise the table is cleaned in place, fewer than two survivors raise, and else the forecast is for `NextTime` of the cleaned table with the predictor's value and the label words printed for its condition |
| `Store.GateBeforeCleaning` | soil.py:45-51 | six unparseable rows pass the gate and none survives cleaning |

## Left out

- HTTP transport and JSON decoding. A `Response` is what the request and `response.json()` yield: a transport failure, or a status with a decoded body. The console lines are reduced to the `FetchReport` and `Outcome` values.
- JSON values whose type differs from the expected one: a non-numeric `soil_moisture`, or a non-string `time` or `date`. A non-string `time` or `date` would make the string concatenation raise. Records are typed with a real moisture and string time and date.
- The train/test split, least-squares fit, prediction and mean squared error. These are floating-point numerics inside scikit-learn. The fitted line enters only as the `predict` argument of `TrainAndPredict`, and the predicted moisture is a real number. A NaN prediction, which the source would label "Wet", cannot arise in the model.
- TrainAndPredict: the exception for 0 or 1 surviving rows is taken from scikit-learn's split sizes, which are not part of this model. It is reported as `Unhandled` rather than reproduced.
- The polling driver: the endless loop, the 10-second sleep and the interrupt handler are process lifecycle, not logic.
- Parse: `\d` is restricted to ASCII digits. Python's matcher also accepts other Unicode decimal digits.
- Parse: pandas' nanosecond timestamp range is not modelled. pandas represents instants from 1677-09-21 00:12:43.145224193 through 2262-04-11 23:47:16.854775807; at minute precision that is 1677-09-21 00:13 through 2262-04-11 23:47. Datetimes outside that range become NaT there; the model keeps them.
- Time zones: the parsed datetimes are naive and are read as UTC.
- Parse: the AM/PM marker is assumed to be the C/English-locale `am`/`pm`.
- The derived `datetime` and `time_numeric` columns are not stored. Each cycle recomputes them from `date` and `time`, so the model computes them from the row when needed.
