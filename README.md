# Yearly sentiment of the Dilbert transcripts, modelled in Dafny

The analysis script `analysis/yearly_sentiment/yearly_sentiment.py` turns the
archive's transcript dataset into a year-by-year sentiment table. It does this in
three steps, and this project models each of them:

- **Loading** (`Loading`). The script walks the dataset's date → entry object in
  order. It drops an entry whose transcript is missing or only whitespace, and one
  whose key `datetime.strptime(key, "%Y-%m-%d")` rejects. Every other entry becomes
  a record (date, year, stripped text). Every dropped entry adds one to `skipped`.
  The whitespace test and `str.strip()` are in `Text`. The strptime grammar and
  the calendar check of `datetime` are in `Dates`.
- **Scoring** (`Sentiment`). The script calls the classifier once per record, in
  record order. The answer (label, confidence) becomes a signed value: the
  confidence when the label is `"POSITIVE"`, and its negation for any other label.
- **Aggregation** (`Aggregation`). The script groups the rows by year. Each year
  gets the mean of its values and its number of rows, and the table is sorted by
  year. Means are exact `real` quotients.

`Analysis.Analyze` chains the three steps the way `main` does. A failure in any
step ends the run.

The dataset is an input: a sequence of `Entry(key, transcript)` in the JSON
object's order. The transcript is `None` when the field is absent or null. The
classifier is an input too: a function from text to `Option<Classification>`,
where `None` stands for a call that raises.

Decisions where the code and the repository's description differ (the model
follows the code):
- An empty or whitespace-only transcript is dropped while loading. It is not
  recorded as a scoring failure.
- No item is isolated from a failure. The first classifier call that raises ends
  `compute_sentiment` with no rows, and `main` re-raises it.
- A dataset with no usable entry fails. `pd.DataFrame([])` has no `year` column,
  so `load_dataset` raises at `df['year']`. `LoadDataset` returns
  `Failure(NoUsableEntries)` in that case.
- Years with no rows do not appear in the table. `groupby` produces only the
  years that occur.

## Model

| member | source | states |
|---|---|---|
| `Text.Strip` | analysis/yearly_sentiment/yearly_sentiment.py:83-99 | the result is the slice of the transcript that starts after its leading whitespace (Python's `isspace` set) and is followed only by whitespace; it starts and ends with non-whitespace; it is empty exactly when the transcript is all whitespace |
| `Text.SkipSpace` | analysis/yearly_sentiment/yearly_sentiment.py:83 | the forward scan of `strip` passes only whitespace and stops at a non-whitespace character or the end |
| `Text.SkipSpaceBack` | analysis/yearly_sentiment/yearly_sentiment.py:99 | the backward scan of `strip` passes only whitespace and stops after a non-whitespace character or at the scan's lower end |
| `Dates.ParseDate` | analysis/yearly_sentiment/yearly_sentiment.py:88-94 | an accepted key gives a valid calendar date (year 1–9999, month 1–12, day within the month, Gregorian leap years) whose year is the number spelled by the key's first four digits |
| `Dates.ParseMonth` | analysis/yearly_sentiment/yearly_sentiment.py:89 | the `%m` field (`1[0-2]`, `0[1-9]` or `[1-9]`) must be followed by `-`; the one or two characters before the dash spell the month returned (`SpellsMonth`: two zero-padded digits, or one digit below 10), and the remainder is what follows the dash |
| `Dates.ParseDay` | analysis/yearly_sentiment/yearly_sentiment.py:89 | the `%d` field (first match of `3[01]`, `[12]\d`, `0[1-9]`, `[1-9]`, ` [1-9]`, with nothing left over) is the whole remainder, and it spells the day returned (`SpellsDay`: two zero-padded digits, or below 10 one digit alone or after a space) |
| `Dates.ParseFormattedDate` | analysis/yearly_sentiment/yearly_sentiment.py:11-13 | every valid date written as `YYYY-MM-DD` is accepted and parsed back to itself |
| `Dates.ParseCanonicalDate` | analysis/yearly_sentiment/yearly_sentiment.py:88-94 | a key shaped `DDDD-DD-DD` is accepted exactly when its fields form a valid date; an accepted key is the canonical spelling of its date |
| `Dates.LenientFieldsAccepted` | analysis/yearly_sentiment/yearly_sentiment.py:89 | examples of the general rule in `Dates.ParseDateSpellings`: `1989-4-16`, `1989-04- 6` and `1989-4-6` are accepted as the dates they spell |
| `Dates.MonthSpellingParses` | analysis/yearly_sentiment/yearly_sentiment.py:89 | every spelling `%m` allows for a month, followed by a dash, is read as that month, leaving what follows the dash |
| `Dates.DaySpellingParses` | analysis/yearly_sentiment/yearly_sentiment.py:89 | every spelling `%d` allows for a day is read as that day |
| `Dates.SpellingParses` | analysis/yearly_sentiment/yearly_sentiment.py:88-94 | every valid date, with the year in four digits and any allowed spelling of its month and day, is accepted and parsed to that date |
| `Dates.ParsedIsSpelling` | analysis/yearly_sentiment/yearly_sentiment.py:88-94 | every accepted key is the four-digit year, a dash, an allowed spelling of the month, a dash and an allowed spelling of the day of the date it yields |
| `Dates.ParseDateSpellings` | analysis/yearly_sentiment/yearly_sentiment.py:88-94 | for a valid date, a key is parsed to it exactly when the key is one of its spellings |
| `Dates.LeapDayAccepted` | analysis/yearly_sentiment/yearly_sentiment.py:89-94 | `2000-02-29` is accepted: 2000 is a Gregorian leap year |
| `Dates.LeapDayRejected` | analysis/yearly_sentiment/yearly_sentiment.py:89-94 | `1900-02-29` is rejected: 1900 is not a leap year |
| `Dates.DayPastMonthRejected` | analysis/yearly_sentiment/yearly_sentiment.py:89-94 | `1989-04-31` is rejected: April has 30 days |
| `Dates.YearZeroRejected` | analysis/yearly_sentiment/yearly_sentiment.py:89-94 | `0000-01-01` is rejected: year 0 is below the first year `datetime` allows |
| `Dates.MonthThirteenRejected` | analysis/yearly_sentiment/yearly_sentiment.py:89-94 | `1989-13-01` is rejected: `%m` has no month 13 |
| `Dates.LeftoverRejected` | analysis/yearly_sentiment/yearly_sentiment.py:89-94 | `1989-04-161` is rejected: a character is left over after the day field |
| `Loading.BuildRecord` | analysis/yearly_sentiment/yearly_sentiment.py:78-100 | an entry is kept exactly when its transcript is present and not all whitespace and its key parses; a kept record has the entry's key as date, the year written in the key, and the stripped transcript as text, which is non-empty with no whitespace at either end |
| `Loading.KeptPositionsIncrease` | analysis/yearly_sentiment/yearly_sentiment.py:78-100 | one kept input position per record, strictly increasing, all within the input |
| `Loading.KeptRecordsAtPositions` | analysis/yearly_sentiment/yearly_sentiment.py:96-100 | the j-th record is the record built from the entry at the j-th kept position |
| `Loading.KeptPositionsExact` | analysis/yearly_sentiment/yearly_sentiment.py:82-94 | an input position is kept exactly when its entry passes both checks |
| `Loading.KeptRecordsFollowInput` | analysis/yearly_sentiment/yearly_sentiment.py:78-100 | the records are the kept entries' records, one for one and in input order |
| `Loading.KeptRecordsWellFormed` | analysis/yearly_sentiment/yearly_sentiment.py:80-100 | every record has a valid date whose year is its `year`, a non-empty text with no edge whitespace, and comes from an input entry with that key whose stripped transcript is that text |
| `Loading.LoadDataset` | analysis/yearly_sentiment/yearly_sentiment.py:75-111 | the loop's records are exactly the kept records in order, and `skipped + |records| == |entries|`; it fails exactly when nothing is kept |
| `Sentiment.SentimentValue` | analysis/yearly_sentiment/yearly_sentiment.py:158-167 | the value's magnitude is the confidence; for a non-zero confidence its sign is positive exactly when the label is `"POSITIVE"`; a confidence in [0, 1] gives a value in [-1, 1] |
| `Sentiment.ScoredValuesBounded` | analysis/yearly_sentiment/yearly_sentiment.py:161-167 | confidences in [0, 1] make every scored value lie in [-1, 1] |
| `Sentiment.ComputeSentiment` | analysis/yearly_sentiment/yearly_sentiment.py:148-185 | it succeeds exactly when the classifier answers for every record; row i is record i with its label, confidence and signed value; otherwise it fails at the first record whose call raises |
| `Aggregation.InsertYear` | analysis/yearly_sentiment/yearly_sentiment.py:209-218 | adding a year keeps the year list strictly increasing and adds exactly that year |
| `Aggregation.Years` | analysis/yearly_sentiment/yearly_sentiment.py:209-218 | the group keys are strictly ascending and are exactly the years that occur |
| `Aggregation.Aggregate` | analysis/yearly_sentiment/yearly_sentiment.py:209-218 | one row per year that occurs and no other, strictly ascending by year; `comic_count` is that year's number of rows and `mean_sentiment` is their sum over that count |
| `Aggregation.AggregateByYearRows` | analysis/yearly_sentiment/yearly_sentiment.py:192-218 | `aggregate_by_year` on the scored rows: a year is in the table exactly when some scored row has it, the table is strictly ascending by year, and each year's `comic_count` is its number of rows and `mean_sentiment` the sum of their values over that count |
| `Aggregation.CountsSumToTotal` | analysis/yearly_sentiment/yearly_sentiment.py:209-221 | the `comic_count` column sums to the number of rows aggregated |
| `Aggregation.YearMeanWithinBounds` | analysis/yearly_sentiment/yearly_sentiment.py:209-210 | a year's mean lies within any bounds that hold for each of that year's values |
| `Aggregation.YearMeanWithinValues` | analysis/yearly_sentiment/yearly_sentiment.py:209-215 | each table row's `mean_sentiment` lies within any bounds that hold for its year's values, hence between that year's smallest and largest value |
| `Aggregation.MeansWithinUnitRange` | analysis/yearly_sentiment/yearly_sentiment.py:161-163 | values in [-1, 1] give means in [-1, 1] |
| `Aggregation.AggregateIgnoresOrder` | analysis/yearly_sentiment/yearly_sentiment.py:209-218 | rows with the same multiset of (year, sentiment value) pairs, in any order, give the same table |
| `Aggregation.IncreasingUnique` | analysis/yearly_sentiment/yearly_sentiment.py:218 | a strictly ascending list of years is determined by its elements |
| `Aggregation.WorkedExample` | analysis/yearly_sentiment/yearly_sentiment.py:196-204 | samples of 1989 scored 0.9 and -0.4 and of 1990 scored 0.2 give (1989, 0.25, 2) and (1990, 0.2, 1) |
| `Analysis.Analyze` | analysis/yearly_sentiment/yearly_sentiment.py:302-310 | the run succeeds exactly when some entry is kept and every kept record is classified; the table is the aggregate of the scored kept records, its counts sum to the number of kept records, and confidences in [0, 1] give means in [-1, 1]; a failed run is a load failure exactly when nothing was kept (the `KeyError` of line 109), and otherwise names the first kept record whose classifier call raises |

## Left out

- File existence check and JSON reading (lines 62–70): file I/O. The parsed object is an input sequence of entries.
- Loading and calling the Hugging Face pipeline (lines 138–141, 156): a foreign library. The classifier is an input function from text to an answer, or to `None` where the call raises. Tokenizer truncation and the model itself are not modelled.
- Every `print`, including the progress message every 100 comics (line 176): observability only.
- `plot_sentiment_trend` (lines 230–287): chart rendering.
- CSV writing, the summary printing and the catch-and-re-raise of `main` (lines 313–335): I/O. `Analyze` covers steps 1–3 and the propagation of their failures.
- IEEE floating-point rounding: means are exact `real` quotients.
- pandas mechanics beyond what the model states: the DataFrame, `iterrows`, and `concat` aligning row i with result i.
- Dates.ParseDate: Python's `\d` also matches non-ASCII decimal digits; the model accepts ASCII digits only.
- Entries whose transcript is a non-string JSON value, and entries that are not objects. The script raises or behaves by Python truthiness there; the model takes the transcript as an optional string.
- JSON objects with repeated keys: Python keeps one value per key. The model takes whatever sequence of entries it is given and does not rely on keys being distinct.
