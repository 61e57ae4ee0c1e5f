# OOID codec, modelled in Dafny

Antenna names each crash report it stores with an OOID ("our opaque ID").
An OOID is a uuid string whose last seven characters are replaced by:

- a storage-depth digit;
- the creation date as two-digit year (`year % 100`), month and day.

The storage layer reads the date and depth back out of the name.
`antenna/lib/ooid.py` holds the whole codec, and this project models it
with pure functions and lemmas:

- `uuid_to_ooid` and `create_new_ooid` encode, with their defaulting and
  their depth assertion;
- `date_and_depth_from_ooid` is the total, all-or-nothing decoder;
- `depth_from_ooid` and `date_from_ooid` are its two projections.

Files and modules:

- `ooid.dfy`, module `Ooid`: the codec, its constants `DefaultDepth = 2` and
  `OldHardDepth = 4`, and the properties proved about it.
- `pytext.dfy`, module `PyText`: the Python built-ins the codec relies on.
  These are slicing (`s[a:b]`, with negative and out-of-range bounds),
  indexing (`s[i]`, where `None` stands for `IndexError`), `int()` on a
  string (where `None` stands for `ValueError`), and `%d`/`%02d`.
- `calendar.dfy`, module `Calendar`: the Gregorian validity rule that
  `datetime(year, month, day)` checks before building a value.
- `wrappers.dfy`, module `Wrappers`: `Option` and `Result`.

Points where the model follows the code rather than its prose:

- The encoder keeps the uuid's hyphens. It cuts `uuid[:-7]` by position,
  so a 36-character uuid gives a 36-character OOID whose first 29
  characters (hyphens included) are the uuid's. A description of the
  OOID as 32 characters taken from a uuid with its separators stripped
  does not match the code. The docstrings' "24 random hex digits" does
  not match it either.
- `depth=0` is falsy, so it is replaced by `DefaultDepth` and passes the
  assertion. Only depths outside 0..4 fail it.
- The decoder does not clamp the depth: digits 5..9 come back as they are.
  Because a field is read with `int()`, a year field `-5` decodes as 1995
  and a field ` 4` (with a leading space) as 4.
- Decoding an encoding gives back the year `2000 + year % 100`. That is
  always a valid date again (see `Calendar.CenturyFoldKeepsDateValid`),
  so the round trip is exact for the years 2000..2099.

## Model

| member | source | states |
|---|---|---|
| `Ooid.Encode` | antenna/lib/ooid.py:59-61 | the OOID is `uuid[:-7]` plus seven suffix characters: as long as the uuid when that has at least 7 characters (else 7), the uuid's leading characters unchanged (hyphens kept), and the last seven characters ASCII digits spelling the depth, then `year % 100`, month and day as two digits each (`SuffixEncodes`) |
| `Ooid.EffectiveDepth` | antenna/lib/ooid.py:56-57 | a missing or zero depth becomes `DefaultDepth`; any other depth is kept; the result is never 0 |
| `Ooid.UuidToOoid` | antenna/lib/ooid.py:54-61 | encoding succeeds exactly when the depth is missing or in 0..4, and otherwise fails the assertion naming that depth; a success has the layout of `Encode`, its suffix spelling the effective depth and the timestamp (or today when it is missing) |
| `Ooid.CreateNewOoid` | antenna/lib/ooid.py:29-37 | from a canonical `uuid4` text, an accepted call gives 36 characters: the uuid's first 29 (hyphens at 8, 13, 18, 23), then 7 digits spelling the effective depth and the timestamp (or today); it succeeds exactly when the depth is missing or in 0..4 |
| `Ooid.TryDecode` | antenna/lib/ooid.py:73-90 | the decode steps in source order, with `None` for the first one that raises; it has no contract of its own and is characterised in both directions by `DecodeSuccess` and `DecodeFromFields` |
| `Ooid.DateAndDepthFromOoid` | antenna/lib/ooid.py:73-90 | all or nothing: the date is present exactly when the depth is; a present date is a valid calendar date with year 1991..2099, and a present depth lies in 1..9 |
| `Ooid.DepthFromOoid` | antenna/lib/ooid.py:93-101 | is the second component of the full decode, and a present depth is never 0 (1..9) |
| `Ooid.DateFromOoid` | antenna/lib/ooid.py:104-112 | is the first component of the full decode, and a present date is a valid calendar date |
| `Ooid.DecodeSuccess` | antenna/lib/ooid.py:73-89 | a successful decode implies: at least 7 characters; `int()` of the last 2, the 2 before and the 2 before those gives day, month and year minus 2000; the 7th from the end is a digit, and the depth is that digit with `0` read as 4; the date is valid |
| `Ooid.DecodeFromFields` | antenna/lib/ooid.py:73-89 | conversely, when those fields parse, the depth character is a digit and year/month/day form a valid date, the decode returns exactly that date and depth |
| `Ooid.DecodeEncode` | antenna/lib/ooid.py:74-87 | for any uuid, a valid date and depth 1..4, decoding the encoding gives the month, day and depth back, with year `2000 + year % 100` |
| `Ooid.RoundTrip` | antenna/lib/ooid.py:74-87 | for a year in 2000..2099, depth 1..4 and any uuid, decoding the encoding gives exactly `(date, depth)` |
| `Ooid.DefaultsRoundTrip` | antenna/lib/ooid.py:54-58 | with no timestamp and no or zero depth, encoding succeeds and decodes to today's date and depth 2 |
| `Ooid.UuidToOoidRoundTrip` | antenna/lib/ooid.py:54-61 | a given timestamp in 2000..2099 and a depth 1..4 survive `uuid_to_ooid` followed by the decoder unchanged |
| `Ooid.CreateNewOoidRoundTrip` | antenna/lib/ooid.py:29-37 | a created OOID decodes to the given timestamp (or today) and the given depth (2 when missing or 0) |
| `Ooid.LegacyZeroDepth` | antenna/lib/ooid.py:84-86 | a depth character `0` decodes to depth 4 |
| `Ooid.ShortInputUnknown` | antenna/lib/ooid.py:84 | strings shorter than 7 characters decode to `(None, None)`, because `ooid[-7]` raises |
| `Ooid.UnparsableFieldUnknown` | antenna/lib/ooid.py:74-89 | if the day, month, year or depth field is not an integer, the decode is `(None, None)` |
| `Ooid.InvalidCalendarUnknown` | antenna/lib/ooid.py:87-89 | fields that parse but do not form a calendar date decode to `(None, None)` |
| `Ooid.DecodedDateIsFields` | antenna/lib/ooid.py:75-87 | a successful decode returns exactly the date that the three parsed fields spell, with year `2000 +` the year field |
| `Ooid.ProjectionsAgree` | antenna/lib/ooid.py:101-112 | the two projections are both present or both absent, and together make up the full decode |
| `Ooid.EncodeExample` | antenna/lib/ooid.py:59-61 | uuid `abcdef12-3456-7890-abcd-ef1234567890`, 2012-05-04 and depth 2 give `abcdef12-3456-7890-abcd-ef1232120504` |
| `Ooid.DepthAssertionExamples` | antenna/lib/ooid.py:56-58 | depth 0 is accepted (it becomes 2); depths 5 and -1 fail the assertion |
| `Ooid.DecodeNonOoidExamples` | antenna/lib/ooid.py:73-89 | `""`, `"x"` and `"not-an-ooid-at-all"` decode to `(None, None)` |
| `Ooid.DecodeInvalidDateExamples` | antenna/lib/ooid.py:87-89 | month 13, day 32 and February 30 decode to `(None, None)` |
| `Ooid.InvalidDateExample` | antenna/lib/ooid.py:87-89 | an OOID whose fields are the `%02d` renderings of a year, month and day that form no date decodes to `(None, None)` |
| `Ooid.DecodeDepthDigitExamples` | antenna/lib/ooid.py:84-87 | depth digit `0` decodes to 4 and depth digit `9` to 9, with the date 2012-05-04 |
| `Ooid.DecodeIntQuirkExamples` | antenna/lib/ooid.py:83-87 | a year field `-5` decodes to 1995, and fields with a leading space decode as their digit |
| `PyText.PyIndex` | antenna/lib/ooid.py:84 | `s[i]` exists exactly when `-len(s) <= i < len(s)`, and a negative `i` counts from the end |
| `PyText.PySlice` | antenna/lib/ooid.py:60 | slicing with optional bounds; it has no contract of its own and is tied to native slices by `SliceLast`, `SliceWindow` and `SliceDropLast` |
| `PyText.SliceBound` | antenna/lib/ooid.py:75 | a slice bound counts from the end when negative and is clamped into `0..len(s)` rather than raising |
| `PyText.SliceLast` | antenna/lib/ooid.py:75 | `s[-k:]` is the last `k` characters, or all of `s` when it is shorter |
| `PyText.SliceWindow` | antenna/lib/ooid.py:79 | `s[-a:-b]` of a string of at least `a` characters has `a - b` characters, from `a` to `b` before the end |
| `PyText.SliceDropLast` | antenna/lib/ooid.py:60 | `s[:-k]` drops the last `k` characters, and is empty for a string of at most `k` characters |
| `PyText.IsSpace` | antenna/lib/ooid.py:75 | the whitespace `int()` skips in an ASCII string: tab, line feed, vertical tab, form feed, carriage return and space; a predicate without contract, pinned down by `ParseIntSpaceDigit` and `ParseIntRejectsSeparator` |
| `PyText.TrimStart` | antenna/lib/ooid.py:75 | `int()` skips leading whitespace: the result is no longer than the input and does not start with whitespace |
| `PyText.TrimEnd` | antenna/lib/ooid.py:75 | `int()` skips trailing whitespace: the result is no longer than the input and does not end with whitespace |
| `PyText.TrimStartIsSuffix` | antenna/lib/ooid.py:75 | what is left after the leading whitespace is a suffix of the input |
| `PyText.TrimEndIsPrefix` | antenna/lib/ooid.py:75 | what is left after the trailing whitespace is a prefix of the input |
| `PyText.TrimStartRemovesSpaceOnly` | antenna/lib/ooid.py:75 | every character trimmed off the front is whitespace |
| `PyText.TrimEndRemovesSpaceOnly` | antenna/lib/ooid.py:75 | every character trimmed off the back is whitespace |
| `PyText.TrimKeepsOnlySpace` | antenna/lib/ooid.py:75 | every character of the input that is not whitespace survives the trimming |
| `PyText.ParseInt` | antenna/lib/ooid.py:75 | `int()` of a string; it has no contract of its own and is characterised by `ParseIntDigits`, `ParseIntOneChar`, `ParseIntShort`, `ParsePad2` and the example lemmas below |
| `PyText.ParseIntDigits` | antenna/lib/ooid.py:75 | `int()` of a bare digit string (underscores only between digits) is its decimal value |
| `PyText.ParseIntOneChar` | antenna/lib/ooid.py:84 | `int()` of one character succeeds exactly for an ASCII digit, and gives that digit's value |
| `PyText.ParseIntShort` | antenna/lib/ooid.py:83 | `int()` of a field of at most two characters lies in -9..99, and never accepts a string holding `_` |
| `PyText.ParseIntSpaceDigit` | antenna/lib/ooid.py:75 | `int()` of whitespace followed by a digit is that digit |
| `PyText.ParseIntRejectsSeparator` | antenna/lib/ooid.py:75 | the separator U+001C before a digit is no whitespace to `int()`, so the field is no integer |
| `PyText.ParseIntNegativeDigit` | antenna/lib/ooid.py:83 | `int("-d")` is minus the digit `d` |
| `PyText.ParseIntRejectsLetters` | antenna/lib/ooid.py:75 | two characters where the first is neither digit, sign nor whitespace are no integer |
| `PyText.Digit` | antenna/lib/ooid.py:59 | `%d` of 0..9 is one ASCII digit whose value is the number |
| `PyText.Pad2` | antenna/lib/ooid.py:59-60 | `%02d` of 0..99 is two ASCII digits whose value is the number, with a leading `0` exactly below 10 |
| `PyText.ParsePad2` | antenna/lib/ooid.py:75 | `int()` reads back what `%02d` wrote |
| `Calendar.ValidDate` | antenna/lib/ooid.py:87 | the check `datetime(year, month, day)` makes: year 1..9999, month 1..12, day within the month; a predicate without contract, whose month lengths `DaysInMonth` states and which `CenturyFoldKeepsDateValid` preserves |
| `Calendar.DaysInMonth` | antenna/lib/ooid.py:87 | a month has 28..31 days, 29 exactly for February of a leap year and 28 exactly for February otherwise |
| `Calendar.LeapYearSurvivesCenturyFold` | antenna/lib/ooid.py:36 | if a year is a leap year, so is `2000 + year % 100` |
| `Calendar.CenturyFoldKeepsDateValid` | antenna/lib/ooid.py:87 | a valid date stays valid when its year becomes `2000 + year % 100` |

## Left out

- `uuid.uuid4()` is left out because its randomness cannot be verified. `Ooid.CreateNewOoid` takes the generated uuid text as a parameter, required to have the canonical `uuid4` shape.
- `utc_now()` is clock input, so the current UTC date is the parameter `today`. `antenna.lib.datetimeutil` and its `UTC` tzinfo are not part of this model.
- A decoded `datetime(..., tzinfo=UTC)` is represented by its calendar date. It always stands for midnight UTC, and the `datetime` class is not modelled beyond the validity rule of `datetime(year, month, day)`.
- `PyText.ParseInt` accepts ASCII digits and the six ASCII whitespace characters that `int()` skips in an all-ASCII string. In a string that holds non-ASCII characters, Python's `int()` also accepts other Unicode decimal digits and skips Unicode whitespace (for example U+00A0), so the model reports failure where Python would parse such fields.
- Arguments of other Python types are left out: a non-string OOID, a non-integer depth (a float, `True`), or a timestamp object other than a date. The only falsy arguments modelled are `None` and a depth of `0`.
- The assertion failure is modelled as the error value `DepthAssertionFailed`. The model always checks the assertion; running Python with `-O` removes it, and that is left out.
