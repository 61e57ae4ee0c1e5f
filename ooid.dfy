/** OOIDs ("our opaque IDs"): a uuid string whose last seven characters
    are replaced by a storage-depth digit and a two-digit year, month and
    day, and the best-effort decoder that reads the date and depth back. */
module Ooid {
  import opened Wrappers
  import opened Calendar
  import opened PyText

  /** Depth used when the caller gives none, or gives 0. */
  const DefaultDepth := 2
  /** Depth that a `0` depth digit of an older OOID stands for. */
  const OldHardDepth := 4

  /** Number of trailing uuid characters the date and depth replace. */
  const SuffixLength := 7

  /** The encoders' assertion that the depth lies in 1..4, failed. */
  datatype EncodeError = DepthAssertionFailed(depth: int)

  // ---------------------------------------------------------------------
  // Encoding
  // ---------------------------------------------------------------------

  /** The last seven characters of `s` are digits spelling, in order, the
      depth and two digits each of `year % 100`, the month and the day. */
  predicate SuffixEncodes(s: string, date: Date, depth: int) {
    && |s| >= SuffixLength
    && (forall i :: |s| - SuffixLength <= i < |s| ==> IsAsciiDigit(s[i]))
    && DigitValue(s[|s| - 7]) == depth
    && 10 * DigitValue(s[|s| - 6]) + DigitValue(s[|s| - 5]) == date.year % 100
    && 10 * DigitValue(s[|s| - 4]) + DigitValue(s[|s| - 3]) == date.month
    && 10 * DigitValue(s[|s| - 2]) + DigitValue(s[|s| - 1]) == date.day
  }

  /** The uuid without its last seven characters, then the depth as `%d`
      and `year % 100`, month and day each as `%02d`.
      The uuid is cut by position only: its hyphens stay, and a uuid of
      fewer than seven characters contributes nothing. Python's `%` and
      Dafny's agree here, the divisor being positive. */
  function Encode(uuid: string, date: Date, depth: int): (r: string)
    requires 1 <= depth <= 4
    requires ValidDate(date)
    ensures |r| == if |uuid| >= SuffixLength then |uuid| else SuffixLength
    ensures |uuid| >= SuffixLength ==> r[..|uuid| - SuffixLength] == uuid[..|uuid| - SuffixLength]
    ensures SuffixEncodes(r, date, depth)
  {
    SliceDropLast(uuid, SuffixLength);
    var prefix := PySlice(uuid, None, Some(-SuffixLength));
    var y, m, d := Pad2(date.year % 100), Pad2(date.month), Pad2(date.day);
    var r := prefix + [Digit(depth)] + y + m + d;
    var n := |r|;
    assert r[n - 7] == Digit(depth);
    assert r[n - 6] == y[0] && r[n - 5] == y[1];
    assert r[n - 4] == m[0] && r[n - 3] == m[1];
    assert r[n - 2] == d[0] && r[n - 1] == d[1];
    r
  }

  /** The depth after defaulting: a missing or falsy (zero) depth becomes `DefaultDepth`. */
  function EffectiveDepth(depth: Option<int>): (d: int)
    ensures d != 0
    ensures depth.Some? && depth.value != 0 ==> d == depth.value
    ensures depth.None? || depth.value == 0 ==> d == DefaultDepth
  {
    if depth.None? || depth.value == 0 then DefaultDepth else depth.value
  }

  /** `uuid_to_ooid(uuid, timestamp, depth)`. The current UTC date is the
      parameter `today`. A date is never falsy, so only a missing timestamp
      is replaced; a missing or zero depth becomes `DefaultDepth`, and any
      other depth outside 1..4 fails the assertion. */
  function UuidToOoid(uuid: string, timestamp: Option<Date>, depth: Option<int>, today: Date)
    : (r: Result<string, EncodeError>)
    requires ValidDate(today)
    requires timestamp.Some? ==> ValidDate(timestamp.value)
    ensures r.Ok? <==> depth.None? || 0 <= depth.value <= 4
    ensures r.Err? ==> r.error.depth == depth.value
    ensures r.Ok? ==> |r.value| == if |uuid| >= SuffixLength then |uuid| else SuffixLength
    ensures r.Ok? && |uuid| >= SuffixLength ==>
              r.value[..|uuid| - SuffixLength] == uuid[..|uuid| - SuffixLength]
    ensures r.Ok? ==>
              SuffixEncodes(r.value, if timestamp.None? then today else timestamp.value, EffectiveDepth(depth))
  {
    var date := if timestamp.None? then today else timestamp.value;
    var d := EffectiveDepth(depth);
    if 1 <= d <= 4 then Ok(Encode(uuid, date, d)) else Err(DepthAssertionFailed(d))
  }

  predicate IsLowerHexDigit(c: char) {
    '0' <= c <= '9' || 'a' <= c <= 'f'
  }

  /** The text `str(uuid.uuid4())` produces: 32 lower-case hex digits in
      groups 8-4-4-4-12 joined by hyphens, version digit `4`, variant
      digit one of `8`, `9`, `a`, `b`. */
  predicate IsCanonicalUuid4(u: string) {
    && |u| == 36
    && (forall i :: 0 <= i < |u| ==>
          if i == 8 || i == 13 || i == 18 || i == 23 then u[i] == '-' else IsLowerHexDigit(u[i]))
    && u[14] == '4'
    && u[19] in "89ab"
  }

  /** `create_new_ooid(timestamp, depth)`, with the freshly generated
      uuid text given as `generated`. The OOID has the uuid's 36
      characters: its first 29, hyphens included, then the 7 suffix digits. */
  function CreateNewOoid(generated: string, timestamp: Option<Date>, depth: Option<int>, today: Date)
    : (r: Result<string, EncodeError>)
    requires IsCanonicalUuid4(generated)
    requires ValidDate(today)
    requires timestamp.Some? ==> ValidDate(timestamp.value)
    ensures r.Ok? <==> depth.None? || 0 <= depth.value <= 4
    ensures r.Ok? ==> |r.value| == 36 && r.value[..29] == generated[..29]
    ensures r.Ok? ==> r.value[8] == r.value[13] == r.value[18] == r.value[23] == '-'
    ensures r.Ok? ==>
              SuffixEncodes(r.value, if timestamp.None? then today else timestamp.value, EffectiveDepth(depth))
  {
    var r := UuidToOoid(generated, timestamp, depth, today);
    if r.Ok? then
      assert r.value[8] == r.value[..29][8] == generated[8];
      assert r.value[13] == r.value[..29][13] == generated[13];
      assert r.value[18] == r.value[..29][18] == generated[18];
      assert r.value[23] == r.value[..29][23] == generated[23];
      r
    else
      r
  }

  // ---------------------------------------------------------------------
  // Decoding
  // ---------------------------------------------------------------------

  /** The steps of `date_and_depth_from_ooid` in their order: day from
      `ooid[-2:]`, month from `ooid[-4:-2]`, year as 2000 plus
      `ooid[-6:-4]`, depth from `ooid[-7]` with 0 read as `OldHardDepth`,
      and the calendar check of `datetime(year, month, day)`. The first
      step that raises makes the whole result `None`. */
  function TryDecode(ooid: string): Option<(Date, int)>
  {
    match ParseInt(PySlice(ooid, Some(-2), None))
    case None => None
    case Some(day) =>
      match ParseInt(PySlice(ooid, Some(-4), Some(-2)))
      case None => None
      case Some(month) =>
        match ParseInt(PySlice(ooid, Some(-6), Some(-4)))
        case None => None
        case Some(yy) =>
          var year := 2000 + yy;
          match PyIndex(ooid, -SuffixLength)
          case None => None
          case Some(c) =>
            match ParseInt([c])
            case None => None
            case Some(digit) =>
              var depth := if digit == 0 then OldHardDepth else digit;
              var date := Date(year, month, day);
              if ValidDate(date) then Some((date, depth)) else None
  }

  /** What a successful decode reads from where: the last seven characters
      are the depth digit and three integer fields, the date is a real
      calendar date with a year in 1991..2099, and the depth is
      1..9 (a `0` digit gives `OldHardDepth`, never 0). */
  lemma DecodeSuccess(ooid: string, date: Date, depth: int)
    requires TryDecode(ooid) == Some((date, depth))
    ensures |ooid| >= SuffixLength
    ensures ParseInt(ooid[|ooid| - 2..]) == Some(date.day)
    ensures ParseInt(ooid[|ooid| - 4..|ooid| - 2]) == Some(date.month)
    ensures ParseInt(ooid[|ooid| - 6..|ooid| - 4]) == Some(date.year - 2000)
    ensures IsAsciiDigit(ooid[|ooid| - 7])
    ensures depth == if ooid[|ooid| - 7] == '0' then OldHardDepth else DigitValue(ooid[|ooid| - 7])
    ensures ValidDate(date) && 1991 <= date.year <= 2099
    ensures 1 <= date.month <= 12 && 1 <= date.day <= DaysInMonth(date.year, date.month)
    ensures 1 <= depth <= 9
  {
    var n := |ooid|;
    var c := PyIndex(ooid, -SuffixLength);
    assert ParseInt(PySlice(ooid, Some(-2), None)) == Some(date.day);
    assert ParseInt(PySlice(ooid, Some(-4), Some(-2))) == Some(date.month);
    var yy := ParseInt(PySlice(ooid, Some(-6), Some(-4)));
    assert yy.Some?;
    assert 2000 + yy.value == date.year;
    assert c.Some? && ParseInt([c.value]).Some?;
    assert n >= SuffixLength && c.value == ooid[n - 7];
    ParseIntOneChar(ooid[n - 7]);
    assert depth == if ooid[n - 7] == '0' then OldHardDepth else DigitValue(ooid[n - 7]);
    SliceLast(ooid, 2);
    SliceWindow(ooid, 4, 2);
    SliceWindow(ooid, 6, 4);
    ParseIntShort(ooid[n - 6..n - 4]);
  }

  /** The converse: seven trailing characters that parse as a depth digit
      and a year, month and day forming a calendar date always decode. */
  lemma DecodeFromFields(ooid: string, yy: int, month: int, day: int)
    requires |ooid| >= SuffixLength
    requires ParseInt(ooid[|ooid| - 2..]) == Some(day)
    requires ParseInt(ooid[|ooid| - 4..|ooid| - 2]) == Some(month)
    requires ParseInt(ooid[|ooid| - 6..|ooid| - 4]) == Some(yy)
    requires IsAsciiDigit(ooid[|ooid| - 7])
    requires ValidDate(Date(2000 + yy, month, day))
    ensures TryDecode(ooid) ==
              Some((Date(2000 + yy, month, day),
                    if ooid[|ooid| - 7] == '0' then OldHardDepth else DigitValue(ooid[|ooid| - 7])))
  {
    var n := |ooid|;
    assert ParseInt(PySlice(ooid, Some(-2), None)) == Some(day) by {
      SliceLast(ooid, 2);
    }
    assert ParseInt(PySlice(ooid, Some(-4), Some(-2))) == Some(month) by {
      SliceWindow(ooid, 4, 2);
    }
    assert ParseInt(PySlice(ooid, Some(-6), Some(-4))) == Some(yy) by {
      SliceWindow(ooid, 6, 4);
    }
    DecodeFromSlices(ooid, yy, month, day);
  }

  /** `DecodeFromFields` with the fields as the decoder slices them. */
  lemma DecodeFromSlices(ooid: string, yy: int, month: int, day: int)
    requires |ooid| >= SuffixLength
    requires ParseInt(PySlice(ooid, Some(-2), None)) == Some(day)
    requires ParseInt(PySlice(ooid, Some(-4), Some(-2))) == Some(month)
    requires ParseInt(PySlice(ooid, Some(-6), Some(-4))) == Some(yy)
    requires IsAsciiDigit(ooid[|ooid| - 7])
    requires ValidDate(Date(2000 + yy, month, day))
    ensures TryDecode(ooid) ==
              Some((Date(2000 + yy, month, day),
                    if ooid[|ooid| - 7] == '0' then OldHardDepth else DigitValue(ooid[|ooid| - 7])))
  {
    var c := ooid[|ooid| - 7];
    assert PyIndex(ooid, -SuffixLength) == Some(c);
    ParseIntOneChar(c);
  }

  /** `date_and_depth_from_ooid(ooid)`: a date (midnight UTC) and a depth,
      or `(None, None)`; never one without the other. */
  function DateAndDepthFromOoid(ooid: string): (r: (Option<Date>, Option<int>))
    ensures r.0.Some? <==> r.1.Some?
    ensures r.0.Some? ==> ValidDate(r.0.value) && 1991 <= r.0.value.year <= 2099
    ensures r.1.Some? ==> 1 <= r.1.value <= 9
  {
    match TryDecode(ooid)
    case None => (None, None)
    case Some((date, depth)) =>
      DecodeSuccess(ooid, date, depth);
      (Some(date), Some(depth))
  }

  /** `depth_from_ooid(ooid)`: the second component of the full decode. */
  function DepthFromOoid(ooid: string): (r: Option<int>)
    ensures r == DateAndDepthFromOoid(ooid).1
    ensures r.Some? ==> 1 <= r.value <= 9
  {
    DateAndDepthFromOoid(ooid).1
  }

  /** `date_from_ooid(ooid)`: the first component of the full decode. */
  function DateFromOoid(ooid: string): (r: Option<Date>)
    ensures r == DateAndDepthFromOoid(ooid).0
    ensures r.Some? ==> ValidDate(r.value)
  {
    DateAndDepthFromOoid(ooid).0
  }

  // ---------------------------------------------------------------------
  // Properties
  // ---------------------------------------------------------------------

  /** Decoding an encoding gives back the depth and the month and day; the
      year comes back as `2000 + year % 100`, which is again a valid date. */
  lemma DecodeEncode(uuid: string, date: Date, depth: int)
    requires 1 <= depth <= 4
    requires ValidDate(date)
    ensures TryDecode(Encode(uuid, date, depth)) ==
              Some((Date(2000 + date.year % 100, date.month, date.day), depth))
  {
    var r := Encode(uuid, date, depth);
    var n := |r|;
    var prefix := PySlice(uuid, None, Some(-SuffixLength));
    var y, m, d := Pad2(date.year % 100), Pad2(date.month), Pad2(date.day);
    assert r == prefix + [Digit(depth)] + y + m + d;
    assert r[n - 2..] == d;
    assert r[n - 4..n - 2] == m;
    assert r[n - 6..n - 4] == y;
    assert r[n - 7] == Digit(depth);
    ParsePad2(date.day);
    ParsePad2(date.month);
    ParsePad2(date.year % 100);
    CenturyFoldKeepsDateValid(date);
    DecodeFromFields(r, date.year % 100, date.month, date.day);
  }

  /** Round trip: for a year in 2000..2099 decoding gives exactly the
      encoded date and depth, whatever the uuid. */
  lemma RoundTrip(uuid: string, date: Date, depth: int)
    requires 1 <= depth <= 4
    requires ValidDate(date) && 2000 <= date.year <= 2099
    ensures DateAndDepthFromOoid(Encode(uuid, date, depth)) == (Some(date), Some(depth))
  {
    DecodeEncode(uuid, date, depth);
    assert date.year % 100 == date.year - 2000;
  }

  /** With neither timestamp nor depth, or with depth 0, the OOID carries
      today's date and `DefaultDepth`. */
  lemma DefaultsRoundTrip(uuid: string, today: Date, depth: Option<int>)
    requires ValidDate(today) && 2000 <= today.year <= 2099
    requires depth == None || depth == Some(0)
    ensures UuidToOoid(uuid, None, depth, today).Ok?
    ensures DateAndDepthFromOoid(UuidToOoid(uuid, None, depth, today).value)
              == (Some(today), Some(DefaultDepth))
  {
    RoundTrip(uuid, today, DefaultDepth);
  }

  /** An accepted depth and a given timestamp both survive the trip
      through `uuid_to_ooid` and the decoder. */
  lemma UuidToOoidRoundTrip(uuid: string, timestamp: Date, depth: int, today: Date)
    requires ValidDate(today)
    requires ValidDate(timestamp) && 2000 <= timestamp.year <= 2099
    requires 1 <= depth <= 4
    ensures UuidToOoid(uuid, Some(timestamp), Some(depth), today).Ok?
    ensures DateAndDepthFromOoid(UuidToOoid(uuid, Some(timestamp), Some(depth), today).value)
              == (Some(timestamp), Some(depth))
  {
    RoundTrip(uuid, timestamp, depth);
  }

  /** A freshly created OOID decodes to the requested (or today's) date
      and the requested (or default) depth. */
  lemma CreateNewOoidRoundTrip(generated: string, timestamp: Option<Date>, depth: Option<int>, today: Date)
    requires IsCanonicalUuid4(generated)
    requires ValidDate(today) && 2000 <= today.year <= 2099
    requires timestamp.Some? ==> ValidDate(timestamp.value) && 2000 <= timestamp.value.year <= 2099
    requires depth.None? || 0 <= depth.value <= 4
    ensures CreateNewOoid(generated, timestamp, depth, today).Ok?
    ensures DateAndDepthFromOoid(CreateNewOoid(generated, timestamp, depth, today).value)
              == (Some(if timestamp.None? then today else timestamp.value),
                  Some(if depth.None? || depth.value == 0 then DefaultDepth else depth.value))
  {
    RoundTrip(generated, if timestamp.None? then today else timestamp.value, EffectiveDepth(depth));
  }

  /** A depth digit `0` decodes to `OldHardDepth`; no decode yields depth 0. */
  lemma LegacyZeroDepth(ooid: string)
    requires |ooid| >= SuffixLength && ooid[|ooid| - 7] == '0'
    requires DepthFromOoid(ooid).Some?
    ensures DepthFromOoid(ooid) == Some(OldHardDepth)
  {
  }

  /** Strings shorter than seven characters decode to `(None, None)`. */
  lemma ShortInputUnknown(ooid: string)
    requires |ooid| < SuffixLength
    ensures DateAndDepthFromOoid(ooid) == (None, None)
  {
  }

  /** A day, month, year or depth field that is not an integer makes the
      whole decode `(None, None)`. */
  lemma UnparsableFieldUnknown(ooid: string)
    requires |ooid| >= SuffixLength
    requires || ParseInt(ooid[|ooid| - 2..]).None?
             || ParseInt(ooid[|ooid| - 4..|ooid| - 2]).None?
             || ParseInt(ooid[|ooid| - 6..|ooid| - 4]).None?
             || ParseInt([ooid[|ooid| - 7]]).None?
    ensures DateAndDepthFromOoid(ooid) == (None, None)
  {
    if TryDecode(ooid).Some? {
      var p := TryDecode(ooid).value;
      DecodeSuccess(ooid, p.0, p.1);
      ParseIntOneChar(ooid[|ooid| - 7]);
    }
  }

  /** Integer fields that do not form a calendar date (month 13, day 32,
      February 30, ...) make the whole decode `(None, None)`. */
  lemma InvalidCalendarUnknown(ooid: string, yy: int, month: int, day: int)
    requires |ooid| >= SuffixLength
    requires ParseInt(ooid[|ooid| - 2..]) == Some(day)
    requires ParseInt(ooid[|ooid| - 4..|ooid| - 2]) == Some(month)
    requires ParseInt(ooid[|ooid| - 6..|ooid| - 4]) == Some(yy)
    requires !ValidDate(Date(2000 + yy, month, day))
    ensures DateAndDepthFromOoid(ooid) == (None, None)
  {
    DecodedDateIsFields(ooid, yy, month, day);
  }

  /** A successful decode returns exactly the date its three fields spell. */
  lemma DecodedDateIsFields(ooid: string, yy: int, month: int, day: int)
    requires |ooid| >= SuffixLength
    requires ParseInt(ooid[|ooid| - 2..]) == Some(day)
    requires ParseInt(ooid[|ooid| - 4..|ooid| - 2]) == Some(month)
    requires ParseInt(ooid[|ooid| - 6..|ooid| - 4]) == Some(yy)
    ensures TryDecode(ooid).Some? ==> TryDecode(ooid).value.0 == Date(2000 + yy, month, day)
  {
    if TryDecode(ooid).Some? {
      var (date, depth) := TryDecode(ooid).value;
      DecodeSuccess(ooid, date, depth);
    }
  }

  /** The two projections agree with the full decode and with each other. */
  lemma ProjectionsAgree(ooid: string)
    ensures DateFromOoid(ooid).Some? <==> DepthFromOoid(ooid).Some?
    ensures DateAndDepthFromOoid(ooid) == (DateFromOoid(ooid), DepthFromOoid(ooid))
  {
  }

  // ---------------------------------------------------------------------
  // Concrete cases
  // ---------------------------------------------------------------------

  /** A canonical uuid keeps its first 29 characters, hyphens included. */
  lemma EncodeExample()
    ensures Encode("abcdef12-3456-7890-abcd-ef1234567890", Date(2012, 5, 4), 2)
              == "abcdef12-3456-7890-abcd-ef1232120504"
  {
  }

  /** Depth 0 is accepted (it becomes `DefaultDepth`); depths 5 and -1 fail the assertion. */
  lemma DepthAssertionExamples(uuid: string, today: Date)
    requires ValidDate(today)
    ensures UuidToOoid(uuid, None, Some(0), today).Ok?
    ensures UuidToOoid(uuid, None, Some(5), today) == Err(DepthAssertionFailed(5))
    ensures UuidToOoid(uuid, None, Some(-1), today) == Err(DepthAssertionFailed(-1))
  {
  }

  /** The empty string, a single character and a word decode to `(None, None)`. */
  lemma DecodeNonOoidExamples()
    ensures DateAndDepthFromOoid("") == (None, None)
    ensures DateAndDepthFromOoid("x") == (None, None)
    ensures DateAndDepthFromOoid("not-an-ooid-at-all") == (None, None)
  {
  }

  /** The three two-character fields of an OOID, one character at a time. */
  lemma FieldChars(s: string)
    requires |s| >= SuffixLength
    ensures s[|s| - 2..] == [s[|s| - 2], s[|s| - 1]]
    ensures s[|s| - 4..|s| - 2] == [s[|s| - 4], s[|s| - 3]]
    ensures s[|s| - 6..|s| - 4] == [s[|s| - 6], s[|s| - 5]]
  {
  }

  /** Month 13, day 32 and February 30 are no calendar dates, so OOIDs
      carrying them decode to `(None, None)`. */
  lemma DecodeInvalidDateExamples()
    ensures DateAndDepthFromOoid("abc2121304") == (None, None)
    ensures DateAndDepthFromOoid("abc2120532") == (None, None)
    ensures DateAndDepthFromOoid("abc2120230") == (None, None)
  {
    InvalidDateExample("abc2121304", 12, 13, 4);
    InvalidDateExample("abc2120532", 12, 5, 32);
    InvalidDateExample("abc2120230", 12, 2, 30);
  }

  /** An OOID whose fields are the two-digit renderings of `yy`, `month`
      and `day`, these not forming a date, decodes to `(None, None)`. */
  lemma InvalidDateExample(s: string, yy: int, month: int, day: int)
    requires |s| >= SuffixLength
    requires 0 <= yy <= 99 && 0 <= month <= 99 && 0 <= day <= 99
    requires [s[|s| - 6], s[|s| - 5]] == Pad2(yy)
    requires [s[|s| - 4], s[|s| - 3]] == Pad2(month)
    requires [s[|s| - 2], s[|s| - 1]] == Pad2(day)
    requires !ValidDate(Date(2000 + yy, month, day))
    ensures DateAndDepthFromOoid(s) == (None, None)
  {
    ParsePad2(yy);
    ParsePad2(month);
    ParsePad2(day);
    FieldChars(s);
    InvalidCalendarUnknown(s, yy, month, day);
  }

  /** A `0` depth digit reads as `OldHardDepth`, and digits 5..9 are kept. */
  lemma DecodeDepthDigitExamples()
    ensures DateAndDepthFromOoid("abc0120504") == (Some(Date(2012, 5, 4)), Some(OldHardDepth))
    ensures DateAndDepthFromOoid("abc9120504") == (Some(Date(2012, 5, 4)), Some(9))
  {
    ParsePad2(12);
    ParsePad2(5);
    ParsePad2(4);
    var a, b := "abc0120504", "abc9120504";
    FieldChars(a);
    FieldChars(b);
    DecodeFromFields(a, 12, 5, 4);
    DecodeFromFields(b, 12, 5, 4);
  }

  /** Fields are read by `int()`: a signed year field `-5` gives 1995, and
      leading whitespace in a field is skipped. */
  lemma DecodeIntQuirkExamples()
    ensures DateAndDepthFromOoid("1-50101") == (Some(Date(1995, 1, 1)), Some(1))
    ensures DateAndDepthFromOoid("2 5 1 4") == (Some(Date(2005, 1, 4)), Some(2))
  {
    var a, b := "1-50101", "2 5 1 4";
    FieldChars(a);
    ParsePad2(1);
    ParseIntNegativeDigit('5');
    DecodeFromFields(a, -5, 1, 1);
    FieldChars(b);
    ParseIntSpaceDigit(' ', '4');
    ParseIntSpaceDigit(' ', '1');
    ParseIntSpaceDigit(' ', '5');
    DecodeFromFields(b, 5, 1, 4);
  }
}
