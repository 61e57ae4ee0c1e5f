/** The pieces of Python's string semantics the OOID codec relies on:
    slicing and indexing with negative positions, `int()` on a string
    (ASCII only), and the `%d` / `%02d` conversions on small numbers. */
module PyText {
  import opened Wrappers

  // ---------------------------------------------------------------------
  // Slicing and indexing
  // ---------------------------------------------------------------------

  /** Position a slice bound `i` denotes in a string of length `n`:
      negative bounds count from the end, and out-of-range bounds are
      clamped instead of raising. */
  function SliceBound(i: int, n: nat): (k: nat)
    ensures k <= n
    ensures 0 <= i <= n ==> k == i
    ensures -(n as int) <= i < 0 ==> k == n + i
    ensures i < -(n as int) ==> k == 0
    ensures n < i ==> k == n
  {
    if i < 0 then (if n + i < 0 then 0 else n + i)
    else if i > n then n
    else i
  }

  /** `s[start:stop]`, with `None` for an omitted bound. */
  function PySlice(s: string, start: Option<int>, stop: Option<int>): string
  {
    var lo := if start.None? then 0 else SliceBound(start.value, |s|);
    var hi := if stop.None? then |s| else SliceBound(stop.value, |s|);
    if lo < hi then s[lo..hi] else []
  }

  /** `s[-k:]` is the last `k` characters, or all of `s` when it is shorter. */
  lemma SliceLast(s: string, k: nat)
    requires 0 < k
    ensures PySlice(s, Some(-(k as int)), None) == if k <= |s| then s[|s| - k..] else s
  {
  }

  /** `s[-a:-b]` of a string with at least `a` characters is the window
      from `a` to `b` characters before the end. */
  lemma SliceWindow(s: string, a: nat, b: nat)
    requires 0 < b < a <= |s|
    ensures |PySlice(s, Some(-(a as int)), Some(-(b as int)))| == a - b
    ensures PySlice(s, Some(-(a as int)), Some(-(b as int))) == s[|s| - a..|s| - b]
  {
  }

  /** `s[:-k]` drops the last `k` characters, and is empty when `s` is not longer than `k`. */
  lemma SliceDropLast(s: string, k: nat)
    requires 0 < k
    ensures PySlice(s, None, Some(-(k as int))) == if k <= |s| then s[..|s| - k] else []
  {
  }

  /** `s[i]`; `None` stands for the `IndexError` Python raises. */
  function PyIndex(s: string, i: int): (r: Option<char>)
    ensures r.Some? <==> -|s| <= i < |s|
    ensures r.Some? && i < 0 ==> r.value == s[|s| + i]
    ensures r.Some? && 0 <= i ==> r.value == s[i]
  {
    if 0 <= i < |s| then Some(s[i])
    else if -|s| <= i < 0 then Some(s[|s| + i])
    else None
  }

  // ---------------------------------------------------------------------
  // int(s)
  // ---------------------------------------------------------------------

  predicate IsAsciiDigit(c: char) {
    '0' <= c <= '9'
  }

  function DigitValue(c: char): (v: nat)
    requires IsAsciiDigit(c)
    ensures v <= 9
  {
    (c as int) - ('0' as int)
  }

  /** The whitespace `int()` skips around the number in an all-ASCII
      string: tab, line feed, vertical tab, form feed, carriage return and
      space (C's `isspace`). The separators 0x1C..0x1F, which `str.isspace`
      also accepts, are never skipped. */
  predicate IsSpace(c: char) {
    var k := c as int;
    k == 32 || 9 <= k <= 13
  }

  /** The information separator 0x1C is no whitespace to `int()`: `int("\x1c5")` raises. */
  lemma ParseIntRejectsSeparator(d: char)
    requires IsAsciiDigit(d)
    ensures ParseInt([28 as char, d]) == None
  {
    NoSpaceAtEnds([28 as char, d]);
  }

  /** `s` without its leading whitespace. */
  function TrimStart(s: string): (r: string)
    ensures |r| <= |s|
    ensures r == [] || !IsSpace(r[0])
  {
    if |s| > 0 && IsSpace(s[0]) then TrimStart(s[1..]) else s
  }

  /** `s` without its trailing whitespace. */
  function TrimEnd(s: string): (r: string)
    ensures |r| <= |s|
    ensures r == [] || !IsSpace(r[|r| - 1])
  {
    if |s| > 0 && IsSpace(s[|s| - 1]) then TrimEnd(s[..|s| - 1]) else s
  }

  /** Trimming the front leaves a suffix of the string. */
  lemma {:induction false} TrimStartIsSuffix(s: string)
    ensures TrimStart(s) == s[|s| - |TrimStart(s)|..]
  {
    if |s| > 0 && IsSpace(s[0]) {
      TrimStartIsSuffix(s[1..]);
    }
  }

  /** Trimming the back leaves a prefix of the string. */
  lemma {:induction false} TrimEndIsPrefix(s: string)
    ensures TrimEnd(s) == s[..|TrimEnd(s)|]
  {
    if |s| > 0 && IsSpace(s[|s| - 1]) {
      TrimEndIsPrefix(s[..|s| - 1]);
    }
  }

  /** Only whitespace is trimmed off the front. */
  lemma {:induction false} TrimStartRemovesSpaceOnly(s: string, k: nat)
    requires k < |s| - |TrimStart(s)|
    ensures IsSpace(s[k])
  {
    if k > 0 {
      TrimStartRemovesSpaceOnly(s[1..], k - 1);
    }
  }

  /** Only whitespace is trimmed off the back. */
  lemma {:induction false} TrimEndRemovesSpaceOnly(s: string, k: nat)
    requires |TrimEnd(s)| <= k < |s|
    ensures IsSpace(s[k])
  {
    if k < |s| - 1 {
      TrimEndRemovesSpaceOnly(s[..|s| - 1], k);
    }
  }

  /** Python's grammar for the digits of a base-10 integer: a digit, then
      digits each of which may be preceded by a single underscore. */
  predicate WellFormedDigits(t: string) {
    |t| > 0 && IsAsciiDigit(t[0]) && DigitGroups(t[1..])
  }

  /** The tail of the grammar: zero or more of an optional `_` and a digit. */
  predicate DigitGroups(t: string)
    decreases |t|
  {
    if |t| == 0 then true
    else if IsAsciiDigit(t[0]) then DigitGroups(t[1..])
    else t[0] == '_' && |t| >= 2 && IsAsciiDigit(t[1]) && DigitGroups(t[2..])
  }

  /** The value of a digit string, underscores ignored. */
  function DigitsValue(t: string): nat
  {
    if |t| == 0 then 0
    else if IsAsciiDigit(t[|t| - 1]) then 10 * DigitsValue(t[..|t| - 1]) + DigitValue(t[|t| - 1])
    else DigitsValue(t[..|t| - 1])
  }

  /** `int(s)` for a string `s`: surrounding whitespace, one optional sign,
      then the digits. `None` stands for the `ValueError` Python raises. */
  function ParseInt(s: string): Option<int>
  {
    var t := TrimEnd(TrimStart(s));
    var signed := |t| > 0 && (t[0] == '+' || t[0] == '-');
    var digits := if signed then t[1..] else t;
    if !WellFormedDigits(digits) then None
    else if signed && t[0] == '-' then Some(-(DigitsValue(digits) as int))
    else Some(DigitsValue(digits))
  }

  /** A well-formed digit string ends with a digit. */
  lemma {:induction false} DigitGroupsEndWithDigit(t: string)
    requires |t| > 0 && DigitGroups(t)
    ensures IsAsciiDigit(t[|t| - 1])
    decreases |t|
  {
    if IsAsciiDigit(t[0]) {
      if |t| > 1 {
        DigitGroupsEndWithDigit(t[1..]);
      }
    } else if |t| > 2 {
      DigitGroupsEndWithDigit(t[2..]);
    }
  }

  /** A bare digit string, with no whitespace and no sign, is read as its value. */
  lemma ParseIntDigits(t: string)
    requires WellFormedDigits(t)
    ensures ParseInt(t) == Some(DigitsValue(t))
  {
    WellFormedDigitsEndWithDigit(t);
    NoSpaceAtEnds(t);
  }

  lemma WellFormedDigitsEndWithDigit(t: string)
    requires WellFormedDigits(t)
    ensures IsAsciiDigit(t[|t| - 1])
  {
    if |t| > 1 {
      DigitGroupsEndWithDigit(t[1..]);
      assert t[1..][|t| - 2] == t[|t| - 1];
    }
  }

  /** Trimming leaves a string alone when neither end is whitespace. */
  lemma NoSpaceAtEnds(t: string)
    requires |t| > 0 && !IsSpace(t[0]) && !IsSpace(t[|t| - 1])
    ensures TrimStart(t) == t && TrimEnd(t) == t
  {
  }

  /** A single character is an integer exactly when it is a digit, and then
      its value is that digit's. */
  lemma ParseIntOneChar(c: char)
    ensures ParseInt([c]).Some? <==> IsAsciiDigit(c)
    ensures IsAsciiDigit(c) ==> ParseInt([c]) == Some(DigitValue(c))
  {
    if IsAsciiDigit(c) {
      ParseIntDigitChar(c);
    } else {
      ParseIntNonDigitChar(c);
    }
  }

  lemma ParseIntDigitChar(c: char)
    requires IsAsciiDigit(c)
    ensures ParseInt([c]) == Some(DigitValue(c))
  {
    var s := [c];
    assert WellFormedDigits(s);
    ParseIntDigits(s);
    assert s[..0] == [];
    assert DigitsValue(s) == 10 * DigitsValue([]) + DigitValue(c);
  }

  lemma ParseIntNonDigitChar(c: char)
    requires !IsAsciiDigit(c)
    ensures ParseInt([c]) == None
  {
  }

  /** What `int()` can return for a field of at most two characters:
      a value in -9..99, and never from a string holding an underscore
      (the grammar needs a digit on each side of one). */
  lemma {:induction false} ParseIntShort(s: string)
    requires |s| <= 2
    requires ParseInt(s).Some?
    ensures -9 <= ParseInt(s).value <= 99
    ensures '_' !in s
  {
    var t := TrimEnd(TrimStart(s));
    var signed := |t| > 0 && (t[0] == '+' || t[0] == '-');
    var digits := if signed then t[1..] else t;
    assert WellFormedDigits(digits);
    ShortDigits(digits);
    assert '_' !in t by {
      forall i | 0 <= i < |t|
        ensures t[i] != '_'
      {
        if signed && i > 0 {
          assert t[i] == digits[i - 1];
        }
      }
    }
    TrimKeepsOnlySpace(s);
  }

  /** A well-formed digit string of one or two characters is all digits,
      and its value has as many decimal digits. */
  lemma ShortDigits(digits: string)
    requires WellFormedDigits(digits) && |digits| <= 2
    ensures forall i :: 0 <= i < |digits| ==> IsAsciiDigit(digits[i])
    ensures DigitsValue(digits) <= if |digits| == 1 then 9 else 99
  {
    if |digits| == 1 {
      assert DigitsValue(digits) == 10 * DigitsValue([]) + DigitValue(digits[0]);
    } else {
      assert digits[..1] == [digits[0]];
      assert DigitsValue(digits[..1]) == 10 * DigitsValue([]) + DigitValue(digits[0]);
    }
  }

  /** Trimming removes whitespace only: every other character of `s`
      survives in the trimmed string. */
  lemma TrimKeepsOnlySpace(s: string)
    ensures forall i :: 0 <= i < |s| && !IsSpace(s[i]) ==> s[i] in TrimEnd(TrimStart(s))
  {
    var u := TrimStart(s);
    var t := TrimEnd(u);
    TrimStartIsSuffix(s);
    TrimEndIsPrefix(u);
    forall i | 0 <= i < |s| && !IsSpace(s[i])
      ensures s[i] in t
    {
      var front := |s| - |u|;
      if i < front {
        TrimStartRemovesSpaceOnly(s, i);
      } else if i - front < |t| {
        assert s[i] == u[i - front] == t[i - front];
      } else {
        TrimEndRemovesSpaceOnly(u, i - front);
      }
    }
  }

  /** `int()` skips a leading space: `int(" 7") == 7`. */
  lemma ParseIntSpaceDigit(sp: char, d: char)
    requires IsSpace(sp) && IsAsciiDigit(d)
    ensures ParseInt([sp, d]) == Some(DigitValue(d))
  {
    assert [sp, d][1..] == [d];
    assert TrimStart([sp, d]) == TrimStart([d]);
    ParseIntDigitChar(d);
  }

  /** `int()` takes a leading minus sign: `int("-7") == -7`. */
  lemma ParseIntNegativeDigit(d: char)
    requires IsAsciiDigit(d)
    ensures ParseInt(['-', d]) == Some(-(DigitValue(d) as int))
  {
    var s := ['-', d];
    NoSpaceAtEnds(s);
    assert s[1..] == [d];
    assert [d][..0] == [];
    assert DigitsValue([d]) == 10 * DigitsValue([]) + DigitValue(d);
    assert WellFormedDigits([d]);
  }

  /** A first character that is neither a digit, a sign nor whitespace
      makes two characters no integer: `int("ll")` raises. */
  lemma ParseIntRejectsLetters(a: char, b: char)
    requires !IsAsciiDigit(a) && !IsSpace(a) && a != '+' && a != '-'
    ensures ParseInt([a, b]) == None
  {
    if IsSpace(b) {
      assert [a, b][..1] == [a];
      assert TrimEnd([a, b]) == TrimEnd([a]);
    } else {
      NoSpaceAtEnds([a, b]);
    }
  }

  // ---------------------------------------------------------------------
  // %d and %02d
  // ---------------------------------------------------------------------

  /** `"%d" % n` for a single-digit `n`. */
  function Digit(n: int): (c: char)
    requires 0 <= n <= 9
    ensures IsAsciiDigit(c) && DigitValue(c) == n
  {
    (('0' as int) + n) as char
  }

  /** `"%02d" % n` for `n` in 0..99: two digits, with a leading zero below 10. */
  function Pad2(n: int): (r: string)
    requires 0 <= n <= 99
    ensures |r| == 2 && IsAsciiDigit(r[0]) && IsAsciiDigit(r[1])
    ensures 10 * DigitValue(r[0]) + DigitValue(r[1]) == n
    ensures n < 10 <==> r[0] == '0'
  {
    [Digit(n / 10), Digit(n % 10)]
  }

  /** `int("%02d" % n) == n`: the two-digit rendering parses back. */
  lemma ParsePad2(n: int)
    requires 0 <= n <= 99
    ensures ParseInt(Pad2(n)) == Some(n)
  {
    var p := Pad2(n);
    assert p[1..][1..] == [];
    assert WellFormedDigits(p);
    ParseIntDigits(p);
    assert p[..1] == [p[0]];
    assert p[..1][..0] == [];
    assert DigitsValue(p[..1]) == 10 * DigitsValue([]) + DigitValue(p[0]);
    assert DigitsValue(p) == 10 * DigitValue(p[0]) + DigitValue(p[1]);
  }
}
