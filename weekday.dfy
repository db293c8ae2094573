/** `extract_weekday` (scraper.py): find the first substring shaped like
    `[A-Za-z]+ \d{1,2}, \d{4}`, read it with `strptime` and format `"%B %d, %Y"`,
    and answer the name of that date's weekday, or "Unknown". */
module DateText {
  import opened Wrappers
  import opened Calendar
  import opened Text

  const Unknown := "Unknown"

  /** `%B` in the C locale. */
  const MonthNames: seq<string> :=
    ["January", "February", "March", "April", "May", "June", "July",
     "August", "September", "October", "November", "December"]

  predicate IsAsciiLetter(c: char)
  {
    'A' <= c <= 'Z' || 'a' <= c <= 'z'
  }

  predicate IsDigit(c: char)
  {
    '0' <= c <= '9'
  }

  predicate AllLetters(s: string)
  {
    forall i :: 0 <= i < |s| ==> IsAsciiLetter(s[i])
  }

  predicate AllDigits(s: string)
  {
    forall i :: 0 <= i < |s| ==> IsDigit(s[i])
  }

  /** Number of ASCII letters in a row from index `i`. */
  function LetterRun(s: string, i: nat): (n: nat)
    requires i <= |s|
    ensures i + n <= |s|
    decreases |s| - i
  {
    if i < |s| && IsAsciiLetter(s[i]) then 1 + LetterRun(s, i + 1) else 0
  }

  /** Number of digits in a row from index `i`. */
  function DigitRun(s: string, i: nat): (n: nat)
    requires i <= |s|
    ensures i + n <= |s|
    decreases |s| - i
  {
    if i < |s| && IsDigit(s[i]) then 1 + DigitRun(s, i + 1) else 0
  }

  predicate LettersBetween(s: string, a: nat, b: nat)
    requires a <= b <= |s|
  {
    forall p :: a <= p < b ==> IsAsciiLetter(s[p])
  }

  predicate DigitsBetween(s: string, a: nat, b: nat)
    requires a <= b <= |s|
  {
    forall p :: a <= p < b ==> IsDigit(s[p])
  }

  lemma LettersSlice(s: string, a: nat, b: nat)
    requires a <= b <= |s|
    ensures LettersBetween(s, a, b) <==> AllLetters(s[a..b])
  {
    assert forall p :: a <= p < b ==> s[a..b][p - a] == s[p];
  }

  lemma DigitsSlice(s: string, a: nat, b: nat)
    requires a <= b <= |s|
    ensures DigitsBetween(s, a, b) <==> AllDigits(s[a..b])
  {
    assert forall p :: a <= p < b ==> s[a..b][p - a] == s[p];
  }

  /** The letter run is as long as it can be: letters only, then no letter. */
  lemma {:induction false} LetterRunMaximal(s: string, i: nat)
    requires i <= |s|
    ensures LettersBetween(s, i, i + LetterRun(s, i))
    ensures i + LetterRun(s, i) == |s| || !IsAsciiLetter(s[i + LetterRun(s, i)])
    decreases |s| - i
  {
    if i < |s| && IsAsciiLetter(s[i]) {
      LetterRunMaximal(s, i + 1);
    }
  }

  lemma {:induction false} DigitRunMaximal(s: string, i: nat)
    requires i <= |s|
    ensures DigitsBetween(s, i, i + DigitRun(s, i))
    ensures i + DigitRun(s, i) == |s| || !IsDigit(s[i + DigitRun(s, i)])
    decreases |s| - i
  {
    if i < |s| && IsDigit(s[i]) {
      DigitRunMaximal(s, i + 1);
    }
  }

  lemma {:induction false} LetterRunExact(s: string, i: nat, n: nat)
    requires i + n < |s| && LettersBetween(s, i, i + n) && !IsAsciiLetter(s[i + n])
    ensures LetterRun(s, i) == n
    decreases n
  {
    if n > 0 {
      LetterRunExact(s, i + 1, n - 1);
    }
  }

  lemma {:induction false} DigitRunExact(s: string, i: nat, n: nat)
    requires i + n < |s| && DigitsBetween(s, i, i + n) && !IsDigit(s[i + n])
    ensures DigitRun(s, i) == n
    decreases n
  {
    if n > 0 {
      DigitRunExact(s, i + 1, n - 1);
    }
  }

  lemma {:induction false} DigitRunAtLeast(s: string, i: nat, n: nat)
    requires i + n <= |s| && DigitsBetween(s, i, i + n)
    ensures DigitRun(s, i) >= n
    decreases n
  {
    if n > 0 {
      DigitRunAtLeast(s, i + 1, n - 1);
    }
  }

  /** Where one match of `[A-Za-z]+ \d{1,2}, \d{4}` lies: it starts at `start`, the
      space after the word is at `wordEnd` and the comma after the day at `dayEnd`; the
      four year digits end the match at `dayEnd + 6`. */
  datatype Span = Span(start: nat, wordEnd: nat, dayEnd: nat)

  /** The pattern matches `s` exactly over `sp`. */
  predicate MatchesAt(s: string, sp: Span)
  {
    sp.start < sp.wordEnd && sp.wordEnd + 2 <= sp.dayEnd <= sp.wordEnd + 3 && sp.dayEnd + 6 <= |s|
    && LettersBetween(s, sp.start, sp.wordEnd) && s[sp.wordEnd] == ' '
    && DigitsBetween(s, sp.wordEnd + 1, sp.dayEnd)
    && s[sp.dayEnd] == ',' && s[sp.dayEnd + 1] == ' '
    && DigitsBetween(s, sp.dayEnd + 2, sp.dayEnd + 6)
  }

  /** The match that starts exactly at index `i`, if any. The word must be every letter
      up to the space and the day every digit up to the comma, or backtracking finds no
      match at `i`; `MatchAtIff` states what this finds. */
  function MatchAt(s: string, i: nat): (r: Option<Span>)
    requires i <= |s|
  {
    var j := i + LetterRun(s, i);
    if j == i || j >= |s| || s[j] != ' ' then None
    else
      var k := j + 1 + DigitRun(s, j + 1);
      if k < j + 2 || k > j + 3 || k + 2 > |s| || s[k] != ',' || s[k + 1] != ' ' then None
      else if DigitRun(s, k + 2) < 4 then None
      else Some(Span(i, j, k))
  }

  /** `MatchAt` finds a match at `i` exactly when the pattern matches there. */
  lemma MatchAtIff(s: string, i: nat, sp: Span)
    requires i <= |s|
    ensures MatchAt(s, i) == Some(sp) <==> sp.start == i && MatchesAt(s, sp)
  {
    if MatchAt(s, i) == Some(sp) {
      MatchAtSound(s, i);
    }
    if sp.start == i && MatchesAt(s, sp) {
      MatchAtComplete(s, sp);
    }
  }

  /** What `MatchAt` finds is a match. */
  lemma MatchAtSound(s: string, i: nat)
    requires i <= |s| && MatchAt(s, i).Some?
    ensures MatchAt(s, i).value.start == i && MatchesAt(s, MatchAt(s, i).value)
  {
    var j := i + LetterRun(s, i);
    var k := j + 1 + DigitRun(s, j + 1);
    assert MatchAt(s, i).value == Span(i, j, k);
    LetterRunMaximal(s, i);
    DigitRunMaximal(s, j + 1);
    DigitRunMaximal(s, k + 2);
  }

  /** Every match is found by `MatchAt` at its start. */
  lemma MatchAtComplete(s: string, sp: Span)
    requires MatchesAt(s, sp)
    ensures MatchAt(s, sp.start) == Some(sp)
  {
    LetterRunExact(s, sp.start, sp.wordEnd - sp.start);
    DigitRunExact(s, sp.wordEnd + 1, sp.dayEnd - sp.wordEnd - 1);
    DigitRunAtLeast(s, sp.dayEnd + 2, 4);
  }

  /** `re.search` from index `i`: the match that starts leftmost. */
  function SearchFrom(s: string, i: nat): (r: Option<Span>)
    requires i <= |s|
    ensures r.Some? ==> i <= r.value.start <= |s| && MatchAt(s, r.value.start) == r
    ensures r.Some? ==> MatchesAt(s, r.value)
    ensures r.Some? ==> forall k :: i <= k < r.value.start ==> MatchAt(s, k).None?
    ensures r.None? ==> forall k :: i <= k <= |s| ==> MatchAt(s, k).None?
    decreases |s| - i
  {
    if MatchAt(s, i).Some? then MatchAtIff(s, i, MatchAt(s, i).value); MatchAt(s, i)
    else if i == |s| then None
    else SearchFrom(s, i + 1)
  }

  /** The search answers the leftmost match, and nothing when there is no match. */
  lemma SearchLeftmost(s: string, sp: Span)
    ensures SearchFrom(s, 0) == Some(sp) <==>
            MatchesAt(s, sp) && forall q :: MatchesAt(s, q) ==> sp.start <= q.start
  {
    if SearchFrom(s, 0) == Some(sp) {
      MatchAtIff(s, sp.start, sp);
      forall q | MatchesAt(s, q)
        ensures sp.start <= q.start
      {
        MatchAtIff(s, q.start, q);
      }
    }
    if MatchesAt(s, sp) && forall q :: MatchesAt(s, q) ==> sp.start <= q.start {
      MatchAtIff(s, sp.start, sp);
      var r := SearchFrom(s, 0).value;
      MatchAtIff(s, r.start, r);
      assert MatchAt(s, r.start) == Some(sp);
    }
  }

  lemma SearchNone(s: string)
    ensures SearchFrom(s, 0).None? <==> forall q :: !MatchesAt(s, q)
  {
    if SearchFrom(s, 0).None? {
      forall q | MatchesAt(s, q)
        ensures false
      {
        MatchAtIff(s, q.start, q);
      }
    } else {
      var r := SearchFrom(s, 0).value;
      MatchAtIff(s, r.start, r);
    }
  }

  /** The three groups of one match: the word, the day digits and the year digits. */
  datatype DateMatch = DateMatch(word: string, day: string, year: string)

  /** The groups have the shape the pattern demands. */
  predicate Shaped(m: DateMatch)
  {
    |m.word| >= 1 && AllLetters(m.word)
    && 1 <= |m.day| <= 2 && AllDigits(m.day)
    && |m.year| == 4 && AllDigits(m.year)
  }

  /** The word, day and year text of a match. */
  function Groups(s: string, sp: Span): (m: DateMatch)
    requires MatchesAt(s, sp)
    ensures Shaped(m)
    ensures m.word == s[sp.start..sp.wordEnd] && m.day == s[sp.wordEnd + 1..sp.dayEnd]
    ensures m.year == s[sp.dayEnd + 2..sp.dayEnd + 6]
  {
    LettersSlice(s, sp.start, sp.wordEnd);
    DigitsSlice(s, sp.wordEnd + 1, sp.dayEnd);
    DigitsSlice(s, sp.dayEnd + 2, sp.dayEnd + 6);
    DateMatch(s[sp.start..sp.wordEnd], s[sp.wordEnd + 1..sp.dayEnd], s[sp.dayEnd + 2..sp.dayEnd + 6])
  }

  // ---------------------------------------------------------------- strptime(..., "%B %d, %Y")

  function LowerAscii(c: char): char
  {
    if 'A' <= c <= 'Z' then (c as int + 32) as char else c
  }

  /** Equality of ASCII words under `re.IGNORECASE`. */
  predicate SameIgnoringCase(a: string, b: string)
  {
    |a| == |b| && forall i :: 0 <= i < |a| ==> LowerAscii(a[i]) == LowerAscii(b[i])
  }

  /** `%B`: the number of the month whose full name is `word`, in any letter case. */
  function MonthNumber(word: string): (r: Option<int>)
    ensures r.Some? ==> 1 <= r.value <= 12 && SameIgnoringCase(word, MonthNames[r.value - 1])
    ensures r.None? ==> forall k :: 0 <= k < 12 ==> !SameIgnoringCase(word, MonthNames[k])
  {
    MonthFrom(word, 0)
  }

  function MonthFrom(word: string, k: nat): (r: Option<int>)
    requires k <= 12
    ensures r.Some? ==> k + 1 <= r.value <= 12 && SameIgnoringCase(word, MonthNames[r.value - 1])
    ensures r.None? ==> forall n :: k <= n < 12 ==> !SameIgnoringCase(word, MonthNames[n])
    decreases 12 - k
  {
    if k == 12 then None
    else if SameIgnoringCase(word, MonthNames[k]) then Some(k + 1)
    else MonthFrom(word, k + 1)
  }

  /** The value of a string of decimal digits. */
  function DecimalValue(digits: string): (n: nat)
    requires AllDigits(digits)
    decreases |digits|
  {
    if digits == [] then 0
    else
      var last := digits[|digits| - 1];
      10 * DecimalValue(digits[..|digits| - 1]) + (last as int - '0' as int)
  }

  /** `datetime.strptime(text, "%B %d, %Y")` applied to the matched text: `%d` takes a
      one- or two-digit day from 1 to 31 and `%Y` any four digits, after which the date
      must exist (no year 0, no 30 February). */
  function ParseDate(m: DateMatch): (r: Option<Date>)
    requires Shaped(m)
    ensures r.Some? <==> MonthNumber(m.word).Some?
                         && Valid(Date(DecimalValue(m.year), MonthNumber(m.word).value, DecimalValue(m.day)))
    ensures r.Some? ==> r.value == Date(DecimalValue(m.year), MonthNumber(m.word).value, DecimalValue(m.day))
  {
    var month := MonthNumber(m.word);
    var day := DecimalValue(m.day);
    var year := DecimalValue(m.year);
    if month.None? || day < 1 || day > 31 then None
    else if !Valid(Date(year, month.value, day)) then None
    else Some(Date(year, month.value, day))
  }

  /** `extract_weekday(date_text)` */
  function ExtractWeekday(text: string): (name: string)
    ensures name == Unknown || name in WeekdayNames
  {
    match SearchFrom(text, 0)
    case None => Unknown
    case Some(sp) =>
      match ParseDate(Groups(text, sp))
      case None => Unknown
      case Some(d) => WeekdayName(d)
  }

  // ---------------------------------------------------------------- properties

  /** A weekday is answered exactly when the leftmost match reads as a real date, and
      it is that date's weekday; no later match is ever tried. */
  lemma ExtractWeekdayKnown(text: string)
    ensures ExtractWeekday(text) != Unknown <==>
      SearchFrom(text, 0).Some? && ParseDate(Groups(text, SearchFrom(text, 0).value)).Some?
    ensures ExtractWeekday(text) != Unknown ==>
      ExtractWeekday(text) == WeekdayName(ParseDate(Groups(text, SearchFrom(text, 0).value)).value)
  {
    assert forall k :: 0 <= k < 7 ==> WeekdayNames[k] != Unknown;
  }

  lemma ParseMarchFourth()
    ensures ParseDate(DateMatch("March", "4", "2025")) == Some(Date(2025, 3, 4))
  {
    assert MonthNumber("March") == Some(3) by {
      assert !SameIgnoringCase("March", MonthNames[0]);
      assert !SameIgnoringCase("March", MonthNames[1]);
      assert SameIgnoringCase("March", MonthNames[2]);
    }
    assert DecimalValue("4") == 4;
    assert DecimalValue("2025") == 2025 by {
      assert "2025"[..3] == "202";
      assert "202"[..2] == "20";
      assert "20"[..1] == "2";
    }
  }

  lemma WeekdayOfMarchFourth()
    ensures WeekdayName(Date(2025, 3, 4)) == "Tuesday"
  {
    var d := Date(2025, 3, 4);
    assert DaysBeforeYear(2025) == 739251;
    assert DaysBeforeMonth(2025, 3) == 59;
    var o := Ordinal(d);
    assert o + 6 == 739320;
    assert Weekday(d) == (o + 6) % 7;
  }

  /** Every full month name, in any case, reads as its own month. */
  lemma MonthNumberOfName(k: nat)
    requires k < 12
    ensures MonthNumber(MonthNames[k]) == Some(k + 1)
  {
    var n := MonthNumber(MonthNames[k]);
    assert n.Some?;
    DistinctMonthNames(k, n.value - 1);
  }

  lemma DistinctMonthNames(a: nat, b: nat)
    requires a < 12 && b < 12 && SameIgnoringCase(MonthNames[a], MonthNames[b])
    ensures a == b
  {
    MonthKeys();
    assert MonthKey(MonthNames[a]) == MonthKey(MonthNames[b]);
  }

  /** The length and the second and third letters, in lower case, tell the month names
      apart; names that are the same ignoring case share them. */
  function MonthKey(w: string): int
  {
    if |w| < 3 then 0
    else |w| * 65536 + (LowerAscii(w[1]) as int) * 256 + LowerAscii(w[2]) as int
  }

  lemma MonthKeys()
    ensures forall a, b :: 0 <= a < b < 12 ==> MonthKey(MonthNames[a]) != MonthKey(MonthNames[b])
  {
    var keys := [7 * 65536 + 97 * 256 + 110, 8 * 65536 + 101 * 256 + 98, 5 * 65536 + 97 * 256 + 114,
                 5 * 65536 + 112 * 256 + 114, 3 * 65536 + 97 * 256 + 121, 4 * 65536 + 117 * 256 + 110,
                 4 * 65536 + 117 * 256 + 108, 6 * 65536 + 117 * 256 + 103, 9 * 65536 + 101 * 256 + 112,
                 7 * 65536 + 99 * 256 + 116, 8 * 65536 + 111 * 256 + 118, 8 * 65536 + 101 * 256 + 99];
    forall n | 0 <= n < 12 ensures MonthKey(MonthNames[n]) == keys[n] {
    }
  }

  /** A run of `n` digits is worth less than `10^n`: `%Y` never reads past year 9999. */
  lemma {:induction false} DecimalValueBound(digits: string)
    requires AllDigits(digits)
    ensures DecimalValue(digits) < Pow10(|digits|)
    decreases |digits|
  {
    if digits != [] {
      DecimalValueBound(digits[..|digits| - 1]);
    }
  }

  function Pow10(n: nat): (p: nat)
    ensures p >= 1
  {
    if n == 0 then 1 else 10 * Pow10(n - 1)
  }

  /** When the text starts with a match, that match alone decides the answer. */
  lemma ExtractAtStart(s: string, sp: Span)
    requires sp.start == 0 && MatchesAt(s, sp)
    ensures ExtractWeekday(s) == DayName(ParseDate(Groups(s, sp)))
  {
    SearchLeftmost(s, sp);
  }

  function DayName(d: Option<Date>): string
    requires d.Some? ==> Valid(d.value)
  {
    if d.Some? then WeekdayName(d.value) else Unknown
  }

  lemma ExtractMarchFourth()
    ensures ExtractWeekday("March 4, 2025") == "Tuesday"
  {
    GroupsOfMarchFourth();
    ParseMarchFourth();
    WeekdayOfMarchFourth();
    ExtractAtStart("March 4, 2025", Span(0, 5, 7));
  }

  /** A text made of a word, a space, a day, ", ", a year and anything at all matches at
      its start, with those three groups. */
  lemma MatchOfParts(s: string, w: string, d: string, y: string, rest: string)
    requires s == w + " " + d + ", " + y + rest
    requires |w| >= 1 && AllLetters(w) && 1 <= |d| <= 2 && AllDigits(d) && |y| == 4 && AllDigits(y)
    ensures MatchesAt(s, Span(0, |w|, |w| + 1 + |d|))
    ensures Groups(s, Span(0, |w|, |w| + 1 + |d|)) == DateMatch(w, d, y)
  {
    var a := |w|;
    var b := a + 1 + |d|;
    var u := w + " " + d;
    var v := ", " + y + rest;
    assert s == u + v;
    PartsOfWordAndDay(u, w, d);
    PartsOfYear(v, y, rest);
    assert forall p :: 0 <= p < b ==> s[p] == u[p];
    assert forall p :: b <= p < |s| ==> s[p] == v[p - b];
    assert s[0..a] == u[0..a] && s[a + 1..b] == u[a + 1..b] && s[b + 2..b + 6] == v[2..6];
  }

  lemma PartsOfWordAndDay(u: string, w: string, d: string)
    requires u == w + " " + d && AllLetters(w) && AllDigits(d)
    ensures |u| == |w| + 1 + |d| && u[|w|] == ' '
    ensures LettersBetween(u, 0, |w|) && DigitsBetween(u, |w| + 1, |u|)
    ensures u[0..|w|] == w && u[|w| + 1..] == d
  {
    assert forall p :: 0 <= p < |w| ==> u[p] == w[p];
    assert forall p :: |w| + 1 <= p < |u| ==> u[p] == d[p - |w| - 1];
  }

  lemma PartsOfYear(v: string, y: string, rest: string)
    requires v == ", " + y + rest && |y| == 4 && AllDigits(y)
    ensures |v| >= 6 && v[0] == ',' && v[1] == ' ' && DigitsBetween(v, 2, 6) && v[2..6] == y
  {
    assert forall p :: 2 <= p < 6 ==> v[p] == y[p - 2];
  }

  lemma GroupsOfMarchFourth()
    ensures MatchesAt("March 4, 2025", Span(0, 5, 7))
    ensures Groups("March 4, 2025", Span(0, 5, 7)) == DateMatch("March", "4", "2025")
  {
    MatchOfParts("March 4, 2025", "March", "4", "2025", "");
  }

  /** A leftmost match that is not a date gives "Unknown", even when a real date follows. */
  lemma ExtractFirstMatchOnly()
    ensures ExtractWeekday("Frob 4, 2025 March 4, 2025") == Unknown
  {
    GroupsOfFrob();
    NotAMonth("Frob");
    ExtractUnknownMonth("Frob 4, 2025 March 4, 2025", Span(0, 4, 6));
  }

  lemma ExtractUnknownMonth(s: string, sp: Span)
    requires sp.start == 0 && MatchesAt(s, sp) && MonthNumber(Groups(s, sp).word).None?
    ensures ExtractWeekday(s) == Unknown
  {
    ExtractAtStart(s, sp);
  }

  lemma GroupsOfFrob()
    ensures MatchesAt("Frob 4, 2025 March 4, 2025", Span(0, 4, 6))
    ensures Groups("Frob 4, 2025 March 4, 2025", Span(0, 4, 6)).word == "Frob"
  {
    MatchOfParts("Frob 4, 2025 March 4, 2025", "Frob", "4", "2025", " March 4, 2025");
  }

  lemma NotAMonth(w: string)
    requires |w| == 4 && w[0] == 'F' && w[1] == 'r'
    ensures MonthNumber(w).None?
  {
    assert forall k :: 0 <= k < 12 ==> !SameIgnoringCase(w, MonthNames[k]) by {
      assert forall k :: 0 <= k < 12 && k != 1 && k != 4 && k != 5 ==>
        (|MonthNames[k]| != 4 || LowerAscii(MonthNames[k][0]) != 'f');
      assert LowerAscii(MonthNames[1][1]) != 'r';
    }
  }

  /** A day past the end of its month gives "Unknown". */
  lemma ExtractThirtiethOfFebruary()
    ensures ExtractWeekday("February 30, 2024") == Unknown
  {
    GroupsOfFebruaryThirtieth();
    ParseFebruaryThirtieth();
    ExtractAtStart("February 30, 2024", Span(0, 8, 11));
  }

  lemma GroupsOfFebruaryThirtieth()
    ensures MatchesAt("February 30, 2024", Span(0, 8, 11))
    ensures Groups("February 30, 2024", Span(0, 8, 11)) == DateMatch("February", "30", "2024")
  {
    MatchOfParts("February 30, 2024", "February", "30", "2024", "");
  }

  lemma ParseFebruaryThirtieth()
    ensures ParseDate(DateMatch("February", "30", "2024")).None?
  {
    assert DecimalValue("30") == 30 by {
      assert "30"[..1] == "3";
    }
    MonthNumberOfName(1);
  }
}
