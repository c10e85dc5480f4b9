/** The per-field normalisers of the detail page (global_tech.py:58-128):
    each turns the raw text of one element into the value written to the
    CSV file. The absent cases (an `except` branch setting `None`) are the
    `None` results here; element lookup itself is modelled in `Detail`. */
module Normalise {
  import opened Wrappers
  import opened Strings

  // ---------------------------------------------------------------------
  // num_views: `text.replace(',', '')`

  /** The view count with its thousands separators stripped; it stays a
      string, as in the source. */
  function NumViews(text: string): (r: string)
    ensures r == DropChar(text, ',')
    ensures ',' !in r
  {
    RemoveCharIsDropChar(text, ',');
    Remove(text, ",")
  }

  /** Stripping separators a second time changes nothing. */
  lemma NumViewsIdempotent(text: string)
    ensures NumViews(NumViews(text)) == NumViews(text)
  {
    DropCharAbsent(NumViews(text), ',');
  }

  /** Every character other than a comma survives, as often as it occurred. */
  lemma NumViewsKeepsOtherCharacters(text: string)
    ensures multiset(NumViews(text)) == multiset(text)[',' := 0]
  {
    DropCharMultiset(text, ',');
  }

  lemma NumViewsExample(text: string)
    requires text == "1,234,567"
    ensures NumViews(text) == "1234567"
  {
    var a, b, c := "1", "234", "567";
    var tail := b + ([','] + c);
    assert text == a + ([','] + tail);
    RemoveKeepsPrefix(a, [','] + tail, ",");
    RemoveLeading(",", tail);
    RemoveKeepsPrefix(b, [','] + c, ",");
    RemoveLeading(",", c);
    RemoveKeepsPrefix(c, [], ",");
    assert c + [] == c;
  }

  // ---------------------------------------------------------------------
  // date: `text.replace('| ', '')`, then `strptime(text, '%B %Y').date()`

  /** A calendar date, as `datetime.date`; `%B %Y` leaves the day at 1. */
  datatype Date = Date(year: int, month: int, day: int)

  /** The full English month names matched by `%B`. */
  const MonthNames: seq<string> :=
    ["January", "February", "March", "April", "May", "June", "July",
     "August", "September", "October", "November", "December"]

  /** The month whose full name equals `name` up to case, searching from
      month `j + 1`; 0 when there is none. */
  function MonthFrom(name: string, j: nat): (m: nat)
    requires j <= 12
    ensures m == 0 || j < m <= 12
    ensures m != 0 ==> SameIgnoringCase(name, MonthNames[m - 1])
    ensures m == 0 ==> forall k :: j <= k < 12 ==> !SameIgnoringCase(name, MonthNames[k])
    decreases 12 - j
  {
    if j == 12 then 0
    else if SameIgnoringCase(name, MonthNames[j]) then j + 1
    else MonthFrom(name, j + 1)
  }

  /** `%B`: the number (1-12) of the month named, case-insensitively, or 0. */
  function MonthNumber(name: string): (m: nat)
    ensures m <= 12
    ensures m != 0 ==> SameIgnoringCase(name, MonthNames[m - 1])
    ensures m == 0 ==> forall k :: 0 <= k < 12 ==> !SameIgnoringCase(name, MonthNames[k])
  {
    MonthFrom(name, 0)
  }

  /** No two month names coincide up to case. */
  lemma MonthNamesDistinct(j: nat, k: nat)
    requires j < 12 && k < 12 && j != k
    ensures LowerStr(MonthNames[j]) != LowerStr(MonthNames[k])
  {
    var a, b := LowerStr(MonthNames[j]), LowerStr(MonthNames[k]);
    if |a| == |b| {
      if a[0] == b[0] {
        if a[1] == b[1] {
          assert a[2] != b[2];
        }
      }
    }
  }

  /** Every month name is made of letters, so it never ends in whitespace. */
  lemma MonthNameLetters(m: nat, i: nat)
    requires m < 12 && i < |MonthNames[m]|
    ensures 'a' <= Lower(MonthNames[m][i]) <= 'z'
  {
  }

  function Pow10(n: nat): (p: nat)
  {
    if n == 0 then 1 else 10 * Pow10(n - 1)
  }

  /** The value of a string of decimal digits; below 10 to the power of
      its length. */
  function DigitsValue(s: string): (v: nat)
    requires AllDigits(s)
    ensures v < Pow10(|s|)
  {
    if s == [] then 0
    else DigitsValue(s[..|s| - 1]) * 10 + (s[|s| - 1] as int - '0' as int)
  }

  /** Four digits spell a number below 10000. */
  lemma FourDigitsBound(s: string)
    requires |s| == 4 && AllDigits(s)
    ensures DigitsValue(s) <= 9999
  {
    assert Pow10(4) == 10000;
  }

  /** The number of whitespace characters at the end of `s`. */
  function TrailingSpaces(s: string): (n: nat)
    ensures n <= |s|
    ensures AllSpace(s[|s| - n..])
    ensures n < |s| ==> !IsSpace(s[|s| - n - 1])
  {
    if s == [] || !IsSpace(s[|s| - 1]) then 0
    else
      var r := s[..|s| - 1];
      var n := TrailingSpaces(r);
      assert AllSpace(s[|s| - (n + 1)..]) by {
        forall i | |s| - (n + 1) <= i < |s|
          ensures IsSpace(s[i])
        {
          if i < |s| - 1 {
            assert s[i] == r[|r| - n..][i - (|r| - n)];
          }
        }
      }
      n + 1
  }

  /** `s` has the shape `%B %Y` accepts for `d`: the month's full name up
      to case, one or more whitespace characters (a format space matches
      `\s+`), and exactly four digits spelling the year, filling the whole
      text. */
  predicate MonthYearText(s: string, d: Date)
    requires 1 <= d.month <= 12
  {
    var name := MonthNames[d.month - 1];
    && |name| < |s| - 4
    && SameIgnoringCase(s[..|name|], name)
    && AllSpace(s[|name|..|s| - 4])
    && AllDigits(s[|s| - 4..])
    && DigitsValue(s[|s| - 4..]) == d.year
  }

  /** `datetime.strptime(s, '%B %Y').date()`, or `None` where it raises.
      Text not of the shape `MonthYearText` raises `ValueError`, and so
      does year 0000, which `datetime` refuses. */
  function ParseMonthYear(s: string): (r: Option<Date>)
    ensures r.Some? ==> 1 <= r.value.month <= 12 && r.value.day == 1 && 1 <= r.value.year <= 9999
    ensures r.Some? ==> MonthYearText(s, r.value)
  {
    if |s| < 4 || !AllDigits(s[|s| - 4..]) then None
    else
      var head := s[..|s| - 4];
      var n := TrailingSpaces(head);
      var m := MonthNumber(head[..|head| - n]);
      var y := DigitsValue(s[|s| - 4..]);
      if n == 0 || m == 0 || y == 0 then None
      else
        ParsedShape(s, head, n, m);
        Some(Date(y, m, 1))
  }

  /** What `ParseMonthYear` found is the `%B %Y` shape of that month and
      year, and the year fits in four digits. */
  lemma ParsedShape(s: string, head: string, n: nat, m: nat)
    requires 4 <= |s| && AllDigits(s[|s| - 4..]) && head == s[..|s| - 4]
    requires n == TrailingSpaces(head) && n > 0
    requires 1 <= m <= 12 && m == MonthNumber(head[..|head| - n])
    ensures DigitsValue(s[|s| - 4..]) <= 9999
    ensures MonthYearText(s, Date(DigitsValue(s[|s| - 4..]), m, 1))
  {
    var k := |head| - n;
    assert SameIgnoringCase(head[..k], MonthNames[m - 1]);
    assert AllSpace(head[k..]);
    assert s[..k] == head[..k];
    assert s[k..|s| - 4] == head[k..];
    FourDigitsBound(s[|s| - 4..]);
    MonthYearTextOf(s, k, m);
  }

  /** A month name up to case, then whitespace, then four digits, is the
      `%B %Y` shape of that month and year. */
  lemma MonthYearTextOf(s: string, k: nat, m: nat)
    requires k < |s| - 4
    requires 1 <= m <= 12 && SameIgnoringCase(s[..k], MonthNames[m - 1])
    requires AllSpace(s[k..|s| - 4]) && AllDigits(s[|s| - 4..])
    ensures MonthYearText(s, Date(DigitsValue(s[|s| - 4..]), m, 1))
  {
    assert |LowerStr(s[..k])| == k;
  }

  /** Whitespace appended to a word is exactly what `TrailingSpaces` counts. */
  lemma {:induction false} TrailingSpacesAfterWord(word: string, gap: string)
    requires word != [] && !IsSpace(word[|word| - 1])
    requires AllSpace(gap)
    ensures TrailingSpaces(word + gap) == |gap|
    decreases |gap|
  {
    var s := word + gap;
    if gap == [] {
      assert s == word;
    } else {
      assert s[..|s| - 1] == word + gap[..|gap| - 1];
      TrailingSpacesAfterWord(word, gap[..|gap| - 1]);
    }
  }

  /** A name equal to a month's name up to case selects that month. */
  lemma MonthNumberOf(name: string, m: nat)
    requires 1 <= m <= 12 && SameIgnoringCase(name, MonthNames[m - 1])
    ensures MonthNumber(name) == m
  {
    var found := MonthNumber(name);
    if found != m && found != 0 {
      MonthNamesDistinct(found - 1, m - 1);
    }
  }

  /** A name equal to a month's name up to case ends in a letter. */
  lemma MonthNameEndsInLetter(name: string, m: nat)
    requires 1 <= m <= 12 && SameIgnoringCase(name, MonthNames[m - 1])
    ensures name != [] && !IsSpace(name[|name| - 1])
  {
    var last := |name| - 1;
    assert |name| == |MonthNames[m - 1]|;
    MonthNameLetters(m - 1, last);
    assert Lower(name[last]) == LowerStr(name)[last] == LowerStr(MonthNames[m - 1])[last];
  }

  /** Every text of the shape `%B %Y` parses: to day 1 of the named month
      and the spelled year, except year 0000, which is refused. */
  lemma ParseMonthYearComplete(name: string, gap: string, digits: string, m: nat)
    requires 1 <= m <= 12 && SameIgnoringCase(name, MonthNames[m - 1])
    requires |gap| > 0 && AllSpace(gap)
    requires |digits| == 4 && AllDigits(digits)
    ensures ParseMonthYear(name + gap + digits)
            == if DigitsValue(digits) == 0 then None else Some(Date(DigitsValue(digits), m, 1))
  {
    var s := name + gap + digits;
    var head := s[..|s| - 4];
    assert s[|s| - 4..] == digits;
    assert head == name + gap;
    MonthNameEndsInLetter(name, m);
    TrailingSpacesAfterWord(name, gap);
    assert head[..|head| - |gap|] == name;
    MonthNumberOf(name, m);
  }

  /** `date` as the source computes it: every `"| "` removed first. */
  function ParseDate(text: string): (r: Option<Date>)
    ensures r.Some? ==> r.value.day == 1 && 1 <= r.value.month <= 12
    ensures r.Some? ==> MonthYearText(Remove(text, "| "), r.value)
  {
    ParseMonthYear(Remove(text, "| "))
  }

  lemma ParseDateExample(text: string)
    requires text == "| March 2015"
    ensures ParseDate(text) == Some(Date(2015, 3, 1))
  {
    var name, gap, digits := "March", " ", "2015";
    BarsRemovedExample(text, name + gap + digits);
    YearDigitsExample(digits);
    MarchExample(name);
    ParseMonthYearComplete(name, gap, digits, 3);
  }

  lemma BarsRemovedExample(text: string, rest: string)
    requires text == "| March 2015" && rest == "March 2015"
    ensures Remove(text, "| ") == rest
  {
    assert text == "| " + rest;
    RemoveLeading("| ", rest);
    assert forall i :: 0 <= i < |rest| ==> rest[i] != '|';
    RemoveKeepsPrefix(rest, "", "| ");
    assert rest + "" == rest;
  }

  lemma MarchExample(name: string)
    requires name == "March"
    ensures SameIgnoringCase(name, MonthNames[2])
  {
  }

  lemma YearDigitsExample(digits: string)
    requires digits == "2015"
    ensures AllDigits(digits) && DigitsValue(digits) == 2015
  {
    assert digits[..3] == "201" && "201"[..2] == "20" && "20"[..1] == "2" && "2"[..0] == "";
  }

  // ---------------------------------------------------------------------
  // tags: `blocks[0].split('\n')[1:]`, then `pop()`

  /** The tag list from the texts of the matched tag panels: the first
      panel's lines without the first (a label) and the last (a closing
      control). `None` when no panel matched (`blocks[0]` raises) or the
      text is one line (`pop` on an empty list raises). */
  function Tags(blocks: seq<string>): (r: Option<seq<string>>)
    ensures r.Some? <==> |blocks| > 0 && '\n' in blocks[0]
    ensures r.Some? ==> forall k :: 0 <= k < |r.value| ==> '\n' !in r.value[k]
    ensures r.Some? ==> |r.value| == |Split(blocks[0], '\n')| - 2
  {
    if |blocks| == 0 then None
    else
      var lines := Split(blocks[0], '\n');
      SplitPieceCount(blocks[0], '\n');
      if |lines| < 2 then None
      else Some(lines[1..|lines| - 1])
  }

  /** A panel of a heading line, tag lines and a closing line yields exactly
      the tag lines, in order; the other panels are ignored. */
  lemma TagsOfPanel(heading: string, tags: seq<string>, close: string, others: seq<string>)
    requires '\n' !in heading && '\n' !in close
    requires forall k :: 0 <= k < |tags| ==> '\n' !in tags[k]
    ensures Tags([Join([heading] + tags + [close], '\n')] + others) == Some(tags)
  {
    var lines := [heading] + tags + [close];
    forall k | 0 <= k < |lines|
      ensures '\n' !in lines[k]
    {
      if 0 < k < |lines| - 1 {
        assert lines[k] == tags[k - 1];
      }
    }
    SplitJoin(lines, '\n');
    var blocks := [Join(lines, '\n')] + others;
    assert blocks[0] == Join(lines, '\n');
    assert lines[1..|lines| - 1] == tags;
  }

  lemma TagsExample(blocks: seq<string>)
    requires blocks == ["Tags\nAI\nPrivacy\nClose"]
    ensures Tags(blocks) == Some(["AI", "Privacy"])
  {
    var lines := ["Tags", "AI", "Privacy", "Close"];
    var joined := "Tags" + ("\n" + ("AI" + ("\n" + ("Privacy" + ("\n" + "Close")))));
    assert blocks[0] == joined;
    assert Join(lines, '\n') == joined by {
      assert lines[1..][1..][1..] == ["Close"];
    }
    TagsOfPanel("Tags", ["AI", "Privacy"], "Close", []);
    assert ["Tags"] + ["AI", "Privacy"] + ["Close"] == lines;
    assert [joined] + [] == blocks;
  }

  // ---------------------------------------------------------------------
  // num_translations: `text.replace(' languages', '')`

  const LanguagesSuffix: string := " languages"

  function NumTranslations(text: string): (r: string)
    ensures |r| <= |text|
  {
    Remove(text, LanguagesSuffix)
  }

  /** A count followed by the unit phrase yields the count. */
  lemma NumTranslationsOfCount(d: string)
    requires AllDigits(d)
    ensures NumTranslations(d + LanguagesSuffix) == d
  {
    RemoveKeepsPrefix(d, LanguagesSuffix, LanguagesSuffix);
    RemoveLeading(LanguagesSuffix, "");
    assert LanguagesSuffix + "" == LanguagesSuffix;
  }

  /** Text without the phrase comes back unchanged. */
  lemma NumTranslationsAbsent(text: string)
    requires forall i :: 0 <= i <= |text| - |LanguagesSuffix| ==> !OccursAt(text, LanguagesSuffix, i)
    ensures NumTranslations(text) == text
  {
    RemoveAbsent(text, LanguagesSuffix);
  }

  /** The leftmost occurrence of the phrase is deleted, the text before it
      is kept, and the removal goes on after it; with
      `NumTranslationsAbsent` this fixes the result for every text. */
  lemma NumTranslationsFirst(a: string, b: string)
    requires forall i :: 0 <= i < |a| ==> !OccursAt(a + LanguagesSuffix, LanguagesSuffix, i)
    ensures NumTranslations(a + LanguagesSuffix + b) == a + NumTranslations(b)
  {
    RemoveFirstOccurrence(a, LanguagesSuffix, b);
  }

  /** A phrase after other words is removed and the words are kept. */
  lemma NumTranslationsExample()
    ensures NumTranslations("Available in 33 languages") == "Available in 33"
  {
    var a := "Available in 33";
    var t := a + LanguagesSuffix;
    assert t == "Available in 33 languages";
    forall i | 0 <= i < |a|
      ensures !OccursAt(t, LanguagesSuffix, i)
    {
      // Only positions 9 and 12 hold a space, and neither is followed by 'l'.
      assert t[i] != ' ' || t[i + 1] != 'l';
      assert t[i..i + |LanguagesSuffix|][0] == t[i];
      assert t[i..i + |LanguagesSuffix|][1] == t[i + 1];
    }
    NumTranslationsFirst(a, "");
    assert a + LanguagesSuffix + "" == "Available in 33 languages";
    assert NumTranslations("") == "";
  }

  // ---------------------------------------------------------------------
  // transcript: `" ".join(fragments)`

  /** The transcript lines in document order, one space between each pair. */
  function Transcript(fragments: seq<string>): (r: string)
    ensures |fragments| == 0 ==> r == ""
    ensures |fragments| == 1 ==> r == fragments[0]
    ensures |fragments| >= 1 ==> |r| == SumLengths(fragments) + |fragments| - 1
  {
    if |fragments| >= 1 then JoinLength(fragments, ' '); Join(fragments, ' ')
    else Join(fragments, ' ')
  }

  /** The transcript of one more fragment is the transcript so far, a
      space, and the fragment; with `Transcript([f]) == f` this fixes the
      text of every transcript: the fragments in order, one space between
      each pair, whatever they contain. */
  lemma TranscriptAppend(fragments: seq<string>, f: string)
    requires |fragments| >= 1
    ensures Transcript(fragments + [f]) == Transcript(fragments) + " " + f
  {
    JoinAppend(fragments, f, ' ');
  }

  // ---------------------------------------------------------------------
  // num_comments: `re.search('\d+', text).group(0)`

  /** Index of the first digit of `s`, or `|s|` when there is none. */
  function FirstDigit(s: string): (i: nat)
    ensures i <= |s|
    ensures forall j :: 0 <= j < i ==> !IsDigit(s[j])
    ensures i < |s| ==> IsDigit(s[i])
  {
    if s == [] || IsDigit(s[0]) then 0 else 1 + FirstDigit(s[1..])
  }

  /** Length of the run of digits at the front of `s`. */
  function DigitRun(s: string): (n: nat)
    ensures n <= |s|
    ensures AllDigits(s[..n])
    ensures n < |s| ==> !IsDigit(s[n])
  {
    if s == [] || !IsDigit(s[0]) then 0
    else
      var n := DigitRun(s[1..]);
      assert s[..n + 1] == [s[0]] + s[1..][..n];
      n + 1
  }

  /** `run` is the leftmost maximal run of digits of `text`, starting at `i`. */
  predicate LeftmostDigitRun(text: string, run: string, i: int)
  {
    && 0 <= i && i + |run| <= |text|
    && text[i..i + |run|] == run
    && (forall j :: 0 <= j < i ==> !IsDigit(text[j]))
    && (i + |run| == |text| || !IsDigit(text[i + |run|]))
  }

  /** The first number in the comments label; `None` when it has no digit
      (`re.search` returns `None` and `.group` raises). */
  function NumComments(text: string): (r: Option<string>)
    ensures r.None? <==> forall j :: 0 <= j < |text| ==> !IsDigit(text[j])
    ensures r.Some? ==> |r.value| > 0 && AllDigits(r.value)
    ensures r.Some? ==> exists i :: LeftmostDigitRun(text, r.value, i)
  {
    var i := FirstDigit(text);
    if i == |text| then None
    else
      var n := DigitRun(text[i..]);
      assert text[i..][..n] == text[i..i + n];
      assert LeftmostDigitRun(text, text[i..i + n], i);
      Some(text[i..i + n])
  }

  /** The leftmost maximal digit run is what `NumComments` returns. */
  lemma NumCommentsFindsRun(text: string, run: string, i: int)
    requires |run| > 0 && AllDigits(run)
    requires LeftmostDigitRun(text, run, i)
    ensures NumComments(text) == Some(run)
  {
    assert text[i] == run[0];
    assert text[i..][..|run|] == run;
    FirstDigitAt(text, i);
    DigitRunExact(text[i..], |run|);
  }

  /** A digit with no digit before it is the first digit; this follows
      directly from the contract of `FirstDigit`. */
  lemma FirstDigitAt(s: string, i: nat)
    requires i < |s| && IsDigit(s[i])
    requires forall j :: 0 <= j < i ==> !IsDigit(s[j])
    ensures FirstDigit(s) == i
  {
  }

  /** A digit prefix followed by a non-digit or the end is the front run;
      this follows directly from the contract of `DigitRun`. */
  lemma DigitRunExact(s: string, n: nat)
    requires n <= |s| && AllDigits(s[..n])
    requires n == |s| || !IsDigit(s[n])
    ensures DigitRun(s) == n
  {
  }

  lemma NumCommentsExample()
    ensures NumComments("Comments (42)") == Some("42")
  {
    var t := "Comments (42)";
    assert t[10..12] == "42";
    NumCommentsFindsRun(t, "42", 10);
  }
}
