/** The string operations of Python that the scraper's normalisers use:
    `str.replace(pat, '')`, `str.split(sep)` with one separator character,
    `sep.join(parts)`, and the ASCII parts of the character classes `\d`,
    `\s` and case-insensitive matching. */
module Strings {

  /** ASCII decimal digit (the ASCII part of the regex class `\d`). */
  predicate IsDigit(c: char) { '0' <= c <= '9' }

  /** ASCII characters that Python's regex class `\s` and `str.isspace`
      accept: tab, line feed, vertical tab, form feed, carriage return,
      the four information separators 0x1C-0x1F, and space. */
  predicate IsSpace(c: char) {
    ('\t' <= c <= '\r') || ('\U{1C}' <= c <= '\U{1F}') || c == ' '
  }

  predicate AllDigits(s: string) { forall i :: 0 <= i < |s| ==> IsDigit(s[i]) }

  predicate AllSpace(s: string) { forall i :: 0 <= i < |s| ==> IsSpace(s[i]) }

  /** ASCII lower-casing of one character. */
  function Lower(c: char): (l: char)
    ensures 'A' <= c <= 'Z' ==> 'a' <= l <= 'z'
    ensures !('A' <= c <= 'Z') ==> l == c
  {
    if 'A' <= c <= 'Z' then (c as int + 32) as char else c
  }

  /** ASCII lower-casing of a string, character by character. */
  function LowerStr(s: string): (l: string)
    ensures |l| == |s|
    ensures forall i :: 0 <= i < |s| ==> l[i] == Lower(s[i])
  {
    seq(|s|, i requires 0 <= i < |s| => Lower(s[i]))
  }

  /** After folding no upper-case letter is left, and every other
      character stays where it was. */
  lemma LowerStrFolds(s: string)
    ensures forall i :: 0 <= i < |s| ==> !('A' <= LowerStr(s)[i] <= 'Z')
    ensures forall i :: 0 <= i < |s| && !('A' <= s[i] <= 'Z') ==> LowerStr(s)[i] == s[i]
  {
  }

  /** Folding case twice is folding it once. */
  lemma LowerStrIdempotent(s: string)
    ensures LowerStr(LowerStr(s)) == LowerStr(s)
  {
    var l := LowerStr(s);
    LowerStrFolds(s);
    LowerStrFolds(l);
  }

  /** Equality up to ASCII case, as a regex compiled with IGNORECASE
      compares literal letters. */
  predicate SameIgnoringCase(a: string, b: string) { LowerStr(a) == LowerStr(b) }

  // ---------------------------------------------------------------------
  // str.replace(pat, '')

  /** `pat` occurs in `s` starting at index `i`. */
  predicate OccursAt(s: string, pat: string, i: int) {
    0 <= i && i + |pat| <= |s| && s[i..i + |pat|] == pat
  }

  /** Python's `s.replace(pat, '')` for a non-empty `pat`: scan from the
      left, delete each occurrence found, resume after it (occurrences do
      not overlap). */
  function Remove(s: string, pat: string): (r: string)
    requires |pat| > 0
    ensures |r| <= |s|
    decreases |s|
  {
    if |s| < |pat| then s
    else if s[..|pat|] == pat then Remove(s[|pat|..], pat)
    else [s[0]] + Remove(s[1..], pat)
  }

  /** Reference definition: the characters of `s` other than `c`, in order. */
  function DropChar(s: string, c: char): (r: string)
    ensures c !in r
    ensures |r| <= |s|
  {
    if s == [] then [] else (if s[0] == c then [] else [s[0]]) + DropChar(s[1..], c)
  }

  /** Removing a one-character pattern is dropping that character. */
  lemma {:induction false} RemoveCharIsDropChar(s: string, c: char)
    ensures Remove(s, [c]) == DropChar(s, c)
  {
    if s != [] {
      RemoveCharIsDropChar(s[1..], c);
      assert s[..1] == [s[0]];
    }
  }

  /** Dropping `c` keeps every other character with its multiplicity. */
  lemma {:induction false} DropCharMultiset(s: string, c: char)
    ensures multiset(DropChar(s, c)) == multiset(s)[c := 0]
  {
    if s != [] {
      DropCharMultiset(s[1..], c);
      var head := if s[0] == c then [] else [s[0]];
      assert multiset(DropChar(s, c)) == multiset(head) + multiset(DropChar(s[1..], c));
      assert s == [s[0]] + s[1..];
      assert multiset(s) == multiset([s[0]]) + multiset(s[1..]);
    }
  }

  /** Text without `c` is left unchanged. */
  lemma {:induction false} DropCharAbsent(s: string, c: char)
    requires c !in s
    ensures DropChar(s, c) == s
  {
    if s != [] {
      assert s[0] != c;
      DropCharAbsent(s[1..], c);
    }
  }

  /** Text in which `pat` never occurs is returned unchanged. */
  lemma {:induction false} RemoveAbsent(s: string, pat: string)
    requires |pat| > 0
    requires forall i :: 0 <= i <= |s| - |pat| ==> !OccursAt(s, pat, i)
    ensures Remove(s, pat) == s
  {
    if |s| >= |pat| {
      assert !OccursAt(s, pat, 0);
      forall i | 0 <= i <= |s[1..]| - |pat|
        ensures !OccursAt(s[1..], pat, i)
      {
        assert !OccursAt(s, pat, i + 1);
        assert s[1..][i..i + |pat|] == s[i + 1..i + 1 + |pat|];
      }
      RemoveAbsent(s[1..], pat);
    }
  }

  /** A prefix none of whose characters can start `pat` passes through. */
  lemma {:induction false} RemoveKeepsPrefix(p: string, q: string, pat: string)
    requires |pat| > 0
    requires forall i :: 0 <= i < |p| ==> p[i] != pat[0]
    ensures Remove(p + q, pat) == p + Remove(q, pat)
  {
    var s := p + q;
    if p == [] {
      assert s == q;
    } else if |s| < |pat| {
      assert Remove(q, pat) == q;
    } else {
      assert s[..|pat|][0] == p[0];
      assert s[1..] == p[1..] + q;
      RemoveKeepsPrefix(p[1..], q, pat);
      assert p == [p[0]] + p[1..];
    }
  }

  /** An occurrence at the front is deleted. */
  lemma RemoveLeading(pat: string, q: string)
    requires |pat| > 0
    ensures Remove(pat + q, pat) == Remove(q, pat)
  {
    assert (pat + q)[..|pat|] == pat;
    assert (pat + q)[|pat|..] == q;
  }

  /** The first occurrence: text before the leftmost occurrence of `pat`
      passes through, that occurrence is deleted, and the scan goes on
      after it. With `RemoveAbsent` this fixes `Remove` on every input. */
  lemma {:induction false} RemoveFirstOccurrence(a: string, pat: string, b: string)
    requires |pat| > 0
    requires forall i :: 0 <= i < |a| ==> !OccursAt(a + pat, pat, i)
    ensures Remove(a + pat + b, pat) == a + Remove(b, pat)
    decreases |a|
  {
    var s := a + pat + b;
    if a == [] {
      assert s == pat + b;
      RemoveLeading(pat, b);
    } else {
      assert !OccursAt(a + pat, pat, 0);
      assert s[..|pat|] == (a + pat)[..|pat|];
      assert s[1..] == a[1..] + pat + b;
      forall i | 0 <= i < |a[1..]|
        ensures !OccursAt(a[1..] + pat, pat, i)
      {
        assert !OccursAt(a + pat, pat, i + 1);
        assert (a[1..] + pat)[i..i + |pat|] == (a + pat)[i + 1..i + 1 + |pat|];
      }
      RemoveFirstOccurrence(a[1..], pat, b);
      assert a == [a[0]] + a[1..];
    }
  }

  // ---------------------------------------------------------------------
  // sep.join(parts) and s.split(sep)

  /** Python's `sep.join(parts)` for a one-character separator: no parts
      give "", one part is returned as it is, and two or more parts always
      leave a separator in the result. */
  function Join(parts: seq<string>, sep: char): (r: string)
    ensures |parts| == 0 ==> r == ""
    ensures |parts| == 1 ==> r == parts[0]
    ensures |parts| >= 2 ==> sep in r
  {
    if |parts| == 0 then ""
    else if |parts| == 1 then parts[0]
    else
      var r := parts[0] + [sep] + Join(parts[1..], sep);
      assert r[|parts[0]|] == sep;
      r
  }

  /** Joining one more part appends a separator and that part. */
  lemma {:induction false} JoinAppend(parts: seq<string>, p: string, sep: char)
    requires |parts| >= 1
    ensures Join(parts + [p], sep) == Join(parts, sep) + [sep] + p
    decreases |parts|
  {
    var all := parts + [p];
    assert all[0] == parts[0];
    if |parts| == 1 {
      assert all[1..] == [p];
    } else {
      assert all[1..] == parts[1..] + [p];
      JoinAppend(parts[1..], p, sep);
      var a, b := parts[0] + [sep], Join(parts[1..], sep);
      AppendAssoc(a, b + [sep], p);
      AppendAssoc(a, b, [sep]);
    }
  }

  /** Regrouping a concatenation of three sequences. */
  lemma AppendAssoc<T>(a: seq<T>, b: seq<T>, c: seq<T>)
    ensures a + b + c == a + (b + c)
  {
  }

  /** Appending nothing leaves a sequence unchanged. */
  lemma AppendEmpty<T>(a: seq<T>)
    ensures a + [] == a
  {
  }

  /** Python's `s.split(sep)` with an explicit one-character separator:
      always at least one piece, empty pieces kept. */
  function Split(s: string, sep: char): (parts: seq<string>)
    ensures |parts| >= 1
    ensures forall k :: 0 <= k < |parts| ==> sep !in parts[k]
    ensures sep !in s ==> parts == [s]
    decreases |s|
  {
    if s == [] then [""]
    else
      var rest := Split(s[1..], sep);
      if s[0] == sep then [""] + rest
      else
        assert sep !in s ==> sep !in s[1..] && s == [s[0]] + s[1..];
        [[s[0]] + rest[0]] + rest[1..]
  }

  function SumLengths(parts: seq<string>): nat
  {
    if parts == [] then 0 else |parts[0]| + SumLengths(parts[1..])
  }

  /** Joining the pieces of a split restores the text. */
  lemma {:induction false} JoinSplit(s: string, sep: char)
    ensures Join(Split(s, sep), sep) == s
  {
    if s != [] {
      JoinSplit(s[1..], sep);
      var rest := Split(s[1..], sep);
      if s[0] == sep {
        assert Split(s, sep) == [""] + rest;
        assert ([""] + rest)[1..] == rest;
      } else {
        var parts := Split(s, sep);
        assert parts == [[s[0]] + rest[0]] + rest[1..];
        if |rest| == 1 {
          assert parts == [[s[0]] + rest[0]];
        } else {
          assert parts[1..] == rest[1..];
          assert Join(rest, sep) == rest[0] + [sep] + Join(rest[1..], sep);
        }
      }
    }
  }

  /** Splitting `a + [sep] + b` where `a` holds no separator. */
  lemma {:induction false} SplitAfterPiece(a: string, sep: char, b: string)
    requires sep !in a
    ensures Split(a + [sep] + b, sep) == [a] + Split(b, sep)
    decreases |a|
  {
    var s := a + [sep] + b;
    if a == [] {
      assert s[0] == sep && s[1..] == b;
    } else {
      assert s[0] == a[0] && s[1..] == a[1..] + [sep] + b;
      SplitAfterPiece(a[1..], sep, b);
      assert [a[0]] + a[1..] == a;
    }
  }

  /** Splitting a join of separator-free pieces gives the pieces back. */
  lemma {:induction false} SplitJoin(parts: seq<string>, sep: char)
    requires |parts| >= 1
    requires forall k :: 0 <= k < |parts| ==> sep !in parts[k]
    ensures Split(Join(parts, sep), sep) == parts
  {
    if |parts| > 1 {
      SplitJoin(parts[1..], sep);
      SplitAfterPiece(parts[0], sep, Join(parts[1..], sep));
    }
  }

  /** A split yields two or more pieces exactly when the separator occurs. */
  lemma {:induction false} SplitPieceCount(s: string, sep: char)
    ensures |Split(s, sep)| >= 2 <==> sep in s
    decreases |s|
  {
    if s != [] && s[0] != sep {
      SplitPieceCount(s[1..], sep);
      assert sep in s <==> sep in s[1..];
    }
  }

  /** The length of a join: the pieces plus one separator between each pair. */
  lemma {:induction false} JoinLength(parts: seq<string>, sep: char)
    requires |parts| >= 1
    ensures |Join(parts, sep)| == SumLengths(parts) + |parts| - 1
  {
    if |parts| > 1 {
      JoinLength(parts[1..], sep);
    }
  }
}
