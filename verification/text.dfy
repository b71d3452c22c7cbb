/**
 * The string operations the application relies on, restricted to ASCII:
 * `toLowerCase`, `includes`, `trim`, case-insensitive regular-expression
 * search for a literal pattern, `path.extname`, and decimal rendering of a
 * number inside a template string.
 */
module Text {

  /** `toLowerCase` on one ASCII character. */
  function LowerChar(c: char): char
  {
    if 'A' <= c <= 'Z' then (c as int + 32) as char else c
  }

  /** `toLowerCase` on a string (ASCII only). */
  function Lower(s: string): (r: string)
    ensures |r| == |s|
  {
    seq(|s|, i requires 0 <= i < |s| => LowerChar(s[i]))
  }

  lemma LowerIdempotent(s: string)
    ensures Lower(Lower(s)) == Lower(s)
  {
  }

  lemma LowerAppend(a: string, b: string)
    ensures Lower(a + b) == Lower(a) + Lower(b)
  {
  }

  // ---------------------------------------------------------------------
  // Substring search

  /** `p` is a prefix of `s`. */
  predicate IsPrefix(p: string, s: string)
  {
    |p| <= |s| && s[..|p|] == p
  }

  /** `needle` occurs in `hay` starting at index `i`. */
  ghost predicate OccursAt(hay: string, needle: string, i: int)
  {
    0 <= i && i + |needle| <= |hay| && hay[i..i + |needle|] == needle
  }

  /** `String.prototype.includes`: try every start position in turn. */
  predicate Contains(hay: string, needle: string)
    decreases |hay|
  {
    IsPrefix(needle, hay) || (|hay| > 0 && Contains(hay[1..], needle))
  }

  lemma OccursAtStart(hay: string, needle: string)
    ensures OccursAt(hay, needle, 0) <==> IsPrefix(needle, hay)
  {
  }

  lemma OccursShift(hay: string, needle: string, i: int)
    requires |hay| > 0 && i >= 0
    ensures OccursAt(hay, needle, i + 1) <==> OccursAt(hay[1..], needle, i)
  {
    if 0 <= i && i + 1 + |needle| <= |hay| {
      assert hay[1..][i..i + |needle|] == hay[i + 1..i + 1 + |needle|];
    }
  }

  /** `includes` holds exactly when the needle occurs at some position. */
  lemma {:induction false} ContainsIff(hay: string, needle: string)
    ensures Contains(hay, needle) <==> exists i :: OccursAt(hay, needle, i)
    decreases |hay|
  {
    OccursAtStart(hay, needle);
    if |hay| == 0 {
      assert forall i :: OccursAt(hay, needle, i) ==> i == 0;
    } else {
      ContainsIff(hay[1..], needle);
      if i :| OccursAt(hay, needle, i) {
        if i > 0 {
          OccursShift(hay, needle, i - 1);
        }
      }
      if Contains(hay[1..], needle) {
        var i :| OccursAt(hay[1..], needle, i);
        OccursShift(hay, needle, i);
      }
    }
  }

  /** The empty string is contained in every string. */
  lemma ContainsEmpty(hay: string)
    ensures Contains(hay, "")
  {
    assert IsPrefix("", hay);
  }

  /** A regular expression made of a literal pattern with the `i` flag
      matches at position `i` when every pattern character equals the
      subject character there up to case. */
  predicate MatchesIgnoringCaseAt(hay: string, pattern: string, i: int)
  {
    && 0 <= i && i + |pattern| <= |hay|
    && forall j :: 0 <= j < |pattern| ==> LowerChar(hay[i + j]) == LowerChar(pattern[j])
  }

  /** Mongo's `{ $regex: pattern, $options: 'i' }` for a pattern without
      metacharacters: an unanchored case-insensitive match anywhere. */
  predicate SearchIgnoringCase(hay: string, pattern: string)
  {
    exists i :: 0 <= i <= |hay| && MatchesIgnoringCaseAt(hay, pattern, i)
  }

  /** Matching up to case at a position is an exact occurrence of the
      lower-cased pattern in the lower-cased subject. */
  lemma MatchAtIsLoweredOccurrence(hay: string, pattern: string, i: int)
    ensures MatchesIgnoringCaseAt(hay, pattern, i) <==> OccursAt(Lower(hay), Lower(pattern), i)
  {
    if 0 <= i && i + |pattern| <= |hay| {
      var window := Lower(hay)[i..i + |pattern|];
      assert forall j :: 0 <= j < |pattern| ==> window[j] == LowerChar(hay[i + j]);
      if MatchesIgnoringCaseAt(hay, pattern, i) {
        assert window == Lower(pattern);
      }
      if OccursAt(Lower(hay), Lower(pattern), i) {
        forall j | 0 <= j < |pattern|
          ensures LowerChar(hay[i + j]) == LowerChar(pattern[j])
        {
          assert window[j] == Lower(pattern)[j];
        }
      }
    }
  }

  /** The server's case-insensitive search and the client's
      lower-case-then-`includes` test agree on every pair of strings. */
  lemma SearchIgnoringCaseIsLoweredContains(hay: string, pattern: string)
    ensures SearchIgnoringCase(hay, pattern) <==> Contains(Lower(hay), Lower(pattern))
  {
    ContainsIff(Lower(hay), Lower(pattern));
    if SearchIgnoringCase(hay, pattern) {
      var i :| 0 <= i <= |hay| && MatchesIgnoringCaseAt(hay, pattern, i);
      MatchAtIsLoweredOccurrence(hay, pattern, i);
    }
    if Contains(Lower(hay), Lower(pattern)) {
      var i :| OccursAt(Lower(hay), Lower(pattern), i);
      MatchAtIsLoweredOccurrence(hay, pattern, i);
      assert 0 <= i <= |hay| && MatchesIgnoringCaseAt(hay, pattern, i);
    }
  }

  // ---------------------------------------------------------------------
  // Trimming

  /** The white-space characters `String.prototype.trim` removes, ASCII part. */
  predicate IsSpace(c: char)
  {
    c == ' ' || c == '\t' || c == '\n' || c == '\r' || c as int == 11 || c as int == 12
  }

  ghost predicate AllSpace(s: string)
  {
    forall i :: 0 <= i < |s| ==> IsSpace(s[i])
  }

  /** Neither end of `s` is white space. */
  predicate IsTrimmed(s: string)
  {
    |s| == 0 || (!IsSpace(s[0]) && !IsSpace(s[|s| - 1]))
  }

  /** The length of the run of white space at the start of `s`. */
  function LeadingSpace(s: string): (n: nat)
    ensures n <= |s| && AllSpace(s[..n])
    ensures n == |s| || !IsSpace(s[n])
    decreases |s|
  {
    if |s| > 0 && IsSpace(s[0]) then 1 + LeadingSpace(s[1..]) else 0
  }

  /** The length of the run of white space at the end of `s`. */
  function TrailingSpace(s: string): (n: nat)
    ensures n <= |s| && AllSpace(s[|s| - n..])
    ensures n == |s| || !IsSpace(s[|s| - n - 1])
    decreases |s|
  {
    if |s| > 0 && IsSpace(s[|s| - 1]) then 1 + TrailingSpace(s[..|s| - 1]) else 0
  }

  /** `String.prototype.trim`: the result is the slice of `s` that starts
      after its leading white space and is followed only by white space. */
  function Trim(s: string): (r: string)
    ensures IsTrimmed(r)
    ensures LeadingSpace(s) + |r| <= |s|
    ensures r == s[LeadingSpace(s)..LeadingSpace(s) + |r|]
    ensures AllSpace(s[LeadingSpace(s) + |r|..])
  {
    var i := LeadingSpace(s);
    var rest := s[i..];
    var k := |rest| - TrailingSpace(rest);
    assert s[i + k..] == rest[k..];
    assert k > 0 ==> s[i + k - 1] == rest[k - 1];
    s[i..i + k]
  }

  /** Trimming a trimmed string changes nothing. */
  lemma TrimOfTrimmed(s: string)
    requires IsTrimmed(s)
    ensures Trim(s) == s
  {
  }

  // ---------------------------------------------------------------------
  // File-name extensions

  /** `path.extname` on a bare file name: the suffix that starts at the last
      `.`, or the empty string when there is no `.`. */
  function Ext(name: string): (r: string)
    ensures |r| <= |name| && r == name[|name| - |r|..]
    ensures r == "" <==> '.' !in name
    ensures r != "" ==> r[0] == '.' && '.' !in r[1..]
    decreases |name|
  {
    if |name| == 0 then ""
    else if name[|name| - 1] == '.' then "."
    else
      var e := Ext(name[..|name| - 1]);
      if e == "" then "" else e + [name[|name| - 1]]
  }

  /** Lower-casing never creates or removes a `.`, so it commutes with
      taking the extension. */
  lemma LowerCharKeepsDot(c: char)
    ensures LowerChar(c) == '.' <==> c == '.'
  {
  }

  lemma LowerInit(s: string)
    requires |s| > 0
    ensures Lower(s)[..|s| - 1] == Lower(s[..|s| - 1])
    ensures Lower(s)[|s| - 1] == LowerChar(s[|s| - 1])
  {
  }

  lemma ExtStep(name: string)
    requires |name| > 0 && name[|name| - 1] != '.'
    ensures Ext(name) == (if Ext(name[..|name| - 1]) == "" then "" else Ext(name[..|name| - 1]) + [name[|name| - 1]])
  {
  }

  /** One step of the induction below: a last character that is not a
      dot extends both extensions alike. */
  lemma ExtOfLowerStep(name: string)
    requires |name| > 0 && name[|name| - 1] != '.'
    requires Ext(Lower(name[..|name| - 1])) == Lower(Ext(name[..|name| - 1]))
    ensures Ext(Lower(name)) == Lower(Ext(name))
  {
    var n := |name|;
    var c := name[n - 1];
    var low := Lower(name);
    LowerInit(name);
    LowerCharKeepsDot(c);
    ExtStep(name);
    ExtStep(low);
    var e := Ext(name[..n - 1]);
    if e == "" {
      assert Ext(name) == "";
      assert Ext(low) == "";
    } else {
      assert Ext(name) == e + [c];
      assert Ext(low) == Lower(e) + [LowerChar(c)];
      LowerAppend(e, [c]);
      assert Lower([c]) == [LowerChar(c)];
    }
  }

  /** Lower-casing never creates or removes a `.`, so it commutes with
      taking the extension. */
  lemma {:induction false} ExtOfLower(name: string)
    ensures Ext(Lower(name)) == Lower(Ext(name))
    decreases |name|
  {
    if |name| > 0 {
      var n := |name|;
      LowerInit(name);
      LowerCharKeepsDot(name[n - 1]);
      if name[n - 1] != '.' {
        ExtOfLower(name[..n - 1]);
        ExtOfLowerStep(name);
      }
    }
  }

  // ---------------------------------------------------------------------
  // Decimal rendering

  function DigitChar(d: int): char
    requires 0 <= d < 10
  {
    "0123456789"[d]
  }

  predicate IsDigit(c: char)
  {
    '0' <= c <= '9'
  }

  /** The number a string of decimal digits denotes, most significant
      digit first. */
  function DecimalValue(s: string): int
    decreases |s|
  {
    if s == [] then 0 else 10 * DecimalValue(s[..|s| - 1]) + (s[|s| - 1] as int - '0' as int)
  }

  lemma DigitCharValue(d: int)
    requires 0 <= d < 10
    ensures IsDigit(DigitChar(d)) && DigitChar(d) as int - '0' as int == d
  {
  }

  /** A number interpolated into a template string: its decimal digits,
      most significant first, without leading zeros, denoting `n`. */
  function DecimalString(n: nat): (r: string)
    ensures |r| > 0
    ensures forall i :: 0 <= i < |r| ==> IsDigit(r[i])
    ensures |r| > 1 ==> r[0] != '0'
    ensures DecimalValue(r) == n
  {
    DigitCharValue(n % 10);
    if n < 10 then
      assert [DigitChar(n)][..0] == [];
      [DigitChar(n)]
    else
      var r := DecimalString(n / 10) + [DigitChar(n % 10)];
      assert r[..|r| - 1] == DecimalString(n / 10);
      r
  }

  /** Different numbers are rendered differently. */
  lemma DecimalStringInjective(m: nat, n: nat)
    ensures DecimalString(m) == DecimalString(n) <==> m == n
  {
  }
}
