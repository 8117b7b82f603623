/**
 * String operations with the meaning Python gives them on `str` values:
 * `in` on substrings, `lower()`, `strip()`, `split(sep)`, `replace(old, new)`,
 * `str(int)` and `f"{n:03d}"`. Strings are sequences of code points.
 */
module Text {

  // ---------------------------------------------------------------------------
  // Substrings
  // ---------------------------------------------------------------------------

  predicate StartsWith(s: string, p: string)
  {
    |p| <= |s| && s[..|p|] == p
  }

  /** Python's `p in s` for strings. */
  predicate Contains(s: string, p: string)
    decreases |s|
  {
    StartsWith(s, p) || (|s| > 0 && Contains(s[1..], p))
  }

  /** A string never holds a longer one. */
  lemma {:induction false} ShorterNotContained(s: string, p: string)
    requires |s| < |p|
    ensures !Contains(s, p)
    decreases |s|
  {
    if |s| > 0 {
      ShorterNotContained(s[1..], p);
    }
  }

  /** An occurrence of `p` at position `k` makes `p in s` true. */
  lemma {:induction false} ContainsAt(s: string, p: string, k: nat)
    requires k + |p| <= |s| && s[k..k + |p|] == p
    ensures Contains(s, p)
    decreases k
  {
    if k == 0 {
      assert s[..|p|] == p;
    } else {
      assert s[1..][k - 1..k - 1 + |p|] == s[k..k + |p|];
      ContainsAt(s[1..], p, k - 1);
    }
  }

  /** `p in a` implies `p in a + b`. */
  lemma {:induction false} ContainsPrefix(a: string, b: string, p: string)
    requires Contains(a, p)
    ensures Contains(a + b, p)
    decreases |a|
  {
    if StartsWith(a, p) {
      assert (a + b)[..|p|] == a[..|p|];
    } else {
      assert (a + b)[1..] == a[1..] + b;
      ContainsPrefix(a[1..], b, p);
    }
  }

  /** `p in b` implies `p in a + b`. */
  lemma {:induction false} ContainsSuffix(a: string, b: string, p: string)
    requires Contains(b, p)
    ensures Contains(a + b, p)
    decreases |a|
  {
    if |a| > 0 {
      assert (a + b)[1..] == a[1..] + b;
      ContainsSuffix(a[1..], b, p);
    } else {
      assert a + b == b;
    }
  }

  // ---------------------------------------------------------------------------
  // Case and white space
  // ---------------------------------------------------------------------------

  /**
   * Python's lower-casing of one code point, for the Basic Latin and
   * Latin-1 letters (A-Z and À-Þ except the multiplication sign).
   */
  function LowerChar(c: char): (r: char)
    ensures r == c || ('A' <= c <= 'Z' || ('\U{C0}' <= c <= '\U{DE}' && c != '\U{D7}'))
    ensures !('A' <= r <= 'Z')
  {
    if 'A' <= c <= 'Z' || ('\U{C0}' <= c <= '\U{DE}' && c != '\U{D7}') then
      (c as int + 32) as char
    else
      c
  }

  /** Python's `s.lower()`: lower-cases every code point and keeps the length. */
  function Lower(s: string): (r: string)
    ensures |r| == |s|
  {
    seq(|s|, i requires 0 <= i < |s| => LowerChar(s[i]))
  }

  lemma LowerConcat(a: string, b: string)
    ensures Lower(a + b) == Lower(a) + Lower(b)
  {
  }

  /** Lower-casing twice is lower-casing once. */
  lemma LowerIdempotent(s: string)
    ensures Lower(Lower(s)) == Lower(s)
  {
    forall i | 0 <= i < |s|
      ensures Lower(Lower(s))[i] == Lower(s)[i]
    {
      var c := s[i];
      assert LowerChar(LowerChar(c)) == LowerChar(c);
    }
  }

  /** Python's `str.isspace()` for one code point. */
  predicate IsSpace(c: char)
  {
    c == ' ' || ('\t' <= c <= '\r') || ('\U{1C}' <= c <= '\U{1F}')
    || c == '\U{85}' || c == '\U{A0}' || c == '\U{1680}'
    || ('\U{2000}' <= c <= '\U{200A}') || c == '\U{2028}' || c == '\U{2029}'
    || c == '\U{202F}' || c == '\U{205F}' || c == '\U{3000}'
  }

  function LStrip(s: string): (r: string)
    ensures |r| <= |s| && r == s[|s| - |r|..]
    ensures |r| == 0 || !IsSpace(r[0])
    ensures forall i :: 0 <= i < |s| - |r| ==> IsSpace(s[i])
  {
    if |s| > 0 && IsSpace(s[0]) then LStrip(s[1..]) else s
  }

  function RStrip(s: string): (r: string)
    ensures |r| <= |s| && r == s[..|r|]
    ensures |r| == 0 || !IsSpace(r[|r| - 1])
    ensures forall i :: |r| <= i < |s| ==> IsSpace(s[i])
  {
    if |s| > 0 && IsSpace(s[|s| - 1]) then RStrip(s[..|s| - 1]) else s
  }

  /**
   * Python's `s.strip()`: the result is the part of `s` between its
   * leading and its trailing white space.
   */
  function Strip(s: string): (r: string)
  {
    RStrip(LStrip(s))
  }

  predicate Trimmed(s: string)
  {
    |s| == 0 || (!IsSpace(s[0]) && !IsSpace(s[|s| - 1]))
  }

  /** `strip()` leaves no white space at either end, and a trimmed string is left alone. */
  lemma StripSpec(s: string)
    ensures Trimmed(Strip(s)) && |Strip(s)| <= |s|
    ensures Trimmed(s) ==> Strip(s) == s
  {
  }

  /** One space before a trimmed string is stripped away again. */
  lemma StripSpaceBefore(s: string)
    requires Trimmed(s)
    ensures Strip(" " + s) == s
  {
    assert (" " + s)[1..] == s;
  }

  // ---------------------------------------------------------------------------
  // Splitting and replacing
  // ---------------------------------------------------------------------------

  /** Python's `s.split(sep)` for a one-character separator. */
  function Split(s: string, sep: char): (r: seq<string>)
    ensures |r| >= 1
    ensures forall i :: 0 <= i < |r| ==> sep !in r[i]
    decreases |s|
  {
    if |s| == 0 then [""]
    else
      var rest := Split(s[1..], sep);
      if s[0] == sep then [""] + rest
      else [[s[0]] + rest[0]] + rest[1..]
  }

  /** Python's `sep.join(pieces)` for a one-character separator. */
  function Join(pieces: seq<string>, sep: char): string
  {
    if |pieces| == 0 then ""
    else if |pieces| == 1 then pieces[0]
    else pieces[0] + [sep] + Join(pieces[1..], sep)
  }

  /** Splitting loses nothing: joining the pieces with the separator gives `s` back. */
  lemma {:induction false} JoinSplit(s: string, sep: char)
    ensures Join(Split(s, sep), sep) == s
    decreases |s|
  {
    if |s| > 0 {
      var rest := Split(s[1..], sep);
      JoinSplit(s[1..], sep);
      if s[0] == sep {
        assert Split(s, sep) == [""] + rest;
        assert ([""] + rest)[1..] == rest;
      } else {
        var r := [[s[0]] + rest[0]] + rest[1..];
        if |rest| == 1 {
          assert Join(r, sep) == [s[0]] + rest[0];
        } else {
          assert r[1..] == rest[1..];
          assert Join(r, sep) == [s[0]] + rest[0] + [sep] + Join(rest[1..], sep);
        }
        assert s == [s[0]] + s[1..];
      }
    }
  }

  /** The separator occurs in `s` exactly when `split` cuts `s` into several pieces. */
  lemma {:induction false} SplitCount(s: string, sep: char)
    ensures sep in s <==> |Split(s, sep)| > 1
    decreases |s|
  {
    if |s| > 0 {
      SplitCount(s[1..], sep);
      assert s == [s[0]] + s[1..];
    }
  }

  /** The position of the first `c` in `s`, or `|s|` when there is none. */
  function IndexOf(s: string, c: char): (k: nat)
    ensures k <= |s| && c !in s[..k]
    ensures k < |s| ==> s[k] == c
  {
    if |s| == 0 then 0
    else if s[0] == c then 0
    else
      assert s[..1 + IndexOf(s[1..], c)] == [s[0]] + s[1..][..IndexOf(s[1..], c)];
      1 + IndexOf(s[1..], c)
  }

  /** In `a + [c] + x` with no `c` in `a`, the first `c` is the one right after `a`. */
  lemma {:induction false} IndexOfAfter(a: string, x: string, c: char)
    requires c !in a
    ensures IndexOf(a + [c] + x, c) == |a|
    decreases |a|
  {
    if |a| > 0 {
      assert (a + [c] + x)[1..] == a[1..] + [c] + x;
      IndexOfAfter(a[1..], x, c);
    }
  }

  /** Splitting `a + [sep] + b` gives the pieces of `a` followed by the pieces of `b`. */
  lemma {:induction false} SplitConcat(a: string, b: string, sep: char)
    ensures Split(a + [sep] + b, sep) == Split(a, sep) + Split(b, sep)
    decreases |a|
  {
    var s := a + [sep] + b;
    if |a| == 0 {
      assert s == [sep] + b && s[1..] == b;
    } else {
      assert s[0] == a[0] && s[1..] == a[1..] + [sep] + b;
      SplitConcat(a[1..], b, sep);
    }
  }

  /** A string without the separator is a single piece. */
  lemma SplitWhole(s: string, sep: char)
    requires sep !in s
    ensures Split(s, sep) == [s]
  {
    SplitCount(s, sep);
    JoinSplit(s, sep);
  }

  /** Python's `s.replace(pat, rep)`: leftmost, non-overlapping occurrences. */
  function Replace(s: string, pat: string, rep: string): string
    requires |pat| > 0
    decreases |s|
  {
    if |s| < |pat| then s
    else if s[..|pat|] == pat then rep + Replace(s[|pat|..], pat, rep)
    else [s[0]] + Replace(s[1..], pat, rep)
  }

  /** Number of occurrences of the character `c` in `s`. */
  function Occurrences(s: string, c: char): nat
  {
    if |s| == 0 then 0 else (if s[0] == c then 1 else 0) + Occurrences(s[1..], c)
  }

  /** A character occurs zero times exactly when it is absent. */
  lemma {:induction false} OccurrencesZero(s: string, c: char)
    ensures Occurrences(s, c) == 0 <==> c !in s
    decreases |s|
  {
    if |s| > 0 {
      OccurrencesZero(s[1..], c);
      assert s == [s[0]] + s[1..];
    }
  }

  lemma {:induction false} OccurrencesConcat(a: string, b: string, c: char)
    ensures Occurrences(a + b, c) == Occurrences(a, c) + Occurrences(b, c)
    decreases |a|
  {
    if |a| == 0 {
      assert a + b == b;
    } else {
      assert (a + b)[1..] == a[1..] + b;
      OccurrencesConcat(a[1..], b, c);
    }
  }

  /**
   * Replacing a one-character pattern: every other character is kept and
   * each occurrence of the pattern contributes the occurrences in `rep`.
   */
  lemma {:induction false} OccurrencesReplaceChar(s: string, p: char, rep: string, c: char)
    ensures Occurrences(Replace(s, [p], rep), c)
      == (if c == p then 0 else Occurrences(s, c)) + Occurrences(s, p) * Occurrences(rep, c)
    decreases |s|
  {
    if |s| >= 1 {
      var t := s[1..];
      var r := Replace(t, [p], rep);
      var k := Occurrences(rep, c);
      var n := Occurrences(t, p);
      OccurrencesReplaceChar(t, p, rep, c);
      assert Occurrences(s, p) == (if s[0] == p then 1 else 0) + n;
      if s[0] == p {
        assert Replace(s, [p], rep) == rep + r by {
          assert s[..1] == [p];
        }
        OccurrencesConcat(rep, r, c);
        MultiplySucc(n, k);
      } else {
        assert Replace(s, [p], rep) == [s[0]] + r by {
          assert s[..1] != [p];
        }
        OccurrencesConcat([s[0]], r, c);
      }
    }
  }

  lemma MultiplySucc(n: nat, k: nat)
    ensures (1 + n) * k == k + n * k
  {
  }

  /** Removing a pattern leaves the count of any character outside the pattern unchanged. */
  lemma {:induction false} OccurrencesRemove(s: string, pat: string, c: char)
    requires |pat| > 0 && c !in pat
    ensures Occurrences(Replace(s, pat, ""), c) == Occurrences(s, c)
    decreases |s|
  {
    if |s| >= |pat| {
      if s[..|pat|] == pat {
        OccurrencesRemove(s[|pat|..], pat, c);
        assert s == pat + s[|pat|..];
        OccurrencesConcat(pat, s[|pat|..], c);
        OccurrencesZero(pat, c);
        assert "" + Replace(s[|pat|..], pat, "") == Replace(s[|pat|..], pat, "");
      } else {
        OccurrencesRemove(s[1..], pat, c);
        OccurrencesConcat([s[0]], Replace(s[1..], pat, ""), c);
      }
    }
  }

  /** A pattern whose first character does not occur is never replaced. */
  lemma {:induction false} ReplaceAbsent(s: string, pat: string, rep: string)
    requires |pat| > 0 && pat[0] !in s
    ensures Replace(s, pat, rep) == s
    decreases |s|
  {
    if |s| >= |pat| {
      assert s[..|pat|][0] == s[0] != pat[0];
      ReplaceAbsent(s[1..], pat, rep);
      assert [s[0]] + s[1..] == s;
    }
  }

  /** Stripping removes only white space, so it keeps the count of any other character. */
  lemma StripOccurrences(s: string, c: char)
    requires !IsSpace(c)
    ensures Occurrences(Strip(s), c) == Occurrences(s, c)
  {
    LStripOccurrences(s, c);
    RStripOccurrences(LStrip(s), c);
  }

  /** Stripping keeps a string trimmed of white space and adds no character to it. */
  lemma StripWithout(s: string, c: char)
    requires c !in s && !IsSpace(c)
    ensures Trimmed(Strip(s)) && c !in Strip(s)
  {
    StripSpec(s);
    StripOccurrences(s, c);
    OccurrencesZero(s, c);
    OccurrencesZero(Strip(s), c);
  }

  lemma {:induction false} LStripOccurrences(s: string, c: char)
    requires !IsSpace(c)
    ensures Occurrences(LStrip(s), c) == Occurrences(s, c)
    decreases |s|
  {
    if |s| > 0 && IsSpace(s[0]) {
      LStripOccurrences(s[1..], c);
    }
  }

  lemma {:induction false} RStripOccurrences(s: string, c: char)
    requires !IsSpace(c)
    ensures Occurrences(RStrip(s), c) == Occurrences(s, c)
    decreases |s|
  {
    if |s| > 0 && IsSpace(s[|s| - 1]) {
      var init := s[..|s| - 1];
      RStripOccurrences(init, c);
      assert s == init + [s[|s| - 1]];
      OccurrencesConcat(init, [s[|s| - 1]], c);
    }
  }

  // ---------------------------------------------------------------------------
  // Decimal numerals
  // ---------------------------------------------------------------------------

  predicate IsDigit(c: char)
  {
    '0' <= c <= '9'
  }

  predicate AllDigits(s: string)
  {
    forall i :: 0 <= i < |s| ==> IsDigit(s[i])
  }

  function DigitChar(d: nat): char
    requires d < 10
  {
    ('0' as int + d) as char
  }

  /** Python's `int(s)` for a non-empty run of ASCII digits. */
  function ParseDigits(s: string): nat
    requires AllDigits(s)
  {
    if |s| == 0 then 0
    else ParseDigits(s[..|s| - 1]) * 10 + (s[|s| - 1] as int - '0' as int)
  }

  /** Python's `str(n)` for a natural number. */
  function NatToString(n: nat): (r: string)
    ensures |r| >= 1 && AllDigits(r)
    ensures n > 0 ==> r[0] != '0'
  {
    if n < 10 then [DigitChar(n)] else NatToString(n / 10) + [DigitChar(n % 10)]
  }

  /** Python's `str(i)` for an integer. */
  function IntToString(i: int): string
  {
    if i < 0 then "-" + NatToString(-i) else NatToString(i)
  }

  /** Reading back the decimal numeral of `n` gives `n`. */
  lemma {:induction false} ParseNatToString(n: nat)
    ensures ParseDigits(NatToString(n)) == n
  {
    if n >= 10 {
      var r := NatToString(n);
      assert r[..|r| - 1] == NatToString(n / 10);
      ParseNatToString(n / 10);
    }
  }

  /** Leading zeros do not change the value of a numeral. */
  lemma {:induction false} ParseLeadingZero(s: string)
    requires AllDigits(s)
    ensures AllDigits("0" + s) && ParseDigits("0" + s) == ParseDigits(s)
    decreases |s|
  {
    if |s| > 0 {
      var t := "0" + s;
      assert t[..|t| - 1] == "0" + s[..|s| - 1];
      ParseLeadingZero(s[..|s| - 1]);
    }
  }

  /** `c` repeated `n` times. */
  function Repeat(c: char, n: nat): (r: string)
    ensures |r| == n && forall i :: 0 <= i < n ==> r[i] == c
  {
    if n == 0 then "" else [c] + Repeat(c, n - 1)
  }

  /** Python's `f"{n:0{width}d}"` for a natural number. */
  function ZeroPad(n: nat, width: nat): (r: string)
    ensures AllDigits(r)
    ensures |r| == if |NatToString(n)| < width then width else |NatToString(n)|
  {
    var d := NatToString(n);
    if |d| < width then Repeat('0', width - |d|) + d else d
  }

  /** Any number of leading zeros leaves the value of a numeral unchanged. */
  lemma {:induction false} ParseZeros(k: nat, d: string)
    requires AllDigits(d)
    ensures AllDigits(Repeat('0', k) + d) && ParseDigits(Repeat('0', k) + d) == ParseDigits(d)
    decreases k
  {
    if k > 0 {
      ParseZeros(k - 1, d);
      var tail := Repeat('0', k - 1) + d;
      assert Repeat('0', k) == "0" + Repeat('0', k - 1);
      assert Repeat('0', k) + d == "0" + tail;
      ParseLeadingZero(tail);
    } else {
      assert Repeat('0', k) + d == d;
    }
  }

  /** Zero padding is reversible: the padded numeral still reads as `n`. */
  lemma ParseZeroPad(n: nat, width: nat)
    ensures ParseDigits(ZeroPad(n, width)) == n
  {
    var d := NatToString(n);
    ParseNatToString(n);
    if |d| < width {
      assert ZeroPad(n, width) == Repeat('0', width - |d|) + d;
      ParseZeros(width - |d|, d);
    } else {
      assert ZeroPad(n, width) == d;
    }
  }
}
