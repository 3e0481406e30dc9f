/** Models of the .NET string primitives that the walker's helpers call:
    `Int32.ToString()` on non-negative values, `String.Replace`,
    `String.LastIndexOf(char)`, `Char.ToLower` (ASCII only), the regular
    expression class `\w` (ASCII only), and the comma-joined lists that a
    `StringBuilder` loop produces. */
module DotNetText {

  // ---------------------------------------------------------------------
  // Decimal digits and Int32.ToString()
  // ---------------------------------------------------------------------

  predicate IsDigit(c: char) {
    '0' <= c <= '9'
  }

  predicate AllDigits(s: string) {
    forall i :: 0 <= i < |s| ==> IsDigit(s[i])
  }

  function DigitChar(d: nat): (c: char)
    requires d < 10
    ensures IsDigit(c)
  {
    (('0' as int) + d) as char
  }

  /** The value of a decimal digit; a non-digit reads as 0 */
  function DigitValue(c: char): (d: nat)
    ensures d < 10
  {
    if IsDigit(c) then (c as int) - ('0' as int) else 0
  }

  /** `n.ToString()` for a non-negative `int`: decimal digits, no sign and no
      leading zero. */
  function NatToString(n: nat): (r: string)
    ensures |r| > 0 && AllDigits(r)
    ensures r[0] == '0' <==> n == 0
    decreases n
  {
    if n < 10 then [DigitChar(n)] else NatToString(n / 10) + [DigitChar(n % 10)]
  }

  /** Reads a string of decimal digits back as a number */
  function ParseDigits(s: string): nat
    decreases |s|
  {
    if |s| == 0 then 0 else ParseDigits(s[..|s| - 1]) * 10 + DigitValue(s[|s| - 1])
  }

  /** Reading the decimal rendering of `n` gives back `n` */
  lemma {:induction false} ParseNatToString(n: nat)
    ensures ParseDigits(NatToString(n)) == n
    decreases n
  {
    if n >= 10 {
      var s := NatToString(n);
      assert s[..|s| - 1] == NatToString(n / 10);
      ParseNatToString(n / 10);
    }
  }

  /** Different numbers have different decimal renderings */
  lemma NatToStringInjective(a: nat, b: nat)
    ensures NatToString(a) == NatToString(b) ==> a == b
  {
    ParseNatToString(a);
    ParseNatToString(b);
  }

  // ---------------------------------------------------------------------
  // Char.ToLower, restricted to ASCII
  // ---------------------------------------------------------------------

  predicate IsUpper(c: char) {
    'A' <= c <= 'Z'
  }

  /** `Char.ToLower` on the ASCII letters; every other character is kept */
  function ToLower(c: char): (r: char)
    ensures !IsUpper(r)
    ensures !IsUpper(c) ==> r == c
    ensures IsUpper(c) ==> r as int == c as int + 32
  {
    if IsUpper(c) then (c as int + 32) as char else c
  }

  // ---------------------------------------------------------------------
  // String.LastIndexOf(char)
  // ---------------------------------------------------------------------

  /** The index of the last occurrence of `c` in `s`, or -1 when there is none */
  function LastIndexOf(s: string, c: char): (r: int)
    ensures -1 <= r < |s|
    ensures r >= 0 ==> s[r] == c
    ensures forall j :: r < j < |s| ==> s[j] != c
    decreases |s|
  {
    if |s| == 0 then -1
    else if s[|s| - 1] == c then |s| - 1
    else LastIndexOf(s[..|s| - 1], c)
  }

  // ---------------------------------------------------------------------
  // String.Replace(string, string)
  // ---------------------------------------------------------------------

  /** `s.Replace(pat, rep)`: scans left to right, replaces every
      non-overlapping occurrence of `pat` and never rescans the inserted text.
      .NET rejects an empty `pat`. Replacing a pattern by itself changes
      nothing. */
  function Replace(s: string, pat: string, rep: string): (r: string)
    requires |pat| > 0
    ensures rep == pat ==> r == s
    decreases |s|
  {
    if |s| < |pat| then s
    else if s[..|pat|] == pat then
      assert s == s[..|pat|] + s[|pat|..];
      rep + Replace(s[|pat|..], pat, rep)
    else
      assert s == [s[0]] + s[1..];
      [s[0]] + Replace(s[1..], pat, rep)
  }

  /** An occurrence of the pattern at the start is replaced, and
      replacement resumes right after it */
  lemma ReplaceAtStart(pat: string, r: string, rep: string)
    requires |pat| > 0
    ensures Replace(pat + r, pat, rep) == rep + Replace(r, pat, rep)
  {
    var s := pat + r;
    assert s[..|pat|] == pat;
    assert s[|pat|..] == r;
  }

  /** Text that does not contain the first character of the pattern is
      copied unchanged, and replacement resumes right after it */
  lemma {:induction false} ReplaceSkips(t: string, r: string, pat: string, rep: string)
    requires |pat| > 0
    requires pat[0] !in t
    ensures Replace(t + r, pat, rep) == t + Replace(r, pat, rep)
    decreases |t|
  {
    if |t| > 0 {
      var s := t + r;
      if |s| < |pat| {
        assert |r| < |pat|;
      } else {
        assert s[..|pat|][0] == t[0];
        assert s[1..] == t[1..] + r;
        ReplaceSkips(t[1..], r, pat, rep);
        assert t == [t[0]] + t[1..];
      }
    } else {
      assert t + r == r;
    }
  }

  /** Text that does not contain the first character of the pattern is
      left unchanged */
  lemma ReplaceAbsent(s: string, pat: string, rep: string)
    requires |pat| > 0
    ensures pat[0] !in s ==> Replace(s, pat, rep) == s
  {
    if pat[0] !in s {
      ReplaceSkips(s, "", pat, rep);
      assert s + "" == s;
    }
  }

  /** Where `pat` does not start, the first character of `p` is copied */
  lemma ReplaceMismatchStep(p: string, r: string, pat: string, rep: string)
    requires |pat| > 0 && |p| > 0 && |p + r| >= |pat|
    requires (p + r)[..|pat|] != pat
    ensures Replace(p + r, pat, rep) == [p[0]] + Replace(p[1..] + r, pat, rep)
  {
    assert (p + r)[1..] == p[1..] + r;
  }

  /** A text `p` at which `pat` does not start, and whose later characters
      cannot start it either, is copied unchanged */
  lemma ReplaceSkipsMismatch(p: string, r: string, pat: string, rep: string)
    requires |pat| > 0 && |p| > 0
    requires pat[0] !in p[1..]
    requires |p + r| >= |pat| ==> (p + r)[..|pat|] != pat
    ensures Replace(p + r, pat, rep) == p + Replace(r, pat, rep)
  {
    if |p + r| >= |pat| {
      ReplaceMismatchStep(p, r, pat, rep);
      ReplaceSkips(p[1..], r, pat, rep);
      ConsAssoc(p, Replace(r, pat, rep));
    }
  }

  /** Splitting off the first character of `p` in `p + q` */
  lemma ConsAssoc(p: string, q: string)
    requires |p| > 0
    ensures [p[0]] + (p[1..] + q) == p + q
  {
    assert [p[0]] + p[1..] == p;
  }

  /** `pat` occurs in `s` starting at index `i` */
  predicate StartsAt(s: string, pat: string, i: nat) {
    i + |pat| <= |s| && s[i..i + |pat|] == pat
  }

  /** Text in which `pat` occurs nowhere is left unchanged */
  lemma {:induction false} ReplaceNoOccurrence(s: string, pat: string, rep: string)
    requires |pat| > 0
    requires forall i :: 0 <= i < |s| ==> !StartsAt(s, pat, i)
    ensures Replace(s, pat, rep) == s
    decreases |s|
  {
    if |s| >= |pat| {
      assert !StartsAt(s, pat, 0);
      var t := s[1..];
      forall i | 0 <= i < |t| ensures !StartsAt(t, pat, i) {
        assert !StartsAt(s, pat, i + 1);
        if i + |pat| <= |t| {
          assert t[i..i + |pat|] == s[i + 1..i + 1 + |pat|];
        }
      }
      ReplaceNoOccurrence(t, pat, rep);
      assert s == [s[0]] + t;
    }
  }

  /** The leftmost occurrence of `pat` is replaced, the text before it is
      copied, and replacement resumes right after it */
  lemma {:induction false} ReplaceLeftmost(a: string, pat: string, b: string, rep: string)
    requires |pat| > 0
    requires forall i :: 0 <= i < |a| ==> !StartsAt(a + pat + b, pat, i)
    ensures Replace(a + pat + b, pat, rep) == a + rep + Replace(b, pat, rep)
    decreases |a|
  {
    if |a| == 0 {
      assert a + pat + b == pat + b;
      ReplaceAtStart(pat, b, rep);
    } else {
      var s := a + pat + b;
      var t := a[1..];
      assert !StartsAt(s, pat, 0);
      assert s == a + (pat + b);
      ReplaceMismatchStep(a, pat + b, pat, rep);
      assert t + (pat + b) == t + pat + b;
      forall i | 0 <= i < |t| ensures !StartsAt(t + pat + b, pat, i) {
        assert (t + pat + b)[i..i + |pat|] == s[i + 1..i + 1 + |pat|];
        assert !StartsAt(s, pat, i + 1);
      }
      ReplaceLeftmost(t, pat, b, rep);
      ConsAssoc(a, rep + Replace(b, pat, rep));
    }
  }

  // ---------------------------------------------------------------------
  // The regular-expression class \w, restricted to ASCII
  // ---------------------------------------------------------------------

  predicate IsWordChar(c: char) {
    ('a' <= c <= 'z') || ('A' <= c <= 'Z') || IsDigit(c) || c == '_'
  }

  predicate AllWordChars(s: string) {
    forall i :: 0 <= i < |s| ==> IsWordChar(s[i])
  }

  /** The length of the longest prefix of `s` made of word characters, which
      is what a greedy `\w+` consumes */
  function WordPrefixLength(s: string): (n: nat)
    ensures n <= |s|
    ensures forall i :: 0 <= i < n ==> IsWordChar(s[i])
    ensures n < |s| ==> !IsWordChar(s[n])
    decreases |s|
  {
    if |s| > 0 && IsWordChar(s[0]) then 1 + WordPrefixLength(s[1..]) else 0
  }

  /** A run of word characters followed by a non-word character is exactly
      what `\w+` consumes */
  lemma WordPrefixOfRun(w: string, c: char, r: string)
    requires AllWordChars(w)
    requires !IsWordChar(c)
    ensures WordPrefixLength(w + [c] + r) == |w|
  {
    assert (w + [c] + r)[|w|] == c;
  }

  // ---------------------------------------------------------------------
  // Separator-joined lists
  // ---------------------------------------------------------------------

  /** The elements of `xs` separated by `sep`, with no separator at the end */
  function Join(xs: seq<string>, sep: char): string
    decreases |xs|
  {
    if |xs| == 0 then ""
    else if |xs| == 1 then xs[0]
    else Join(xs[..|xs| - 1], sep) + [sep] + xs[|xs| - 1]
  }

  /** The elements of `xs`, each followed by `sep` */
  function Terminated(xs: seq<string>, sep: char): string
    decreases |xs|
  {
    if |xs| == 0 then "" else Terminated(xs[..|xs| - 1], sep) + xs[|xs| - 1] + [sep]
  }

  /** Dropping the final separator of a non-empty terminated list gives the
      joined list */
  lemma {:induction false} TerminatedIsJoinPlusSeparator(xs: seq<string>, sep: char)
    requires |xs| > 0
    ensures Terminated(xs, sep) == Join(xs, sep) + [sep]
    decreases |xs|
  {
    if |xs| > 1 {
      TerminatedIsJoinPlusSeparator(xs[..|xs| - 1], sep);
    } else {
      assert xs[..0] == [];
    }
  }

  /** Cuts `s` at every `sep`; the result always has at least one piece */
  function Split(s: string, sep: char): (r: seq<string>)
    ensures |r| > 0
    decreases |s|
  {
    if |s| == 0 then [""]
    else if s[0] == sep then [""] + Split(s[1..], sep)
    else
      var rest := Split(s[1..], sep);
      [[s[0]] + rest[0]] + rest[1..]
  }

  lemma {:induction false} SplitWithoutSeparator(s: string, sep: char)
    requires sep !in s
    ensures Split(s, sep) == [s]
    decreases |s|
  {
    if |s| > 0 {
      SplitWithoutSeparator(s[1..], sep);
      assert s == [s[0]] + s[1..];
    }
  }

  /** Splitting at a separator splits the pieces on either side independently */
  lemma {:induction false} SplitAtSeparator(p: string, q: string, sep: char)
    ensures Split(p + [sep] + q, sep) == Split(p, sep) + Split(q, sep)
    decreases |p|
  {
    var s := p + [sep] + q;
    if |p| == 0 {
      assert s[1..] == q;
    } else {
      assert s[1..] == p[1..] + [sep] + q;
      SplitAtSeparator(p[1..], q, sep);
    }
  }

  /** Splitting a joined list gives the list back, provided no element
      contains the separator */
  lemma {:induction false} SplitJoin(xs: seq<string>, sep: char)
    requires |xs| > 0
    requires forall i :: 0 <= i < |xs| ==> sep !in xs[i]
    ensures Split(Join(xs, sep), sep) == xs
    decreases |xs|
  {
    if |xs| == 1 {
      SplitWithoutSeparator(xs[0], sep);
    } else {
      var init := xs[..|xs| - 1];
      SplitJoin(init, sep);
      SplitAtSeparator(Join(init, sep), xs[|xs| - 1], sep);
      SplitWithoutSeparator(xs[|xs| - 1], sep);
      assert xs == init + [xs[|xs| - 1]];
    }
  }
}
