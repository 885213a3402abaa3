/** The string operations the web routes rely on: Python's `str.strip()`, `str.startswith`,
    `str.split(sep)`, and decimal digits (how SQLite turns form text into integer ids). */
module Text {

  /** The characters Python's `str.isspace()` accepts, which `str.strip()` removes: space, tab to
      carriage return, the four information separators, NEL, no-break space, ogham space mark, the
      Unicode spaces U+2000 to U+200A, line and paragraph separators, narrow no-break space, medium
      mathematical space and ideographic space. */
  const SpaceChars: set<char> := {
    ' ', '\t', '\n', '\U{0B}', '\U{0C}', '\r',
    '\U{1C}', '\U{1D}', '\U{1E}', '\U{1F}',
    '\U{85}', '\U{A0}', '\U{1680}',
    '\U{2000}', '\U{2001}', '\U{2002}', '\U{2003}', '\U{2004}', '\U{2005}',
    '\U{2006}', '\U{2007}', '\U{2008}', '\U{2009}', '\U{200A}',
    '\U{2028}', '\U{2029}', '\U{202F}', '\U{205F}', '\U{3000}'
  }

  predicate IsSpace(c: char)
  {
    c in SpaceChars
  }

  predicate AllSpace(s: string)
  {
    forall i :: 0 <= i < |s| ==> IsSpace(s[i])
  }

  /** Drops leading whitespace: the result is the suffix of `s` after its leading run of spaces. */
  function TrimStart(s: string): (r: string)
    ensures |r| <= |s| && r == s[|s| - |r|..]
    ensures AllSpace(s[..|s| - |r|])
    ensures |r| > 0 ==> !IsSpace(r[0])
  {
    if |s| > 0 && IsSpace(s[0]) then
      var r := TrimStart(s[1..]);
      SpacePrefixCons(s, |s| - |r|);
      assert s[1..][|s| - 1 - |r|..] == s[|s| - |r|..];
      r
    else s
  }

  lemma SpacePrefixCons(s: string, n: nat)
    requires 0 < n <= |s| && IsSpace(s[0]) && AllSpace(s[1..][..n - 1])
    ensures AllSpace(s[..n])
  {
    forall i | 0 < i < n
      ensures IsSpace(s[i])
    {
      assert s[i] == s[1..][..n - 1][i - 1];
    }
  }

  /** Drops trailing whitespace: the result is the prefix of `s` before its trailing run of spaces. */
  function TrimEnd(s: string): (r: string)
    ensures |r| <= |s| && r == s[..|r|]
    ensures AllSpace(s[|r|..])
    ensures |r| > 0 ==> !IsSpace(r[|r| - 1])
  {
    if |s| > 0 && IsSpace(s[|s| - 1]) then
      var r := TrimEnd(s[..|s| - 1]);
      SpaceSuffixSnoc(s, |r|);
      assert s[..|s| - 1][..|r|] == s[..|r|];
      r
    else s
  }

  lemma SpaceSuffixSnoc(s: string, n: nat)
    requires n < |s| && IsSpace(s[|s| - 1]) && AllSpace(s[..|s| - 1][n..])
    ensures AllSpace(s[n..])
  {
    forall i | 0 <= i < |s| - n - 1
      ensures IsSpace(s[n..][i])
    {
      assert s[n..][i] == s[..|s| - 1][n..][i];
    }
  }

  /** Python's `s.strip()`. */
  function Strip(s: string): string
  {
    TrimEnd(TrimStart(s))
  }

  /** `r` is the piece of `s` starting at `i`, with only whitespace before and after it. */
  predicate StripsTo(s: string, r: string, i: int)
  {
    0 <= i <= |s| - |r| && r == s[i..i + |r|] && AllSpace(s[..i]) && AllSpace(s[i + |r|..])
  }

  /** `strip()` returns a contiguous piece of `s` that neither starts nor ends with whitespace,
      and everything it drops is whitespace. */
  lemma StripSpec(s: string)
    ensures exists i :: StripsTo(s, Strip(s), i)
    ensures var r := Strip(s); |r| > 0 ==> !IsSpace(r[0]) && !IsSpace(r[|r| - 1])
  {
    StripFound(s);
    StripEnds(s);
  }

  lemma StripFound(s: string)
    ensures StripsTo(s, Strip(s), |s| - |TrimStart(s)|)
  {
    var t := TrimStart(s);
    StripWitness(s, t, TrimEnd(t), |s| - |t|);
  }

  lemma StripEnds(s: string)
    ensures var r := Strip(s); |r| > 0 ==> !IsSpace(r[0]) && !IsSpace(r[|r| - 1])
  {
    var t := TrimStart(s);
    var r := TrimEnd(t);
    assert |r| > 0 ==> r[0] == t[0];
  }

  /** Trimming the front at `i` and then the back leaves a piece `StripsTo` describes. */
  lemma StripWitness(s: string, t: string, r: string, i: int)
    requires 0 <= i <= |s| && t == s[i..] && AllSpace(s[..i])
    requires |r| <= |t| && r == t[..|r|] && AllSpace(t[|r|..])
    ensures StripsTo(s, r, i)
  {
    SuffixSlices(s, i, |r|);
  }

  /** Slicing a suffix `s[i..]` again is slicing `s` further along. */
  lemma SuffixSlices<X>(s: seq<X>, i: nat, n: nat)
    requires i + n <= |s|
    ensures s[i..][..n] == s[i..i + n] && s[i..][n..] == s[i + n..]
  {
  }

  /** Any sequence is what comes before position `i`, the element there, and what follows. */
  lemma Around<X>(s: seq<X>, i: nat)
    requires i < |s|
    ensures s == s[..i] + [s[i]] + s[i + 1..]
  {
  }

  /** A remark is rejected exactly when it is empty or consists only of whitespace. */
  lemma StripEmptyIff(s: string)
    ensures Strip(s) == [] <==> AllSpace(s)
  {
    var t := TrimStart(s);
    var r := TrimEnd(t);
    if AllSpace(s) {
      SliceAllSpace(s, |s| - |t|, |s|);
    }
    if r == [] {
      assert t[|r|..] == t;
      AllSpaceJoin(s, |s| - |t|);
    }
  }

  lemma SliceAllSpace(s: string, i: int, j: int)
    requires AllSpace(s) && 0 <= i <= j <= |s|
    ensures AllSpace(s[i..j])
  {
    forall k | 0 <= k < j - i
      ensures IsSpace(s[i..j][k])
    {
      assert s[i..j][k] == s[i + k];
    }
  }

  lemma AllSpaceJoin(s: string, n: int)
    requires 0 <= n <= |s| && AllSpace(s[..n]) && AllSpace(s[n..])
    ensures AllSpace(s)
  {
    forall k | 0 <= k < |s|
      ensures IsSpace(s[k])
    {
      if k < n {
        assert s[k] == s[..n][k];
      } else {
        assert s[k] == s[n..][k - n];
      }
    }
  }

  /** Python's `s.startswith(prefix)`. */
  predicate StartsWith(s: string, prefix: string)
  {
    |prefix| <= |s| && s[..|prefix|] == prefix
  }

  /** Position of the first `c` in `s`, or `|s|` when there is none. */
  function IndexOf(s: string, c: char): (i: nat)
    ensures i <= |s|
  {
    if |s| == 0 || s[0] == c then 0 else 1 + IndexOf(s[1..], c)
  }

  lemma {:induction false} IndexOfSpec(s: string, c: char)
    ensures var i := IndexOf(s, c);
      && (forall k :: 0 <= k < i ==> s[k] != c)
      && (i < |s| ==> s[i] == c)
  {
    if |s| > 0 && s[0] != c {
      IndexOfSpec(s[1..], c);
      assert forall k :: 1 <= k < |s| ==> s[k] == s[1..][k - 1];
    }
  }

  /** Python's `s.split(sep)` for a one-character separator. */
  function Split(s: string, sep: char): (parts: seq<string>)
    ensures |parts| >= 1
    decreases |s|
  {
    var i := IndexOf(s, sep);
    if i == |s| then [s] else [s[..i]] + Split(s[i + 1..], sep)
  }

  /** No field of a split contains the separator. */
  lemma {:induction false} SplitFieldsFree(s: string, sep: char)
    ensures forall k :: 0 <= k < |Split(s, sep)| ==> sep !in Split(s, sep)[k]
    decreases |s|
  {
    var i := IndexOf(s, sep);
    IndexOfSpec(s, sep);
    if i < |s| {
      SplitFieldsFree(s[i + 1..], sep);
      SplitFirst(s, sep);
      assert sep !in s[..i];
    } else {
      assert sep !in s;
    }
  }

  /** Python's `sep.join(parts)`, the inverse of `Split`. */
  function Join(parts: seq<string>, sep: char): string
    requires |parts| >= 1
  {
    if |parts| == 1 then parts[0] else parts[0] + [sep] + Join(parts[1..], sep)
  }

  /** `IndexOf` is determined by its contract: the first position holding `c`, or the length. */
  lemma {:induction false} IndexOfIs(s: string, c: char, i: nat)
    requires i <= |s|
    requires forall k :: 0 <= k < i ==> s[k] != c
    requires i < |s| ==> s[i] == c
    ensures IndexOf(s, c) == i
  {
    if i > 0 {
      assert s[0] != c;
      IndexOfIs(s[1..], c, i - 1);
    }
  }

  /** Splitting at the first separator: the first field, then the split of what follows it. */
  lemma SplitFirst(s: string, sep: char)
    requires IndexOf(s, sep) < |s|
    ensures var i := IndexOf(s, sep);
      Split(s, sep) == [s[..i]] + Split(s[i + 1..], sep)
  {
  }

  lemma JoinCons(p: string, rest: seq<string>, sep: char)
    requires |rest| >= 1
    ensures Join([p] + rest, sep) == p + [sep] + Join(rest, sep)
  {
    assert ([p] + rest)[1..] == rest;
  }

  lemma {:induction false} JoinSplit(s: string, sep: char)
    ensures Join(Split(s, sep), sep) == s
    decreases |s|
  {
    var i := IndexOf(s, sep);
    if i < |s| {
      var tail := s[i + 1..];
      calc {
        Join(Split(s, sep), sep);
        { SplitFirst(s, sep); }
        Join([s[..i]] + Split(tail, sep), sep);
        { JoinCons(s[..i], Split(tail, sep), sep); }
        s[..i] + [sep] + Join(Split(tail, sep), sep);
        { JoinSplit(tail, sep); }
        s[..i] + [sep] + tail;
        { IndexOfSpec(s, sep); Around(s, i); }
        s;
      }
    } else {
      assert Split(s, sep) == [s];
    }
  }

  lemma {:induction false} SplitJoin(parts: seq<string>, sep: char)
    requires |parts| >= 1
    requires forall k :: 0 <= k < |parts| ==> sep !in parts[k]
    ensures Split(Join(parts, sep), sep) == parts
  {
    if |parts| == 1 {
      assert sep !in parts[0];
      IndexOfIs(parts[0], sep, |parts[0]|);
    } else {
      var p := parts[0];
      assert sep !in p;
      SplitJoin(parts[1..], sep);
      assert parts == [p] + parts[1..];
      JoinCons(p, parts[1..], sep);
      SplitAfter(p, Join(parts[1..], sep), sep);
    }
  }

  /** A separator-free piece followed by the separator splits off as the first field. */
  lemma SplitAfter(p: string, rest: string, sep: char)
    requires sep !in p
    ensures Split(p + [sep] + rest, sep) == [p] + Split(rest, sep)
  {
    var s := p + [sep] + rest;
    forall k | 0 <= k < |p|
      ensures s[k] != sep
    {
      assert s[k] == p[k];
    }
    IndexOfIs(s, sep, |p|);
    SplitFirst(s, sep);
    assert s[..|p|] == p;
    assert s[|p| + 1..] == rest;
  }

  /** The prefix of a `position_<id>` form key that `startswith` tests. */
  const PositionPrefix: string := "position_"

  /** No underscore before the last character of the prefix. */
  lemma PrefixUnderscore()
    ensures |PositionPrefix| == 9 && PositionPrefix[8] == '_'
    ensures forall k :: 0 <= k < 8 ==> PositionPrefix[k] != '_'
  {
  }

  /** For a key that starts with `position_`, `key.split("_")[1]` is the text after that
      prefix up to the next underscore. */
  lemma PositionKeyField(key: string)
    requires StartsWith(key, PositionPrefix)
    ensures |Split(key, '_')| >= 2
    ensures var rest := key[|PositionPrefix|..];
      Split(key, '_')[1] == rest[..IndexOf(rest, '_')]
  {
    PrefixUnderscore();
    forall k | 0 <= k < 9
      ensures key[k] == PositionPrefix[k]
    {
      assert key[k] == key[..9][k];
    }
    IndexOfIs(key, '_', 8);
    SplitFirst(key, '_');
    var rest := key[9..];
    var j := IndexOf(rest, '_');
    if j < |rest| {
      SplitFirst(rest, '_');
    }
  }

  predicate IsDigit(c: char)
  {
    '0' <= c <= '9'
  }

  /** A non-empty run of decimal digits: the text SQLite's integer affinity turns into an integer. */
  predicate IsDigits(s: string)
  {
    |s| > 0 && forall i :: 0 <= i < |s| ==> IsDigit(s[i])
  }

  function DigitsValue(s: string): nat
    requires forall i :: 0 <= i < |s| ==> IsDigit(s[i])
  {
    if |s| == 0 then 0 else 10 * DigitsValue(s[..|s| - 1]) + DigitOf(s[|s| - 1])
  }

  function DigitOf(c: char): (d: nat)
    requires IsDigit(c)
    ensures d < 10
  {
    (c as int - '0' as int) as nat
  }

  function DigitChar(d: nat): (c: char)
    requires d < 10
  {
    ['0', '1', '2', '3', '4', '5', '6', '7', '8', '9'][d]
  }

  lemma DigitCharOf(c: char)
    requires IsDigit(c)
    ensures DigitChar(DigitOf(c)) == c
  {
  }

  /** The decimal text of `n`, as Python's f-string `{n}` writes it. */
  function DecimalString(n: nat): (s: string)
    ensures IsDigits(s)
    ensures |s| > 1 ==> s[0] != '0'
  {
    if n < 10 then [DigitChar(n)] else DecimalString(n / 10) + [DigitChar(n % 10)]
  }

  /** A digit run followed by text that starts with a non-digit splits only one way. */
  lemma DigitsThenOther(a: string, x: string, b: string, y: string)
    requires IsDigits(a) && IsDigits(b) && |x| > 0 && |y| > 0 && !IsDigit(x[0]) && !IsDigit(y[0])
    requires a + x == b + y
    ensures a == b && x == y
  {
    FirstNonDigit(a + x, a, x);
    FirstNonDigit(a + x, b, y);
    assert a == (a + x)[..|a|];
    assert b == (b + y)[..|b|];
    assert x == (a + x)[|a|..];
    assert y == (b + y)[|b|..];
  }

  lemma FirstNonDigit(s: string, a: string, x: string)
    requires s == a + x && IsDigits(a) && |x| > 0 && !IsDigit(x[0])
    ensures |a| < |s| && !IsDigit(s[|a|])
    ensures forall k :: 0 <= k < |a| ==> IsDigit(s[k])
  {
    assert s[|a|] == x[0];
  }

  lemma {:induction false} DecimalRoundTrip(n: nat)
    ensures DigitsValue(DecimalString(n)) == n
  {
    var s := DecimalString(n);
    if n >= 10 {
      DecimalRoundTrip(n / 10);
      assert s[..|s| - 1] == DecimalString(n / 10);
    }
  }

  lemma {:induction false} LeadingDigitPositive(s: string)
    requires IsDigits(s) && s[0] != '0'
    ensures DigitsValue(s) >= 1
  {
    if |s| > 1 {
      LeadingDigitPositive(s[..|s| - 1]);
    }
  }

  /** Digit text without a leading zero is exactly the decimal text of its value. */
  lemma {:induction false} CanonicalDigitsRoundTrip(s: string)
    requires IsDigits(s) && (|s| == 1 || s[0] != '0')
    ensures DecimalString(DigitsValue(s)) == s
  {
    var n := DigitsValue(s);
    var t := s[..|s| - 1];
    var d := DigitOf(s[|s| - 1]);
    DigitCharOf(s[|s| - 1]);
    if |s| == 1 {
      assert t == [];
      assert DigitsValue(t) == 0;
      assert n == 10 * DigitsValue(t) + d;
      assert n == d;
    } else {
      LeadingDigitPositive(t);
      CanonicalDigitsRoundTrip(t);
      assert n == 10 * DigitsValue(t) + d;
      assert n / 10 == DigitsValue(t) && n % 10 == d;
      assert DecimalString(n) == t + [DigitChar(d)];
      assert s == t + [s[|s| - 1]];
    }
  }
}
