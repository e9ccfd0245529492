/**
 The Python string primitives the scripts rely on: `str.isspace`, `str.strip()`,
 `str.split()`, `str.split(sep)`, `sep.join(parts)`, and decimal digits as read
 by the `^\d*$` check, by `int(...)` and written by `str(int)`.
 Only ASCII decimal digits are modelled.
 */
module PyText {
  import opened Wrappers

  // ---------------------------------------------------------------------------
  // Whitespace

  /** Python's `str.isspace()` for one character (the complete set of code points). */
  predicate IsSpace(c: char) {
    || c == ' '
    || ('\t' <= c <= '\r')
    || ('\U{1C}' <= c <= '\U{1F}')
    || c == '\U{85}'
    || c == '\U{A0}'
    || c == '\U{1680}'
    || ('\U{2000}' <= c <= '\U{200A}')
    || c == '\U{2028}'
    || c == '\U{2029}'
    || c == '\U{202F}'
    || c == '\U{205F}'
    || c == '\U{3000}'
  }

  predicate NoSpace(s: string) {
    forall i :: 0 <= i < |s| ==> !IsSpace(s[i])
  }

  /** The four information separators U+001C..U+001F: whitespace to `str.isspace`, but not to `int()`. */
  predicate IsSeparator(c: char) {
    '\U{1C}' <= c <= '\U{1F}'
  }

  /**
   Which characters a strip removes: `str.strip()` removes every `str.isspace` character,
   while `int()` skips only those it maps to a space, which leaves out the separators.
   */
  datatype Blanks = StrBlanks | IntBlanks

  predicate IsBlank(b: Blanks, c: char) {
    IsSpace(c) && (b.IntBlanks? ==> !IsSeparator(c))
  }

  predicate AllBlank(b: Blanks, s: string) {
    forall i :: 0 <= i < |s| ==> IsBlank(b, s[i])
  }

  /** Neither end of `s` is blank. */
  predicate TrimmedOf(b: Blanks, s: string) {
    |s| == 0 || (!IsBlank(b, s[0]) && !IsBlank(b, s[|s| - 1]))
  }

  predicate AllSpace(s: string) {
    AllBlank(StrBlanks, s)
  }

  /** Neither end of `s` is whitespace. */
  predicate Trimmed(s: string) {
    TrimmedOf(StrBlanks, s)
  }

  /** The number of blank characters `s` starts with. */
  function LeadingBlanks(b: Blanks, s: string): (k: nat)
    ensures k <= |s|
    ensures forall i :: 0 <= i < k ==> IsBlank(b, s[i])
    ensures k == |s| || !IsBlank(b, s[k])
  {
    if |s| == 0 || !IsBlank(b, s[0]) then 0 else 1 + LeadingBlanks(b, s[1..])
  }

  /** The number of blank characters `s` ends with. */
  function TrailingBlanks(b: Blanks, s: string): (k: nat)
    ensures k <= |s|
    ensures forall i :: |s| - k <= i < |s| ==> IsBlank(b, s[i])
    ensures k == |s| || !IsBlank(b, s[|s| - k - 1])
  {
    if |s| == 0 || !IsBlank(b, s[|s| - 1]) then 0 else 1 + TrailingBlanks(b, s[..|s| - 1])
  }

  /** The slice of `s` left once blanks are removed at both ends. */
  function StripOf(b: Blanks, s: string): (r: string)
    ensures TrimmedOf(b, r)
    ensures exists i :: 0 <= i <= |s| - |r| && r == s[i..i + |r|] && AllBlank(b, s[..i]) && AllBlank(b, s[i + |r|..])
  {
    var a := LeadingBlanks(b, s);
    var e := TrailingBlanks(b, s[a..]);
    StripEnds(b, s, a, e);
    StripTrimmedEnds(b, s, a, e);
    s[a..|s| - e]
  }

  /** What a strip skips at either end is blank. */
  lemma StripEnds(b: Blanks, s: string, a: nat, e: nat)
    requires a == LeadingBlanks(b, s) && e == TrailingBlanks(b, s[a..])
    ensures a <= |s| - e
    ensures AllBlank(b, s[..a]) && AllBlank(b, s[|s| - e..])
  {
    forall i | |s| - e <= i < |s| ensures IsBlank(b, s[i]) {
      assert s[i] == s[a..][i - a];
    }
    var tail := s[|s| - e..];
    forall i | 0 <= i < |tail| ensures IsBlank(b, tail[i]) {
      assert tail[i] == s[|s| - e + i];
    }
  }

  /** What a strip leaves has no blank at either end. */
  lemma StripTrimmedEnds(b: Blanks, s: string, a: nat, e: nat)
    requires a == LeadingBlanks(b, s) && e == TrailingBlanks(b, s[a..])
    ensures TrimmedOf(b, s[a..|s| - e])
  {
    var r := s[a..|s| - e];
    if |r| > 0 {
      assert r[0] == s[a];
      assert r[|r| - 1] == s[a..][|s[a..]| - e - 1];
    }
  }

  /** Python's `s.strip()`: the slice of `s` left once whitespace is removed at both ends. */
  function Strip(s: string): (r: string)
    ensures Trimmed(r)
    ensures exists i :: 0 <= i <= |s| - |r| && r == s[i..i + |r|] && AllSpace(s[..i]) && AllSpace(s[i + |r|..])
  {
    StripOf(StrBlanks, s)
  }

  /** The text `int()` reads: `s` without the whitespace it skips at both ends. */
  function IntStrip(s: string): (r: string)
    ensures TrimmedOf(IntBlanks, r)
  {
    StripOf(IntBlanks, s)
  }

  /** Stripping removes nothing from a string whose ends are not blank. */
  lemma StripOfTrimmed(b: Blanks, s: string)
    requires TrimmedOf(b, s)
    ensures StripOf(b, s) == s
  {
  }

  /** Blank padding before a text that starts with a non-blank is exactly what a strip skips. */
  lemma {:induction false} LeadingBlanksPadded(b: Blanks, p: string, x: string)
    requires AllBlank(b, p) && |x| > 0 && !IsBlank(b, x[0])
    ensures LeadingBlanks(b, p + x) == |p|
  {
    if p != [] {
      assert (p + x)[1..] == p[1..] + x;
      LeadingBlanksPadded(b, p[1..], x);
    }
  }

  /** Blank padding after a text that ends with a non-blank is exactly what a strip skips. */
  lemma {:induction false} TrailingBlanksPadded(b: Blanks, x: string, q: string)
    requires AllBlank(b, q) && |x| > 0 && !IsBlank(b, x[|x| - 1])
    ensures TrailingBlanks(b, x + q) == |q|
  {
    if q != [] {
      assert (x + q)[..|x + q| - 1] == x + q[..|q| - 1];
      TrailingBlanksPadded(b, x, q[..|q| - 1]);
    }
  }

  /** Stripping blank padding from both sides of a non-empty trimmed text gives that text. */
  lemma StripOfPadded(b: Blanks, p: string, t: string, q: string)
    requires AllBlank(b, p) && AllBlank(b, q) && TrimmedOf(b, t) && t != ""
    ensures StripOf(b, p + t + q) == t
  {
    var s := p + t + q;
    assert s == p + (t + q);
    LeadingBlanksPadded(b, p, t + q);
    assert s[|p|..] == t + q;
    TrailingBlanksPadded(b, t, q);
    assert s[|p|..|s| - |q|] == t;
  }

  /** Stripping removes nothing from a string whose ends are not whitespace. */
  lemma StripTrimmed(s: string)
    requires Trimmed(s)
    ensures Strip(s) == s
  {
    StripOfTrimmed(StrBlanks, s);
  }

  /** `strip()` is idempotent. */
  lemma StripIdempotent(s: string)
    ensures Strip(Strip(s)) == Strip(s)
  {
    StripTrimmed(Strip(s));
  }

  // ---------------------------------------------------------------------------
  // Joining and splitting

  /** Python's `sep.join(parts)`. */
  function Join(parts: seq<string>, sep: string): string
  {
    if |parts| == 0 then ""
    else if |parts| == 1 then parts[0]
    else parts[0] + sep + Join(parts[1..], sep)
  }

  /** Joining non-empty parts gives the empty string only when there are no parts. */
  lemma {:induction false} JoinEmptyIff(parts: seq<string>, sep: string)
    requires forall i :: 0 <= i < |parts| ==> parts[i] != ""
    ensures Join(parts, sep) == "" <==> parts == []
  {
    if |parts| >= 2 {
      assert |Join(parts, sep)| >= |parts[0]| > 0;
    }
  }

  /** Python's `s.split(sep)` for a one-character separator: always at least one piece, none containing `sep`. */
  function SplitOn(s: string, sep: char): (r: seq<string>)
    ensures |r| >= 1
    ensures forall i :: 0 <= i < |r| ==> sep !in r[i]
  {
    if |s| == 0 then [""]
    else
      var rest := SplitOn(s[1..], sep);
      if s[0] == sep then [""] + rest
      else [[s[0]] + rest[0]] + rest[1..]
  }

  /** Joining the pieces of `s.split(sep)` with `sep` gives back `s`. */
  lemma {:induction false} SplitOnThenJoin(s: string, sep: char)
    ensures Join(SplitOn(s, sep), [sep]) == s
  {
    if s != [] {
      var rest := SplitOn(s[1..], sep);
      SplitOnThenJoin(s[1..], sep);
      if s[0] == sep {
        assert SplitOn(s, sep) == [""] + rest;
        assert ([""] + rest)[1..] == rest;
      } else {
        var r := [[s[0]] + rest[0]] + rest[1..];
        assert SplitOn(s, sep) == r;
        if |rest| == 1 {
          assert Join(r, [sep]) == [s[0]] + rest[0];
        } else {
          assert r[1..] == rest[1..];
          assert Join(r, [sep]) == [s[0]] + rest[0] + [sep] + Join(rest[1..], [sep]);
          assert Join(rest, [sep]) == rest[0] + [sep] + Join(rest[1..], [sep]);
        }
      }
    }
  }

  /** A piece without the separator, followed by the separator, splits off as one piece. */
  lemma {:induction false} SplitOnPrefix(a: string, sep: char, b: string)
    requires sep !in a
    ensures SplitOn(a + [sep] + b, sep) == [a] + SplitOn(b, sep)
  {
    if a == [] {
      assert a + [sep] + b == [sep] + b;
      assert ([sep] + b)[1..] == b;
    } else {
      SplitOnPrefix(a[1..], sep, b);
      assert (a + [sep] + b)[1..] == a[1..] + [sep] + b;
      assert [a[0]] + a[1..] == a;
    }
  }

  /** A string without the separator is a single piece. */
  lemma {:induction false} SplitOnNoSep(a: string, sep: char)
    requires sep !in a
    ensures SplitOn(a, sep) == [a]
  {
    if a != [] {
      SplitOnNoSep(a[1..], sep);
      assert [a[0]] + a[1..] == a;
    }
  }

  /** Joining two non-empty lists of parts is joining each and putting the separator between. */
  lemma {:induction false} JoinAppend(p: seq<string>, q: seq<string>, sep: string)
    requires |p| >= 1 && |q| >= 1
    ensures Join(p + q, sep) == Join(p, sep) + sep + Join(q, sep)
  {
    assert (p + q)[0] == p[0];
    if |p| == 1 {
      assert (p + q)[1..] == q;
    } else {
      assert (p + q)[1..] == p[1..] + q;
      JoinAppend(p[1..], q, sep);
    }
  }

  /** Splitting two texts joined by the separator gives the pieces of the first, then those of the second. */
  lemma SplitOnConcat(a: string, sep: char, b: string)
    ensures SplitOn(a + [sep] + b, sep) == SplitOn(a, sep) + SplitOn(b, sep)
  {
    var pa, pb := SplitOn(a, sep), SplitOn(b, sep);
    SplitOnThenJoin(a, sep);
    SplitOnThenJoin(b, sep);
    JoinAppend(pa, pb, [sep]);
    forall i | 0 <= i < |pa + pb| ensures sep !in (pa + pb)[i] {
      if i < |pa| { assert (pa + pb)[i] == pa[i]; } else { assert (pa + pb)[i] == pb[i - |pa|]; }
    }
    JoinThenSplitOn(pa + pb, sep);
  }

  /** Splitting the `sep`-join of separator-free pieces gives back the pieces. */
  lemma {:induction false} JoinThenSplitOn(parts: seq<string>, sep: char)
    requires |parts| >= 1
    requires forall i :: 0 <= i < |parts| ==> sep !in parts[i]
    ensures SplitOn(Join(parts, [sep]), sep) == parts
  {
    if |parts| == 1 {
      SplitOnNoSep(parts[0], sep);
    } else {
      JoinThenSplitOn(parts[1..], sep);
      SplitOnPrefix(parts[0], sep, Join(parts[1..], [sep]));
      assert [parts[0]] + parts[1..] == parts;
    }
  }

  /** The longest prefix of `s` that holds no whitespace. */
  function Word(s: string): (w: string)
    ensures |w| <= |s| && w == s[..|w|] && NoSpace(w)
    ensures |w| == |s| || IsSpace(s[|w|])
  {
    if |s| == 0 || IsSpace(s[0]) then [] else [s[0]] + Word(s[1..])
  }

  /** Python's `s.split()`: the maximal runs of non-whitespace characters, in order. */
  function Words(s: string): (r: seq<string>)
    ensures forall i :: 0 <= i < |r| ==> |r[i]| > 0 && NoSpace(r[i])
    decreases |s|
  {
    if |s| == 0 then []
    else if IsSpace(s[0]) then Words(s[1..])
    else
      var w := Word(s);
      [w] + Words(s[|w|..])
  }

  lemma {:induction false} WordOfPrefix(a: string, b: string)
    requires NoSpace(a)
    requires b == [] || IsSpace(b[0])
    ensures Word(a + b) == a
  {
    if a == [] {
      assert a + b == b;
    } else {
      assert (a + b)[1..] == a[1..] + b;
      WordOfPrefix(a[1..], b);
      assert [a[0]] + a[1..] == a;
    }
  }

  /** A word followed by whitespace splits off as the first word. */
  lemma WordsOfWordThenSpace(w: string, rest: string)
    requires |w| > 0 && NoSpace(w)
    ensures Words(w + " " + rest) == [w] + Words(rest)
  {
    var s := w + " " + rest;
    assert s == w + (" " + rest);
    WordOfPrefix(w, " " + rest);
    assert s[|w|..] == " " + rest;
    assert (" " + rest)[1..] == rest;
  }

  /** Splitting the space-join of non-empty, whitespace-free words gives back the words. */
  lemma {:induction false} JoinThenWords(words: seq<string>)
    requires forall i :: 0 <= i < |words| ==> |words[i]| > 0 && NoSpace(words[i])
    ensures Words(Join(words, " ")) == words
  {
    if |words| == 1 {
      var w := words[0];
      WordOfPrefix(w, []);
      assert w + [] == w;
      assert w[|w|..] == [];
    } else if |words| >= 2 {
      var w := words[0];
      var rest := Join(words[1..], " ");
      assert Join(words, " ") == w + " " + rest;
      WordsOfWordThenSpace(w, rest);
      JoinThenWords(words[1..]);
      assert [w] + words[1..] == words;
    }
  }

  // ---------------------------------------------------------------------------
  // Decimal digits

  predicate IsDigit(c: char) {
    '0' <= c <= '9'
  }

  /** What the pattern `^\d*$` accepts (the empty string included). */
  predicate AllDigits(s: string) {
    forall i :: 0 <= i < |s| ==> IsDigit(s[i])
  }

  function DigitValue(c: char): nat
    requires IsDigit(c)
  {
    c as int - '0' as int
  }

  function DigitChar(d: nat): (c: char)
    requires d < 10
    ensures IsDigit(c) && DigitValue(c) == d
  {
    ('0' as int + d) as char
  }

  /** The value `int(s)` gives a string of decimal digits (leading zeros allowed). */
  function DigitsValue(s: string): nat
    requires AllDigits(s)
  {
    if |s| == 0 then 0 else DigitsValue(s[..|s| - 1]) * 10 + DigitValue(s[|s| - 1])
  }

  function Pow10(k: nat): nat {
    if k == 0 then 1 else 10 * Pow10(k - 1)
  }

  /** A string of `k` digits is worth less than 10^k. */
  lemma {:induction false} DigitsValueBound(s: string)
    requires AllDigits(s)
    ensures DigitsValue(s) < Pow10(|s|)
  {
    if |s| > 0 {
      DigitsValueBound(s[..|s| - 1]);
    }
  }

  /** Python's `str(n)` for a natural number: canonical decimal, no leading zero. */
  function NatToString(n: nat): (s: string)
    ensures |s| >= 1 && AllDigits(s)
    ensures s[0] != '0' || n == 0
  {
    if n < 10 then [DigitChar(n)] else NatToString(n / 10) + [DigitChar(n % 10)]
  }

  /** Python's `str(n)` for any integer. */
  function IntToString(n: int): string {
    if n < 0 then "-" + NatToString(-n) else NatToString(n)
  }

  /** Reading back the rendering of `n` gives `n`. */
  lemma {:induction false} NatToStringValue(n: nat)
    ensures DigitsValue(NatToString(n)) == n
  {
    if n >= 10 {
      var s := NatToString(n);
      assert s[..|s| - 1] == NatToString(n / 10);
      NatToStringValue(n / 10);
    }
  }

  lemma {:induction false} DigitsValuePositive(s: string)
    requires AllDigits(s) && |s| >= 1 && s[0] != '0'
    ensures DigitsValue(s) >= 1
  {
    if |s| > 1 {
      DigitsValuePositive(s[..|s| - 1]);
    }
  }

  /** A canonical digit string is the rendering of its own value. */
  lemma {:induction false} DigitsRoundTrip(s: string)
    requires AllDigits(s) && |s| >= 1 && (s[0] != '0' || |s| == 1)
    ensures NatToString(DigitsValue(s)) == s
  {
    if |s| > 1 {
      var p := s[..|s| - 1];
      DigitsValuePositive(p);
      DigitsRoundTrip(p);
      var v := DigitsValue(s);
      assert v / 10 == DigitsValue(p) && v % 10 == DigitValue(s[|s| - 1]);
      assert s == p + [s[|s| - 1]];
    }
  }

  /** A leading zero does not change the value. */
  lemma {:induction false} DigitsValueLeadingZero(s: string)
    requires AllDigits(s)
    ensures DigitsValue("0" + s) == DigitsValue(s)
  {
    if s != [] {
      var p := s[..|s| - 1];
      assert ("0" + s)[..|s|] == "0" + p;
      DigitsValueLeadingZero(p);
    }
  }

  /** The number of characters of `str(n)` for one-, two- and three-digit numbers. */
  lemma NatToStringLength(n: nat)
    ensures n < 10 ==> |NatToString(n)| == 1
    ensures 10 <= n < 100 ==> |NatToString(n)| == 2
    ensures 100 <= n < 1000 ==> |NatToString(n)| == 3
  {
  }

  // ---------------------------------------------------------------------------
  // Python's int() on a string

  /** Python's digit-group syntax for `int()`: digits, single underscores only between digits. */
  predicate DigitGroups(s: string) {
    && |s| >= 1
    && IsDigit(s[0])
    && IsDigit(s[|s| - 1])
    && (forall i :: 0 <= i < |s| ==> IsDigit(s[i]) || s[i] == '_')
    && (forall i :: 0 <= i < |s| - 1 ==> !(s[i] == '_' && s[i + 1] == '_'))
  }

  function RemoveUnderscores(s: string): (r: string)
    requires forall i :: 0 <= i < |s| ==> IsDigit(s[i]) || s[i] == '_'
    ensures AllDigits(r)
    ensures AllDigits(s) ==> r == s
  {
    if |s| == 0 then []
    else (if s[0] == '_' then [] else [s[0]]) + RemoveUnderscores(s[1..])
  }

  /**
   Python's `int(s)`, or None where it raises `ValueError`: surrounding whitespace is
   ignored, except the separators U+001C..U+001F.
   */
  function ParseInt(s: string): (r: Option<int>)
    ensures r.Some? ==> IntStrip(s) != ""
  {
    ParseSigned(IntStrip(s))
  }

  /** `int()` on text without surrounding whitespace: an optional sign, then digit groups. */
  function ParseSigned(t: string): (r: Option<int>)
    ensures r.Some? ==> |t| > 0
  {
    var neg := |t| > 0 && t[0] == '-';
    var body := if |t| > 0 && (t[0] == '-' || t[0] == '+') then t[1..] else t;
    if DigitGroups(body) then
      var v: int := DigitsValue(RemoveUnderscores(body));
      Some(if neg then -v else v)
    else None
  }

  /** A non-empty digit string is valid `int()` syntax. */
  lemma DigitsAreDigitGroups(d: string)
    requires |d| >= 1 && AllDigits(d)
    ensures DigitGroups(d)
  {
  }

  /** The body `int()` reads after an optional sign: a canonical digit string is read as its value. */
  lemma ParseDigitsBody(digits: string)
    requires |digits| >= 1 && AllDigits(digits)
    ensures DigitGroups(digits)
    ensures RemoveUnderscores(digits) == digits
  {
    DigitsAreDigitGroups(digits);
  }

  /** `int(str(n)) == n` for every integer. */
  lemma ParseIntOfIntToString(n: int)
    ensures ParseInt(IntToString(n)) == Some(n)
  {
    var s := IntToString(n);
    assert TrimmedOf(IntBlanks, s) by {
      assert !IsSpace(s[0]) && !IsSpace(s[|s| - 1]);
    }
    StripOfTrimmed(IntBlanks, s);
    ParseSignedOfIntToString(n);
  }

  /** `int()` reads a number through any padding of whitespace other than the separators. */
  lemma ParseIntPadded(p: string, t: string, q: string)
    requires AllBlank(IntBlanks, p) && AllBlank(IntBlanks, q) && TrimmedOf(IntBlanks, t) && t != ""
    ensures ParseInt(p + t + q) == ParseSigned(t)
  {
    StripOfPadded(IntBlanks, p, t, q);
  }

  /** `int()` rejects text that begins or ends with a separator U+001C..U+001F. */
  lemma ParseIntRejectsSeparator(s: string)
    requires |s| > 0 && (IsSeparator(s[0]) || IsSeparator(s[|s| - 1]))
    ensures ParseInt(s) == None
  {
    var a := LeadingBlanks(IntBlanks, s);
    var e := TrailingBlanks(IntBlanks, s[a..]);
    var t := IntStrip(s);
    assert t == s[a..|s| - e];
    if IsSeparator(s[0]) {
      assert !IsBlank(IntBlanks, s[0]);
      assert a == 0 && s[a..] == s;
      assert t[0] == s[0];
    } else {
      assert !IsBlank(IntBlanks, s[|s| - 1]);
      assert s[a..][|s[a..]| - 1] == s[|s| - 1];
      assert e == 0;
      assert t[|t| - 1] == s[|s| - 1];
      if |t| >= 2 {
        assert t[1..][|t| - 2] == t[|t| - 1];
      }
    }
  }

  lemma ParseSignedOfIntToString(n: int)
    ensures ParseSigned(IntToString(n)) == Some(n)
  {
    var s := IntToString(n);
    var m: nat := if n < 0 then -n else n;
    var digits := NatToString(m);
    NatToStringValue(m);
    ParseDigitsBody(digits);
    if n < 0 {
      assert s[0] == '-' && s[1..] == digits;
    } else {
      assert s == digits && s[0] != '-' && s[0] != '+';
    }
  }
}
