/**
 * The three Python string operations the data-preparation script relies on:
 * `str.strip()`, `str.replace(old, new)` and `int(str)` on base-10 text.
 */
module PythonText {
  import opened Wrappers

  /** `str.isspace()` for one character: the ASCII whitespace and separators
      (\t \n \x0b \x0c \r \x1c-\x1f and the space) and the Unicode ones. */
  predicate IsSpace(c: char)
  {
    || ('\t' <= c <= '\r')
    || ('\U{1c}' <= c <= ' ')
    || c == '\U{85}' || c == '\U{a0}' || c == '\U{1680}'
    || ('\U{2000}' <= c <= '\U{200a}')
    || c == '\U{2028}' || c == '\U{2029}' || c == '\U{202f}' || c == '\U{205f}' || c == '\U{3000}'
  }

  /** Neither end of `s` is whitespace. */
  predicate Stripped(s: string)
  {
    s == [] || (!IsSpace(s[0]) && !IsSpace(s[|s| - 1]))
  }

  /** `s.lstrip()`: the suffix left after the leading whitespace. */
  function StripLeft(s: string): (r: string)
    ensures |r| <= |s|
  {
    if s != [] && IsSpace(s[0]) then StripLeft(s[1..]) else s
  }

  /** `s.rstrip()`: the prefix left before the trailing whitespace. */
  function StripRight(s: string): (r: string)
    ensures |r| <= |s|
  {
    if s != [] && IsSpace(s[|s| - 1]) then StripRight(s[..|s| - 1]) else s
  }

  /** `StripLeft(s)` is a suffix of `s` that does not start with whitespace,
      and all it cuts off is whitespace. */
  lemma {:induction false} StripLeftSpan(s: string)
    ensures StripLeft(s) == s[|s| - |StripLeft(s)|..]
    ensures StripLeft(s) == [] || !IsSpace(StripLeft(s)[0])
    ensures forall k | 0 <= k < |s| - |StripLeft(s)| :: IsSpace(s[k])
  {
    if s != [] && IsSpace(s[0]) {
      StripLeftSpan(s[1..]);
      forall k | 1 <= k < |s| - |StripLeft(s)| ensures IsSpace(s[k]) {
        assert s[k] == s[1..][k - 1];
      }
    }
  }

  /** `StripRight(s)` is a prefix of `s` that does not end with whitespace,
      and all it cuts off is whitespace. */
  lemma {:induction false} StripRightSpan(s: string)
    ensures StripRight(s) == s[..|StripRight(s)|]
    ensures StripRight(s) == [] || !IsSpace(StripRight(s)[|StripRight(s)| - 1])
    ensures forall k | |StripRight(s)| <= k < |s| :: IsSpace(s[k])
  {
    if s != [] && IsSpace(s[|s| - 1]) {
      var init := s[..|s| - 1];
      StripRightSpan(init);
      forall k | |StripRight(s)| <= k < |s| - 1 ensures IsSpace(s[k]) {
        assert s[k] == init[k];
      }
    }
  }

  /** `s.strip()`: `s` without its leading and trailing whitespace. */
  function Strip(s: string): (r: string)
    ensures Stripped(r) && |r| <= |s|
  {
    var l := StripLeft(s);
    StripLeftSpan(s);
    StripRightSpan(l);
    var r := StripRight(l);
    assert r != [] ==> r[0] == l[0];
    r
  }

  /** `Strip(s)` is one contiguous piece of `s`, starting at `i`; everything
      cut off on either side of it is whitespace. */
  lemma StripSpan(s: string) returns (i: nat)
    ensures i + |Strip(s)| <= |s| && s[i..i + |Strip(s)|] == Strip(s)
    ensures forall k | 0 <= k < i :: IsSpace(s[k])
    ensures forall k | i + |Strip(s)| <= k < |s| :: IsSpace(s[k])
  {
    var l := StripLeft(s);
    StripLeftSpan(s);
    var r := StripRight(l);
    assert r == Strip(s);
    i := |s| - |l|;
    assert s[i..i + |r|] == r by {
      StripRightSpan(l);
      assert l == s[i..];
    }
    forall k | i + |r| <= k < |s| ensures IsSpace(s[k]) {
      StripRightSpan(l);
      assert s[k] == l[k - i];
    }
  }


  /** Stripping adds no character: one absent from `s` is absent from `Strip(s)`. */
  lemma StripAbsent(s: string, c: char)
    requires c !in s
    ensures c !in Strip(s)
  {
    var r := Strip(s);
    var i := StripSpan(s);
    forall k | 0 <= k < |r| ensures r[k] != c {
      assert s[i + k] == r[k];
    }
  }

  /** A string with no whitespace at either end is its own strip. */
  lemma {:induction false} StripKeeps(s: string)
    requires Stripped(s)
    ensures Strip(s) == s
  {
    if s != [] {
      assert !IsSpace(s[0]);
      assert StripLeft(s) == s;
      assert !IsSpace(s[|s| - 1]);
      assert StripRight(s) == s;
    }
  }

  /** Stripping twice is stripping once. */
  lemma StripIdempotent(s: string)
    ensures Strip(Strip(s)) == Strip(s)
  {
    StripKeeps(Strip(s));
  }

  /** `s.replace(pat, rep)`: every non-overlapping occurrence of `pat`,
      scanning from the left, replaced by `rep`. */
  function Replace(s: string, pat: string, rep: string): (r: string)
    requires pat != []
    ensures |pat| == |rep| ==> |r| == |s|
    ensures rep == pat ==> r == s
    decreases |s|
  {
    if |s| < |pat| then s
    else if s[..|pat|] == pat then rep + Replace(s[|pat|..], pat, rep)
    else [s[0]] + Replace(s[1..], pat, rep)
  }

  /** Replacing adds no character of its own: one found neither in `s` nor
      in `rep` is not in the result. */
  lemma {:induction false} ReplaceAbsentChar(s: string, pat: string, rep: string, c: char)
    requires pat != [] && c !in s && c !in rep
    ensures c !in Replace(s, pat, rep)
    decreases |s|
  {
    if |s| >= |pat| {
      if s[..|pat|] == pat {
        assert forall d | d in s[|pat|..] :: d in s;
        ReplaceAbsentChar(s[|pat|..], pat, rep, c);
      } else {
        assert forall d | d in s[1..] :: d in s;
        ReplaceAbsentChar(s[1..], pat, rep, c);
      }
    }
  }

  /** Replacing a single character by text without it removes it entirely. */
  lemma {:induction false} ReplaceRemoves(s: string, c: char, rep: string)
    requires c !in rep
    ensures c !in Replace(s, [c], rep)
    decreases |s|
  {
    if |s| >= 1 {
      if s[..1] == [c] {
        ReplaceRemoves(s[1..], c, rep);
      } else {
        assert s[0] != c by { assert s[..1] == [s[0]]; }
        ReplaceRemoves(s[1..], c, rep);
      }
    }
  }

  /** Text that is exactly the pattern becomes exactly the replacement. */
  lemma ReplaceWhole(pat: string, rep: string)
    requires pat != []
    ensures Replace(pat, pat, rep) == rep
  {
    assert pat[..|pat|] == pat;
    assert Replace(pat[|pat|..], pat, rep) == [];
  }

  /** A pattern whose first character does not occur never matches: the
      text is unchanged. */
  lemma {:induction false} ReplaceAbsent(s: string, pat: string, rep: string)
    requires pat != [] && pat[0] !in s
    ensures Replace(s, pat, rep) == s
    decreases |s|
  {
    if |s| >= |pat| {
      assert s[..|pat|][0] == s[0];
      assert forall d | d in s[1..] :: d in s;
      ReplaceAbsent(s[1..], pat, rep);
      assert s == [s[0]] + s[1..];
    }
  }

  /** Replacing one character by another changes exactly its occurrences,
      position by position. */
  lemma {:induction false} ReplaceChar(s: string, c: char, d: char)
    ensures |Replace(s, [c], [d])| == |s|
    ensures forall k | 0 <= k < |s| :: Replace(s, [c], [d])[k] == if s[k] == c then d else s[k]
    decreases |s|
  {
    if |s| >= 1 {
      ReplaceChar(s[1..], c, d);
      assert s[..1] == [s[0]];
      forall k | 1 <= k < |s| ensures Replace(s, [c], [d])[k] == if s[k] == c then d else s[k] {
        assert s[k] == s[1..][k - 1];
      }
    }
  }

  /** A one-character pattern is replaced character by character: a single
      character becomes the replacement when it is the pattern, and is kept
      otherwise... */
  lemma ReplaceCharSingle(x: char, c: char, rep: string)
    ensures Replace([x], [c], rep) == if x == c then rep else [x]
  {
    assert [x][..1] == [x];
    assert Replace([x][1..], [c], rep) == [];
  }

  /** ...and the replacement of a concatenation is the concatenation of the
      replacements, so no occurrence is skipped and nothing is reordered. */
  lemma {:induction false} ReplaceCharAppend(a: string, b: string, c: char, rep: string)
    ensures Replace(a + b, [c], rep) == Replace(a, [c], rep) + Replace(b, [c], rep)
    decreases |a|
  {
    if a == [] {
      assert a + b == b;
    } else {
      ReplaceCharAppend(a[1..], b, c, rep);
      assert (a + b)[..1] == a[..1];
      assert (a + b)[1..] == a[1..] + b;
    }
  }

  /** The two laws above for a piece of at most one character in front. */
  lemma ReplaceCharPiece(p: string, s: string, c: char, rep: string)
    requires |p| <= 1
    ensures Replace(p + s, [c], rep) == (if p == [] then [] else if p[0] == c then rep else p) + Replace(s, [c], rep)
  {
    ReplaceCharAppend(p, s, c, rep);
    if p != [] {
      assert p == [p[0]];
      ReplaceCharSingle(p[0], c, rep);
    }
  }

  predicate IsDigit(c: char) { '0' <= c <= '9' }

  /** The digits of a base-10 literal: ASCII digits, with single underscores
      allowed only between two digits. */
  predicate DigitRun(b: string)
  {
    && b != []
    && IsDigit(b[0]) && IsDigit(b[|b| - 1])
    && (forall k | 0 <= k < |b| :: IsDigit(b[k]) || b[k] == '_')
    && (forall k | 0 <= k < |b| - 1 :: !(b[k] == '_' && b[k + 1] == '_'))
  }

  /** The number the digits of `b` spell, underscores skipped. */
  function DigitsValue(b: string): (v: nat)
  {
    if b == [] then 0
    else
      var c := b[|b| - 1];
      if IsDigit(c) then DigitsValue(b[..|b| - 1]) * 10 + (c as int - '0' as int)
      else DigitsValue(b[..|b| - 1])
  }

  /** The longest decimal text `int` and `str` convert: CPython's default
      `sys.get_int_max_str_digits()`, 4300 since 3.11 (and in the 3.7 to
      3.10 security releases). */
  const MAX_STR_DIGITS: nat := 4300

  /** The number of decimal digits in `b`; underscores and anything else
      are not counted. */
  function DigitCount(b: string): (n: nat)
    ensures n <= |b|
  {
    if b == [] then 0 else (if IsDigit(b[0]) then 1 else 0) + DigitCount(b[1..])
  }

  /** Text made only of digits has as many digits as characters. */
  lemma {:induction false} DigitCountAll(b: string)
    requires forall k | 0 <= k < |b| :: IsDigit(b[k])
    ensures DigitCount(b) == |b|
  {
    if b != [] {
      DigitCountAll(b[1..]);
    }
  }

  /** The whitespace `int` skips around a number: every `str.isspace`
      character except the four ASCII separators \x1c-\x1f, which `int`
      rejects although `strip` removes them. */
  predicate IntSpace(c: char)
  {
    IsSpace(c) && !('\U{1c}' <= c <= '\U{1f}')
  }

  /** The suffix left after the leading whitespace `int` skips. */
  function IntTrimLeft(s: string): (r: string)
    ensures |r| <= |s|
  {
    if s != [] && IntSpace(s[0]) then IntTrimLeft(s[1..]) else s
  }

  /** The prefix left before the trailing whitespace `int` skips. */
  function IntTrimRight(s: string): (r: string)
    ensures |r| <= |s|
  {
    if s != [] && IntSpace(s[|s| - 1]) then IntTrimRight(s[..|s| - 1]) else s
  }

  /** The text `int` reads the number from. */
  function IntTrim(s: string): string
  {
    IntTrimRight(IntTrimLeft(s))
  }

  /** The unsigned part of `int`'s input: a digit run of at most
      `MAX_STR_DIGITS` digits gives the number it spells, anything else
      `None`. */
  function ReadDigits(body: string): (v: Option<nat>)
    ensures v.Some? ==> body != [] && IsDigit(body[0]) && IsDigit(body[|body| - 1])
  {
    if !DigitRun(body) || DigitCount(body) > MAX_STR_DIGITS then None
    else Some(DigitsValue(body))
  }

  /** `int(s)` for a string: surrounding whitespace, an optional sign, then a
      digit run of at most `MAX_STR_DIGITS` digits; anything else raises
      `ValueError`, modelled as `None`. What it accepts ends in a digit, and
      a negative value was written with a minus sign. */
  function ParseInt(s: string): (v: Option<int>)
    ensures var t := IntTrim(s);
      v.Some? ==> t != [] && IsDigit(t[|t| - 1]) && (v.value < 0 ==> t[0] == '-')
  {
    var t := IntTrim(s);
    if t == [] then None
    else
      var body := if t[0] == '-' || t[0] == '+' then t[1..] else t;
      match ReadDigits(body)
      case None => None
      case Some(digits) =>
        var magnitude: int := digits;
        Some(if t[0] == '-' then -magnitude else magnitude)
  }

  /** Text whose number has more digits than the limit is refused, whatever
      else it holds. */
  lemma ParseIntTooLong(s: string)
    requires DigitCount(IntTrim(s)) > MAX_STR_DIGITS
    ensures ParseInt(s) == None
  {
    var t := IntTrim(s);
    if t != [] && (t[0] == '-' || t[0] == '+') {
      assert DigitCount(t) == DigitCount(t[1..]);
    }
  }

  /** `IntTrimRight(s)` is a prefix of `s`. */
  lemma {:induction false} IntTrimRightPrefix(s: string)
    ensures IntTrimRight(s) == s[..|IntTrimRight(s)|]
  {
    if s != [] && IntSpace(s[|s| - 1]) {
      var init := s[..|s| - 1];
      IntTrimRightPrefix(init);
      assert init[..|IntTrimRight(init)|] == s[..|IntTrimRight(init)|];
    }
  }

  /** Where what `int` skips at the front ends in a character `strip` keeps,
      `lstrip` stops at the same place. */
  lemma {:induction false} StripLeftAgrees(s: string)
    requires IntTrimLeft(s) != [] && !IsSpace(IntTrimLeft(s)[0])
    ensures StripLeft(s) == IntTrimLeft(s)
  {
    if s != [] && IntSpace(s[0]) {
      StripLeftAgrees(s[1..]);
    }
  }

  /** The same at the back, for `rstrip`. */
  lemma {:induction false} StripRightAgrees(s: string)
    requires IntTrimRight(s) != [] && !IsSpace(IntTrimRight(s)[|IntTrimRight(s)| - 1])
    ensures StripRight(s) == IntTrimRight(s)
  {
    if s != [] && IntSpace(s[|s| - 1]) {
      StripRightAgrees(s[..|s| - 1]);
    }
  }

  /** Text `int` accepts reads the same after `strip`: the year the filter
      compares is the year the script writes. */
  lemma ParseIntStrip(s: string)
    ensures ParseInt(s).Some? ==> ParseInt(Strip(s)) == ParseInt(s)
  {
    if ParseInt(s).Some? {
      var l := IntTrimLeft(s);
      var t := IntTrim(s);
      assert !IsSpace(t[0]) && !IsSpace(t[|t| - 1]) by {
        var body := if t[0] == '-' || t[0] == '+' then t[1..] else t;
        assert IsDigit(body[0]);
      }
      IntTrimRightPrefix(l);
      assert l[0] == t[0];
      StripLeftAgrees(s);
      StripRightAgrees(l);
      assert Strip(s) == t;
      assert IntTrimLeft(t) == t;
      assert IntTrimRight(t) == t;
    }
  }

  /** The decimal rendering of a natural number, `str(n)`. */
  function ShowNat(n: nat): (s: string)
    ensures s != [] && IsDigit(s[0]) && IsDigit(s[|s| - 1])
    ensures forall k | 0 <= k < |s| :: IsDigit(s[k])
  {
    if n < 10 then ['0' + n as char]
    else
      var s := ShowNat(n / 10) + ['0' + (n % 10) as char];
      s
  }

  /** Text made only of digits, within the limit, reads as the number its
      digits spell. */
  lemma ParseDigits(s: string)
    requires s != [] && |s| <= MAX_STR_DIGITS
    requires forall k | 0 <= k < |s| :: IsDigit(s[k])
    ensures ParseInt(s) == Some(DigitsValue(s))
  {
    TrimDigitEnds(s);
    DigitCountAll(s);
    assert DigitRun(s);
    assert ReadDigits(s) == Some(DigitsValue(s));
  }

  /** Text that starts and ends with a digit has nothing for `int` to skip. */
  lemma TrimDigitEnds(s: string)
    requires s != [] && IsDigit(s[0]) && IsDigit(s[|s| - 1])
    ensures IntTrim(s) == s
  {
    assert !IntSpace(s[0]);
    assert IntTrimLeft(s) == s;
    assert !IntSpace(s[|s| - 1]);
    assert IntTrimRight(s) == s;
  }

  /** `int(str(n)) == n` for every natural number whose decimal rendering
      is within the digit limit (beyond it `str(n)` itself raises). */
  lemma ParseShowNat(n: nat)
    requires |ShowNat(n)| <= MAX_STR_DIGITS
    ensures ParseInt(ShowNat(n)) == Some(n)
  {
    ParseDigits(ShowNat(n));
    DigitsOfShowNat(n);
  }

  lemma {:induction false} DigitsOfShowNat(n: nat)
    ensures DigitsValue(ShowNat(n)) == n
  {
    var s := ShowNat(n);
    if n < 10 {
      assert s[..0] == [];
    } else {
      assert s[..|s| - 1] == ShowNat(n / 10);
      DigitsOfShowNat(n / 10);
    }
  }
}
