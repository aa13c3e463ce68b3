/**
 * The Python string built-ins the pipeline relies on, over `string` (a sequence of
 * `char`): `str.isspace`, `str.strip`, `str.isdigit`, `int()`, `str()` of an integer,
 * `str.split(sep)`, `re.split(r'\t+', ...)`, `str.split()`, `str.replace`, `str.upper`
 * and the substring test `t in s`.
 */
module Text {
  import opened Wrappers

  /** `c.isspace()`: the characters Python's `strip()`, `split()` and `int()` skip. */
  predicate IsSpace(c: char) {
    || ('\t' <= c <= '\r')
    || ('\U{1C}' <= c <= ' ')
    || c == '\U{85}' || c == '\U{A0}' || c == '\U{1680}'
    || ('\U{2000}' <= c <= '\U{200A}')
    || c == '\U{2028}' || c == '\U{2029}' || c == '\U{202F}' || c == '\U{205F}' || c == '\U{3000}'
  }

  ghost predicate AllSpace(s: string) {
    forall k :: 0 <= k < |s| ==> IsSpace(s[k])
  }

  /** The first position at or after `i` that does not hold whitespace, or `|s|`. */
  function SkipSpace(s: string, i: nat): (j: nat)
    requires i <= |s|
    ensures i <= j <= |s|
    ensures j < |s| ==> !IsSpace(s[j])
    ensures forall k :: i <= k < j ==> IsSpace(s[k])
    decreases |s| - i
  {
    if i < |s| && IsSpace(s[i]) then SkipSpace(s, i + 1) else i
  }

  /** The position just after the last non-whitespace character before `j`, or `0`. */
  function BackSpace(s: string, j: nat): (i: nat)
    requires j <= |s|
    ensures i <= j
    ensures 0 < i ==> !IsSpace(s[i - 1])
    ensures forall k :: i <= k < j ==> IsSpace(s[k])
  {
    if 0 < j && IsSpace(s[j - 1]) then BackSpace(s, j - 1) else j
  }

  /** `SkipSpace` is the only position with its two properties. */
  lemma SkipSpaceUnique(s: string, i: nat, j: nat)
    requires i <= j <= |s|
    requires j < |s| ==> !IsSpace(s[j])
    requires forall k :: i <= k < j ==> IsSpace(s[k])
    ensures SkipSpace(s, i) == j
  {
  }

  /** `BackSpace` is the only position with its two properties. */
  lemma BackSpaceUnique(s: string, j: nat, i: nat)
    requires i <= j <= |s|
    requires 0 < i ==> !IsSpace(s[i - 1])
    requires forall k :: i <= k < j ==> IsSpace(s[k])
    ensures BackSpace(s, j) == i
  {
  }

  /** `s.lstrip()` */
  function StripLeft(s: string): (r: string)
    ensures |r| <= |s| && r == s[|s| - |r|..]
    ensures AllSpace(s[..|s| - |r|])
    ensures r == [] || !IsSpace(r[0])
  {
    s[SkipSpace(s, 0)..]
  }

  /** `s.rstrip()` */
  function StripRight(s: string): (r: string)
    ensures |r| <= |s| && r == s[..|r|]
    ensures AllSpace(s[|r|..])
    ensures r == [] || !IsSpace(r[|r| - 1])
  {
    s[..BackSpace(s, |s|)]
  }

  /** `s.strip()`: `s` with the whitespace at both ends taken off. */
  function Strip(s: string): (r: string)
    ensures |r| <= |s|
    ensures r == [] || (!IsSpace(r[0]) && !IsSpace(r[|r| - 1]))
  {
    StripRight(StripLeft(s))
  }

  /** What `strip()` keeps is one slice of `s`, with only whitespace before and after it. */
  lemma StripSlice(s: string) returns (i: nat)
    ensures i + |Strip(s)| <= |s| && Strip(s) == s[i..i + |Strip(s)|]
    ensures AllSpace(s[..i]) && AllSpace(s[i + |Strip(s)|..])
  {
    var l := StripLeft(s);
    var r := StripRight(l);
    i := |s| - |l|;
    assert l == s[i..];
    assert r == l[..|r|];
    assert AllSpace(l[|r|..]);
    forall k | i + |r| <= k < |s|
      ensures IsSpace(s[k])
    {
      assert s[k] == l[|r|..][k - i - |r|];
    }
  }

  /** One blank on each side of `s` makes no difference to `strip()`. */
  lemma StripSpaceAround(s: string, a: char, b: char)
    requires IsSpace(a) && IsSpace(b)
    ensures Strip([a] + s + [b]) == Strip(s)
  {
    var u := s + [b];
    assert [a] + s + [b] == [a] + u;
    StripLeftCons(a, u);
    StripLeftSnoc(s, b);
    if StripLeft(u) == StripLeft(s) + [b] {
      StripRightSnoc(StripLeft(s), b);
    }
  }

  /** `lstrip()` drops a leading blank. */
  lemma StripLeftCons(a: char, s: string)
    requires IsSpace(a)
    ensures StripLeft([a] + s) == StripLeft(s)
  {
    var t := [a] + s;
    var j := SkipSpace(s, 0);
    SkipSpaceUnique(t, 0, j + 1);
    assert t[j + 1..] == s[j..];
  }

  /** A blank appended after `s` stays at the end after `lstrip()`, unless everything is blank. */
  lemma StripLeftSnoc(s: string, b: char)
    requires IsSpace(b)
    ensures StripLeft(s + [b]) == StripLeft(s) + [b] || (StripLeft(s) == [] && StripLeft(s + [b]) == [])
  {
    var t := s + [b];
    var j := SkipSpace(s, 0);
    if j < |s| {
      SkipSpaceUnique(t, 0, j);
      assert t[j..] == s[j..] + [b];
    } else {
      SkipSpaceUnique(t, 0, |t|);
    }
  }

  /** `rstrip()` drops a trailing blank. */
  lemma StripRightSnoc(s: string, b: char)
    requires IsSpace(b)
    ensures StripRight(s + [b]) == StripRight(s)
  {
    var t := s + [b];
    var i := BackSpace(s, |s|);
    BackSpaceUnique(t, |t|, i);
    assert t[..i] == s[..i];
  }

  lemma StripLeftIdle(s: string)
    requires s == [] || !IsSpace(s[0])
    ensures StripLeft(s) == s
  {
    SkipSpaceUnique(s, 0, 0);
  }

  /** Text without whitespace at either end is left alone by `strip()`. */
  lemma StripIdle(s: string)
    requires s == [] || (!IsSpace(s[0]) && !IsSpace(s[|s| - 1]))
    ensures Strip(s) == s
  {
    StripLeftIdle(s);
    StripRightIdle(s);
  }

  lemma StripRightIdle(s: string)
    requires s == [] || !IsSpace(s[|s| - 1])
    ensures StripRight(s) == s
  {
    BackSpaceUnique(s, |s|, |s|);
  }

  /** Stripping twice is stripping once. */
  lemma StripIdempotent(s: string)
    ensures Strip(Strip(s)) == Strip(s)
  {
    StripIdle(Strip(s));
  }

  // ---------------------------------------------------------------------------
  // Decimal digits, `int()` and `str()`

  predicate IsDigit(c: char) {
    '0' <= c <= '9'
  }

  predicate AllDigits(s: string) {
    forall k :: 0 <= k < |s| ==> IsDigit(s[k])
  }

  function DigitValue(c: char): (d: nat)
    requires IsDigit(c)
    ensures d <= 9
  {
    c as int - '0' as int
  }

  function DigitChar(d: nat): (c: char)
    requires d <= 9
    ensures IsDigit(c) && DigitValue(c) == d
  {
    ('0' as int + d) as char
  }

  function Pow10(n: nat): (p: nat)
    ensures p >= 1
  {
    if n == 0 then 1 else 10 * Pow10(n - 1)
  }

  /** The value of a string of decimal digits, most significant first (0 for ""). */
  function DigitsValue(s: string): nat
    requires AllDigits(s)
  {
    if s == [] then 0 else DigitsValue(s[..|s| - 1]) * 10 + DigitValue(s[|s| - 1])
  }

  /** The digits of `a + b` are worth `a` shifted left by `|b|` places, plus `b`. */
  lemma {:induction false} DigitsValueAppend(a: string, b: string)
    requires AllDigits(a) && AllDigits(b)
    ensures AllDigits(a + b)
    ensures DigitsValue(a + b) == DigitsValue(a) * Pow10(|b|) + DigitsValue(b)
  {
    if b == [] {
      assert a + b == a;
    } else {
      var b' := b[..|b| - 1];
      var d := DigitValue(b[|b| - 1]);
      assert (a + b)[..|a + b| - 1] == a + b';
      assert DigitsValue(a + b) == DigitsValue(a + b') * 10 + d;
      DigitsValueAppend(a, b');
      ShiftDistributes(DigitsValue(a), Pow10(|b'|), DigitsValue(b'), d);
    }
  }

  lemma ShiftDistributes(x: nat, p: nat, y: nat, d: nat)
    ensures (x * p + y) * 10 + d == x * (10 * p) + (y * 10 + d)
  {
  }

  /** `|s|` digits are worth less than `10^|s|`, and at least `10^(|s|-1)` without a leading zero. */
  lemma {:induction false} DigitsValueBounds(s: string)
    requires AllDigits(s)
    ensures DigitsValue(s) < Pow10(|s|)
    ensures s != [] && s[0] != '0' ==> DigitsValue(s) >= Pow10(|s| - 1)
  {
    if s != [] {
      var t := s[..|s| - 1];
      DigitsValueBounds(t);
      if |t| > 0 {
        assert t[0] == s[0];
      }
    }
  }

  /** `str(n)` for a natural number: its shortest decimal spelling. */
  function Dec(n: nat): (s: string)
    ensures 1 <= |s| && AllDigits(s) && DigitsValue(s) == n
    ensures s[0] == '0' ==> s == "0"
  {
    if n < 10 then [DigitChar(n)]
    else
      var s := Dec(n / 10) + [DigitChar(n % 10)];
      assert s[..|s| - 1] == Dec(n / 10);
      s
  }

  /** `str(int(s))` gives `s` back when `s` is a decimal spelling without a leading zero. */
  lemma {:induction false} DecOfDigits(s: string)
    requires s != [] && AllDigits(s) && (s[0] != '0' || |s| == 1)
    ensures Dec(DigitsValue(s)) == s
  {
    if |s| == 1 {
      assert DigitsValue(s) == DigitValue(s[0]);
      assert DigitChar(DigitValue(s[0])) == s[0];
    } else {
      var t := s[..|s| - 1];
      assert t[0] == s[0];
      DigitsValueBounds(t);
      DecOfDigits(t);
      var n := DigitsValue(s);
      assert n / 10 == DigitsValue(t) && n % 10 == DigitValue(s[|s| - 1]);
      assert DigitChar(DigitValue(s[|s| - 1])) == s[|s| - 1];
    }
  }

  /** How many places `str(n)` has. */
  lemma DecLength(n: nat)
    ensures n < Pow10(|Dec(n)|)
    ensures |Dec(n)| > 1 ==> n >= Pow10(|Dec(n)| - 1)
  {
    DigitsValueBounds(Dec(n));
  }

  /** The characters `int()` accepts between an optional sign: digits, single `_` between two digits. */
  predicate IsDigitGroups(s: string) {
    && s != [] && IsDigit(s[0]) && IsDigit(s[|s| - 1])
    && (forall k :: 0 <= k < |s| ==> IsDigit(s[k]) || s[k] == '_')
    && (forall k :: 0 <= k < |s| - 1 ==> s[k..][..2] != "__")
  }

  /** The value of a digit string with `_` separators ignored. */
  function GroupsValue(s: string): nat
    requires forall k :: 0 <= k < |s| ==> IsDigit(s[k]) || s[k] == '_'
  {
    if s == [] then 0
    else if s[|s| - 1] == '_' then GroupsValue(s[..|s| - 1])
    else GroupsValue(s[..|s| - 1]) * 10 + DigitValue(s[|s| - 1])
  }

  lemma {:induction false} GroupsValueOfDigits(s: string)
    requires AllDigits(s)
    ensures GroupsValue(s) == DigitsValue(s)
  {
    if s != [] {
      GroupsValueOfDigits(s[..|s| - 1]);
    }
  }

  /** `int(s)` for a string `s` (base 10); `None` where Python raises `ValueError`. */
  function PyInt(s: string): Option<int> {
    var t := Strip(s);
    if t == [] then None
    else
      var body := if t[0] == '-' || t[0] == '+' then t[1..] else t;
      if !IsDigitGroups(body) then None
      else
        var v: int := GroupsValue(body);
        Some(if t[0] == '-' then -v else v)
  }

  /** `int()` reads back what `str()` writes. */
  lemma PyIntOfDigits(s: string)
    requires s != [] && AllDigits(s)
    ensures PyInt(s) == Some(DigitsValue(s) as int)
  {
    StripIdle(s);
    DigitsAreGroups(s);
    GroupsValueOfDigits(s);
  }

  lemma DigitsAreGroups(s: string)
    requires s != [] && AllDigits(s)
    ensures IsDigitGroups(s)
  {
    forall k | 0 <= k < |s| - 1
      ensures s[k..][..2] != "__"
    {
      assert s[k..][..2][0] == s[k];
    }
  }

  // ---------------------------------------------------------------------------
  // Splitting and joining

  /** `s.split(sep)` for a one-character separator. */
  function SplitOn(s: string, sep: char): (parts: seq<string>)
    ensures |parts| >= 1
    ensures forall i :: 0 <= i < |parts| ==> sep !in parts[i]
  {
    if s == [] then [""]
    else
      var init := SplitOn(s[..|s| - 1], sep);
      var c := s[|s| - 1];
      if c == sep then init + [""]
      else init[..|init| - 1] + [init[|init| - 1] + [c]]
  }

  /** `sep.join(parts)` */
  function Join(parts: seq<string>, sep: char): string
    requires |parts| >= 1
  {
    if |parts| == 1 then parts[0] else Join(parts[..|parts| - 1], sep) + [sep] + parts[|parts| - 1]
  }

  /** Joining the pieces of a split with the separator gives back the original string. */
  lemma {:induction false} JoinSplitOn(s: string, sep: char)
    ensures Join(SplitOn(s, sep), sep) == s
  {
    if s != [] {
      var t := s[..|s| - 1];
      var c := s[|s| - 1];
      assert s == t + [c];
      var init := SplitOn(t, sep);
      JoinSplitOn(t, sep);
      if c == sep {
        JoinSnoc(init, "", sep);
      } else {
        JoinExtendLast(init, c, sep);
      }
    }
  }

  lemma JoinSnoc(parts: seq<string>, p: string, sep: char)
    requires |parts| >= 1
    ensures Join(parts + [p], sep) == Join(parts, sep) + [sep] + p
  {
    assert (parts + [p])[..|parts|] == parts;
  }

  lemma JoinExtendLast(parts: seq<string>, c: char, sep: char)
    requires |parts| >= 1
    ensures Join(parts[..|parts| - 1] + [parts[|parts| - 1] + [c]], sep) == Join(parts, sep) + [c]
  {
    var q := parts[..|parts| - 1];
    var last := parts[|parts| - 1];
    if |parts| == 1 {
      assert q + [last + [c]] == [last + [c]];
    } else {
      JoinSnoc(q, last + [c], sep);
      assert q + [last] == parts;
      JoinSnoc(q, last, sep);
    }
  }

  /** A string without the separator is a single piece. */
  lemma {:induction false} SplitOnNoSep(s: string, sep: char)
    requires sep !in s
    ensures SplitOn(s, sep) == [s]
  {
    if s != [] {
      SplitOnNoSep(s[..|s| - 1], sep);
      assert s[..|s| - 1] + [s[|s| - 1]] == s;
    }
  }

  /** Appending text without the separator only lengthens the last piece. */
  lemma {:induction false} SplitOnExtend(x: string, b: string, sep: char)
    requires sep !in b
    ensures var p := SplitOn(x, sep);
      SplitOn(x + b, sep) == p[..|p| - 1] + [p[|p| - 1] + b]
  {
    var p := SplitOn(x, sep);
    if b == [] {
      assert x + b == x;
      assert p[|p| - 1] + b == p[|p| - 1];
      assert p[..|p| - 1] + [p[|p| - 1]] == p;
    } else {
      var b' := b[..|b| - 1];
      assert (x + b)[..|x + b| - 1] == x + b';
      SplitOnExtend(x, b', sep);
      assert (p[|p| - 1] + b') + [b[|b| - 1]] == p[|p| - 1] + b;
    }
  }

  /** `(a + sep + b).split(sep) == [a, b]` when neither side holds the separator. */
  lemma SplitOnTwo(a: string, b: string, sep: char)
    requires sep !in a && sep !in b
    ensures SplitOn(a + [sep] + b, sep) == [a, b]
  {
    SplitOnNoSep(a, sep);
    assert (a + [sep])[..|a|] == a;
    assert SplitOn(a + [sep], sep) == [a, ""];
    SplitOnExtend(a + [sep], b, sep);
    assert "" + b == b;
  }

  /** The pieces of a split hold only characters of the original string. */
  lemma {:induction false} SplitOnChars(s: string, sep: char, i: nat, k: nat)
    requires i < |SplitOn(s, sep)| && k < |SplitOn(s, sep)[i]|
    ensures SplitOn(s, sep)[i][k] in s
  {
    if s != [] {
      var t := s[..|s| - 1];
      var init := SplitOn(t, sep);
      var c := s[|s| - 1];
      if c == sep {
        if i < |init| {
          SplitOnChars(t, sep, i, k);
        }
      } else if i < |init| - 1 || k < |init[|init| - 1]| {
        SplitOnChars(t, sep, i, k);
      }
    }
  }

  /** A character `c` is absent from `s`: nothing to remove or count. */
  lemma {:induction false} AbsentChar(s: string, c: char)
    requires c !in s
    ensures Remove(s, c) == s && Count(s, c) == 0
  {
    if s != [] {
      AbsentChar(s[..|s| - 1], c);
      assert s[..|s| - 1] + [s[|s| - 1]] == s;
    }
  }

  /** How many times `c` occurs in `s`. */
  function Count(s: string, c: char): nat {
    if s == [] then 0 else Count(s[..|s| - 1], c) + (if s[|s| - 1] == c then 1 else 0)
  }

  /** A split yields one more piece than there are separators. */
  lemma {:induction false} SplitOnLength(s: string, sep: char)
    ensures |SplitOn(s, sep)| == Count(s, sep) + 1
  {
    if s != [] {
      SplitOnLength(s[..|s| - 1], sep);
    }
  }

  /** All pieces glued together, without separators. */
  function Concat(parts: seq<string>): string {
    if parts == [] then [] else Concat(parts[..|parts| - 1]) + parts[|parts| - 1]
  }

  /** `s` with every `c` taken out. */
  function Remove(s: string, c: char): (r: string)
    ensures c !in r
  {
    if s == [] then [] else Remove(s[..|s| - 1], c) + (if s[|s| - 1] == c then [] else [s[|s| - 1]])
  }

  /**
   * `re.split(r'\t+', s)`: the pieces of `s` between runs of tabs (a leading or trailing
   * run leaves an empty first or last piece).
   */
  function SplitTabRuns(s: string): (parts: seq<string>)
    ensures |parts| >= 1
    ensures s != [] && s[|s| - 1] != '\t' ==> parts[|parts| - 1] != []
    ensures s != [] && s[|s| - 1] == '\t' ==> parts[|parts| - 1] == []
  {
    if s == [] then [""]
    else
      var t := s[..|s| - 1];
      var init := SplitTabRuns(t);
      var c := s[|s| - 1];
      if c == '\t' then
        if t != [] && t[|t| - 1] == '\t' then init else init + [""]
      else
        init[..|init| - 1] + [init[|init| - 1] + [c]]
  }

  /** No piece of `re.split(r'\t+', s)` holds a tab. */
  lemma {:induction false} SplitTabRunsNoTab(s: string)
    ensures forall i :: 0 <= i < |SplitTabRuns(s)| ==> '\t' !in SplitTabRuns(s)[i]
  {
    if s != [] {
      var t := s[..|s| - 1];
      SplitTabRunsNoTab(t);
      var init := SplitTabRuns(t);
      var c := s[|s| - 1];
      if c != '\t' {
        var parts := SplitTabRuns(s);
        assert parts == init[..|init| - 1] + [init[|init| - 1] + [c]];
        forall i | 0 <= i < |parts|
          ensures '\t' !in parts[i]
        {
          if i < |parts| - 1 {
            assert parts[i] == init[i];
          }
        }
      }
    }
  }

  /** The pieces of `re.split(r'\t+', s)` put back together are `s` without its tabs. */
  lemma {:induction false} SplitTabRunsConcat(s: string)
    ensures Concat(SplitTabRuns(s)) == Remove(s, '\t')
  {
    if s != [] {
      var t := s[..|s| - 1];
      SplitTabRunsConcat(t);
      var init := SplitTabRuns(t);
      var c := s[|s| - 1];
      var parts := SplitTabRuns(s);
      if c == '\t' {
        if !(t != [] && t[|t| - 1] == '\t') {
          ConcatSnoc(init, "");
        }
      } else {
        ConcatExtendLast(init, [c]);
      }
    }
  }

  /** Extending the last piece extends the glued text. */
  lemma ConcatExtendLast(parts: seq<string>, x: string)
    requires parts != []
    ensures Concat(parts[..|parts| - 1] + [parts[|parts| - 1] + x]) == Concat(parts) + x
  {
    var front := parts[..|parts| - 1];
    ConcatSnoc(front, parts[|parts| - 1] + x);
  }

  /** Gluing one more piece on at the end. */
  lemma ConcatSnoc(parts: seq<string>, x: string)
    ensures Concat(parts + [x]) == Concat(parts) + x
  {
    assert (parts + [x])[..|parts|] == parts;
  }

  /** `re.split(r'\t+', s)` yields no empty piece when `s` is non-empty and neither starts nor ends with a tab. */
  lemma SplitTabRunsNonEmpty(s: string)
    requires s != [] && s[0] != '\t' && s[|s| - 1] != '\t'
    ensures forall i :: 0 <= i < |SplitTabRuns(s)| ==> SplitTabRuns(s)[i] != []
  {
    TabRunsPrefixNonEmpty(s);
  }

  /** Every piece of `re.split(r'\t+', s)` but the last is non-empty when `s` does not start with a tab. */
  lemma {:induction false} TabRunsPrefixNonEmpty(s: string)
    requires s == [] || s[0] != '\t'
    ensures forall i :: 0 <= i < |SplitTabRuns(s)| - 1 ==> SplitTabRuns(s)[i] != []
  {
    if s != [] {
      var t := s[..|s| - 1];
      if t != [] {
        assert t[0] == s[0];
      }
      TabRunsPrefixNonEmpty(t);
      var init := SplitTabRuns(t);
      var parts := SplitTabRuns(s);
      var c := s[|s| - 1];
      if c == '\t' {
        if !(t != [] && t[|t| - 1] == '\t') {
          assert parts == init + [""];
          if t != [] {
            assert init[|init| - 1] != [];
          }
        }
      } else {
        assert parts == init[..|init| - 1] + [init[|init| - 1] + [c]];
      }
    }
  }

  /** `s.split()`: the maximal runs of non-whitespace characters, in order. */
  function Tokens(s: string): (parts: seq<string>)
    ensures s != [] && !IsSpace(s[|s| - 1]) ==> parts != []
  {
    if s == [] then []
    else
      var t := s[..|s| - 1];
      var init := Tokens(t);
      var c := s[|s| - 1];
      if IsSpace(c) then init
      else if t == [] || IsSpace(t[|t| - 1]) then init + [[c]]
      else init[..|init| - 1] + [init[|init| - 1] + [c]]
  }

  /** Every token of `s.split()` is non-empty and free of whitespace. */
  lemma {:induction false} TokensNoSpace(s: string)
    ensures forall i :: 0 <= i < |Tokens(s)| ==> Tokens(s)[i] != [] && forall k :: 0 <= k < |Tokens(s)[i]| ==> !IsSpace(Tokens(s)[i][k])
  {
    if s != [] {
      var t := s[..|s| - 1];
      TokensNoSpace(t);
      var init := Tokens(t);
      var c := s[|s| - 1];
      var parts := Tokens(s);
      if !IsSpace(c) {
        if t == [] || IsSpace(t[|t| - 1]) {
          assert parts == init + [[c]];
        } else {
          assert parts == init[..|init| - 1] + [init[|init| - 1] + [c]];
          forall i | 0 <= i < |parts|
            ensures parts[i] != [] && forall k :: 0 <= k < |parts[i]| ==> !IsSpace(parts[i][k])
          {
            if i < |parts| - 1 {
              assert parts[i] == init[i];
            }
          }
        }
      }
    }
  }

  /** The tokens of `s.split()` put back together are `s` without its whitespace. */
  lemma {:induction false} TokensConcat(s: string)
    ensures Concat(Tokens(s)) == RemoveSpace(s)
  {
    if s != [] {
      var t := s[..|s| - 1];
      TokensConcat(t);
      var init := Tokens(t);
      var c := s[|s| - 1];
      var parts := Tokens(s);
      if !IsSpace(c) {
        if t == [] || IsSpace(t[|t| - 1]) {
          ConcatSnoc(init, [c]);
        } else {
          ConcatExtendLast(init, [c]);
        }
      }
    }
  }

  /** A word appended after whitespace (or to nothing) becomes one more token of `s.split()`. */
  lemma {:induction false} TokensAppendWord(s: string, w: string)
    requires s == [] || IsSpace(s[|s| - 1])
    requires w != [] && forall k :: 0 <= k < |w| ==> !IsSpace(w[k])
    ensures Tokens(s + w) == Tokens(s) + [w]
    decreases |w|
  {
    var c := w[|w| - 1];
    var w' := w[..|w| - 1];
    assert w == w' + [c];
    if w' == [] {
      assert s + w == s + [c];
      assert (s + [c])[..|s|] == s;
    } else {
      TokensAppendWord(s, w');
      var v := s + w';
      assert s + w == v + [c];
      TokensExtendLast(v, c);
      var init := Tokens(v);
      assert init[..|init| - 1] == Tokens(s);
    }
  }

  /** Two words with one blank between them split into those two words. */
  lemma TokensTwoWords(a: string, b: string)
    requires a != [] && forall k :: 0 <= k < |a| ==> !IsSpace(a[k])
    requires b != [] && forall k :: 0 <= k < |b| ==> !IsSpace(b[k])
    ensures Tokens(a + [' '] + b) == [a, b]
  {
    TokensAppendWord([], a);
    assert [] + a == a;
    TokensSkipSpace(a, ' ');
    TokensAppendWord(a + [' '], b);
  }

  /** A trailing whitespace character adds no token. */
  lemma TokensSkipSpace(t: string, c: char)
    requires IsSpace(c)
    ensures Tokens(t + [c]) == Tokens(t)
  {
    assert (t + [c])[..|t|] == t;
  }

  /** A non-blank character after a non-blank one lengthens the last token of `s.split()`. */
  lemma TokensExtendLast(t: string, c: char)
    requires t != [] && !IsSpace(t[|t| - 1]) && !IsSpace(c)
    ensures Tokens(t) != []
    ensures Tokens(t + [c]) == Tokens(t)[..|Tokens(t)| - 1] + [Tokens(t)[|Tokens(t)| - 1] + [c]]
  {
    assert (t + [c])[..|t|] == t;
  }

  /** A character of one piece is a character of the pieces glued together. */
  lemma {:induction false} ConcatMember(parts: seq<string>, i: nat, k: nat)
    requires i < |parts| && k < |parts[i]|
    ensures parts[i][k] in Concat(parts)
  {
    if i < |parts| - 1 {
      ConcatMember(parts[..|parts| - 1], i, k);
    } else {
      assert Concat(parts)[|Concat(parts[..|parts| - 1])| + k] == parts[i][k];
    }
  }

  /** `s` with all whitespace taken out. */
  function RemoveSpace(s: string): (r: string)
    ensures forall k :: 0 <= k < |r| ==> !IsSpace(r[k])
  {
    if s == [] then [] else RemoveSpace(s[..|s| - 1]) + (if IsSpace(s[|s| - 1]) then [] else [s[|s| - 1]])
  }

  /** A character survives whitespace removal exactly when it occurs in `s` and is not whitespace. */
  lemma {:induction false} RemoveSpaceMember(s: string, c: char)
    ensures c in RemoveSpace(s) <==> c in s && !IsSpace(c)
  {
    if s != [] {
      var t := s[..|s| - 1];
      RemoveSpaceMember(t, c);
      assert s == t + [s[|s| - 1]];
    }
  }

  /** `s.replace(a, b)` for single characters. */
  function Replace(s: string, a: char, b: char): (r: string)
    ensures |r| == |s|
    ensures forall k :: 0 <= k < |s| ==> r[k] == (if s[k] == a then b else s[k])
  {
    if s == [] then [] else [if s[0] == a then b else s[0]] + Replace(s[1..], a, b)
  }

  /** `c.upper()` for ASCII letters; every other character is kept. */
  function UpperChar(c: char): char {
    if 'a' <= c <= 'z' then (c as int - 32) as char else c
  }

  /** `s.upper()`, ASCII letters only. */
  function Upper(s: string): (r: string)
    ensures |r| == |s|
    ensures forall k :: 0 <= k < |s| ==> r[k] == UpperChar(s[k])
  {
    if s == [] then [] else [UpperChar(s[0])] + Upper(s[1..])
  }

  /** No lower-case ASCII letter from position `i` on. */
  predicate NoLowerFrom(s: string, i: nat)
    decreases |s| - i
  {
    i >= |s| || (!('a' <= s[i] <= 'z') && NoLowerFrom(s, i + 1))
  }

  /** Text without lower-case ASCII letters is its own upper case. */
  lemma UpperOfNoLower(s: string)
    requires NoLowerFrom(s, 0)
    ensures Upper(s) == s
  {
    forall k | 0 <= k < |s|
      ensures !('a' <= s[k] <= 'z')
    {
      NoLowerAt(s, 0, k);
    }
  }

  lemma {:induction false} NoLowerAt(s: string, i: nat, k: nat)
    requires NoLowerFrom(s, i) && i <= k < |s|
    ensures !('a' <= s[k] <= 'z')
    decreases k - i
  {
    if i < k {
      NoLowerAt(s, i + 1, k);
    }
  }

  /** `t` occurs in `s` at position `i`, compared from the `j`-th character of `t` on. */
  predicate MatchesFrom(s: string, t: string, i: nat, j: nat)
    requires j <= |t|
    decreases |t| - j
  {
    j == |t| || (i + j < |s| && s[i + j] == t[j] && MatchesFrom(s, t, i, j + 1))
  }

  /** `t` occurs in `s` at some position `i` or later. */
  predicate ContainsFrom(s: string, t: string, i: nat)
    decreases |s| + 1 - i
  {
    i + |t| <= |s| && (MatchesFrom(s, t, i, 0) || ContainsFrom(s, t, i + 1))
  }

  /** `t in s` for strings. */
  predicate Contains(s: string, t: string) {
    ContainsFrom(s, t, 0)
  }

  /** The character comparison agrees with slicing. */
  lemma {:induction false} MatchesFromSlice(s: string, t: string, i: nat, j: nat)
    requires j <= |t| && i + |t| <= |s|
    ensures MatchesFrom(s, t, i, j) <==> s[i..][j..|t|] == t[j..]
    decreases |t| - j
  {
    if j < |t| {
      MatchesFromSlice(s, t, i, j + 1);
      assert s[i..][j..|t|] == [s[i + j]] + s[i..][j + 1..|t|];
      assert t[j..] == [t[j]] + t[j + 1..];
    }
  }

  /** `ContainsFrom` finds exactly the positions where `t` is the slice of `s`. */
  lemma {:induction false} ContainsFromAt(s: string, t: string, i: nat)
    ensures ContainsFrom(s, t, i) <==> exists k :: i <= k <= |s| - |t| && s[k..][..|t|] == t
    decreases |s| + 1 - i
  {
    if i + |t| <= |s| {
      MatchesFromSlice(s, t, i, 0);
      assert s[i..][0..|t|] == s[i..][..|t|];
      ContainsFromAt(s, t, i + 1);
    }
  }

  /** `t in s` holds exactly when `t` is the slice of `s` at some position. */
  lemma ContainsAt(s: string, t: string)
    ensures Contains(s, t) <==> exists i :: 0 <= i <= |s| - |t| && s[i..][..|t|] == t
  {
    ContainsFromAt(s, t, 0);
  }
}
