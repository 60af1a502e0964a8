/** The handful of Python `str` operations the reconciliation code relies on:
    whitespace stripping, prefix/suffix tests, ASCII lower-casing, `find`,
    `split` on one character, `count`, `posixpath.join` and `int()`. */
module Text {
  import opened Results

  /** Python's `str.isspace` for a single character. */
  predicate IsSpace(c: char) {
    || c == ' '
    || ('\t' <= c <= '\r')
    || ('\U{1C}' <= c <= '\U{1F}')
    || c == '\U{85}' || c == '\U{A0}' || c == '\U{1680}'
    || ('\U{2000}' <= c <= '\U{200A}')
    || c == '\U{2028}' || c == '\U{2029}' || c == '\U{202F}'
    || c == '\U{205F}' || c == '\U{3000}'
  }

  /** The first position at or after `i` that does not hold whitespace, or
      the length when there is none. */
  function SpanFrom(s: string, i: nat): (k: nat)
    requires i <= |s|
    ensures i <= k <= |s|
    ensures forall j :: i <= j < k ==> IsSpace(s[j])
    ensures k < |s| ==> !IsSpace(s[k])
    decreases |s| - i
  {
    if i < |s| && IsSpace(s[i]) then SpanFrom(s, i + 1) else i
  }

  /** The last position at or before `i` that does not follow whitespace:
      the end of `s[..i]` once its trailing whitespace is removed. */
  function SpanTo(s: string, i: nat): (k: nat)
    requires i <= |s|
    ensures k <= i
    ensures forall j :: k <= j < i ==> IsSpace(s[j])
    ensures k > 0 ==> !IsSpace(s[k - 1])
    decreases i
  {
    if i > 0 && IsSpace(s[i - 1]) then SpanTo(s, i - 1) else i
  }

  /** `s.lstrip()`: the suffix left after removing every leading whitespace character. */
  function LStrip(s: string): (r: string)
    ensures |r| <= |s| && r == s[|s| - |r|..]
    ensures |r| > 0 ==> !IsSpace(r[0])
    ensures forall i :: 0 <= i < |s| - |r| ==> IsSpace(s[i])
  {
    s[SpanFrom(s, 0)..]
  }

  /** `s.rstrip()`: the prefix left after removing every trailing whitespace character. */
  function RStrip(s: string): (r: string)
    ensures |r| <= |s| && r == s[..|r|]
    ensures |r| > 0 ==> !IsSpace(r[|r| - 1])
    ensures forall i :: |r| <= i < |s| ==> IsSpace(s[i])
  {
    s[..SpanTo(s, |s|)]
  }

  /** `s.strip()`. */
  function Strip(s: string): string {
    LStrip(RStrip(s))
  }

  predicate StartsWith(s: string, p: string) {
    |p| <= |s| && s[..|p|] == p
  }

  predicate EndsWith(s: string, p: string) {
    |p| <= |s| && s[|s| - |p|..] == p
  }

  /** Lower-casing of one character; only the ASCII letters change. */
  function LowerChar(c: char): char {
    if 'A' <= c <= 'Z' then (c as int + 32) as char else c
  }

  function Lower(s: string): (r: string)
    ensures |r| == |s|
  {
    seq(|s|, i requires 0 <= i < |s| => LowerChar(s[i]))
  }

  predicate OccursAt(s: string, p: string, i: int) {
    0 <= i && i + |p| <= |s| && s[i..i + |p|] == p
  }

  /** `p` is a substring of `s`. */
  predicate Contains(s: string, p: string) {
    exists i :: 0 <= i <= |s| && OccursAt(s, p, i)
  }

  function FindFrom(s: string, p: string, i: nat): (r: int)
    ensures r == -1 || (i <= r && OccursAt(s, p, r))
    ensures r == -1 ==> forall j :: i <= j ==> !OccursAt(s, p, j)
    ensures r != -1 ==> forall j :: i <= j < r ==> !OccursAt(s, p, j)
    decreases |s| + 1 - i
  {
    if i + |p| > |s| then -1
    else if s[i..i + |p|] == p then i
    else FindFrom(s, p, i + 1)
  }

  /** `s.find(p)`: the lowest index at which `p` occurs, or -1. */
  function Find(s: string, p: string): (r: int)
    ensures -1 <= r
    ensures r == -1 <==> !Contains(s, p)
    ensures r >= 0 ==> OccursAt(s, p, r) && forall j :: 0 <= j < r ==> !OccursAt(s, p, j)
  {
    FindFrom(s, p, 0)
  }

  /** Index of the first `c` in `s`, or -1. */
  function FindChar(s: string, c: char): (r: int)
    ensures -1 <= r
    ensures r == -1 <==> c !in s
    ensures r >= 0 ==> r < |s| && s[r] == c && c !in s[..r]
  {
    if |s| == 0 then -1
    else if s[0] == c then 0
    else
      var k := FindChar(s[1..], c);
      if k == -1 then -1
      else
        assert s[..k + 1] == [s[0]] + s[1..][..k];
        k + 1
  }

  /** `s.rfind(c)`: index of the last `c` in `s`, or -1. */
  function RFindChar(s: string, c: char): (r: int)
    ensures -1 <= r
    ensures r == -1 <==> c !in s
    ensures r >= 0 ==> r < |s| && s[r] == c && c !in s[r + 1..]
  {
    if |s| == 0 then -1
    else if s[|s| - 1] == c then |s| - 1
    else
      assert s == s[..|s| - 1] + [s[|s| - 1]];
      RFindChar(s[..|s| - 1], c)
  }

  /** Joins `fields` with `sep` between consecutive ones (`sep.join(fields)`). */
  function JoinWith(fields: seq<string>, sep: char): string
    requires |fields| >= 1
  {
    if |fields| == 1 then fields[0] else fields[0] + [sep] + JoinWith(fields[1..], sep)
  }

  /** `s.split(sep)` with an explicit one-character separator: adjacent
      separators give empty fields, and there is always at least one field. */
  function Split(s: string, sep: char): (r: seq<string>)
    ensures |r| >= 1
    ensures forall k :: 0 <= k < |r| ==> sep !in r[k]
    ensures JoinWith(r, sep) == s
    decreases |s|
  {
    var i := FindChar(s, sep);
    if i == -1 then [s]
    else
      assert s == s[..i] + [sep] + s[i + 1..];
      [s[..i]] + Split(s[i + 1..], sep)
  }

  /** Splitting a join of separator-free fields gives the fields back. */
  lemma {:induction false} SplitJoin(fields: seq<string>, sep: char)
    requires |fields| >= 1
    requires forall k :: 0 <= k < |fields| ==> sep !in fields[k]
    ensures Split(JoinWith(fields, sep), sep) == fields
    decreases |fields|
  {
    var s := JoinWith(fields, sep);
    if |fields| == 1 {
      assert FindChar(s, sep) == -1;
    } else {
      var rest := JoinWith(fields[1..], sep);
      assert s == fields[0] + [sep] + rest;
      FindCharAfter(fields[0], sep, rest);
      var i := |fields[0]|;
      assert s[..i] == fields[0];
      assert s[i + 1..] == rest;
      SplitJoin(fields[1..], sep);
    }
  }

  lemma {:induction false} FindCharAfter(a: string, c: char, b: string)
    requires c !in a
    ensures FindChar(a + [c] + b, c) == |a|
    decreases |a|
  {
    var s := a + [c] + b;
    if |a| > 0 {
      assert s[0] == a[0];
      assert s[1..] == a[1..] + [c] + b;
      FindCharAfter(a[1..], c, b);
    }
  }

  /** `s.count(c)` for a single character. */
  function CountChar(s: string, c: char): nat {
    if |s| == 0 then 0 else (if s[0] == c then 1 else 0) + CountChar(s[1..], c)
  }

  lemma {:induction false} CountCharAppend(a: string, b: string, c: char)
    ensures CountChar(a + b, c) == CountChar(a, c) + CountChar(b, c)
    decreases |a|
  {
    if |a| > 0 {
      assert (a + b)[1..] == a[1..] + b;
      CountCharAppend(a[1..], b, c);
    } else {
      assert a + b == b;
    }
  }

  lemma {:induction false} CountCharAbsent(s: string, c: char)
    requires c !in s
    ensures CountChar(s, c) == 0
    decreases |s|
  {
    if |s| > 0 {
      assert forall k :: 0 <= k < |s[1..]| ==> s[1..][k] == s[k + 1];
      CountCharAbsent(s[1..], c);
    }
  }

  /** Counting a separator counts the boundaries between the fields it
      splits the string into. */
  lemma {:induction false} CountIsFieldsMinusOne(s: string, c: char)
    ensures CountChar(s, c) == |Split(s, c)| - 1
    decreases |s|
  {
    var i := FindChar(s, c);
    if i == -1 {
      CountCharAbsent(s, c);
    } else {
      assert s == s[..i] + ([c] + s[i + 1..]);
      CountCharAppend(s[..i], [c] + s[i + 1..], c);
      CountCharAppend([c], s[i + 1..], c);
      CountCharAbsent(s[..i], c);
      assert CountChar([c], c) == 1;
      CountIsFieldsMinusOne(s[i + 1..], c);
    }
  }

  /** `posixpath.join(a, b)` (also `os.path.join` on POSIX). */
  function PathJoin(a: string, b: string): (r: string)
    ensures EndsWith(r, b)
    ensures !StartsWith(b, "/") ==> StartsWith(r, a) && |a| + |b| <= |r| <= |a| + |b| + 1
    ensures StartsWith(b, "/") ==> r == b
  {
    if StartsWith(b, "/") then b
    else if a == "" || EndsWith(a, "/") then a + b
    else a + "/" + b
  }

  predicate IsDigit(c: char) {
    '0' <= c <= '9'
  }

  /** The digit part Python's `int()` accepts: ASCII digits, with single
      underscores allowed between two digits. */
  predicate DigitGroups(t: string)
    decreases |t|
  {
    && |t| > 0
    && IsDigit(t[|t| - 1])
    && (|t| == 1
        || (IsDigit(t[|t| - 2]) && DigitGroups(t[..|t| - 1]))
        || (t[|t| - 2] == '_' && DigitGroups(t[..|t| - 2])))
  }

  /** Decimal value of a digit string, underscores ignored. */
  function DigitsValue(t: string): int {
    if |t| == 0 then 0
    else if t[|t| - 1] == '_' then DigitsValue(t[..|t| - 1])
    else 10 * DigitsValue(t[..|t| - 1]) + (t[|t| - 1] as int - '0' as int)
  }

  /** Python's `int(s)` on a string: surrounding whitespace, an optional sign,
      then decimal digit groups; anything else raises (here: `None`). */
  function PyInt(s: string): Option<int> {
    PyIntOfStripped(Strip(s))
  }

  function PyIntOfStripped(t: string): Option<int> {
    if |t| > 0 && (t[0] == '+' || t[0] == '-') then
      if DigitGroups(t[1..]) then
        Some(if t[0] == '-' then -DigitsValue(t[1..]) else DigitsValue(t[1..]))
      else None
    else if DigitGroups(t) then Some(DigitsValue(t))
    else None
  }

  function DigitChar(d: nat): char
    requires d < 10
  {
    (d + '0' as int) as char
  }

  /** Decimal rendering of a natural number, as `str(n)` writes it. */
  function ShowNat(n: nat): (r: string)
    ensures |r| > 0
    ensures forall i :: 0 <= i < |r| ==> IsDigit(r[i])
  {
    if n < 10 then [DigitChar(n)] else ShowNat(n / 10) + [DigitChar(n % 10)]
  }

  /** Decimal rendering of an integer, as `str(n)` writes it. */
  function ShowInt(n: int): string {
    if n < 0 then "-" + ShowNat(-n) else ShowNat(n)
  }

  lemma {:induction false} DigitsValueShowNat(n: nat)
    ensures DigitsValue(ShowNat(n)) == n
  {
    if n >= 10 {
      var s := ShowNat(n);
      assert s[..|s| - 1] == ShowNat(n / 10);
      DigitsValueShowNat(n / 10);
    }
  }

  lemma {:induction false} PyIntOfDigits(t: string)
    requires |t| > 0 && forall i :: 0 <= i < |t| ==> IsDigit(t[i])
    ensures DigitGroups(t)
    decreases |t|
  {
    if |t| > 1 {
      PyIntOfDigits(t[..|t| - 1]);
    }
  }

  /** `int()` reads back what `str()` writes, even with surrounding whitespace. */
  lemma {:induction false} PyIntShowInt(n: int, pad: string)
    requires forall i :: 0 <= i < |pad| ==> pad[i] == ' '
    ensures PyInt(pad + ShowInt(n) + pad) == Some(n)
  {
    var t := ShowInt(n);
    var m: nat := if n < 0 then -n else n;
    var digits := ShowNat(m);
    assert !IsSpace(digits[0]) && !IsSpace(digits[|digits| - 1]);
    StripPadded(pad, t);
    assert Strip(pad + t + pad) == t;
    PyIntUnpadded(n);
  }

  lemma {:induction false} PyIntUnpadded(n: int)
    ensures PyIntOfStripped(ShowInt(n)) == Some(n)
  {
    var m: nat := if n < 0 then -n else n;
    var digits := ShowNat(m);
    DigitsValueShowNat(m);
    PyIntOfDigits(digits);
    if n < 0 {
      assert ShowInt(n)[1..] == digits;
    }
  }

  /** Spaces between `m` and `i` are skipped when scanning back from `i`. */
  lemma {:induction false} SpanToSpaces(s: string, m: nat, i: nat)
    requires m <= i <= |s|
    requires forall j :: m <= j < i ==> s[j] == ' '
    ensures SpanTo(s, i) == SpanTo(s, m)
    decreases i
  {
    if m < i {
      SpanToSpaces(s, m, i - 1);
    }
  }

  /** Spaces between `i` and `m` are skipped when scanning forward from `i`. */
  lemma {:induction false} SpanFromSpaces(s: string, i: nat, m: nat)
    requires i <= m <= |s|
    requires forall j :: i <= j < m ==> s[j] == ' '
    ensures SpanFrom(s, i) == SpanFrom(s, m)
    decreases m - i
  {
    if i < m {
      SpanFromSpaces(s, i + 1, m);
    }
  }

  lemma {:induction false} StripPadded(pad: string, t: string)
    requires forall i :: 0 <= i < |pad| ==> pad[i] == ' '
    requires |t| > 0 && !IsSpace(t[0]) && !IsSpace(t[|t| - 1])
    ensures Strip(pad + t + pad) == t
  {
    var s := pad + t + pad;
    var e := |pad| + |t|;
    SpanToSpaces(s, e, |s|);
    assert s[e - 1] == t[|t| - 1];
    var u := s[..e];
    assert u == pad + t;
    SpanFromSpaces(u, 0, |pad|);
    assert u[|pad|] == t[0];
    assert u[|pad|..] == t;
  }
}
