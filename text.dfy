/**
 * The handful of Python string operations that vgenc's path and command
 * logic is built from: `str(int)`, `str.zfill`, `int(str)`, `str.replace`,
 * `in`, `str.startswith`/`endswith`, `sep.join` and `str.split(sep)`.
 * Characters are code points, as in Python 3 strings.
 */
module Text {
  import opened Wrappers

  // ---------------------------------------------------------------------
  // Decimal digits
  // ---------------------------------------------------------------------

  /** ASCII decimal digit (the model does not cover other Unicode digits) */
  predicate IsDigit(c: char) {
    '0' <= c <= '9'
  }

  predicate AllDigits(s: string) {
    forall i :: 0 <= i < |s| ==> IsDigit(s[i])
  }

  predicate NoDigit(s: string) {
    forall i :: 0 <= i < |s| ==> !IsDigit(s[i])
  }

  function DigitValue(c: char): nat
    requires IsDigit(c)
  {
    c as int - '0' as int
  }

  function DigitChar(d: nat): (c: char)
    requires d < 10
    ensures IsDigit(c) && DigitValue(c) == d
  {
    (d + '0' as int) as char
  }

  function Pow10(n: nat): (r: nat)
    ensures r > 0
  {
    if n == 0 then 1 else 10 * Pow10(n - 1)
  }

  /** The value of a string of decimal digits, leading zeros allowed */
  function DecimalValue(s: string): nat
    requires AllDigits(s)
  {
    if s == [] then 0 else 10 * DecimalValue(s[..|s| - 1]) + DigitValue(s[|s| - 1])
  }

  lemma {:induction false} DecimalValueAppend(a: string, b: string)
    requires AllDigits(a) && AllDigits(b)
    ensures AllDigits(a + b)
    ensures DecimalValue(a + b) == DecimalValue(a) * Pow10(|b|) + DecimalValue(b)
  {
    assert AllDigits(a + b);
    if b == [] {
      assert a + b == a;
    } else {
      var b' := b[..|b| - 1];
      assert (a + b)[..|a + b| - 1] == a + b';
      DecimalValueAppend(a, b');
      var A, B, d, P := DecimalValue(a), DecimalValue(b'), DigitValue(b[|b| - 1]), Pow10(|b'|);
      assert DecimalValue(a + b) == 10 * (A * P + B) + d;
      assert 10 * (A * P) == A * (10 * P) by { MulAssoc(10, A, P); }
      assert DecimalValue(b) == 10 * B + d;
      assert Pow10(|b|) == 10 * P;
    }
  }

  lemma MulAssoc(x: int, y: int, z: int)
    ensures x * (y * z) == y * (x * z)
  {
  }

  /** A string of n digits denotes a number below 10^n. */
  lemma {:induction false} DecimalValueBound(s: string)
    requires AllDigits(s)
    ensures DecimalValue(s) < Pow10(|s|)
  {
    if s != [] {
      DecimalValueBound(s[..|s| - 1]);
    }
  }

  /** Leading zeros do not change the value. */
  lemma {:induction false} DecimalValueLeadingZeros(k: nat, s: string)
    requires AllDigits(s)
    ensures AllDigits(Repeat('0', k) + s)
    ensures DecimalValue(Repeat('0', k) + s) == DecimalValue(s)
  {
    ZerosValue(k);
    DecimalValueAppend(Repeat('0', k), s);
  }

  lemma {:induction false} ZerosValue(k: nat)
    ensures AllDigits(Repeat('0', k)) && DecimalValue(Repeat('0', k)) == 0
  {
    if k > 0 {
      assert Repeat('0', k)[..k - 1] == Repeat('0', k - 1);
      ZerosValue(k - 1);
    }
  }

  lemma DecimalValueCons(c: char, rest: string)
    requires IsDigit(c) && AllDigits(rest)
    ensures AllDigits([c] + rest)
    ensures DecimalValue([c] + rest) == DigitValue(c) * Pow10(|rest|) + DecimalValue(rest)
  {
    assert DecimalValue([c]) == DigitValue(c) by {
      assert [c][..0] == [] && [c][0] == c;
    }
    DecimalValueAppend([c], rest);
  }

  lemma LeadingDigitDominates(dx: nat, dy: nat, vx: nat, vy: nat, p: nat)
    requires dx < dy && vx < p
    ensures dx * p + vx < dy * p + vy
  {
    assert (dx + 1) * p == dx * p + p;
    MulMonotone(dx + 1, dy, p);
  }

  lemma {:induction false} MulMonotone(a: nat, b: nat, p: nat)
    requires a <= b
    ensures a * p <= b * p
    decreases b - a
  {
    if a < b {
      MulMonotone(a, b - 1, p);
      assert b * p == (b - 1) * p + p;
    }
  }

  /**
   * Equal-length digit strings are ordered as numbers exactly as they are
   * ordered as strings: whatever follows them does not matter.
   */
  lemma {:induction false} LexOrderIsNumericOrder(x: string, y: string, s: string, t: string)
    requires AllDigits(x) && AllDigits(y) && |x| == |y|
    requires LexLe(x + s, y + t)
    ensures x == y || DecimalValue(x) < DecimalValue(y)
  {
    if x != [] {
      var x', y' := x[1..], y[1..];
      assert x == [x[0]] + x' && y == [y[0]] + y';
      DecimalValueCons(x[0], x');
      DecimalValueCons(y[0], y');
      assert (x + s)[0] == x[0] && (y + t)[0] == y[0];
      if x[0] == y[0] {
        assert (x + s)[1..] == x' + s && (y + t)[1..] == y' + t;
        LexOrderIsNumericOrder(x', y', s, t);
      } else {
        DecimalValueBound(x');
        LeadingDigitDominates(DigitValue(x[0]), DigitValue(y[0]), DecimalValue(x'), DecimalValue(y'), Pow10(|x'|));
      }
    }
  }

  // ---------------------------------------------------------------------
  // Python's lexicographic string order (by code point)
  // ---------------------------------------------------------------------

  predicate LexLe(a: string, b: string)
    decreases |a|
  {
    a == [] || (b != [] && (a[0] < b[0] || (a[0] == b[0] && LexLe(a[1..], b[1..]))))
  }

  /** Strings sharing a prefix compare like what follows the prefix. */
  lemma {:induction false} LexLeDropPrefix(p: string, a: string, b: string)
    requires LexLe(p + a, p + b)
    ensures LexLe(a, b)
  {
    if p != [] {
      assert (p + a)[0] == p[0] && (p + b)[0] == p[0];
      assert (p + a)[1..] == p[1..] + a && (p + b)[1..] == p[1..] + b;
      LexLeDropPrefix(p[1..], a, b);
    } else {
      assert p + a == a && p + b == b;
    }
  }

  // ---------------------------------------------------------------------
  // str(int) and str.zfill
  // ---------------------------------------------------------------------

  function Repeat(c: char, n: nat): string {
    seq(n, _ => c)
  }

  /** Python's `str(n)` for n >= 0: no leading zero except for "0" itself */
  function NatToStr(n: nat): (r: string)
    ensures |r| > 0 && AllDigits(r) && DecimalValue(r) == n
    ensures r[0] == '0' ==> r == "0"
  {
    if n < 10 then [DigitChar(n)]
    else
      var front := NatToStr(n / 10);
      var r := front + [DigitChar(n % 10)];
      assert r[..|r| - 1] == front;
      r
  }

  /** Python's `str(n)` for any int: a minus sign before the digits of -n */
  function IntToStr(n: int): string {
    if n < 0 then "-" + NatToStr(-n) else NatToStr(n)
  }

  /**
   * Python's `s.zfill(width)`: zeros are inserted after a leading sign, and
   * nothing is ever cut off.
   */
  function ZFill(s: string, width: int): (r: string)
    ensures |r| == if width > |s| then width else |s|
    ensures |s| >= width ==> r == s
  {
    if |s| >= width then s
    else if |s| > 0 && (s[0] == '+' || s[0] == '-') then [s[0]] + Repeat('0', width - |s|) + s[1..]
    else Repeat('0', width - |s|) + s
  }

  // ---------------------------------------------------------------------
  // int(str)
  // ---------------------------------------------------------------------

  /** The ASCII characters Python's `str.isspace` accepts */
  predicate IsSpace(c: char) {
    c == ' ' || (9 <= c as int <= 13) || (28 <= c as int <= 31)
  }

  function TrimStart(s: string): (r: string)
    ensures |r| <= |s| && r == s[|s| - |r|..]
    ensures r == [] || !IsSpace(r[0])
  {
    if s != [] && IsSpace(s[0]) then TrimStart(s[1..]) else s
  }

  function TrimEnd(s: string): (r: string)
    ensures |r| <= |s| && r == s[..|r|]
    ensures r == [] || !IsSpace(r[|r| - 1])
  {
    if s != [] && IsSpace(s[|s| - 1]) then TrimEnd(s[..|s| - 1]) else s
  }

  function Strip(s: string): string {
    TrimEnd(TrimStart(s))
  }

  /**
   * Python's `int(s)` on decimal text: surrounding whitespace, an optional
   * sign, then one or more digits; anything else raises ValueError (None here).
   */
  function ParseInt(s: string): Option<int> {
    var t := Strip(s);
    if |t| > 0 && (t[0] == '+' || t[0] == '-') then
      if |t| > 1 && AllDigits(t[1..]) then
        var v: int := DecimalValue(t[1..]);
        Some(if t[0] == '-' then -v else v)
      else None
    else if |t| > 0 && AllDigits(t) then Some(DecimalValue(t))
    else None
  }

  /** `int()` of plain digits is their value. */
  lemma ParseIntOfDigits(g: string)
    requires g != [] && AllDigits(g)
    ensures ParseInt(g) == Some(DecimalValue(g))
  {
    StripUnchanged(g);
  }

  lemma StripUnchanged(s: string)
    requires s != [] && !IsSpace(s[0]) && !IsSpace(s[|s| - 1])
    ensures Strip(s) == s
  {
  }

  /**
   * `int(str(n).zfill(w)) == n`: zero-padding a number's text never loses
   * the number, whatever the width.
   */
  lemma ParseIntZFill(n: int, width: int)
    ensures ParseInt(ZFill(IntToStr(n), width)) == Some(n)
  {
    if n < 0 {
      ParseIntZFillNegative(n, width);
    } else {
      ParseIntZFillNatural(n, width);
    }
  }

  lemma ParseIntZFillNatural(n: nat, width: int)
    ensures ParseInt(ZFill(IntToStr(n), width)) == Some(n)
  {
    var digits := NatToStr(n);
    var z := ZFill(digits, width);
    var k := if |digits| >= width then 0 else width - |digits|;
    assert z == Repeat('0', k) + digits;
    DecimalValueLeadingZeros(k, digits);
    StripUnchanged(z);
  }

  lemma ParseIntZFillNegative(n: int, width: int)
    requires n < 0
    ensures ParseInt(ZFill(IntToStr(n), width)) == Some(n)
  {
    var digits := NatToStr(-n);
    assert IntToStr(n) == "-" + digits;
    ZFillSigned(digits, width);
    var k := if 1 + |digits| >= width then 0 else width - 1 - |digits|;
    var body := Repeat('0', k) + digits;
    assert ZFill(IntToStr(n), width) == "-" + body;
    DecimalValueLeadingZeros(k, digits);
    NegativeParse(body);
  }

  lemma ZFillSigned(digits: string, width: int)
    ensures ZFill("-" + digits, width) ==
      "-" + Repeat('0', if 1 + |digits| >= width then 0 else width - 1 - |digits|) + digits
  {
    var s := "-" + digits;
    assert s[0] == '-' && s[1..] == digits;
    assert Repeat('0', 0) == "";
  }

  lemma NegativeParse(body: string)
    requires body != [] && AllDigits(body)
    ensures ParseInt("-" + body) == Some(-(DecimalValue(body) as int))
  {
    var z := "-" + body;
    assert z[|z| - 1] == body[|body| - 1];
    assert z[1..] == body;
    StripUnchanged(z);
  }

  /** Trailing whitespace stops at the last character that is not whitespace. */
  lemma {:induction false} TrimEndKeeps(s: string, i: nat)
    requires i < |s| && !IsSpace(s[i])
    ensures |TrimEnd(s)| > i
    decreases |s|
  {
    if s != [] && IsSpace(s[|s| - 1]) {
      TrimEndKeeps(s[..|s| - 1], i);
    }
  }

  /**
   * `int()` rejects a text that starts with neither whitespace nor a sign
   * and holds a character that is neither a digit nor whitespace, whatever
   * whitespace ends it.
   */
  lemma RejectsNonDigit(t: string, i: nat)
    requires i < |t| && !IsSpace(t[0]) && t[0] != '+' && t[0] != '-'
    requires !IsDigit(t[i]) && !IsSpace(t[i])
    ensures ParseInt(t) == None
  {
    assert TrimStart(t) == t;
    TrimEndKeeps(t, i);
    var u := Strip(t);
    assert u[0] == t[0] && u[i] == t[i];
  }

  /** Distinct numbers have distinct zero-padded texts. */
  lemma ZFillInjective(m: int, n: int, width: int)
    requires ZFill(IntToStr(m), width) == ZFill(IntToStr(n), width)
    ensures m == n
  {
    ParseIntZFill(m, width);
    ParseIntZFill(n, width);
  }

  // ---------------------------------------------------------------------
  // `in`, str.count and str.replace
  // ---------------------------------------------------------------------

  predicate StartsWith(s: string, p: string) {
    |p| <= |s| && s[..|p|] == p
  }

  predicate EndsWith(s: string, p: string) {
    |p| <= |s| && s[|s| - |p|..] == p
  }

  /** Python's `pat in s` */
  predicate Contains(s: string, pat: string) {
    exists i | 0 <= i <= |s| :: OccursAt(s, pat, i)
  }

  predicate OccursAt(s: string, pat: string, i: int) {
    0 <= i <= |s| - |pat| && s[i..i + |pat|] == pat
  }

  /** Python's `s.count(pat)`: non-overlapping occurrences, left to right */
  function Count(s: string, pat: string): nat
    requires |pat| > 0
    decreases |s|
  {
    if |s| < |pat| then 0
    else if s[..|pat|] == pat then 1 + Count(s[|pat|..], pat)
    else Count(s[1..], pat)
  }

  /** Python's `s.replace(pat, rep)`: every non-overlapping occurrence, left to right */
  function ReplaceAll(s: string, pat: string, rep: string): string
    requires |pat| > 0
    decreases |s|
  {
    if |s| < |pat| then s
    else if s[..|pat|] == pat then rep + ReplaceAll(s[|pat|..], pat, rep)
    else [s[0]] + ReplaceAll(s[1..], pat, rep)
  }

  /** `s.count(pat) > 0` exactly when `pat in s` */
  lemma {:induction false} CountPositiveIffContains(s: string, pat: string)
    requires |pat| > 0
    ensures Count(s, pat) > 0 <==> Contains(s, pat)
  {
    if |s| < |pat| {
    } else if s[..|pat|] == pat {
      assert OccursAt(s, pat, 0);
    } else {
      CountPositiveIffContains(s[1..], pat);
      if Contains(s, pat) {
        var i :| 0 <= i <= |s| && OccursAt(s, pat, i);
        assert 0 <= i <= |s| - |pat| && s[i..i + |pat|] == pat;
        assert i != 0;
        assert s[1..][i - 1..i - 1 + |pat|] == s[i..i + |pat|];
        assert OccursAt(s[1..], pat, i - 1);
      }
      if Contains(s[1..], pat) {
        var i :| 0 <= i <= |s[1..]| && OccursAt(s[1..], pat, i);
        assert 0 <= i <= |s| - 1 - |pat| && s[1..][i..i + |pat|] == pat;
        assert s[i + 1..i + 1 + |pat|] == s[1..][i..i + |pat|];
        assert OccursAt(s, pat, i + 1);
      }
    }
  }

  /** Without an occurrence, replacing changes nothing. */
  lemma {:induction false} ReplaceAbsent(s: string, pat: string, rep: string)
    requires |pat| > 0 && Count(s, pat) == 0
    ensures ReplaceAll(s, pat, rep) == s
  {
    if |s| >= |pat| {
      ReplaceAbsent(s[1..], pat, rep);
      assert [s[0]] + s[1..] == s;
    }
  }

  lemma OneMore(c: int, d: int)
    ensures (1 + c) * d == d + c * d
  {
  }

  /** Each of the `Count` occurrences grows or shrinks the text by |rep| - |pat|. */
  lemma {:induction false} ReplaceLength(s: string, pat: string, rep: string)
    requires |pat| > 0
    ensures |ReplaceAll(s, pat, rep)| == |s| + Count(s, pat) * (|rep| - |pat|)
  {
    if |s| < |pat| {
    } else if s[..|pat|] == pat {
      var t := s[|pat|..];
      ReplaceLength(t, pat, rep);
      var c, d := Count(t, pat), |rep| - |pat|;
      assert Count(s, pat) == 1 + c;
      assert |ReplaceAll(s, pat, rep)| == |rep| + |ReplaceAll(t, pat, rep)|;
      OneMore(c, d);
    } else {
      ReplaceLength(s[1..], pat, rep);
    }
  }

  /**
   * When `pat` occurs, the result of replacing it determines the
   * replacement: two different replacements give two different strings.
   */
  lemma ReplaceInjective(s: string, pat: string, r1: string, r2: string)
    requires |pat| > 0 && Count(s, pat) > 0
    requires ReplaceAll(s, pat, r1) == ReplaceAll(s, pat, r2)
    ensures r1 == r2
  {
    if |r1| < |r2| {
      ReplaceLonger(s, pat, r1, r2);
    } else if |r2| < |r1| {
      ReplaceLonger(s, pat, r2, r1);
    }
    ReplaceInjectiveSameLength(s, pat, r1, r2);
  }

  /** A longer replacement gives a longer result once `pat` occurs. */
  lemma {:induction false} ReplaceLonger(s: string, pat: string, r1: string, r2: string)
    requires |pat| > 0 && |r1| < |r2|
    ensures Count(s, pat) > 0 ==> |ReplaceAll(s, pat, r1)| < |ReplaceAll(s, pat, r2)|
    ensures |ReplaceAll(s, pat, r1)| <= |ReplaceAll(s, pat, r2)|
    decreases |s|
  {
    if |s| < |pat| {
    } else if s[..|pat|] == pat {
      ReplaceLonger(s[|pat|..], pat, r1, r2);
    } else {
      ReplaceLonger(s[1..], pat, r1, r2);
    }
  }

  lemma {:induction false} ReplaceInjectiveSameLength(s: string, pat: string, r1: string, r2: string)
    requires |pat| > 0 && Count(s, pat) > 0 && |r1| == |r2|
    requires ReplaceAll(s, pat, r1) == ReplaceAll(s, pat, r2)
    ensures r1 == r2
  {
    if s[..|pat|] == pat {
      var a := ReplaceAll(s, pat, r1);
      assert a[..|r1|] == r1;
      assert ReplaceAll(s, pat, r2)[..|r2|] == r2;
    } else {
      assert ReplaceAll(s[1..], pat, r1) == ReplaceAll(s, pat, r1)[1..];
      assert ReplaceAll(s[1..], pat, r2) == ReplaceAll(s, pat, r2)[1..];
      ReplaceInjectiveSameLength(s[1..], pat, r1, r2);
    }
  }

  /** Replacing one character by another works character by character. */
  lemma {:induction false} ReplaceCharAt(s: string, a: char, b: char)
    ensures |ReplaceAll(s, [a], [b])| == |s|
    ensures forall i :: 0 <= i < |s| ==>
      ReplaceAll(s, [a], [b])[i] == if s[i] == a then b else s[i]
  {
    if |s| > 0 {
      ReplaceCharAt(s[1..], a, b);
      var r := ReplaceAll(s, [a], [b]);
      if s[..1] == [a] {
        assert r == [b] + ReplaceAll(s[1..], [a], [b]);
      } else {
        assert r == [s[0]] + ReplaceAll(s[1..], [a], [b]);
      }
    }
  }

  // ---------------------------------------------------------------------
  // sep.join and str.split
  // ---------------------------------------------------------------------

  /** Python's `sep.join(parts)` */
  function Join(sep: string, parts: seq<string>): string
    decreases |parts|
  {
    if parts == [] then ""
    else if |parts| == 1 then parts[0]
    else parts[0] + sep + Join(sep, parts[1..])
  }

  /** Python's `s.split(c)` for a one-character separator: never an empty list */
  function Split(s: string, c: char): (r: seq<string>)
    ensures |r| > 0
    decreases |s|
  {
    if s == [] then [""]
    else if s[0] == c then [""] + Split(s[1..], c)
    else
      var rest := Split(s[1..], c);
      [[s[0]] + rest[0]] + rest[1..]
  }

  predicate Free(s: string, c: char) {
    forall i :: 0 <= i < |s| ==> s[i] != c
  }

  /** A string cut around the characters at p and q */
  lemma CutAround(s: string, p: nat, q: nat)
    requires p < q < |s|
    ensures s == s[..p] + [s[p]] + s[p + 1..q] + [s[q]] + s[q + 1..]
  {
    assert s[..p + 1] == s[..p] + [s[p]];
    assert s[..q] == s[..p + 1] + s[p + 1..q];
    assert s[..q + 1] == s[..q] + [s[q]];
    assert s == s[..q + 1] + s[q + 1..];
  }

  lemma FreeAppend(x: string, y: string, c: char)
    ensures Free(x + y, c) <==> Free(x, c) && Free(y, c)
  {
    assert forall k :: 0 <= k < |x| ==> (x + y)[k] == x[k];
    assert forall k :: 0 <= k < |y| ==> (x + y)[|x| + k] == y[k];
  }

  /** Pieces of a split never hold the separator. */
  lemma {:induction false} SplitPiecesFree(s: string, c: char)
    ensures forall k :: 0 <= k < |Split(s, c)| ==> Free(Split(s, c)[k], c)
  {
    if s != [] {
      SplitPiecesFree(s[1..], c);
    }
  }

  /** Joining the pieces of a split gives back the string. */
  lemma {:induction false} JoinSplit(s: string, c: char)
    ensures Join([c], Split(s, c)) == s
  {
    if s != [] {
      var rest := Split(s[1..], c);
      JoinSplit(s[1..], c);
      if s[0] == c {
        assert Split(s, c) == [""] + rest;
        assert Join([c], [""] + rest) == "" + [c] + Join([c], rest);
      } else {
        var r := [[s[0]] + rest[0]] + rest[1..];
        if |rest| == 1 {
          assert Join([c], r) == [s[0]] + rest[0];
        } else {
          assert r[1..] == rest[1..];
          assert Join([c], r) == [s[0]] + rest[0] + [c] + Join([c], rest[1..]);
          assert Join([c], rest) == rest[0] + [c] + Join([c], rest[1..]);
        }
      }
    }
  }

  /** Splitting a join whose parts avoid the separator gives back the parts. */
  lemma {:induction false} SplitJoin(parts: seq<string>, c: char)
    requires |parts| > 0
    requires forall k :: 0 <= k < |parts| ==> Free(parts[k], c)
    ensures Split(Join([c], parts), c) == parts
  {
    if |parts| == 1 {
      SplitFree(parts[0], c);
    } else {
      SplitJoin(parts[1..], c);
      assert Join([c], parts) == parts[0] + ([c] + Join([c], parts[1..]));
      SplitAfterFreePrefix(parts[0], c, Join([c], parts[1..]));
      assert parts == [parts[0]] + parts[1..];
    }
  }

  lemma {:induction false} SplitFree(s: string, c: char)
    requires Free(s, c)
    ensures Split(s, c) == [s]
  {
    if s != [] {
      SplitFree(s[1..], c);
      assert [s[0]] + s[1..] == s;
    }
  }

  lemma {:induction false} SplitAfterFreePrefix(x: string, c: char, rest: string)
    requires Free(x, c)
    ensures Split(x + ([c] + rest), c) == [x] + Split(rest, c)
  {
    if x == [] {
      assert x + ([c] + rest) == [c] + rest;
      assert ([c] + rest)[1..] == rest;
    } else {
      var s := x + ([c] + rest);
      assert s[1..] == x[1..] + ([c] + rest);
      SplitAfterFreePrefix(x[1..], c, rest);
      assert [x[0]] + x[1..] == x;
    }
  }
}
