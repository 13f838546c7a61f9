/**
 * Frame-number placeholders in image-sequence paths (vgenc/files.py).
 *
 * `GetFrameInfo` splits a path around the placeholder that stands for the
 * frame number; `FindImageSequenceRange` finds the first and last frame
 * numbers of a sequence in a directory listing. The Python code uses three
 * regular expressions; each is a hand-written scanner here, and the lemmas
 * say what each scanner finds independently of how it scans.
 */
module Files {
  import opened Wrappers
  import opened Text

  /**
   * The dict `get_frame_info` returns: `digits` is the placeholder width,
   * `start` and `end` are the text around the placeholder, and `number` is
   * the frame number when the path holds a literal one.
   */
  datatype FrameInfo = FrameInfo(digits: nat, start: string, end: string, number: Option<nat>)

  // ---------------------------------------------------------------------
  // Scanners
  // ---------------------------------------------------------------------

  /** The first index at or after i where s holds c */
  function IndexOf(s: string, c: char, i: nat): (r: Option<nat>)
    requires i <= |s|
    ensures r.Some? ==> i <= r.value < |s| && s[r.value] == c
    ensures r.Some? ==> forall k :: i <= k < r.value ==> s[k] != c
    ensures r.None? ==> forall k :: i <= k < |s| ==> s[k] != c
    decreases |s| - i
  {
    if i == |s| then None
    else if s[i] == c then Some(i)
    else IndexOf(s, c, i + 1)
  }

  /** The end of the run of c that starts at i (i itself when s[i] != c) */
  function RunEnd(s: string, i: nat, c: char): (j: nat)
    requires i <= |s|
    ensures i <= j <= |s|
    ensures forall k :: i <= k < j ==> s[k] == c
    ensures j == |s| || s[j] != c
    decreases |s| - i
  {
    if i < |s| && s[i] == c then RunEnd(s, i + 1, c) else i
  }

  /** The end of the run of digits that starts at i */
  function DigitRunEnd(s: string, i: nat): (j: nat)
    requires i <= |s|
    ensures i <= j <= |s|
    ensures AllDigits(s[i..j])
    ensures j == |s| || !IsDigit(s[j])
    decreases |s| - i
  {
    if i < |s| && IsDigit(s[i]) then
      var j := DigitRunEnd(s, i + 1);
      assert s[i..j] == [s[i]] + s[i + 1..j];
      j
    else i
  }

  /** A run of digits ends where a non-digit (or the end) follows it. */
  lemma {:induction false} DigitRunEndIs(s: string, i: nat, j: nat)
    requires i <= j <= |s| && AllDigits(s[i..j]) && (j == |s| || !IsDigit(s[j]))
    ensures DigitRunEnd(s, i) == j
    decreases j - i
  {
    if i < j {
      assert s[i] == s[i..j][0];
      assert s[i + 1..j] == s[i..j][1..];
      DigitRunEndIs(s, i + 1, j);
    }
  }

  /** The regular expression `%(\d+)d` matches at p. */
  predicate PrintfAt(s: string, p: nat) {
    p < |s| && s[p] == '%' &&
    var q := DigitRunEnd(s, p + 1);
    p + 1 < q < |s| && s[q] == 'd'
  }

  /** The leftmost match of `%(\d+)d` at or after p */
  function FindPrintf(s: string, p: nat): (r: Option<nat>)
    requires p <= |s|
    ensures r.Some? ==> p <= r.value < |s| && PrintfAt(s, r.value)
    ensures r.Some? ==> forall k :: p <= k < r.value ==> !PrintfAt(s, k)
    ensures r.None? ==> forall k :: p <= k < |s| ==> !PrintfAt(s, k)
    decreases |s| - p
  {
    if p == |s| then None
    else if PrintfAt(s, p) then Some(p)
    else FindPrintf(s, p + 1)
  }

  /** The leftmost match is the one with no match before it. */
  lemma {:induction false} FindPrintfIs(s: string, p0: nat, p: nat)
    requires p0 <= p < |s| && PrintfAt(s, p)
    requires forall k :: p0 <= k < p ==> !PrintfAt(s, k)
    ensures FindPrintf(s, p0) == Some(p)
    decreases p - p0
  {
    if p0 < p {
      FindPrintfIs(s, p0 + 1, p);
    }
  }

  /** The index of the last digit of s */
  function LastDigit(s: string): (r: Option<nat>)
    ensures r.Some? ==> r.value < |s| && IsDigit(s[r.value]) && NoDigit(s[r.value + 1..])
    ensures r.None? ==> NoDigit(s)
  {
    if s == [] then None
    else if IsDigit(s[|s| - 1]) then Some(|s| - 1)
    else
      var r := LastDigit(s[..|s| - 1]);
      assert r.Some? ==> s[r.value + 1..] == s[..|s| - 1][r.value + 1..] + [s[|s| - 1]];
      r
  }

  /** The start of the run of digits that ends just before j */
  function DigitRunStart(s: string, j: nat): (i: nat)
    requires j <= |s|
    ensures i <= j && AllDigits(s[i..j])
    ensures i == 0 || !IsDigit(s[i - 1])
  {
    if j > 0 && IsDigit(s[j - 1]) then
      var i := DigitRunStart(s, j - 1);
      assert s[i..j] == s[i..j - 1] + [s[j - 1]];
      i
    else j
  }

  // ---------------------------------------------------------------------
  // get_frame_info
  // ---------------------------------------------------------------------

  /**
   * `get_frame_info(path)`: the leftmost run of `#`; else the leftmost
   * `%<digits>d`; else the last run of digits; else None.
   */
  function GetFrameInfo(path: string): Option<FrameInfo> {
    match IndexOf(path, '#', 0)
    case Some(i) =>
      var j := RunEnd(path, i, '#');
      Some(FrameInfo(j - i, path[..i], path[j..], None))
    case None =>
      match FindPrintf(path, 0)
      case Some(p) => Some(PrintfInfo(path, p))
      case None => LastDigitsInfo(path)
  }

  /** The frame info of the `%<digits>d` at p */
  function PrintfInfo(path: string, p: nat): FrameInfo
    requires PrintfAt(path, p)
  {
    var q := DigitRunEnd(path, p + 1);
    FrameInfo(DecimalValue(path[p + 1..q]), path[..p], path[q + 1..], None)
  }

  /** The frame info of the last run of digits, if any */
  function LastDigitsInfo(path: string): Option<FrameInfo> {
    match LastDigit(path)
    case Some(k) =>
      var i := DigitRunStart(path, k + 1);
      Some(FrameInfo(k + 1 - i, path[..i], path[k + 1..], Some(DecimalValue(path[i..k + 1]))))
    case None => None
  }

  /**
   * A `#` anywhere wins: the placeholder is the leftmost maximal run of `#`,
   * `start` and `end` are what surrounds it, and there is no literal number.
   */
  lemma HashRunRule(path: string)
    requires !Free(path, '#')
    ensures GetFrameInfo(path).Some?
    ensures var r := GetFrameInfo(path).value;
      && r.number.None? && r.digits > 0
      && path == r.start + Repeat('#', r.digits) + r.end
      && Free(r.start, '#')
      && (r.end == [] || r.end[0] != '#')
  {
    var i := IndexOf(path, '#', 0).value;
    var j := RunEnd(path, i, '#');
    assert path == path[..i] + path[i..j] + path[j..];
    assert path[i..j] == Repeat('#', j - i);
    assert path[j..] != [] ==> path[j..][0] == path[j];
  }

  /** path is r.start, then `%`, a run of digits worth r.digits, `d` and r.end. */
  predicate PrintfShaped(path: string, r: FrameInfo) {
    && |r.start| + 2 <= |path| - |r.end|
    && var w := path[|r.start| + 1..|path| - |r.end| - 1];
    && path == r.start + "%" + w + "d" + r.end
    && w != [] && AllDigits(w) && r.digits == DecimalValue(w)
  }

  /**
   * Without a `#`, the leftmost `%<digits>d` is the placeholder: its width
   * is the value of the digits, and there is no literal number.
   */
  lemma PrintfRule(path: string)
    requires Free(path, '#')
    requires exists p | 0 <= p < |path| :: PrintfAt(path, p)
    ensures GetFrameInfo(path).Some? && GetFrameInfo(path).value.number.None?
    ensures PrintfShaped(path, GetFrameInfo(path).value)
    ensures forall k :: 0 <= k < |GetFrameInfo(path).value.start| ==> !PrintfAt(path, k)
  {
    var found := FindPrintf(path, 0);
    assert found.Some?;
    var p := found.value;
    assert GetFrameInfo(path) == Some(PrintfInfo(path, p)) by {
      assert IndexOf(path, '#', 0) == None;
    }
    PrintfInfoShaped(path, p);
  }

  lemma PrintfInfoShaped(path: string, p: nat)
    requires PrintfAt(path, p)
    ensures PrintfShaped(path, PrintfInfo(path, p))
  {
    var q := DigitRunEnd(path, p + 1);
    var r := PrintfInfo(path, p);
    assert |r.start| + 1 == p + 1 && |path| - |r.end| - 1 == q;
    var w := path[p + 1..q];
    assert path == r.start + "%" + w + "d" + r.end by {
      CutAround(path, p, q);
      assert [path[p]] == "%" && [path[q]] == "d";
    }
  }

  /**
   * Otherwise the placeholder is the last run of digits, taken whole: no
   * digit follows it and none comes just before it. Its length is the width
   * and its value the literal frame number.
   */
  lemma LastDigitsRule(path: string)
    requires Free(path, '#')
    requires forall p :: 0 <= p < |path| ==> !PrintfAt(path, p)
    requires !NoDigit(path)
    ensures GetFrameInfo(path).Some?
    ensures var r := GetFrameInfo(path).value;
      var w := path[|r.start|..|path| - |r.end|];
      && |r.start| <= |path| - |r.end|
      && path == r.start + w + r.end
      && w != [] && AllDigits(w) && r.digits == |w|
      && r.number == Some(DecimalValue(w))
      && NoDigit(r.end)
      && (r.start == [] || !IsDigit(r.start[|r.start| - 1]))
  {
    assert IndexOf(path, '#', 0) == None;
    assert FindPrintf(path, 0) == None;
    assert GetFrameInfo(path) == LastDigitsInfo(path);
    var k := LastDigit(path).value;
    var i := DigitRunStart(path, k + 1);
    assert path == path[..i] + path[i..k + 1] + path[k + 1..];
  }

  /** A `%<digits>d` holds a digit. */
  lemma PrintfHasDigit(s: string, p: nat)
    requires PrintfAt(s, p)
    ensures !NoDigit(s)
  {
    var q := DigitRunEnd(s, p + 1);
    assert s[p + 1..q][0] == s[p + 1];
  }

  /** There is no placeholder exactly when the path has no `#` and no digit. */
  lemma NoPlaceholderIff(path: string)
    ensures GetFrameInfo(path).None? <==> Free(path, '#') && NoDigit(path)
  {
    forall p | 0 <= p < |path| && PrintfAt(path, p)
      ensures !NoDigit(path)
    {
      PrintfHasDigit(path, p);
    }
  }

  /**
   * What callers do with the result, `start + '#' * digits + end`, parses
   * back to the same width and surrounding text (the `#` rule now applies).
   * A zero width, from `%0d`, leaves no `#` behind and is excluded.
   */
  lemma RebuildWithHashes(path: string)
    requires GetFrameInfo(path).Some? && GetFrameInfo(path).value.digits > 0
    ensures var r := GetFrameInfo(path).value;
      GetFrameInfo(r.start + Repeat('#', r.digits) + r.end) == Some(FrameInfo(r.digits, r.start, r.end, None))
  {
    var r := GetFrameInfo(path).value;
    if !Free(path, '#') {
      HashRunRule(path);
    } else {
      assert r.start == path[..|r.start|] && r.end == path[|path| - |r.end|..];
      assert Free(r.start, '#') && Free(r.end, '#');
    }
    HashRunOf(r.start, r.digits, r.end);
  }

  /** The `#` rule on a path built as text + hashes + text */
  lemma HashRunOf(a: string, n: nat, b: string)
    requires Free(a, '#') && n > 0 && (b == [] || b[0] != '#')
    ensures GetFrameInfo(a + Repeat('#', n) + b) == Some(FrameInfo(n, a, b, None))
  {
    var s := a + Repeat('#', n) + b;
    assert s[|a|] == '#';
    var i := IndexOf(s, '#', 0).value;
    assert i == |a|;
    var j := RunEnd(s, i, '#');
    assert forall k :: |a| <= k < |a| + n ==> s[k] == '#';
    assert |a| + n == |s| || s[|a| + n] != '#' by {
      if |a| + n < |s| {
        assert s[|a| + n] == b[0];
      }
    }
    assert j == |a| + n;
    assert s[..i] == a && s[j..] == b;
  }

  // ---------------------------------------------------------------------
  // find_image_sequence_range
  // ---------------------------------------------------------------------

  /**
   * The pattern `prefix(\d{digits})suffix` matches f at p, `prefix` and
   * `suffix` read as literal text.
   */
  predicate CaptureAt(f: string, digits: nat, prefix: string, suffix: string, p: nat) {
    var a := p + |prefix|;
    var b := a + digits;
    b + |suffix| <= |f| && f[p..a] == prefix && AllDigits(f[a..b]) && f[b..b + |suffix|] == suffix
  }

  /** The leftmost p' >= p at which the pattern matches */
  function CaptureFrom(f: string, digits: nat, prefix: string, suffix: string, p: nat): (r: Option<nat>)
    ensures r.Some? ==> p <= r.value && CaptureAt(f, digits, prefix, suffix, r.value)
    ensures r.Some? ==> forall k :: p <= k < r.value ==> !CaptureAt(f, digits, prefix, suffix, k)
    ensures r.None? ==> forall k :: p <= k ==> !CaptureAt(f, digits, prefix, suffix, k)
    decreases |f| + 1 - p
  {
    if p > |f| then None
    else if CaptureAt(f, digits, prefix, suffix, p) then Some(p)
    else CaptureFrom(f, digits, prefix, suffix, p + 1)
  }

  /** `re.search(...)` and its group 1: the digits of the leftmost match */
  function Capture(f: string, digits: nat, prefix: string, suffix: string): (r: Option<string>)
    ensures r.Some? ==> |r.value| == digits && AllDigits(r.value)
  {
    match CaptureFrom(f, digits, prefix, suffix, 0)
    case Some(p) => Some(f[p + |prefix|..p + |prefix| + digits])
    case None => None
  }

  /** The captured digits of every matching name, in listing order */
  function Captures(files: seq<string>, digits: nat, prefix: string, suffix: string): (r: seq<string>)
    ensures forall k :: 0 <= k < |r| ==> |r[k]| == digits && AllDigits(r[k])
  {
    if files == [] then []
    else
      var rest := Captures(files[1..], digits, prefix, suffix);
      match Capture(files[0], digits, prefix, suffix)
      case Some(c) => [c] + rest
      case None => rest
  }

  /**
   * What `find_image_sequence_range` returns: None when nothing matches,
   * the ValueError `int('')` raises when a match captured no digits (width
   * 0), or the frames of the first and the last matching name.
   */
  datatype SequenceRange = NoFrames | InvalidFrame | Range(first: nat, last: nat)

  /**
   * `find_image_sequence_range` over `files`, the directory's regular files
   * as full paths in sorted order (the listing is an input, not I/O).
   */
  function FindImageSequenceRange(files: seq<string>, digits: nat, prefix: string, suffix: string): SequenceRange {
    var frames := Captures(files, digits, prefix, suffix);
    if frames == [] then NoFrames
    else if digits == 0 then InvalidFrame
    else Range(DecimalValue(frames[0]), DecimalValue(frames[|frames| - 1]))
  }

  lemma {:induction false} CapturesEmptyIff(files: seq<string>, digits: nat, prefix: string, suffix: string)
    ensures Captures(files, digits, prefix, suffix) == [] <==>
      forall i :: 0 <= i < |files| ==> Capture(files[i], digits, prefix, suffix).None?
  {
    if files != [] {
      CapturesEmptyIff(files[1..], digits, prefix, suffix);
      assert forall i :: 1 <= i < |files| ==> files[i] == files[1..][i - 1];
    }
  }

  /** No frames exactly when no name in the listing matches. */
  lemma NoFramesIff(files: seq<string>, digits: nat, prefix: string, suffix: string)
    ensures FindImageSequenceRange(files, digits, prefix, suffix) == NoFrames <==>
      forall i :: 0 <= i < |files| ==> Capture(files[i], digits, prefix, suffix).None?
  {
    CapturesEmptyIff(files, digits, prefix, suffix);
  }

  /** A width of 0 fails exactly when some name matches. */
  lemma InvalidFrameIff(files: seq<string>, digits: nat, prefix: string, suffix: string)
    ensures FindImageSequenceRange(files, digits, prefix, suffix) == InvalidFrame <==>
      digits == 0 && exists i | 0 <= i < |files| :: Capture(files[i], digits, prefix, suffix).Some?
  {
    CapturesEmptyIff(files, digits, prefix, suffix);
  }

  lemma {:induction false} CapturesHead(files: seq<string>, digits: nat, prefix: string, suffix: string, i: nat)
    requires i < |files| && Capture(files[i], digits, prefix, suffix).Some?
    requires forall k :: 0 <= k < i ==> Capture(files[k], digits, prefix, suffix).None?
    ensures var c := Captures(files, digits, prefix, suffix);
      c != [] && c[0] == Capture(files[i], digits, prefix, suffix).value
  {
    if i > 0 {
      assert forall k :: 0 <= k < i - 1 ==> files[1..][k] == files[k + 1];
      CapturesHead(files[1..], digits, prefix, suffix, i - 1);
    }
  }

  lemma {:induction false} CapturesLast(files: seq<string>, digits: nat, prefix: string, suffix: string, j: nat)
    requires j < |files| && Capture(files[j], digits, prefix, suffix).Some?
    requires forall k :: j < k < |files| ==> Capture(files[k], digits, prefix, suffix).None?
    ensures var c := Captures(files, digits, prefix, suffix);
      c != [] && c[|c| - 1] == Capture(files[j], digits, prefix, suffix).value
  {
    if j == 0 {
      CapturesEmptyIff(files[1..], digits, prefix, suffix);
    } else {
      assert forall k :: j - 1 < k < |files| - 1 ==> files[1..][k] == files[k + 1];
      CapturesLast(files[1..], digits, prefix, suffix, j - 1);
    }
  }

  /**
   * The result is the frame of the FIRST matching name and that of the LAST
   * one, in listing order: the list is not scanned for a minimum or maximum.
   */
  lemma RangeIsFirstAndLastMatch(files: seq<string>, digits: nat, prefix: string, suffix: string, i: nat, j: nat)
    requires digits > 0
    requires i <= j < |files|
    requires Capture(files[i], digits, prefix, suffix).Some? && Capture(files[j], digits, prefix, suffix).Some?
    requires forall k :: 0 <= k < i ==> Capture(files[k], digits, prefix, suffix).None?
    requires forall k :: j < k < |files| ==> Capture(files[k], digits, prefix, suffix).None?
    ensures FindImageSequenceRange(files, digits, prefix, suffix) ==
      Range(DecimalValue(Capture(files[i], digits, prefix, suffix).value),
            DecimalValue(Capture(files[j], digits, prefix, suffix).value))
  {
    CapturesHead(files, digits, prefix, suffix, i);
    CapturesLast(files, digits, prefix, suffix, j);
  }

  /** Both ends of a range are numbers of exactly `digits` digits. */
  lemma RangeBounds(files: seq<string>, digits: nat, prefix: string, suffix: string)
    ensures var r := FindImageSequenceRange(files, digits, prefix, suffix);
      r.Range? ==> r.first < Pow10(digits) && r.last < Pow10(digits)
  {
    var frames := Captures(files, digits, prefix, suffix);
    if frames != [] {
      DecimalValueBound(frames[0]);
      DecimalValueBound(frames[|frames| - 1]);
    }
  }

  /** Python's `sorted(...)` order on the listing */
  predicate Sorted(files: seq<string>) {
    forall i, j :: 0 <= i < j < |files| ==> LexLe(files[i], files[j])
  }

  /** Every matching name is the prefix, the digits and the suffix, and nothing else. */
  predicate ExactNames(files: seq<string>, digits: nat, prefix: string, suffix: string) {
    forall i :: 0 <= i < |files| && Capture(files[i], digits, prefix, suffix).Some? ==>
      |files[i]| == |prefix| + digits + |suffix|
  }

  lemma ExactCapture(f: string, digits: nat, prefix: string, suffix: string)
    requires Capture(f, digits, prefix, suffix).Some? && |f| == |prefix| + digits + |suffix|
    ensures f == prefix + Capture(f, digits, prefix, suffix).value + suffix
  {
    var p := CaptureFrom(f, digits, prefix, suffix, 0).value;
    assert p == 0;
    assert f == f[..|prefix|] + f[|prefix|..|prefix| + digits] + f[|prefix| + digits..];
  }

  /** Capture every later name yields is at least v, so is every later capture. */
  lemma {:induction false} CapturesAtLeast(files: seq<string>, digits: nat, prefix: string, suffix: string, v: nat)
    requires forall k :: 0 <= k < |files| && Capture(files[k], digits, prefix, suffix).Some? ==>
      v <= DecimalValue(Capture(files[k], digits, prefix, suffix).value)
    ensures forall k :: 0 <= k < |Captures(files, digits, prefix, suffix)| ==>
      v <= DecimalValue(Captures(files, digits, prefix, suffix)[k])
  {
    if files != [] {
      assert forall k :: 0 <= k < |files| - 1 ==> files[1..][k] == files[k + 1];
      CapturesAtLeast(files[1..], digits, prefix, suffix, v);
      var rest := Captures(files[1..], digits, prefix, suffix);
      match Capture(files[0], digits, prefix, suffix)
      case Some(c) =>
        assert Captures(files, digits, prefix, suffix) == [c] + rest;
      case None =>
        assert Captures(files, digits, prefix, suffix) == rest;
    }
  }

  lemma NumericOrderOfSortedNames(f: string, g: string, digits: nat, prefix: string, suffix: string)
    requires LexLe(f, g)
    requires Capture(f, digits, prefix, suffix).Some? && |f| == |prefix| + digits + |suffix|
    requires Capture(g, digits, prefix, suffix).Some? && |g| == |prefix| + digits + |suffix|
    ensures DecimalValue(Capture(f, digits, prefix, suffix).value) <= DecimalValue(Capture(g, digits, prefix, suffix).value)
  {
    var x, y := Capture(f, digits, prefix, suffix).value, Capture(g, digits, prefix, suffix).value;
    ExactCapture(f, digits, prefix, suffix);
    ExactCapture(g, digits, prefix, suffix);
    assert f == prefix + (x + suffix) && g == prefix + (y + suffix);
    LexLeDropPrefix(prefix, x + suffix, y + suffix);
    LexOrderIsNumericOrder(x, y, suffix, suffix);
  }

  /** In a sorted listing of exact names the captures ascend numerically. */
  lemma {:induction false} CapturesAscend(files: seq<string>, digits: nat, prefix: string, suffix: string)
    requires Sorted(files) && ExactNames(files, digits, prefix, suffix)
    ensures forall a, b :: 0 <= a < b < |Captures(files, digits, prefix, suffix)| ==>
      DecimalValue(Captures(files, digits, prefix, suffix)[a]) <= DecimalValue(Captures(files, digits, prefix, suffix)[b])
  {
    if files != [] {
      var rest := files[1..];
      assert forall k :: 0 <= k < |rest| ==> rest[k] == files[k + 1];
      assert Sorted(rest) && ExactNames(rest, digits, prefix, suffix);
      CapturesAscend(rest, digits, prefix, suffix);
      var cf := Capture(files[0], digits, prefix, suffix);
      if cf.Some? {
        forall k | 0 <= k < |rest| && Capture(rest[k], digits, prefix, suffix).Some?
          ensures DecimalValue(cf.value) <= DecimalValue(Capture(rest[k], digits, prefix, suffix).value)
        {
          NumericOrderOfSortedNames(files[0], rest[k], digits, prefix, suffix);
        }
        CapturesAtLeast(rest, digits, prefix, suffix, DecimalValue(cf.value));
        var c, cr := Captures(files, digits, prefix, suffix), Captures(rest, digits, prefix, suffix);
        assert c == [cf.value] + cr;
        forall a, b | 0 <= a < b < |c|
          ensures DecimalValue(c[a]) <= DecimalValue(c[b])
        {
          assert c[b] == cr[b - 1];
          if a > 0 {
            assert c[a] == cr[a - 1];
          }
        }
      } else {
        assert Captures(files, digits, prefix, suffix) == Captures(rest, digits, prefix, suffix);
      }
    }
  }

  lemma {:induction false} CapturesInclude(files: seq<string>, digits: nat, prefix: string, suffix: string, i: nat)
    requires i < |files| && Capture(files[i], digits, prefix, suffix).Some?
    ensures Capture(files[i], digits, prefix, suffix).value in Captures(files, digits, prefix, suffix)
  {
    if i > 0 {
      assert files[1..][i - 1] == files[i];
      CapturesInclude(files[1..], digits, prefix, suffix, i - 1);
    }
  }

  /**
   * In a sorted listing where every matching name is exactly prefix,
   * digits and suffix, first and last are the smallest and the largest
   * frame of the sequence.
   */
  lemma SortedRangeIsMinMax(files: seq<string>, digits: nat, prefix: string, suffix: string)
    requires Sorted(files) && ExactNames(files, digits, prefix, suffix)
    ensures var r := FindImageSequenceRange(files, digits, prefix, suffix);
      r.Range? ==> forall i :: 0 <= i < |files| && Capture(files[i], digits, prefix, suffix).Some? ==>
        r.first <= DecimalValue(Capture(files[i], digits, prefix, suffix).value) <= r.last
  {
    var c := Captures(files, digits, prefix, suffix);
    CapturesAscend(files, digits, prefix, suffix);
    forall i | 0 <= i < |files| && Capture(files[i], digits, prefix, suffix).Some? && c != []
      ensures DecimalValue(c[0]) <= DecimalValue(Capture(files[i], digits, prefix, suffix).value) <= DecimalValue(c[|c| - 1])
    {
      CapturesInclude(files, digits, prefix, suffix, i);
      var m :| 0 <= m < |c| && c[m] == Capture(files[i], digits, prefix, suffix).value;
      if 0 < m {
        assert DecimalValue(c[0]) <= DecimalValue(c[m]);
      }
      if m < |c| - 1 {
        assert DecimalValue(c[m]) <= DecimalValue(c[|c| - 1]);
      }
    }
  }
}
