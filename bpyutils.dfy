// Helpers of the Blender side of the package (vgenc/_bpyutils.py): the
// Linux branch of the path conversion between Windows shares and mounted
// paths, and the expansion of per-frame text ranges into one-frame ranges.

module BpyUtils {
  import opened Wrappers
  import opened Text

  // ---------------------------------------------------------------------
  // convert_os_path, Linux branch
  // ---------------------------------------------------------------------

  /** A UNC path `\\server\share\x` becomes `/server/share/x`; any other path is kept. */
  function ConvertOsPathLinux(path: string): (r: string)
    ensures StartsWith(path, "\\\\") ==>
      && |r| == |path| - 1
      && r[0] == '/'
      && (forall i :: 1 <= i < |r| ==> r[i] == if path[i + 1] == '\\' then '/' else path[i + 1])
      && Free(r, '\\')
    ensures !StartsWith(path, "\\\\") ==> r == path
    ensures !StartsWith(r, "\\\\")
  {
    if StartsWith(path, "\\\\") then
      ReplaceCharAt(path, '\\', '/');
      "/" + ReplaceAll(path, "\\", "/")[2..]
    else
      path
  }

  // ---------------------------------------------------------------------
  // str.format(frame=...)
  // ---------------------------------------------------------------------

  function Prepend(p: string, o: Option<string>): Option<string> {
    match o
    case None => None
    case Some(u) => Some(p + u)
  }

  predicate IsBrace(c: char) {
    c == '{' || c == '}'
  }

  predicate BraceFree(s: string) {
    forall i :: 0 <= i < |s| ==> !IsBrace(s[i])
  }

  /** No `{{` and no `}}` anywhere in `s`. */
  predicate NoDoubledBraces(s: string) {
    forall i :: 0 <= i < |s| - 1 ==> !(IsBrace(s[i]) && s[i + 1] == s[i])
  }

  /**
   * Python's `t.format(frame=f)`: `{{` and `}}` stand for one brace,
   * `{frame}` for `str(f)`; any other brace is an error (None).
   */
  function Format(t: string, f: int): Option<string>
    decreases |t|
  {
    if |t| == 0 then Some("")
    else if StartsWith(t, "{{") then Prepend("{", Format(t[2..], f))
    else if StartsWith(t, "}}") then Prepend("}", Format(t[2..], f))
    else if StartsWith(t, "{frame}") then Prepend(IntToStr(f), Format(t[7..], f))
    else if IsBrace(t[0]) then None
    else Prepend([t[0]], Format(t[1..], f))
  }

  /** The text that `format` turns into `s`: every brace doubled. */
  function Escape(s: string): string
    decreases |s|
  {
    if |s| == 0 then ""
    else (if IsBrace(s[0]) then [s[0], s[0]] else [s[0]]) + Escape(s[1..])
  }

  /** A character that is not a brace is copied. */
  lemma FormatPlainStep(t: string, f: int)
    requires |t| > 0 && !IsBrace(t[0])
    ensures Format(t, f) == Prepend([t[0]], Format(t[1..], f))
  {
    assert !StartsWith(t, "{{") && !StartsWith(t, "}}") && !StartsWith(t, "{frame}") by {
      assert |t| >= 2 ==> t[..2][0] == t[0];
      assert |t| >= 7 ==> t[..7][0] == t[0];
    }
  }

  /** `{frame}` becomes the frame number. */
  lemma FormatFrameStep(rest: string, f: int)
    ensures Format("{frame}" + rest, f) == Prepend(IntToStr(f), Format(rest, f))
  {
    var t := "{frame}" + rest;
    assert t[..7] == "{frame}" && t[7..] == rest;
    assert !StartsWith(t, "{{") && !StartsWith(t, "}}") by {
      assert t[..2][1] == t[1] == 'f';
    }
  }

  lemma PrependPrepend(a: string, b: string, o: Option<string>)
    ensures Prepend(a, Prepend(b, o)) == Prepend(a + b, o)
  {
    if o.Some? {
      assert a + (b + o.value) == (a + b) + o.value;
    }
  }

  /** Formatting undoes escaping, whatever the frame. */
  lemma {:induction false} FormatEscape(s: string, f: int)
    ensures Format(Escape(s), f) == Some(s)
  {
    if |s| > 0 {
      FormatEscape(s[1..], f);
      var t := Escape(s);
      if IsBrace(s[0]) {
        assert t[..2] == [s[0], s[0]];
        assert t[2..] == Escape(s[1..]);
      } else {
        assert t[1..] == Escape(s[1..]);
        FormatPlainStep(t, f);
      }
      assert s == [s[0]] + s[1..];
    }
  }

  /** Text without braces is left as it is. */
  lemma {:induction false} FormatPlain(s: string, f: int)
    requires BraceFree(s)
    ensures Format(s, f) == Some(s)
  {
    if |s| > 0 {
      FormatPlain(s[1..], f);
      FormatPlainStep(s, f);
      assert s == [s[0]] + s[1..];
    }
  }

  /** A brace-free prefix is copied and the rest formatted on its own. */
  lemma {:induction false} FormatAfterPlain(a: string, b: string, f: int)
    requires BraceFree(a)
    ensures Format(a + b, f) == Prepend(a, Format(b, f))
  {
    if |a| > 0 {
      var t := a + b;
      assert t[0] == a[0] && t[1..] == a[1..] + b;
      FormatPlainStep(t, f);
      assert BraceFree(a[1..]) by {
        assert forall i :: 0 <= i < |a[1..]| ==> a[1..][i] == a[i + 1];
      }
      FormatAfterPlain(a[1..], b, f);
      PrependPrepend([a[0]], a[1..], Format(b, f));
      assert [a[0]] + a[1..] == a;
    } else {
      assert a + b == b;
      if Format(b, f).Some? {
        assert a + Format(b, f).value == Format(b, f).value;
      }
    }
  }

  lemma IntToStrBraceFree(f: int)
    ensures BraceFree(IntToStr(f))
  {
    var d := NatToStr(if f < 0 then -f else f);
    assert forall i :: 0 <= i < |d| ==> IsDigit(d[i]);
  }

  /**
   * A template made of brace-free parts joined by `{frame}` formats to the
   * parts joined by the frame number.
   */
  lemma {:induction false} FormatTemplate(parts: seq<string>, f: int)
    requires |parts| > 0
    requires forall k :: 0 <= k < |parts| ==> BraceFree(parts[k])
    ensures Format(Join("{frame}", parts), f) == Some(Join(IntToStr(f), parts))
  {
    if |parts| == 1 {
      FormatPlain(parts[0], f);
    } else {
      var rest := Join("{frame}", parts[1..]);
      FormatTemplate(parts[1..], f);
      assert Join("{frame}", parts) == parts[0] + ("{frame}" + rest);
      FormatAfterPlain(parts[0], "{frame}" + rest, f);
      FormatFrameStep(rest, f);
      PrependPrepend(parts[0], IntToStr(f), Format(rest, f));
      assert Join(IntToStr(f), parts) == parts[0] + (IntToStr(f) + Join(IntToStr(f), parts[1..]));
    }
  }

  /** Without doubled braces, a successful format leaves no brace at all. */
  lemma {:induction false} FormatBraceFree(t: string, f: int)
    requires NoDoubledBraces(t)
    requires Format(t, f).Some?
    ensures BraceFree(Format(t, f).value)
  {
    if |t| > 0 {
      assert |t| >= 2 ==> t[..2][0] == t[0] && t[..2][1] == t[1];
      if StartsWith(t, "{frame}") {
        assert NoDoubledBraces(t[7..]) by {
          forall i | 0 <= i < |t[7..]| - 1
            ensures !(IsBrace(t[7..][i]) && t[7..][i + 1] == t[7..][i])
          {
            assert t[7..][i] == t[i + 7] && t[7..][i + 1] == t[i + 8];
          }
        }
        FormatBraceFree(t[7..], f);
        IntToStrBraceFree(f);
      } else {
        assert NoDoubledBraces(t[1..]) by {
          forall i | 0 <= i < |t[1..]| - 1
            ensures !(IsBrace(t[1..][i]) && t[1..][i + 1] == t[1..][i])
          {
            assert t[1..][i] == t[i + 1] && t[1..][i + 1] == t[i + 2];
          }
        }
        FormatBraceFree(t[1..], f);
      }
    }
  }

  // ---------------------------------------------------------------------
  // _expand_text_ranges
  // ---------------------------------------------------------------------

  /** `(start, end, text)`: a text shown on the frames start .. end - 1 */
  datatype TextRange = TextRange(start: int, end: int, text: string)

  predicate Templated(text: string) {
    Contains(text, "{frame}")
  }

  function Concat<T>(a: Option<seq<T>>, b: Option<seq<T>>): Option<seq<T>> {
    if a.Some? && b.Some? then Some(a.value + b.value) else None
  }

  /** One range per frame of start .. stop - 1, each with its formatted text */
  function FrameEntries(start: int, stop: int, text: string): Option<seq<TextRange>>
    decreases stop - start
  {
    if stop <= start then Some([])
    else
      var last := match Format(text, stop - 1)
        case None => None
        case Some(u) => Some([TextRange(stop - 1, stop, u)]);
      Concat(FrameEntries(start, stop - 1, text), last)
  }

  function ExpandOne(t: TextRange): Option<seq<TextRange>> {
    if Templated(t.text) then FrameEntries(t.start, t.end, t.text) else Some([t])
  }

  /** What `_expand_text_ranges` returns, or None where `format` raises */
  function Expand(ranges: seq<TextRange>): Option<seq<TextRange>>
    decreases |ranges|
  {
    if ranges == [] then Some([])
    else Concat(Expand(ranges[..|ranges| - 1]), ExpandOne(ranges[|ranges| - 1]))
  }

  function Span(t: TextRange): nat {
    if !Templated(t.text) then 1
    else if t.end <= t.start then 0
    else t.end - t.start
  }

  function TotalSpan(ranges: seq<TextRange>): nat
    decreases |ranges|
  {
    if ranges == [] then 0 else TotalSpan(ranges[..|ranges| - 1]) + Span(ranges[|ranges| - 1])
  }

  /**
   * The frames of a range fail exactly when one frame's text fails to
   * format; otherwise the k-th entry covers frame start + k alone.
   */
  lemma {:induction false} FrameEntriesShape(start: int, stop: int, text: string)
    ensures FrameEntries(start, stop, text) == None <==>
      exists f :: start <= f < stop && Format(text, f) == None
    ensures FrameEntries(start, stop, text).Some? ==>
      var x := FrameEntries(start, stop, text).value;
      && |x| == (if stop <= start then 0 else stop - start)
      && forall k :: 0 <= k < |x| ==>
        && x[k].start == start + k
        && x[k].end == start + k + 1
        && Format(text, start + k) == Some(x[k].text)
    decreases stop - start
  {
    if stop > start {
      FrameEntriesShape(start, stop - 1, text);
      if FrameEntries(start, stop, text) == None {
        if FrameEntries(start, stop - 1, text).Some? {
          assert Format(text, stop - 1) == None;
        }
      }
    }
  }

  /** Expanding a concatenation concatenates the expansions. */
  lemma {:induction false} ExpandAppend(a: seq<TextRange>, b: seq<TextRange>)
    ensures Expand(a + b) == Concat(Expand(a), Expand(b))
    decreases |b|
  {
    if b == [] {
      assert a + b == a;
      if Expand(a).Some? {
        assert Expand(a).value + [] == Expand(a).value;
      }
    } else {
      var b' := b[..|b| - 1];
      ExpandAppend(a, b');
      assert (a + b)[..|a + b| - 1] == a + b';
      assert (a + b)[|a + b| - 1] == b[|b| - 1];
      assert Expand(a + b) == Concat(Expand(a + b'), ExpandOne(b[|b| - 1]));
      assert Expand(b) == Concat(Expand(b'), ExpandOne(b[|b| - 1]));
      match Expand(a) {
        case None =>
        case Some(x) =>
          match Expand(b') {
            case None =>
            case Some(y) =>
              match ExpandOne(b[|b| - 1]) {
                case None =>
                case Some(z) => assert x + y + z == x + (y + z);
              }
          }
      }
    }
  }

  /** The expansion fails exactly when the expansion of one range fails. */
  lemma {:induction false} ExpandFails(ranges: seq<TextRange>)
    ensures Expand(ranges) == None <==> exists i :: 0 <= i < |ranges| && ExpandOne(ranges[i]) == None
    decreases |ranges|
  {
    if ranges != [] {
      var front := ranges[..|ranges| - 1];
      ExpandFails(front);
      assert forall i :: 0 <= i < |front| ==> front[i] == ranges[i];
    }
  }

  /** One entry per frame of each templated range, one per untemplated range */
  lemma {:induction false} ExpandLength(ranges: seq<TextRange>)
    requires Expand(ranges).Some?
    ensures |Expand(ranges).value| == TotalSpan(ranges)
    decreases |ranges|
  {
    if ranges != [] {
      var t := ranges[|ranges| - 1];
      ExpandLength(ranges[..|ranges| - 1]);
      if Templated(t.text) {
        FrameEntriesShape(t.start, t.end, t.text);
      }
    }
  }

  /** Where an output entry comes from: a copied range, or one frame of a templated one */
  predicate Covers(t: TextRange, e: TextRange) {
    if Templated(t.text) then
      t.start <= e.start < t.end && e.end == e.start + 1 && Format(t.text, e.start) == Some(e.text)
    else e == t
  }

  /** Every output entry is covered by some input range. */
  lemma {:induction false} ExpandSound(ranges: seq<TextRange>)
    requires Expand(ranges).Some?
    ensures forall k :: 0 <= k < |Expand(ranges).value| ==>
      exists i :: 0 <= i < |ranges| && Covers(ranges[i], Expand(ranges).value[k])
    decreases |ranges|
  {
    if ranges != [] {
      var n := |ranges| - 1;
      var front := ranges[..n];
      var t := ranges[n];
      ExpandSound(front);
      var x := Expand(front).value;
      var y := ExpandOne(t).value;
      assert Expand(ranges).value == x + y;
      if Templated(t.text) {
        FrameEntriesShape(t.start, t.end, t.text);
      }
      forall k | 0 <= k < |x + y|
        ensures exists i :: 0 <= i < |ranges| && Covers(ranges[i], (x + y)[k])
      {
        if k < |x| {
          var i :| 0 <= i < |front| && Covers(front[i], x[k]);
          assert ranges[i] == front[i];
        } else {
          assert Covers(ranges[n], y[k - |x|]);
        }
      }
    }
  }

  /** Ranges without `{frame}` expand to themselves. */
  lemma {:induction false} ExpandUntemplated(x: seq<TextRange>)
    requires forall k :: 0 <= k < |x| ==> !Templated(x[k].text)
    ensures Expand(x) == Some(x)
    decreases |x|
  {
    if x != [] {
      var front, last := x[..|x| - 1], x[|x| - 1];
      assert forall k :: 0 <= k < |front| ==> front[k] == x[k];
      ExpandUntemplated(front);
      assert ExpandOne(last) == Some([last]);
      assert front + [last] == x;
    }
  }

  lemma BraceFreeUntemplated(s: string)
    requires BraceFree(s)
    ensures !Templated(s)
  {
    forall i | 0 <= i <= |s|
      ensures !OccursAt(s, "{frame}", i)
    {
      if i + 7 <= |s| {
        assert s[i..i + 7][0] == s[i];
      }
    }
  }

  /**
   * Expanding twice changes nothing, as long as no templated text writes a
   * brace as `{{` or `}}` (which would bring `{frame}` back).
   */
  lemma {:induction false} ExpandSettles(ranges: seq<TextRange>)
    requires forall i :: 0 <= i < |ranges| && Templated(ranges[i].text) ==> NoDoubledBraces(ranges[i].text)
    requires Expand(ranges).Some?
    ensures Expand(Expand(ranges).value) == Expand(ranges)
    decreases |ranges|
  {
    if ranges != [] {
      var n := |ranges| - 1;
      var front := ranges[..n];
      var t := ranges[n];
      assert forall i :: 0 <= i < |front| ==> front[i] == ranges[i];
      ExpandSettles(front);
      var x := Expand(front).value;
      var y := ExpandOne(t).value;
      assert Expand(ranges).value == x + y;
      ExpandAppend(x, y);
      ExpandOneSettles(t);
      ExpandUntemplated(y);
    }
  }

  /** The entries of one expanded range no longer hold `{frame}`. */
  lemma ExpandOneSettles(t: TextRange)
    requires Templated(t.text) ==> NoDoubledBraces(t.text)
    requires ExpandOne(t).Some?
    ensures forall k :: 0 <= k < |ExpandOne(t).value| ==> !Templated(ExpandOne(t).value[k].text)
  {
    var y := ExpandOne(t).value;
    if Templated(t.text) {
      FrameEntriesShape(t.start, t.end, t.text);
      forall k | 0 <= k < |y|
        ensures !Templated(y[k].text)
      {
        FormatBraceFree(t.text, t.start + k);
        BraceFreeUntemplated(y[k].text);
      }
    }
  }

  /** `_expand_text_ranges`: None where the source raises on a bad `format` */
  method ExpandTextRanges(ranges: seq<TextRange>) returns (result: Option<seq<TextRange>>)
    ensures result == Expand(ranges)
  {
    var acc: seq<TextRange> := [];
    var i := 0;
    while i < |ranges|
      invariant 0 <= i <= |ranges|
      invariant Expand(ranges[..i]) == Some(acc)
    {
      var t := ranges[i];
      assert ranges[..i + 1][..i] == ranges[..i];
      if Templated(t.text) {
        ghost var before := acc;
        var frame := t.start;
        while frame < t.end
          invariant t.start <= frame
          invariant frame <= t.end || frame == t.start
          invariant FrameEntries(t.start, frame, t.text).Some?
          invariant acc == before + FrameEntries(t.start, frame, t.text).value
        {
          var text := Format(t.text, frame);
          if text.None? {
            assert ranges[i] == t;
            assert Format(t.text, frame) == None;
            assert t.start <= frame < t.end;
            assert exists f :: t.start <= f < t.end && Format(t.text, f) == None;
            FrameEntriesShape(t.start, t.end, t.text);
            assert FrameEntries(t.start, t.end, t.text) == None;
            assert ExpandOne(ranges[i]) == None;
            ExpandFails(ranges);
            return None;
          }
          acc := acc + [TextRange(frame, frame + 1, text.value)];
          frame := frame + 1;
        }
        assert FrameEntries(t.start, frame, t.text) == FrameEntries(t.start, t.end, t.text);
      } else {
        acc := acc + [t];
      }
      i := i + 1;
    }
    assert ranges[..i] == ranges;
    result := Some(acc);
  }
}
