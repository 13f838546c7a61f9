/**
 * `generate_missing_frames` (vgenc/convert.py:22-65): fill the holes of an
 * image sequence so that a movie encoder sees every frame.
 *
 * The path template holds a printf placeholder `%0<padding>d`. The padding is
 * parsed from the template, then the frames of the range are visited from
 * the last down to the first. A frame whose file exists is skipped. A missing
 * one is, depending on the mode, linked to the nearest lower frame that
 * exists (`previous`), or rendered as a plain canvas by ImageMagick (`black`,
 * `checkerboard`), or only reported (any other mode). Every missing frame is
 * reported, whether or not something was made for it.
 *
 * The file system is a class whose fields the filler updates in place: the
 * set of paths that exist, the symbolic links made so far and the external
 * commands run so far. `Run` is the specification of the filler on values;
 * `Replay` is an independent reference that takes every decision from the
 * ORIGINAL listing, and the two agree whenever distinct frames have
 * distinct paths.
 */
module FrameFill {
  import opened Wrappers
  import opened Text
  import Files

  // ---------------------------------------------------------------------
  // The padding of the template
  // ---------------------------------------------------------------------

  /** The text before the first line break */
  function FirstLine(s: string): (r: string)
    ensures |r| <= |s| && r == s[..|r|] && Free(r, '\n')
    ensures |r| == |s| || s[|r|] == '\n'
  {
    match Files.IndexOf(s, '\n', 0)
    case Some(k) => s[..k]
    case None => s
  }

  /** The index of the last c in s */
  function LastIndexOf(s: string, c: char): (r: Option<nat>)
    ensures r.Some? ==> r.value < |s| && s[r.value] == c && Free(s[r.value + 1..], c)
    ensures r.None? ==> Free(s, c)
  {
    if s == [] then None
    else if s[|s| - 1] == c then Some(|s| - 1)
    else
      var r := LastIndexOf(s[..|s| - 1], c);
      assert r.Some? ==> s[r.value + 1..] == s[..|s| - 1][r.value + 1..] + [s[|s| - 1]];
      r
  }

  /**
   * Where `re.match(r'.*?%(.*)d', s)` matches: `.` stops at a line break,
   * the lazy prefix stops at the first `%` and the greedy group runs to the
   * last `d` of the first line. The result is the pair (index of that `%`,
   * index of that `d`); group 1 lies strictly between them.
   */
  function PaddingSpan(s: string): (r: Option<(nat, nat)>)
    ensures var line := FirstLine(s);
      r.Some? ==>
        && r.value.0 < r.value.1 < |line|
        && line[r.value.0] == '%' && Free(line[..r.value.0], '%')
        && line[r.value.1] == 'd' && Free(line[r.value.1 + 1..], 'd')
    ensures var line := FirstLine(s);
      r.None? ==> forall p, q :: 0 <= p < q < |line| && line[p] == '%' ==> line[q] != 'd'
  {
    var line := FirstLine(s);
    match Files.IndexOf(line, '%', 0)
    case None => None
    case Some(p) =>
      match LastIndexOf(line, 'd')
      case None => None
      case Some(q) =>
        if p < q then Some((p, q))
        else
          assert forall k :: p <= k < |line| ==> line[k] != 'd' by {
            forall k | p <= k < |line| ensures line[k] != 'd' {
              if k > q {
                assert line[k] == line[q + 1..][k - q - 1];
              }
            }
          }
          None
  }

  /** The span is fixed by its two characterising facts. */
  lemma PaddingSpanIs(s: string, p: nat, q: nat)
    requires p < q < |FirstLine(s)|
    requires FirstLine(s)[p] == '%' && Free(FirstLine(s)[..p], '%')
    requires FirstLine(s)[q] == 'd' && Free(FirstLine(s)[q + 1..], 'd')
    ensures PaddingSpan(s) == Some((p, q))
  {
    var line := FirstLine(s);
    var r := PaddingSpan(s);
    assert r.Some?;
    var p', q' := r.value.0, r.value.1;
    assert p' == p && q' == q;
  }

  /**
   * The outcome of the padding parse: no `%...d` at all (the function
   * returns None and generates nothing), a group that `int()` rejects
   * (ValueError), or the padding.
   */
  datatype Padding = NoPadding | InvalidPadding(group: string) | Width(n: int)

  /** The padding as vgenc/convert.py:32-35 computes it */
  function ParsePadding(s: string): Padding {
    var span := PaddingSpan(s);
    if span.None? then NoPadding
    else
      var group := Group(s, span.value.0, span.value.1);
      match ParseInt(group)
      case None => InvalidPadding(group)
      case Some(n) => Width(n)
  }

  /** The text strictly between the `%` at p and the `d` at q */
  function Group(s: string, p: nat, q: nat): string
    requires p < q <= |s|
  {
    s[p + 1..q]
  }

  /** The padding read from the leftmost `%<digits>d`, as vgenc/files.py:12-15 reads it */
  function ParsePaddingFixed(s: string): (r: Padding)
    ensures !r.InvalidPadding?
    ensures r.NoPadding? <==> forall k :: 0 <= k < |s| ==> !Files.PrintfAt(s, k)
    ensures r.Width? ==> r.n >= 0
  {
    match Files.FindPrintf(s, 0)
    case None => NoPadding
    case Some(p) => Width(DecimalValue(s[p + 1..Files.DigitRunEnd(s, p + 1)]))
  }

  lemma SingleLine(s: string)
    requires Free(s, '\n')
    ensures FirstLine(s) == s
  {
    var r := FirstLine(s);
    assert |r| == |s|;
  }

  /** The placeholder `replace_frame_padding` looks for */
  function Needle(padding: int): string {
    "%0" + IntToStr(padding) + "d"
  }

  /** Where the pieces of a template `a + "%" + g + "d" + b` lie */
  lemma PrintfLayout(a: string, g: string, b: string)
    ensures |a + "%" + g + "d" + b| == |a| + |g| + 2 + |b|
    ensures (a + "%" + g + "d" + b)[..|a|] == a
    ensures (a + "%" + g + "d" + b)[|a|] == '%'
    ensures (a + "%" + g + "d" + b)[|a| + 1..|a| + 1 + |g|] == g
    ensures (a + "%" + g + "d" + b)[|a| + 1 + |g|] == 'd'
    ensures (a + "%" + g + "d" + b)[|a| + 2 + |g|..] == b
  {
  }

  /**
   * A template whose first `%` starts a placeholder `%<digits>d` parses with
   * the corrected rule to the value of the digits, whatever follows.
   */
  lemma FixedPaddingOfPlaceholder(a: string, g: string, b: string)
    requires Free(a, '%') && g != [] && AllDigits(g)
    ensures ParsePaddingFixed(a + "%" + g + "d" + b) == Width(DecimalValue(g))
  {
    var s := a + "%" + g + "d" + b;
    PrintfLayout(a, g, b);
    var p, q := |a|, |a| + 1 + |g|;
    forall k | 0 <= k < p ensures !Files.PrintfAt(s, k) {
      assert s[k] == s[..p][k];
    }
    Files.DigitRunEndIs(s, p + 1, q);
    Files.FindPrintfIs(s, 0, p);
    assert s[p + 1..q] == g;
    assert ParsePaddingFixed(s) == Width(DecimalValue(s[p + 1..q]));
  }

  /** The first line reaches at least to n when s[..n] holds no line break. */
  lemma FirstLineCovers(s: string, n: nat)
    requires n <= |s| && Free(s[..n], '\n')
    ensures n <= |FirstLine(s)|
    ensures forall k :: 0 <= k < |FirstLine(s)| ==> FirstLine(s)[k] == s[k]
  {
    assert forall k :: 0 <= k < n ==> s[k] == s[..n][k];
  }

  /**
   * The greedy span of `a + "%" + x + "d" + b` runs from the `%` to the `d`
   * before b, when a has no `%` and b no `d`, and no line break comes
   * before that `d`.
   */
  lemma SpanOfTemplate(a: string, x: string, b: string)
    requires Free(a, '%') && Free(a, '\n') && Free(x, '\n') && Free(b, 'd')
    ensures PaddingSpan(a + "%" + x + "d" + b) == Some((|a|, |a| + 1 + |x|))
    ensures (a + "%" + x + "d" + b)[|a| + 1..|a| + 1 + |x|] == x
  {
    var s := a + "%" + x + "d" + b;
    PrintfLayout(a, x, b);
    var p, q := |a|, |a| + 1 + |x|;
    assert s[..q + 1] == a + "%" + x + "d";
    FreeAppend(a, "%", '\n');
    FreeAppend(a + "%", x, '\n');
    FreeAppend(a + "%" + x, "d", '\n');
    FirstLineCovers(s, q + 1);
    var line := FirstLine(s);
    assert Free(line[..p], '%') by {
      assert forall k :: 0 <= k < p ==> line[..p][k] == a[k];
    }
    assert Free(line[q + 1..], 'd') by {
      assert forall k :: 0 <= k < |line| - q - 1 ==> line[q + 1..][k] == b[k];
    }
    PaddingSpanIs(s, p, q);
  }

  /** Once the span is known, the parse is decided by `int()` of the group. */
  lemma PaddingOfGroup(s: string, p: nat, q: nat, x: string)
    requires PaddingSpan(s) == Some((p, q)) && s[p + 1..q] == x
    ensures ParseInt(x).Some? ==> ParsePadding(s) == Width(ParseInt(x).value)
    ensures ParseInt(x).None? ==> ParsePadding(s) == InvalidPadding(x)
  {
    assert Group(s, p, q) == x;
  }

  /**
   * The parse as written agrees with the corrected one when the first line
   * has no `%` before the placeholder and no `d` after it.
   */
  lemma AsWrittenPaddingOfPlaceholder(a: string, g: string, b: string)
    requires Free(a, '%') && Free(a, '\n') && Free(b, 'd') && g != [] && AllDigits(g)
    ensures ParsePadding(a + "%" + g + "d" + b) == Width(DecimalValue(g))
  {
    var s := a + "%" + g + "d" + b;
    var q := |a| + 1 + |g|;
    assert PaddingSpan(s) == Some((|a|, q)) && s[|a| + 1..q] == g by {
      assert Free(g, '\n');
      SpanOfTemplate(a, g, b);
    }
    assert ParseInt(g) == Some(DecimalValue(g)) by {
      ParseIntOfDigits(g);
    }
    PaddingOfGroup(s, |a|, q, g);
  }

  /**
   * The mistake in general: when another `d` follows the placeholder on the
   * first line, the group runs over it, `int()` rejects the group and the
   * parse as written fails.
   */
  lemma AsWrittenOverruns(a: string, g: string, m: string, b: string)
    requires Free(a, '%') && Free(a, '\n') && Free(m, '\n') && Free(b, 'd')
    requires g != [] && AllDigits(g)
    ensures var x := g + "d" + m; ParsePadding(a + "%" + x + "d" + b) == InvalidPadding(x)
  {
    var x := g + "d" + m;
    var s := a + "%" + x + "d" + b;
    var q := |a| + 1 + |x|;
    assert PaddingSpan(s) == Some((|a|, q)) && s[|a| + 1..q] == x by {
      assert Free(g, '\n');
      FreeAppend(g, "d", '\n');
      FreeAppend(g + "d", m, '\n');
      SpanOfTemplate(a, x, b);
    }
    OverrunRejected(g, m);
    PaddingOfGroup(s, |a|, q, x);
  }

  /** A group that runs over a `d` is not a number. */
  lemma OverrunRejected(g: string, m: string)
    requires g != [] && AllDigits(g)
    ensures ParseInt(g + "d" + m) == None
  {
    var x := g + "d" + m;
    assert x[0] == g[0] && x[|g|] == 'd';
    RejectsNonDigit(x, |g|);
  }

  /** The placeholder `replace_frame_padding` looks for is `%<digits>d` with the digits of the padding. */
  lemma NeedleDigits(w: nat)
    ensures var g := "0" + NatToStr(w);
      Needle(w) == "%" + g + "d" && g != [] && AllDigits(g) && DecimalValue(g) == w
  {
    DecimalValueLeadingZeros(1, NatToStr(w));
    assert Repeat('0', 1) == "0";
  }

  /** Hence a template holding `%0<w>d` after its last other `%` yields the padding w with the corrected rule. */
  lemma FixedPaddingOfNeedle(a: string, w: nat, b: string)
    requires Free(a, '%')
    ensures ParsePaddingFixed(a + Needle(w) + b) == Width(w)
  {
    NeedleDigits(w);
    var g := "0" + NatToStr(w);
    assert a + Needle(w) + b == a + "%" + g + "d" + b;
    FixedPaddingOfPlaceholder(a, g, b);
  }

  /**
   * The mistake: in `shot.%04d.dpx` the greedy group runs to the `d` of the
   * extension, `int('04d.')` raises ValueError, and the corrected rule reads
   * the padding 4.
   */
  lemma PaddingRunsToLastD()
    ensures ParsePadding("shot." + "%" + "04d." + "d" + "px") == InvalidPadding("04d.")
    ensures ParsePaddingFixed("shot." + Needle(4) + ".dpx") == Width(4)
  {
    ExampleParts();
    AsWrittenOverruns("shot.", "04", ".", "px");
    FixedPaddingOfNeedle("shot.", 4, ".dpx");
  }

  /** The pieces of `shot.%04d.dpx` meet the hypotheses of the general lemmas. */
  lemma ExampleParts()
    ensures Free("shot.", '%') && Free("shot.", '\n') && Free(".", '\n') && Free("px", 'd')
    ensures AllDigits("04") && "04" + "d" + "." == "04d."
  {
  }

  /** Both spellings used in PaddingRunsToLastD are the text `shot.%04d.dpx`. */
  lemma NeedleFour()
    ensures "shot." + Needle(4) + ".dpx" == "shot.%04d.dpx"
    ensures "shot." + "%" + "04d." + "d" + "px" == "shot.%04d.dpx"
  {
    assert NatToStr(4) == "4";
    assert Needle(4) == "%04d";
  }

  // ---------------------------------------------------------------------
  // replace_frame_padding
  // ---------------------------------------------------------------------

  /** `replace_frame_padding(path, frame, padding)` */
  function FramePath(path: string, frame: int, padding: int): string {
    ReplaceAll(path, Needle(padding), ZFill(IntToStr(frame), padding))
  }

  /**
   * The text put in for the placeholder is never cut: it has max(padding,
   * len(str(frame))) characters and reads back as the frame number.
   */
  lemma FrameTextReadsBack(frame: int, padding: int)
    ensures var t := ZFill(IntToStr(frame), padding);
      |t| == (if padding > |IntToStr(frame)| then padding else |IntToStr(frame)|) && ParseInt(t) == Some(frame)
  {
    ParseIntZFill(frame, padding);
  }

  /** Every placeholder grows or shrinks by the same amount. */
  lemma FramePathLength(path: string, frame: int, padding: int)
    ensures |FramePath(path, frame, padding)| ==
      |path| + Count(path, Needle(padding)) * (|ZFill(IntToStr(frame), padding)| - |Needle(padding)|)
  {
    ReplaceLength(path, Needle(padding), ZFill(IntToStr(frame), padding));
  }

  /** When the placeholder occurs, distinct frames get distinct paths. */
  lemma FramePathInjective(path: string, padding: int, m: int, n: int)
    requires Count(path, Needle(padding)) > 0
    requires FramePath(path, m, padding) == FramePath(path, n, padding)
    ensures m == n
  {
    ReplaceInjective(path, Needle(padding), ZFill(IntToStr(m), padding), ZFill(IntToStr(n), padding));
    ZFillInjective(m, n, padding);
  }

  /** When it does not (say `%4d` with padding 4), every frame gets the template itself. */
  lemma FramePathConstant(path: string, padding: int, frame: int)
    requires Count(path, Needle(padding)) == 0
    ensures FramePath(path, frame, padding) == path
  {
    ReplaceAbsent(path, Needle(padding), ZFill(IntToStr(frame), padding));
  }

  // ---------------------------------------------------------------------
  // The filler on values
  // ---------------------------------------------------------------------

  /**
   * One call: the path of each frame (`replace_frame_padding` with the
   * template and the padding fixed), `start_number`, the mode, and
   * `get_image_size` as a function of the path it is asked about.
   */
  datatype Job = Job(frameFile: int -> string, start: int, mode: string, sizeOf: string -> (int, int))

  /** The job `generate_missing_frames` sets up for a template and its padding */
  function TemplateJob(path: string, padding: int, start: int, mode: string, sizeOf: string -> (int, int)): (job: Job)
    ensures forall f :: job.frameFile(f) == FramePath(path, f, padding)
  {
    Job(f => FramePath(path, f, padding), start, mode, sizeOf)
  }

  /** Distinct frames have distinct paths. */
  ghost predicate Distinct(job: Job) {
    forall m, n :: job.frameFile(m) == job.frameFile(n) ==> m == n
  }

  /** Distinct frames have distinct paths, or all frames have the same path. */
  ghost predicate DistinctOrConstant(job: Job) {
    Distinct(job) || forall m, n :: job.frameFile(m) == job.frameFile(n)
  }

  /**
   * A template job has distinct paths when the placeholder occurs in the
   * template, and a single path otherwise.
   */
  lemma TemplateJobPaths(path: string, padding: int, start: int, mode: string, sizeOf: string -> (int, int))
    ensures Count(path, Needle(padding)) > 0 ==> Distinct(TemplateJob(path, padding, start, mode, sizeOf))
    ensures DistinctOrConstant(TemplateJob(path, padding, start, mode, sizeOf))
  {
    var job := TemplateJob(path, padding, start, mode, sizeOf);
    if Count(path, Needle(padding)) > 0 {
      forall m, n | job.frameFile(m) == job.frameFile(n) ensures m == n {
        FramePathInjective(path, padding, m, n);
      }
    } else {
      forall m, n ensures job.frameFile(m) == job.frameFile(n) {
        FramePathConstant(path, padding, m);
        FramePathConstant(path, padding, n);
      }
    }
  }

  predicate IsCanvasMode(mode: string) {
    mode == "black" || mode == "checkerboard"
  }

  /** The ImageMagick command that renders a missing frame */
  function CanvasCommand(job: Job, frame: int): (c: seq<string>)
    requires IsCanvasMode(job.mode)
    ensures |c| == 5 && c[..2] == ["magick", "-size"] && c[4] == job.frameFile(frame)
    ensures (c[3] == "canvas:black" <==> job.mode == "black") && (c[3] == "pattern:checkerboard" <==> job.mode == "checkerboard")
    ensures var (x, y) := job.sizeOf(job.frameFile(job.start)); c[2] == IntToStr(x) + "x" + IntToStr(y)
  {
    var (x, y) := job.sizeOf(job.frameFile(job.start));
    var background := if job.mode == "black" then "canvas:black" else "pattern:checkerboard";
    ["magick", "-size", IntToStr(x) + "x" + IntToStr(y), background, job.frameFile(frame)]
  }

  /**
   * The search of vgenc/convert.py:45-49: the highest frame g with
   * start <= g < frame whose file exists.
   */
  function Nearest(job: Job, files: set<string>, frame: int): (r: Option<int>)
    ensures r.Some? ==> job.start <= r.value < frame && job.frameFile(r.value) in files
    ensures r.Some? ==> forall g :: r.value < g < frame ==> job.frameFile(g) !in files
    ensures r.None? ==> forall g :: job.start <= g < frame ==> job.frameFile(g) !in files
    decreases frame - job.start
  {
    if frame <= job.start then None
    else if job.frameFile(frame - 1) in files then Some(frame - 1)
    else Nearest(job, files, frame - 1)
  }

  /** What happens to one frame */
  datatype Action = Present | Link(source: int) | Canvas | Listed

  /** The decision for `frame` given the paths that exist */
  function Decide(job: Job, files: set<string>, frame: int): (a: Action)
    ensures a.Present? <==> job.frameFile(frame) in files
    ensures a.Link? <==> job.frameFile(frame) !in files && job.mode == "previous" && Nearest(job, files, frame).Some?
    ensures a.Link? ==> Some(a.source) == Nearest(job, files, frame)
    ensures a.Canvas? <==> job.frameFile(frame) !in files && IsCanvasMode(job.mode)
  {
    if job.frameFile(frame) in files then Present
    else if job.mode == "previous" then
      match Nearest(job, files, frame)
      case Some(g) => Link(g)
      case None => Listed
    else if IsCanvasMode(job.mode) then Canvas
    else Listed
  }

  /**
   * The state the filler works on: the paths that exist, the links made
   * (target to source), the commands run and the frames reported.
   */
  datatype World = World(files: set<string>, links: map<string, string>, commands: seq<seq<string>>, missing: seq<string>)

  /** The effect of an action: a link or a rendered canvas also makes the target exist. */
  function Apply(job: Job, w: World, frame: int, a: Action): World {
    var t := job.frameFile(frame);
    match a
    case Present => w
    case Link(g) => World(w.files + {t}, w.links[t := job.frameFile(g)], w.commands, w.missing + [t])
    case Canvas =>
      if IsCanvasMode(job.mode) then World(w.files + {t}, w.links, w.commands + [CanvasCommand(job, frame)], w.missing + [t])
      else w.(missing := w.missing + [t])
    case Listed => w.(missing := w.missing + [t])
  }

  /** Visit the frames hi, hi - 1, ..., lo, each decided on the paths that exist by then. */
  function Run(job: Job, w: World, hi: int, lo: int): World
    decreases hi - lo + 1
  {
    if hi < lo then w else Run(job, Apply(job, w, hi, Decide(job, w.files, hi)), hi - 1, lo)
  }

  /** The reference: the same visits, each decided on the original listing `files0`. */
  function Replay(job: Job, files0: set<string>, w: World, hi: int, lo: int): World
    decreases hi - lo + 1
  {
    if hi < lo then w else Replay(job, files0, Apply(job, w, hi, Decide(job, files0, hi)), hi - 1, lo)
  }

  // ---------------------------------------------------------------------
  // Properties of the filler
  // ---------------------------------------------------------------------

  /** The paths of the frames in (f, hi] */
  function Above(job: Job, f: int, hi: int): set<string> {
    set h | f < h <= hi :: job.frameFile(h)
  }

  /** Everything made so far is the file of a frame above f, and every link points at an original file. */
  predicate FromOriginals(job: Job, files0: set<string>, w: World, f: int, top: int) {
    && (forall t :: t in w.files ==> t in files0 || t in Above(job, f, top))
    && (forall t :: t in w.links ==> w.links[t] in files0)
  }

  lemma {:induction false} RunFromOriginals(job: Job, files0: set<string>, w: World, hi: int, lo: int, top: int)
    requires DistinctOrConstant(job)
    requires hi <= top
    requires FromOriginals(job, files0, w, hi, top)
    ensures forall t :: t in Run(job, w, hi, lo).links ==> Run(job, w, hi, lo).links[t] in files0
    decreases hi - lo + 1
  {
    if lo <= hi {
      var a := Decide(job, w.files, hi);
      var w' := Apply(job, w, hi, a);
      assert Above(job, hi - 1, top) == Above(job, hi, top) + {job.frameFile(hi)};
      if a.Link? {
        var g := a.source;
        var s := job.frameFile(g);
        assert s in files0;
      }
      assert FromOriginals(job, files0, w', hi - 1, top);
      RunFromOriginals(job, files0, w', hi - 1, lo, top);
    }
  }

  /**
   * Every link the filler makes points at a file of the original listing,
   * never at a link made earlier in the same call, whether or not distinct
   * frames have distinct paths (the reason the range is walked downward).
   */
  lemma LinkSourcesAreOriginal(job: Job, files0: set<string>, commands: seq<seq<string>>, hi: int, lo: int)
    requires DistinctOrConstant(job)
    ensures forall t :: t in Run(job, World(files0, map[], commands, []), hi, lo).links ==>
      Run(job, World(files0, map[], commands, []), hi, lo).links[t] in files0
  {
    RunFromOriginals(job, files0, World(files0, map[], commands, []), hi, lo, hi);
  }

  /** Two listings agree on the files of frames up to hi. */
  ghost predicate AgreeUpTo(job: Job, files: set<string>, files0: set<string>, hi: int) {
    forall g :: g <= hi ==> (job.frameFile(g) in files <==> job.frameFile(g) in files0)
  }

  lemma {:induction false} NearestAgree(job: Job, files: set<string>, files0: set<string>, frame: int, hi: int)
    requires frame <= hi + 1 && AgreeUpTo(job, files, files0, hi)
    ensures Nearest(job, files, frame) == Nearest(job, files0, frame)
    decreases frame - job.start
  {
    if frame > job.start {
      NearestAgree(job, files, files0, frame - 1, hi);
    }
  }

  /**
   * With distinct paths for distinct frames, a visit never sees a file made
   * by an earlier visit, so deciding on the original listing changes nothing.
   */
  lemma {:induction false} RunIsReplay(job: Job, files0: set<string>, w: World, hi: int, lo: int)
    requires Distinct(job)
    requires AgreeUpTo(job, w.files, files0, hi)
    ensures Run(job, w, hi, lo) == Replay(job, files0, w, hi, lo)
    decreases hi - lo + 1
  {
    if lo <= hi {
      NearestAgree(job, w.files, files0, hi, hi);
      var w' := Apply(job, w, hi, Decide(job, w.files, hi));
      assert w'.files <= w.files + {job.frameFile(hi)};
      assert AgreeUpTo(job, w'.files, files0, hi - 1);
      RunIsReplay(job, files0, w', hi - 1, lo);
    }
  }

  /** The frames of [lo, hi] whose file is absent from `files0`, highest first */
  function Absent(job: Job, files0: set<string>, hi: int, lo: int): (r: seq<int>)
    ensures forall i :: 0 <= i < |r| ==> lo <= r[i] <= hi && job.frameFile(r[i]) !in files0
    ensures forall i, j :: 0 <= i < j < |r| ==> r[i] > r[j]
    ensures forall f :: lo <= f <= hi && job.frameFile(f) !in files0 ==> f in r
    decreases hi - lo + 1
  {
    if hi < lo then []
    else if job.frameFile(hi) in files0 then Absent(job, files0, hi - 1, lo)
    else [hi] + Absent(job, files0, hi - 1, lo)
  }

  function Paths(job: Job, frames: seq<int>): (r: seq<string>)
    ensures |r| == |frames| && forall i :: 0 <= i < |r| ==> r[i] == job.frameFile(frames[i])
  {
    if frames == [] then [] else [job.frameFile(frames[0])] + Paths(job, frames[1..])
  }

  lemma Shift<T>(m: seq<T>, m': seq<T>, x: T, p: seq<T>, q: seq<T>)
    requires m' == m + [x] && q == [x] + p
    ensures m' + p == m + q
  {
  }

  lemma PathsCons(job: Job, f: int, rest: seq<int>)
    ensures Paths(job, [f] + rest) == [job.frameFile(f)] + Paths(job, rest)
  {
    assert ([f] + rest)[1..] == rest;
  }

  lemma CanvasCommandsCons(job: Job, f: int, rest: seq<int>)
    requires IsCanvasMode(job.mode)
    ensures CanvasCommands(job, [f] + rest) == [CanvasCommand(job, f)] + CanvasCommands(job, rest)
  {
    assert ([f] + rest)[1..] == rest;
  }

  lemma ApplyMissing(job: Job, w: World, frame: int, a: Action)
    ensures Apply(job, w, frame, a).missing == if a.Present? then w.missing else w.missing + [job.frameFile(frame)]
  {
  }

  lemma ApplyCommands(job: Job, w: World, frame: int, a: Action)
    ensures Apply(job, w, frame, a).commands ==
      if a.Canvas? && IsCanvasMode(job.mode) then w.commands + [CanvasCommand(job, frame)] else w.commands
  {
  }

  /**
   * The frames reported are exactly those absent from the original listing,
   * highest first, in every mode (also `previous` frames left without a source).
   */
  lemma {:induction false} ReplayMissing(job: Job, files0: set<string>, w: World, hi: int, lo: int)
    ensures Replay(job, files0, w, hi, lo).missing == w.missing + Paths(job, Absent(job, files0, hi, lo))
    decreases hi - lo + 1
  {
    if lo <= hi {
      var a := Decide(job, files0, hi);
      var w' := Apply(job, w, hi, a);
      ReplayMissing(job, files0, w', hi - 1, lo);
      ApplyMissing(job, w, hi, a);
      var rest := Absent(job, files0, hi - 1, lo);
      if !a.Present? {
        PathsCons(job, hi, rest);
        Shift(w.missing, w'.missing, job.frameFile(hi), Paths(job, rest), Paths(job, [hi] + rest));
      }
    }
  }

  function CanvasCommands(job: Job, frames: seq<int>): (r: seq<seq<string>>)
    requires IsCanvasMode(job.mode)
    ensures |r| == |frames| && forall i :: 0 <= i < |r| ==> r[i] == CanvasCommand(job, frames[i])
  {
    if frames == [] then [] else [CanvasCommand(job, frames[0])] + CanvasCommands(job, frames[1..])
  }

  /** The canvas modes run one command per absent frame, highest first; the others run none. */
  lemma {:induction false} ReplayCommands(job: Job, files0: set<string>, w: World, hi: int, lo: int)
    ensures !IsCanvasMode(job.mode) ==> Replay(job, files0, w, hi, lo).commands == w.commands
    ensures IsCanvasMode(job.mode) ==>
      Replay(job, files0, w, hi, lo).commands == w.commands + CanvasCommands(job, Absent(job, files0, hi, lo))
    decreases hi - lo + 1
  {
    if lo <= hi {
      var a := Decide(job, files0, hi);
      var w' := Apply(job, w, hi, a);
      ReplayCommands(job, files0, w', hi - 1, lo);
      ApplyCommands(job, w, hi, a);
      var rest := Absent(job, files0, hi - 1, lo);
      if IsCanvasMode(job.mode) && !a.Present? {
        CanvasCommandsCons(job, hi, rest);
        Shift(w.commands, w'.commands, CanvasCommand(job, hi), CanvasCommands(job, rest), CanvasCommands(job, [hi] + rest));
      }
    }
  }

  /**
   * Frames outside [lo, hi] keep their entry in the links: a visit writes
   * only the key of its own frame.
   */
  lemma {:induction false} ReplayKeepsOtherLinks(job: Job, files0: set<string>, w: World, hi: int, lo: int, t: string)
    requires t !in Above(job, lo - 1, hi)
    ensures (t in Replay(job, files0, w, hi, lo).links) == (t in w.links)
    ensures t in w.links ==> Replay(job, files0, w, hi, lo).links[t] == w.links[t]
    decreases hi - lo + 1
  {
    if lo <= hi {
      var w' := Apply(job, w, hi, Decide(job, files0, hi));
      assert job.frameFile(hi) in Above(job, lo - 1, hi);
      assert Above(job, lo - 1, hi - 1) <= Above(job, lo - 1, hi);
      ReplayKeepsOtherLinks(job, files0, w', hi - 1, lo, t);
    }
  }

  /**
   * In `previous` mode with distinct paths, an absent frame is linked exactly
   * when some lower frame from `start` on exists, and then to the nearest one.
   */
  lemma {:induction false} ReplayLinks(job: Job, files0: set<string>, w: World, hi: int, lo: int, f: int)
    requires Distinct(job)
    requires job.mode == "previous" && lo <= f <= hi && job.frameFile(f) !in files0
    ensures Nearest(job, files0, f).Some? ==>
      && job.frameFile(f) in Replay(job, files0, w, hi, lo).links
      && Replay(job, files0, w, hi, lo).links[job.frameFile(f)] == job.frameFile(Nearest(job, files0, f).value)
    ensures Nearest(job, files0, f).None? ==>
      (job.frameFile(f) in Replay(job, files0, w, hi, lo).links) == (job.frameFile(f) in w.links)
    decreases hi - lo + 1
  {
    var w' := Apply(job, w, hi, Decide(job, files0, hi));
    if f < hi {
      ReplayLinks(job, files0, w', hi - 1, lo, f);
    } else {
      assert job.frameFile(f) !in Above(job, lo - 1, hi - 1);
      ReplayKeepsOtherLinks(job, files0, w', hi - 1, lo, job.frameFile(f));
    }
  }

  /** With distinct paths, no path is reported twice. */
  lemma MissingDistinct(job: Job, files0: set<string>, hi: int, lo: int)
    requires Distinct(job)
    ensures var m := Paths(job, Absent(job, files0, hi, lo));
      forall i, j :: 0 <= i < j < |m| ==> m[i] != m[j]
  {
    var a := Absent(job, files0, hi, lo);
    assert forall i, j :: 0 <= i < j < |a| ==> a[i] != a[j];
  }

  /** A complete range changes nothing and reports nothing. */
  lemma {:induction false} CompleteRangeUntouched(job: Job, w: World, hi: int, lo: int)
    requires forall f :: lo <= f <= hi ==> job.frameFile(f) in w.files
    ensures Run(job, w, hi, lo) == w
    decreases hi - lo + 1
  {
    if lo <= hi {
      CompleteRangeUntouched(job, w, hi - 1, lo);
    }
  }

  // ---------------------------------------------------------------------
  // The filler on the file system
  // ---------------------------------------------------------------------

  class FileSystem {
    /** The paths for which `os.path.exists` holds */
    var files: set<string>
    /** The symbolic links made, target to source */
    var links: map<string, string>
    /** The external commands run, in order */
    var commands: seq<seq<string>>

    /** Every link made is a path that exists. */
    ghost predicate Valid()
      reads this
    {
      links.Keys <= files
    }

    constructor(existing: set<string>)
      ensures Valid() && files == existing && links == map[] && commands == []
    {
      files := existing;
      links := map[];
      commands := [];
    }

    /** `os.symlink(source, target)`, which raises FileExistsError over an existing path */
    method Symlink(source: string, target: string)
      requires Valid() && target !in files
      modifies this
      ensures Valid() && target !in old(links)
      ensures files == old(files) + {target} && links == old(links)[target := source] && commands == old(commands)
    {
      files := files + {target};
      links := links[target := source];
    }

    /** `subprocess.run(command)` for a command that writes the file `output` */
    method RunWriting(command: seq<string>, output: string)
      requires Valid()
      modifies this
      ensures Valid()
      ensures files == old(files) + {output} && links == old(links) && commands == old(commands) + [command]
    {
      files := files + {output};
      commands := commands + [command];
    }
  }

  /**
   * In a canvas mode the first missing frame asks `get_image_size` about
   * the start frame (vgenc/convert.py:51-54), which raises when that file
   * does not exist: before anything has been written, since every frame
   * visited earlier existed.
   */
  ghost predicate NoSizeReference(job: Job, files: set<string>, hi: int, lo: int) {
    && IsCanvasMode(job.mode)
    && job.frameFile(job.start) !in files
    && exists f :: lo <= f <= hi && job.frameFile(f) !in files
  }

  /** The size lookup fails exactly when a canvas mode finds a missing frame and the start frame is absent. */
  lemma NoSizeReferenceIff(job: Job, files0: set<string>, hi: int, lo: int)
    ensures NoSizeReference(job, files0, hi, lo) <==>
      IsCanvasMode(job.mode) && job.frameFile(job.start) !in files0 && Absent(job, files0, hi, lo) != []
  {
    var r := Absent(job, files0, hi, lo);
    if r != [] {
      assert lo <= r[0] <= hi && job.frameFile(r[0]) !in files0;
    }
  }

  /**
   * One pass of the loop body, vgenc/convert.py:40-64: `raised` where
   * `get_image_size` raises, otherwise the frame decided on the paths that
   * exist by then, and reported when it was missing.
   */
  method FillFrame(fs: FileSystem, job: Job, frame: int, missing0: seq<string>) returns (raised: bool, missing: seq<string>)
    requires fs.Valid()
    modifies fs
    ensures fs.Valid() && old(fs.files) <= fs.files
    ensures raised <==>
      job.frameFile(frame) !in old(fs.files) && IsCanvasMode(job.mode) && job.frameFile(job.start) !in old(fs.files)
    ensures (raised || job.frameFile(frame) in old(fs.files)) ==> unchanged(fs) && missing == missing0
    ensures !raised ==>
      World(fs.files, fs.links, fs.commands, missing) ==
        Apply(job, World(old(fs.files), old(fs.links), old(fs.commands), missing0), frame, Decide(job, old(fs.files), frame))
  {
    ghost var w := World(fs.files, fs.links, fs.commands, missing0);
    raised, missing := false, missing0;
    var target := job.frameFile(frame);
    if target in fs.files {
      return;
    }
    if job.mode == "previous" {
      var f := frame - 1;
      while f >= job.start
        invariant f < frame
        invariant fs.files == w.files && fs.links == w.links && fs.commands == w.commands
        invariant Nearest(job, w.files, frame) == Nearest(job, w.files, f + 1)
        decreases f - job.start
      {
        var looked := job.frameFile(f);
        if looked in fs.files {
          fs.Symlink(looked, target);
          break;
        }
        f := f - 1;
      }
    } else if job.mode == "black" || job.mode == "checkerboard" {
      if job.frameFile(job.start) !in fs.files {
        raised := true;
        return;
      }
      var (x, y) := job.sizeOf(job.frameFile(job.start));
      var background := if job.mode == "black" then "canvas:black" else "pattern:checkerboard";
      fs.RunWriting(["magick", "-size", IntToStr(x) + "x" + IntToStr(y), background, target], target);
    }
    missing := missing + [target];
    assert World(fs.files, fs.links, fs.commands, missing) == Apply(job, w, frame, Decide(job, w.files, frame));
  }

  /**
   * The loop of vgenc/convert.py:37-64 for a parsed padding: None where
   * `get_image_size` raises, otherwise `missing_files`.
   */
  method FillMissingFrames(fs: FileSystem, job: Job, lo: int, hi: int) returns (r: Option<seq<string>>)
    requires fs.Valid()
    modifies fs
    ensures fs.Valid()
    ensures NoSizeReference(job, old(fs.files), hi, lo) ==>
      && r.None?
      && fs.files == old(fs.files) && fs.links == old(fs.links) && fs.commands == old(fs.commands)
    ensures !NoSizeReference(job, old(fs.files), hi, lo) ==>
      && r.Some?
      && World(fs.files, fs.links, fs.commands, r.value) ==
           Run(job, World(old(fs.files), old(fs.links), old(fs.commands), []), hi, lo)
  {
    ghost var init := World(fs.files, fs.links, fs.commands, []);
    ghost var noReference := IsCanvasMode(job.mode) && job.frameFile(job.start) !in init.files;
    var missing := [];
    var frame := hi;
    while frame >= lo
      invariant fs.Valid() && frame <= hi && init.files <= fs.files
      invariant Run(job, World(fs.files, fs.links, fs.commands, missing), frame, lo) == Run(job, init, hi, lo)
      invariant noReference ==>
        fs.files == init.files && fs.links == init.links && fs.commands == init.commands && missing == []
      invariant noReference ==> forall g :: frame < g <= hi ==> job.frameFile(g) in init.files
      decreases frame - lo + 1
    {
      var raised;
      raised, missing := FillFrame(fs, job, frame, missing);
      if raised {
        assert noReference && lo <= frame <= hi && job.frameFile(frame) !in init.files;
        return None;
      }
      frame := frame - 1;
    }
    r := Some(missing);
  }

  /**
   * What `generate_missing_frames` returns: None for no `%...d`, the
   * ValueError of `int()`, the failure of `get_image_size`, or the list.
   */
  datatype Outcome = NoPattern | PaddingError(group: string) | SizeError | Generated(missing: seq<string>)

  /**
   * What the filler leaves for a parsed padding: SizeError and nothing
   * changed where `get_image_size` raises, otherwise the list and the state
   * of `Run`.
   */
  ghost function Fill(job: Job, w: World, hi: int, lo: int): (Outcome, World) {
    if NoSizeReference(job, w.files, hi, lo) then (SizeError, w)
    else
      var v := Run(job, w, hi, lo);
      (Generated(v.missing), v.(missing := w.missing))
  }

  /** `generate_missing_frames(input_path, frame_range, start_number, missing_frames)` as written */
  method GenerateMissingFrames(fs: FileSystem, inputPath: string, frameRange: (int, int), startNumber: int,
                               mode: string, sizeOf: string -> (int, int)) returns (r: Outcome)
    requires fs.Valid()
    modifies fs
    ensures fs.Valid()
    ensures ParsePadding(inputPath).NoPadding? ==> r == NoPattern && unchanged(fs)
    ensures ParsePadding(inputPath).InvalidPadding? ==> r == PaddingError(ParsePadding(inputPath).group) && unchanged(fs)
    ensures ParsePadding(inputPath).Width? ==>
      var job := TemplateJob(inputPath, ParsePadding(inputPath).n, startNumber, mode, sizeOf);
      (r, World(fs.files, fs.links, fs.commands, [])) ==
        Fill(job, World(old(fs.files), old(fs.links), old(fs.commands), []), frameRange.1, frameRange.0)
  {
    match ParsePadding(inputPath)
    case NoPadding => r := NoPattern;
    case InvalidPadding(group) => r := PaddingError(group);
    case Width(padding) =>
      var filled := FillMissingFrames(fs, TemplateJob(inputPath, padding, startNumber, mode, sizeOf), frameRange.0, frameRange.1);
      r := if filled.Some? then Generated(filled.value) else SizeError;
  }

  /** The same with the padding read from the leftmost `%<digits>d` */
  method GenerateMissingFramesFixed(fs: FileSystem, inputPath: string, frameRange: (int, int), startNumber: int,
                                    mode: string, sizeOf: string -> (int, int)) returns (r: Outcome)
    requires fs.Valid()
    modifies fs
    ensures fs.Valid()
    ensures !r.PaddingError?
    ensures ParsePaddingFixed(inputPath).NoPadding? ==> r == NoPattern && unchanged(fs)
    ensures ParsePaddingFixed(inputPath).Width? ==>
      var job := TemplateJob(inputPath, ParsePaddingFixed(inputPath).n, startNumber, mode, sizeOf);
      (r, World(fs.files, fs.links, fs.commands, [])) ==
        Fill(job, World(old(fs.files), old(fs.links), old(fs.commands), []), frameRange.1, frameRange.0)
  {
    match ParsePaddingFixed(inputPath)
    case NoPadding => r := NoPattern;
    case Width(padding) =>
      var filled := FillMissingFrames(fs, TemplateJob(inputPath, padding, startNumber, mode, sizeOf), frameRange.0, frameRange.1);
      r := if filled.Some? then Generated(filled.value) else SizeError;
  }
}
