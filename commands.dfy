/**
 * The argument lists vgenc hands to its external tools (vgenc/convert.py):
 * oiiotool for `convert_image`, ffmpeg for `convert_movie` (with its inner
 * `build_filter` and `build_drawtext`) and ImageMagick for `convert_to_gif`.
 *
 * Each command is built by a method that appends and extends a local list
 * as the Python code does, and is specified by a function on the settings.
 * The partner of each builder is a parser: reading the command back yields
 * exactly the settings it was built from, so no option is lost, duplicated
 * or put in the wrong place.
 *
 * Every Python value that reaches a command through `str()` or an
 * f-string is taken here as its text, except the integers the code
 * formats itself (frame numbers, sizes, the gif delay and depth).
 */
module Commands {
  import opened Wrappers
  import opened Text
  import Files

  // ---------------------------------------------------------------------
  // Optional `flag value` pairs
  // ---------------------------------------------------------------------

  /** `[flag, value]` when the option is set, nothing when it is None */
  function Opt(flag: string, value: Option<string>): seq<string> {
    match value
    case Some(v) => [flag, v]
    case None => []
  }

  /** Reads an optional `flag value` pair off the front of an argument list. */
  function TakeOpt(flag: string, c: seq<string>): (r: (Option<string>, seq<string>))
    ensures |r.1| <= |c|
    ensures r.0.Some? ==> |c| >= 2 && c[0] == flag && r == (Some(c[1]), c[2..])
    ensures r.0.None? ==> r.1 == c
  {
    if |c| >= 2 && c[0] == flag then (Some(c[1]), c[2..]) else (None, c)
  }

  /** The list is empty or does not start with any of `flags`. */
  predicate HeadNotIn(c: seq<string>, flags: seq<string>) {
    c == [] || c[0] !in flags
  }

  /** An option written in front of a list that does not start with its flag reads back. */
  lemma TakeOptOf(flag: string, value: Option<string>, rest: seq<string>)
    requires HeadNotIn(rest, [flag])
    ensures TakeOpt(flag, Opt(flag, value) + rest) == (value, rest)
  {
    match value
    case Some(v) =>
      assert ([flag, v] + rest)[2..] == rest;
    case None =>
      assert [] + rest == rest;
  }

  /** The options `vals`, each under the flag at the same position, in order */
  function Opts(flags: seq<string>, vals: seq<Option<string>>): seq<string>
    requires |flags| == |vals|
    decreases |flags|
  {
    if flags == [] then [] else Opt(flags[0], vals[0]) + Opts(flags[1..], vals[1..])
  }

  /** Reads one optional pair per flag, in the order of `flags`. */
  function TakeOpts(flags: seq<string>, c: seq<string>): (r: (seq<Option<string>>, seq<string>))
    ensures |r.0| == |flags| && |r.1| <= |c|
    decreases |flags|
  {
    if flags == [] then ([], c)
    else
      var first := TakeOpt(flags[0], c);
      var more := TakeOpts(flags[1..], first.1);
      ([first.0] + more.0, more.1)
  }

  predicate DistinctFlags(flags: seq<string>) {
    forall i, j :: 0 <= i < j < |flags| ==> flags[i] != flags[j]
  }

  /** A section of options never starts with a word none of its flags equals. */
  lemma {:induction false} OptsHead(flags: seq<string>, vals: seq<Option<string>>, rest: seq<string>, others: seq<string>)
    requires |flags| == |vals|
    requires forall i :: 0 <= i < |flags| ==> flags[i] !in others
    requires HeadNotIn(rest, others)
    ensures HeadNotIn(Opts(flags, vals) + rest, others)
  {
    if flags != [] {
      OptsHead(flags[1..], vals[1..], rest, others);
      if vals[0].None? {
        assert Opts(flags, vals) + rest == Opts(flags[1..], vals[1..]) + rest;
      }
    }
  }

  /** The first flag and the others, apart */
  lemma FlagsSplit(flags: seq<string>, rest: seq<string>)
    requires flags != [] && DistinctFlags(flags) && HeadNotIn(rest, flags)
    ensures DistinctFlags(flags[1..])
    ensures forall i :: 0 <= i < |flags[1..]| ==> flags[1..][i] !in [flags[0]]
    ensures HeadNotIn(rest, [flags[0]]) && HeadNotIn(rest, flags[1..])
  {
    forall i | 0 <= i < |flags[1..]|
      ensures flags[1..][i] !in [flags[0]]
    {
      assert flags[1..][i] == flags[i + 1];
    }
    assert forall x :: x in flags[1..] ==> x in flags;
  }

  /**
   * Options written under distinct flags, followed by a list that starts
   * with none of them, read back as the same values and the same rest.
   */
  lemma {:induction false} TakeOptsOf(flags: seq<string>, vals: seq<Option<string>>, rest: seq<string>)
    requires |flags| == |vals| && DistinctFlags(flags)
    requires HeadNotIn(rest, flags)
    ensures TakeOpts(flags, Opts(flags, vals) + rest) == (vals, rest)
  {
    if flags != [] {
      var tail := Opts(flags[1..], vals[1..]) + rest;
      Assoc(Opt(flags[0], vals[0]), Opts(flags[1..], vals[1..]), rest);
      assert Opts(flags, vals) + rest == Opt(flags[0], vals[0]) + tail;
      FlagsSplit(flags, rest);
      OptsHead(flags[1..], vals[1..], rest, [flags[0]]);
      TakeOptOf(flags[0], vals[0], tail);
      assert TakeOpt(flags[0], Opts(flags, vals) + rest) == (vals[0], tail);
      TakeOptsOf(flags[1..], vals[1..], rest);
      assert TakeOpts(flags[1..], tail) == (vals[1..], rest);
      assert [vals[0]] + vals[1..] == vals;
    } else {
      assert vals == [];
      assert Opts(flags, vals) + rest == rest;
    }
  }

  /** Concatenation regrouped, stated on plain lists so that it stays cheap to use */
  lemma Regroup(a: seq<string>, b: seq<string>, c: seq<string>, d: seq<string>)
    ensures a + b + c + d == a + (b + (c + d))
    ensures a + b + c + d == a + (b + c + d)
    ensures a + b + c + d == a + (b + c) + d
  {
  }

  lemma Assoc(a: seq<string>, b: seq<string>, c: seq<string>)
    ensures a + b + c == a + (b + c)
  {
  }

  /** `if value is not None: command.extend([flag, value])` */
  method ExtendOpt(command0: seq<string>, flag: string, value: Option<string>) returns (command: seq<string>)
    ensures command == command0 + Opt(flag, value)
  {
    command := command0;
    if value.Some? {
      command := command + [flag, value.value];
    }
  }

  /** Applies `f` to a value that may be missing. */
  function MapText(f: string -> string, v: Option<string>): Option<string> {
    match v
    case Some(x) => Some(f(x))
    case None => None
  }

  // ---------------------------------------------------------------------
  // Sizes: f'{x}x{y}'
  // ---------------------------------------------------------------------

  /** `str(n)` never holds the letter x: only a sign and digits. */
  lemma IntTextFree(n: int, c: char)
    requires c != '-' && !IsDigit(c)
    ensures Free(IntToStr(n), c)
  {
    var d := NatToStr(if n < 0 then -n else n);
    assert AllDigits(d);
  }

  /** A width and height written `f'{x}x{y}'` */
  function SizeText(x: int, y: int): string {
    IntToStr(x) + "x" + IntToStr(y)
  }

  /** Reads `WxH` back: two integers around the first `x` */
  function ParseSize(t: string): Option<(int, int)> {
    match Files.IndexOf(t, 'x', 0)
    case None => None
    case Some(k) =>
      match (ParseInt(t[..k]), ParseInt(t[k + 1..]))
      case (Some(x), Some(y)) => Some((x, y))
      case _ => None
  }

  lemma ParseIntOfIntText(n: int)
    ensures ParseInt(IntToStr(n)) == Some(n)
  {
    ParseIntZFill(n, 0);
  }

  lemma ParseSizeAt(t: string, k: nat, x: int, y: int)
    requires Files.IndexOf(t, 'x', 0) == Some(k)
    requires ParseInt(t[..k]) == Some(x) && ParseInt(t[k + 1..]) == Some(y)
    ensures ParseSize(t) == Some((x, y))
  {
  }

  /** A size read back from its text is the size it was written from. */
  lemma SizeRoundTrip(x: int, y: int)
    ensures ParseSize(SizeText(x, y)) == Some((x, y))
  {
    var a, b := IntToStr(x), IntToStr(y);
    var t := SizeText(x, y);
    assert Files.IndexOf(t, 'x', 0) == Some(|a|) by {
      IntTextFree(x, 'x');
      assert t[|a|] == 'x';
      assert forall k :: 0 <= k < |a| ==> t[k] == a[k];
    }
    assert t[..|a|] == a && t[|a| + 1..] == b;
    ParseIntOfIntText(x);
    ParseIntOfIntText(y);
    ParseSizeAt(t, |a|, x, y);
  }

  // ---------------------------------------------------------------------
  // convert_image: oiiotool
  // ---------------------------------------------------------------------

  /**
   * The optional arguments of `convert_image`. The command line passes
   * `--colorspace` as exactly two names (vgenc/__main__.py:15).
   */
  datatype ImageSettings = ImageSettings(
    colorspace: Option<(string, string)>,
    look: Option<string>,
    imageSize: Option<(int, int)>,
    compression: Option<string>)

  const ImageFlags: seq<string> := ["--ociolook", "--resize", "--compression"]

  function SizeOption(size: Option<(int, int)>): Option<string> {
    match size
    case Some((x, y)) => Some(SizeText(x, y))
    case None => None
  }

  function ColorConvertArgs(colorspace: Option<(string, string)>): seq<string> {
    match colorspace
    case Some((src, dst)) => ["--colorconvert", src, dst]
    case None => []
  }

  /** The oiiotool command of `convert_image` */
  function ImageArgs(input: string, output: string, settings: ImageSettings): seq<string> {
    ["oiiotool", "-v", input] + ImageMiddle(settings) + ["-o", output]
  }

  /** The words between the input and `-o` */
  function ImageMiddle(settings: ImageSettings): seq<string> {
    ColorConvertArgs(settings.colorspace) + ImageOptionArgs(settings)
  }

  /** The `--ociolook`, `--resize` and `--compression` options, each when set */
  function ImageOptionArgs(settings: ImageSettings): seq<string> {
    Opt("--ociolook", settings.look)
    + Opt("--resize", SizeOption(settings.imageSize))
    + Opt("--compression", settings.compression)
  }

  /** Reads an oiiotool command back into input, output and settings. */
  function ParseImageCommand(c: seq<string>): Option<(string, string, ImageSettings)> {
    if |c| >= 5 && c[0] == "oiiotool" && c[1] == "-v" && c[|c| - 2] == "-o" then
      match ParseImageOptions(c[3..|c| - 2])
      case Some(settings) => Some((c[2], c[|c| - 1], settings))
      case None => None
    else None
  }

  /** Reads the options between the input and `-o`. */
  function ParseImageOptions(middle: seq<string>): Option<ImageSettings> {
    var color := TakeColorConvert(middle);
    ReadImageFlags(color.0, TakeOpts(ImageFlags, color.1))
  }

  /** Reads `--colorconvert src dst` off the front, when it is there. */
  function TakeColorConvert(c: seq<string>): (Option<(string, string)>, seq<string>) {
    if |c| >= 3 && c[0] == "--colorconvert" then (Some((c[1], c[2])), c[3..]) else (None, c)
  }

  /** The settings, once the look, size and compression options have been read and nothing is left */
  function ReadImageFlags(colorspace: Option<(string, string)>, options: (seq<Option<string>>, seq<string>)): Option<ImageSettings> {
    if options.1 != [] || |options.0| != 3 then None
    else
      var size := match options.0[1]
        case Some(t) => MapSize(ParseSize(t))
        case None => Some(None);
      match size
      case None => None
      case Some(imageSize) => Some(ImageSettings(colorspace, options.0[0], imageSize, options.0[2]))
  }

  /** A size text that does not parse makes the whole command unreadable. */
  function MapSize(parsed: Option<(int, int)>): Option<Option<(int, int)>> {
    match parsed
    case Some(xy) => Some(Some(xy))
    case None => None
  }

  lemma ImageFlagsDistinct()
    ensures DistinctFlags(ImageFlags)
  {
    assert ImageFlags[0] != ImageFlags[1] && ImageFlags[0] != ImageFlags[2] && ImageFlags[1] != ImageFlags[2];
  }

  lemma TakeColorConvertOf(colorspace: Option<(string, string)>, rest: seq<string>)
    requires HeadNotIn(rest, ["--colorconvert"])
    ensures TakeColorConvert(ColorConvertArgs(colorspace) + rest) == (colorspace, rest)
  {
    match colorspace
    case Some((src, dst)) =>
      assert (["--colorconvert", src, dst] + rest)[3..] == rest;
    case None =>
      assert [] + rest == rest;
  }

  lemma ReadImageFlagsOf(settings: ImageSettings)
    ensures ReadImageFlags(settings.colorspace, ([settings.look, SizeOption(settings.imageSize), settings.compression], []))
         == Some(settings)
  {
    match settings.imageSize
    case Some((x, y)) =>
      SizeRoundTrip(x, y);
    case None =>
  }

  /** The options section of every oiiotool command reads back as its settings. */
  lemma ImageOptionsRoundTrip(settings: ImageSettings)
    ensures ParseImageOptions(ImageMiddle(settings)) == Some(settings)
  {
    var vals := [settings.look, SizeOption(settings.imageSize), settings.compression];
    var options := Opts(ImageFlags, vals);
    OptsThree(ImageFlags, vals);
    assert options == ImageOptionArgs(settings);
    ImageFlagsDistinct();
    TakeOptsOf(ImageFlags, vals, []);
    assert options + [] == options;
    OptsHead(ImageFlags, vals, [], ["--colorconvert"]);
    TakeColorConvertOf(settings.colorspace, options);
    ReadImageFlagsOf(settings);
  }

  /** Every oiiotool command `convert_image` builds reads back as its own input, output and settings. */
  lemma ImageRoundTrip(input: string, output: string, settings: ImageSettings)
    ensures ParseImageCommand(ImageArgs(input, output, settings)) == Some((input, output, settings))
  {
    var c := ImageArgs(input, output, settings);
    var middle := ImageMiddle(settings);
    assert |c| >= 5 && c[0] == "oiiotool" && c[1] == "-v" && c[2] == input;
    assert c[|c| - 2] == "-o" && c[|c| - 1] == output;
    assert c[3..|c| - 2] == middle;
    ImageOptionsRoundTrip(settings);
  }

  /**
   * `convert_image`'s command construction (vgenc/convert.py:77-88): the
   * list grows by one append or extend per option that is set.
   */
  method ConvertImageCommand(input: string, output: string, settings: ImageSettings) returns (command: seq<string>)
    ensures command == ImageArgs(input, output, settings)
    ensures ParseImageCommand(command) == Some((input, output, settings))
  {
    command := ["oiiotool", "-v", input];
    if settings.colorspace.Some? {
      command := command + ["--colorconvert"];
      command := command + [settings.colorspace.value.0, settings.colorspace.value.1];
    }
    ghost var head := command;
    assert head == ["oiiotool", "-v", input] + ColorConvertArgs(settings.colorspace);
    command := ExtendOpt(command, "--ociolook", settings.look);
    command := ExtendOpt(command, "--resize", SizeOption(settings.imageSize));
    command := ExtendOpt(command, "--compression", settings.compression);
    Regroup(head, Opt("--ociolook", settings.look), Opt("--resize", SizeOption(settings.imageSize)),
            Opt("--compression", settings.compression));
    assert command == head + ImageOptionArgs(settings);
    command := command + ["-o", output];
    Regroup(["oiiotool", "-v", input], ColorConvertArgs(settings.colorspace), ImageOptionArgs(settings), ["-o", output]);
    ImageRoundTrip(input, output, settings);
  }

  lemma OptsThree(flags: seq<string>, vals: seq<Option<string>>)
    requires |flags| == |vals| == 3
    ensures Opts(flags, vals) == Opt(flags[0], vals[0]) + Opt(flags[1], vals[1]) + Opt(flags[2], vals[2])
  {
    assert flags[1..][1..][1..] == [];
    assert Opts(flags[1..][1..], vals[1..][1..]) == Opt(flags[2], vals[2]) + [];
  }

  // ---------------------------------------------------------------------
  // convert_to_gif: ImageMagick
  // ---------------------------------------------------------------------

  /** The output name rule of `convert_to_gif` (vgenc/convert.py:252-253) */
  function GifName(output: string): (r: string)
    ensures EndsWith(r, ".gif")
    ensures EndsWith(output, ".gif") <==> r == output
    ensures |r| >= |output| && r[..|output|] == output
  {
    if EndsWith(output, ".gif") then output else output + ".gif"
  }

  /** Applying the suffix rule a second time changes nothing. */
  lemma GifNameIdempotent(output: string)
    ensures GifName(GifName(output)) == GifName(output)
  {
    var r := GifName(output);
    assert EndsWith(r, ".gif");
  }

  /** The magick command of `convert_to_gif` for a list of frames */
  function GifArgs(inputs: seq<string>, output: string, fps: int, optimize: bool, depth: int, bounce: bool): (c: seq<string>)
  {
    ["magick", "-delay", "1x" + IntToStr(fps), "-loop", "0"]
    + inputs + BounceArgs(bounce) + OptimizeArgs(optimize) + DepthArgs(depth)
    + [GifName(output)]
  }

  /**
   * The frames appear verbatim right after the delay and loop options, and
   * the last word is the output path with its `.gif` suffix.
   */
  lemma GifLayout(inputs: seq<string>, output: string, fps: int, optimize: bool, depth: int, bounce: bool)
    ensures var c := GifArgs(inputs, output, fps, optimize, depth, bounce);
      |c| == 6 + |inputs| + (if bounce then 2 else 0) + (if optimize then 2 else 0) + (if depth != 0 then 2 else 0)
      && c[5..5 + |inputs|] == inputs
      && EndsWith(c[|c| - 1], ".gif")
      && GifName(c[|c| - 1]) == c[|c| - 1]
  {
    var c := GifArgs(inputs, output, fps, optimize, depth, bounce);
    var head: seq<string> := ["magick", "-delay", "1x" + IntToStr(fps), "-loop", "0"];
    var tail := BounceArgs(bounce) + OptimizeArgs(optimize) + DepthArgs(depth);
    var name := GifName(output);
    assert c == head + inputs + tail + [name] by {
      Regroup(head + inputs, BounceArgs(bounce), OptimizeArgs(optimize), DepthArgs(depth));
    }
    SliceMiddle(head, inputs, tail + [name]);
    assert c == head + inputs + (tail + [name]);
    assert c[|c| - 1] == name;
    GifNameIdempotent(output);
  }

  lemma SliceMiddle(p: seq<string>, q: seq<string>, r: seq<string>)
    ensures (p + q + r)[|p|..|p| + |q|] == q
  {
  }

  /** What a gif command says: its frames, delay, options and output name */
  datatype GifCommand = GifCommand(inputs: seq<string>, fps: int, optimize: bool, depth: int, bounce: bool, output: string)

  /** The last two words are `pair`: they are taken off. */
  function TakePair(pair: seq<string>, m: seq<string>): (seq<string>, bool) {
    if |m| >= 2 && m[|m| - 2..] == pair then (m[..|m| - 2], true) else (m, false)
  }

  /** A trailing `-depth n` with a non-zero n is taken off; otherwise the depth is 0. */
  function TakeDepth(m: seq<string>): (seq<string>, int) {
    if |m| >= 2 && m[|m| - 2] == "-depth" then
      match ParseInt(m[|m| - 1])
      case Some(d) => if d != 0 then (m[..|m| - 2], d) else (m, 0)
      case None => (m, 0)
    else (m, 0)
  }

  /** The option words of `convert_to_gif`, in the order they are written */
  function BounceArgs(bounce: bool): seq<string> {
    if bounce then ["-duplicate", "1,-2-1"] else []
  }

  function OptimizeArgs(optimize: bool): seq<string> {
    if optimize then ["-layers", "optimize"] else []
  }

  function DepthArgs(depth: int): seq<string> {
    if depth != 0 then ["-depth", IntToStr(depth)] else []
  }

  /**
   * Takes the options off the words between the head and the output, from
   * the end: depth, then optimize, then bounce. What is left are the frames.
   */
  function ReadGifOptions(m: seq<string>): (seq<string>, bool, int, bool) {
    var (m2, depth) := TakeDepth(m);
    var (m1, optimize) := TakePair(["-layers", "optimize"], m2);
    var (m0, bounce) := TakePair(["-duplicate", "1,-2-1"], m1);
    (m0, optimize, depth, bounce)
  }

  /**
   * Reads a magick command back. The head is `magick -delay 1x<fps> -loop 0`
   * and the last word is the output; the words between are the frames and
   * the options.
   */
  function ParseGifCommand(c: seq<string>): Option<GifCommand> {
    if |c| < 6 || c[0] != "magick" || c[1] != "-delay" || c[3] != "-loop" || c[4] != "0"
      || |c[2]| < 2 || c[2][..2] != "1x"
    then None
    else
      match ParseInt(c[2][2..])
      case None => None
      case Some(fps) =>
        var (inputs, optimize, depth, bounce) := ReadGifOptions(c[5..|c| - 1]);
        Some(GifCommand(inputs, fps, optimize, depth, bounce, c[|c| - 1]))
  }

  /** The word before the last of `m` is not `flag`. */
  predicate NoFlagAt(m: seq<string>, flag: string) {
    |m| < 2 || m[|m| - 2] != flag
  }

  lemma TakePairOf(pair: seq<string>, m: seq<string>)
    requires |pair| == 2
    ensures TakePair(pair, m + pair) == (m, true)
  {
    var n := m + pair;
    assert n[|n| - 2..] == pair && n[..|n| - 2] == m;
  }

  lemma TakePairAbsent(pair: seq<string>, m: seq<string>)
    requires |pair| == 2 && NoFlagAt(m, pair[0])
    ensures TakePair(pair, m) == (m, false)
  {
    if |m| >= 2 {
      assert m[|m| - 2..][0] == m[|m| - 2];
    }
  }

  lemma TakeDepthOf(m: seq<string>, depth: int)
    requires depth != 0
    ensures TakeDepth(m + ["-depth", IntToStr(depth)]) == (m, depth)
  {
    var n := m + ["-depth", IntToStr(depth)];
    assert n[|n| - 2] == "-depth" && n[|n| - 1] == IntToStr(depth) && n[..|n| - 2] == m;
    ParseIntOfIntText(depth);
  }

  /** The options read back as they were written after the frames. */
  lemma ReadGifOptionsOf(inputs: seq<string>, optimize: bool, depth: int, bounce: bool)
    requires NoFlagAt(inputs, "-depth") && NoFlagAt(inputs, "-layers") && NoFlagAt(inputs, "-duplicate")
    ensures ReadGifOptions(inputs + BounceArgs(bounce) + OptimizeArgs(optimize) + DepthArgs(depth))
      == (inputs, optimize, depth, bounce)
  {
    var m1 := inputs + BounceArgs(bounce);
    var m2 := m1 + OptimizeArgs(optimize);
    if depth != 0 {
      TakeDepthOf(m2, depth);
    } else {
      assert m2 + DepthArgs(depth) == m2;
      assert NoFlagAt(m2, "-depth");
    }
    if optimize {
      TakePairOf(["-layers", "optimize"], m1);
    } else {
      assert m2 == m1;
      TakePairAbsent(["-layers", "optimize"], m1);
    }
    if bounce {
      TakePairOf(["-duplicate", "1,-2-1"], inputs);
    } else {
      assert m1 == inputs;
      TakePairAbsent(["-duplicate", "1,-2-1"], inputs);
    }
  }

  /** The head of a gif command reads back as its delay. */
  lemma ParseGifHead(fps: int, m: seq<string>, name: string)
    ensures ParseGifCommand(["magick", "-delay", "1x" + IntToStr(fps), "-loop", "0"] + m + [name])
      == var (inputs, optimize, depth, bounce) := ReadGifOptions(m);
         Some(GifCommand(inputs, fps, optimize, depth, bounce, name))
  {
    var c := ["magick", "-delay", "1x" + IntToStr(fps), "-loop", "0"] + m + [name];
    assert c[5..|c| - 1] == m && c[|c| - 1] == name;
    assert c[2][2..] == IntToStr(fps);
    ParseIntOfIntText(fps);
  }

  /**
   * A gif command reads back as the frames, delay, options and `.gif` name
   * it was built from, provided the word before the last frame is not one of
   * the option flags `-depth`, `-layers` or `-duplicate`.
   */
  lemma GifRoundTrip(inputs: seq<string>, output: string, fps: int, optimize: bool, depth: int, bounce: bool)
    requires NoFlagAt(inputs, "-depth") && NoFlagAt(inputs, "-layers") && NoFlagAt(inputs, "-duplicate")
    ensures ParseGifCommand(GifArgs(inputs, output, fps, optimize, depth, bounce))
      == Some(GifCommand(inputs, fps, optimize, depth, bounce, GifName(output)))
  {
    var head := ["magick", "-delay", "1x" + IntToStr(fps), "-loop", "0"];
    var m := inputs + BounceArgs(bounce) + OptimizeArgs(optimize) + DepthArgs(depth);
    assert GifArgs(inputs, output, fps, optimize, depth, bounce) == head + m + [GifName(output)] by {
      Regroup(head + inputs, BounceArgs(bounce), OptimizeArgs(optimize), DepthArgs(depth));
      Regroup(head, inputs, BounceArgs(bounce), OptimizeArgs(optimize));
      assert head + inputs + BounceArgs(bounce) + OptimizeArgs(optimize) + DepthArgs(depth)
        == head + m;
    }
    ParseGifHead(fps, m, GifName(output));
    ReadGifOptionsOf(inputs, optimize, depth, bounce);
  }

  /**
   * `convert_to_gif`'s command construction for a list of frames
   * (vgenc/convert.py:240-254): `fps` becomes the delay `1x<fps>`, and the
   * depth option is written only for a non-zero depth.
   */
  method ConvertToGifCommand(inputs: seq<string>, output: string, fps: int, optimize: bool, depth: int, bounce: bool)
    returns (command: seq<string>)
    ensures command == GifArgs(inputs, output, fps, optimize, depth, bounce)
    ensures command[5..5 + |inputs|] == inputs
    ensures command[|command| - 1] == GifName(output) && EndsWith(command[|command| - 1], ".gif")
    ensures NoFlagAt(inputs, "-depth") && NoFlagAt(inputs, "-layers") && NoFlagAt(inputs, "-duplicate")
      ==> ParseGifCommand(command) == Some(GifCommand(inputs, fps, optimize, depth, bounce, GifName(output)))
  {
    var delay := "1x" + IntToStr(fps);
    command := ["magick", "-delay", delay, "-loop", "0"];
    command := command + inputs;
    ghost var front := command;
    if bounce {
      command := command + ["-duplicate", "1,-2-1"];
    }
    assert command == front + BounceArgs(bounce);
    if optimize {
      command := command + ["-layers", "optimize"];
    }
    assert command == front + BounceArgs(bounce) + OptimizeArgs(optimize);
    if depth != 0 {
      command := command + ["-depth", IntToStr(depth)];
    }
    assert command == front + BounceArgs(bounce) + OptimizeArgs(optimize) + DepthArgs(depth);
    var name := output;
    if !EndsWith(name, ".gif") {
      name := name + ".gif";
    }
    assert name == GifName(output);
    command := command + [name];
    GifLayout(inputs, output, fps, optimize, depth, bounce);
    if NoFlagAt(inputs, "-depth") && NoFlagAt(inputs, "-layers") && NoFlagAt(inputs, "-duplicate") {
      GifRoundTrip(inputs, output, fps, optimize, depth, bounce);
    }
  }

  // ---------------------------------------------------------------------
  // convert_movie: ffmpeg
  // ---------------------------------------------------------------------

  /** `ffmpeg_video_codecs` (vgenc/convert.py:6-13) */
  const VideoCodecs: map<string, string> := map[
    "copy" := "copy", "vp9" := "libvpx-vp9", "av1" := "libaom-av1", "theora" := "libtheora",
    "mjpeg" := "mjpeg", "h264" := "libx264", "h265" := "libx265"]

  /** `ffmpeg_audio_codecs` (vgenc/convert.py:14-19) */
  const AudioCodecs: map<string, string> := map[
    "copy" := "copy", "flac" := "flac", "opus" := "libopus", "vorbis" := "libvorbis", "mp3" := "libmp3lame"]

  /** `codecs.get(name, name)`: a short name is translated, any other name is passed on as it is. */
  function CodecName(codecs: map<string, string>, name: string): (r: string)
    ensures name in codecs ==> r == codecs[name]
    ensures name !in codecs ==> r == name
  {
    if name in codecs then codecs[name] else name
  }

  /**
   * Translating a codec name twice gives the same encoder as translating it
   * once: no table sends a short name to another short name.
   */
  lemma CodecNamesSettle(name: string)
    ensures CodecName(VideoCodecs, CodecName(VideoCodecs, name)) == CodecName(VideoCodecs, name)
    ensures CodecName(AudioCodecs, CodecName(AudioCodecs, name)) == CodecName(AudioCodecs, name)
  {
    if name in VideoCodecs {
      assert VideoCodecs[name] in {"copy", "libvpx-vp9", "libaom-av1", "libtheora", "mjpeg", "libx264", "libx265"};
    }
    if name in AudioCodecs {
      assert AudioCodecs[name] in {"copy", "flac", "libopus", "libvorbis", "libmp3lame"};
    }
  }

  /** The keyword arguments of `build_drawtext`, each as the text its f-string writes */
  datatype DrawText = DrawText(
    fontfile: string, fontsize: string, fontcolor: string, text: string,
    x: string, y: string, startNumber: Option<string>)

  /** The `key=value` items of `build_drawtext`, in the order it writes them */
  function DrawTextItems(t: DrawText): seq<string> {
    ["fontfile=" + t.fontfile, "text=" + t.text, "fontsize=" + t.fontsize,
     "fontcolor=" + t.fontcolor, "x=" + t.x, "y=" + t.y]
    + (match t.startNumber
       case Some(n) => ["start_number=" + n]
       case None => [])
  }

  /** `build_drawtext` (vgenc/convert.py:125-142) */
  function DrawTextFilter(t: DrawText): string {
    "drawtext=" + Join(":", DrawTextItems(t))
  }

  /** The value of a `key=value` item, when the item carries that key */
  function ItemValue(key: string, item: string): Option<string> {
    if StartsWith(item, key) then Some(item[|key|..]) else None
  }

  /** Reads a drawtext filter back into its arguments. */
  function ParseDrawText(f: string): Option<DrawText> {
    if StartsWith(f, "drawtext=") then
      var items := Split(f[9..], ':');
      if |items| == 6 || |items| == 7 then
        var values := [ItemValue("fontfile=", items[0]), ItemValue("text=", items[1]),
                       ItemValue("fontsize=", items[2]), ItemValue("fontcolor=", items[3]),
                       ItemValue("x=", items[4]), ItemValue("y=", items[5])];
        var start := if |items| == 7 then ItemValue("start_number=", items[6]) else None;
        if (forall k :: 0 <= k < 6 ==> values[k].Some?) && (|items| == 7 ==> start.Some?) then
          Some(DrawText(values[0].value, values[2].value, values[3].value, values[1].value,
                        values[4].value, values[5].value, start))
        else None
      else None
    else None
  }

  /** No argument of the drawtext filter holds the separator `:`. */
  predicate PlainDrawText(t: DrawText) {
    Free(t.fontfile, ':') && Free(t.fontsize, ':') && Free(t.fontcolor, ':') && Free(t.text, ':')
    && Free(t.x, ':') && Free(t.y, ':') && (t.startNumber.Some? ==> Free(t.startNumber.value, ':'))
  }

  lemma ItemValueOf(key: string, v: string)
    ensures ItemValue(key, key + v) == Some(v)
  {
    assert (key + v)[..|key|] == key;
    assert (key + v)[|key|..] == v;
  }

  lemma KeyedFree(key: string, v: string)
    requires Free(key, ':') && Free(v, ':')
    ensures Free(key + v, ':')
  {
    forall i | 0 <= i < |key + v|
      ensures (key + v)[i] != ':'
    {
      if i >= |key| {
        assert (key + v)[i] == v[i - |key|];
      }
    }
  }

  /**
   * A drawtext filter whose arguments avoid `:` reads back as those
   * arguments; `build_drawtext` does not escape a `:` inside a value, so
   * such a value would split into two items.
   */
  lemma DrawTextRoundTrip(t: DrawText)
    requires PlainDrawText(t)
    ensures ParseDrawText(DrawTextFilter(t)) == Some(t)
  {
    var items := DrawTextItems(t);
    var f := DrawTextFilter(t);
    assert StartsWith(f, "drawtext=") && f[9..] == Join(":", items);
    assert Split(f[9..], ':') == items by {
      KeyedFree("fontfile=", t.fontfile);
      KeyedFree("text=", t.text);
      KeyedFree("fontsize=", t.fontsize);
      KeyedFree("fontcolor=", t.fontcolor);
      KeyedFree("x=", t.x);
      KeyedFree("y=", t.y);
      if t.startNumber.Some? {
        KeyedFree("start_number=", t.startNumber.value);
      }
      assert forall k :: 0 <= k < |items| ==> Free(items[k], ':');
      SplitJoin(items, ':');
    }
    ItemValueOf("fontfile=", t.fontfile);
    ItemValueOf("text=", t.text);
    ItemValueOf("fontsize=", t.fontsize);
    ItemValueOf("fontcolor=", t.fontcolor);
    ItemValueOf("x=", t.x);
    ItemValueOf("y=", t.y);
    if t.startNumber.Some? {
      ItemValueOf("start_number=", t.startNumber.value);
    }
  }

  // ---------------------------------------------------------------------
  // build_filter
  // ---------------------------------------------------------------------

  /** The keyword arguments of `convert_movie` that shape its ffmpeg command */
  datatype MovieSettings = MovieSettings(
    inputs: seq<string>,
    output: string,
    framerate: Option<string>,
    startNumber: Option<int>,
    frameRange: Option<(int, int)>,
    videoCodec: Option<string>,
    videoQuality: Option<string>,
    videoBitrate: Option<string>,
    constrainedQuality: Option<string>,
    audioCodec: Option<string>,
    audioQuality: Option<string>,
    audioBitrate: Option<string>,
    resize: Option<(int, int)>,
    isStereo: bool,
    videoFilter: seq<seq<(string, string)>>,
    drawText: seq<DrawText>,
    metadata: Option<seq<(string, Option<string>)>>)

  const StereoFilter: string := "hstack,stereo3d=sbsl:arcg"

  function ScaleFilter(x: int, y: int): string {
    "scale=" + IntToStr(x) + ":" + IntToStr(y)
  }

  /** `[f'{k}={v}' for k, v in f.items()]` for one filter dictionary, in insertion order */
  function Assignments(f: seq<(string, string)>): seq<string> {
    seq(|f|, i requires 0 <= i < |f| => f[i].0 + "=" + f[i].1)
  }

  /** The assignments of every filter dictionary, one dictionary after the other */
  function FilterAssignments(filters: seq<seq<(string, string)>>): seq<string>
    decreases |filters|
  {
    if filters == [] then [] else Assignments(filters[0]) + FilterAssignments(filters[1..])
  }

  /** The dictionaries contribute nothing exactly when each of them is empty. */
  lemma {:induction false} FilterAssignmentsEmptyIff(filters: seq<seq<(string, string)>>)
    ensures FilterAssignments(filters) == [] <==> forall i :: 0 <= i < |filters| ==> filters[i] == []
    decreases |filters|
  {
    if filters != [] {
      FilterAssignmentsEmptyIff(filters[1..]);
      if filters[0] != [] {
        assert Assignments(filters[0])[0] == filters[0][0].0 + "=" + filters[0][0].1;
      }
      assert forall i :: 1 <= i < |filters| ==> filters[i] == filters[1..][i - 1];
    }
  }

  lemma {:induction false} FilterAssignmentsSnoc(filters: seq<seq<(string, string)>>, f: seq<(string, string)>)
    ensures FilterAssignments(filters + [f]) == FilterAssignments(filters) + Assignments(f)
    decreases |filters|
  {
    if filters == [] {
      assert [] + [f] == [f];
      assert [f][1..] == [];
    } else {
      assert (filters + [f])[1..] == filters[1..] + [f];
      FilterAssignmentsSnoc(filters[1..], f);
    }
  }

  lemma FilterAssignmentsPrefix(filters: seq<seq<(string, string)>>, i: nat)
    requires i < |filters|
    ensures FilterAssignments(filters[..i + 1]) == FilterAssignments(filters[..i]) + Assignments(filters[i])
  {
    assert filters[..i + 1] == filters[..i] + [filters[i]];
    FilterAssignmentsSnoc(filters[..i], filters[i]);
  }

  function DrawTextFilters(texts: seq<DrawText>): seq<string> {
    seq(|texts|, i requires 0 <= i < |texts| => DrawTextFilter(texts[i]))
  }

  /** The filters `build_filter` collects, in the order it collects them */
  function FilterArgs(s: MovieSettings): seq<string> {
    (if s.isStereo then [StereoFilter] else [])
    + (match s.resize
       case Some((x, y)) => [ScaleFilter(x, y)]
       case None => [])
    + FilterAssignments(s.videoFilter)
    + DrawTextFilters(s.drawText)
  }

  /** `','.join(args)` when there is at least one filter */
  function FilterGraph(args: seq<string>): Option<string> {
    if args == [] then None else Some(Join(",", args))
  }

  /**
   * There is a filter graph exactly when the movie is stereo, is resized,
   * has a non-empty filter dictionary or draws a text.
   */
  lemma FilterGraphIff(s: MovieSettings)
    ensures FilterGraph(FilterArgs(s)).Some? <==>
      s.isStereo || s.resize.Some? || (exists i :: 0 <= i < |s.videoFilter| && s.videoFilter[i] != []) || s.drawText != []
  {
    FilterAssignmentsEmptyIff(s.videoFilter);
    if s.drawText != [] {
      assert DrawTextFilters(s.drawText)[0] == DrawTextFilter(s.drawText[0]);
    }
  }

  /**
   * `build_filter` (vgenc/convert.py:144-168), up to the decision to write
   * `-filter_complex`: the list of filters it collects.
   */
  method BuildFilter(s: MovieSettings) returns (args: seq<string>)
    ensures args == FilterArgs(s)
  {
    args := [];
    if s.isStereo {
      args := args + [StereoFilter];
    }
    if s.resize.Some? {
      var (x, y) := s.resize.value;
      args := args + [ScaleFilter(x, y)];
    }
    ghost var front := (if s.isStereo then [StereoFilter] else [])
      + (match s.resize
         case Some((x, y)) => [ScaleFilter(x, y)]
         case None => []);
    assert args == front;
    args := ExtendAssignments(args, s.videoFilter);
    args := ExtendDrawTexts(args, s.drawText);
  }

  /** The loop over the filter dictionaries of `build_filter` (vgenc/convert.py:155-156) */
  method ExtendAssignments(args0: seq<string>, filters: seq<seq<(string, string)>>) returns (args: seq<string>)
    ensures args == args0 + FilterAssignments(filters)
  {
    args := args0;
    for i := 0 to |filters|
      invariant args == args0 + FilterAssignments(filters[..i])
    {
      FilterAssignmentsPrefix(filters, i);
      args := args + Assignments(filters[i]);
    }
    assert filters[..|filters|] == filters;
  }

  /** The loop over the texts of `build_filter` (vgenc/convert.py:165-166) */
  method ExtendDrawTexts(args0: seq<string>, texts: seq<DrawText>) returns (args: seq<string>)
    ensures args == args0 + DrawTextFilters(texts)
  {
    args := args0;
    for i := 0 to |texts|
      invariant args == args0 + DrawTextFilters(texts[..i])
    {
      assert DrawTextFilters(texts[..i + 1]) == DrawTextFilters(texts[..i]) + [DrawTextFilter(texts[i])];
      args := args + [DrawTextFilter(texts[i])];
    }
    assert texts[..|texts|] == texts;
  }

  // ---------------------------------------------------------------------
  // Input blocks
  // ---------------------------------------------------------------------

  const InputFlags: seq<string> := ["-framerate", "-start_number", "-i"]

  /** One input as the command reads it back */
  datatype Input = Input(framerate: Option<string>, startNumber: Option<string>, path: string)

  function Inputs(framerate: Option<string>, start: Option<string>, paths: seq<string>): seq<Input> {
    seq(|paths|, i requires 0 <= i < |paths| => Input(framerate, start, paths[i]))
  }

  /** `-framerate`, `-start_number` and `-i` for one input, each rate or number only when set */
  function InputArgs(framerate: Option<string>, start: Option<string>, path: string): seq<string> {
    Opt("-framerate", framerate) + Opt("-start_number", start) + ["-i", path]
  }

  function InputSection(framerate: Option<string>, start: Option<string>, paths: seq<string>): seq<string>
    decreases |paths|
  {
    if paths == [] then [] else InputArgs(framerate, start, paths[0]) + InputSection(framerate, start, paths[1..])
  }

  lemma {:induction false} InputSectionSnoc(framerate: Option<string>, start: Option<string>, paths: seq<string>, p: string)
    ensures InputSection(framerate, start, paths + [p]) == InputSection(framerate, start, paths) + InputArgs(framerate, start, p)
    decreases |paths|
  {
    if paths == [] {
      assert [] + [p] == [p];
      assert [p][1..] == [];
    } else {
      assert (paths + [p])[1..] == paths[1..] + [p];
      InputSectionSnoc(framerate, start, paths[1..], p);
    }
  }

  /** Reads input blocks off the front of an argument list while one starts. */
  function TakeInputs(c: seq<string>): (r: Option<(seq<Input>, seq<string>)>)
    ensures r.Some? ==> |r.value.1| <= |c|
    decreases |c|
  {
    if c == [] || c[0] !in InputFlags then Some(([], c))
    else
      var rate := TakeOpt("-framerate", c);
      var start := TakeOpt("-start_number", rate.1);
      var c2 := start.1;
      if |c2| >= 2 && c2[0] == "-i" then
        match TakeInputs(c2[2..])
        case Some((more, rest)) => Some(([Input(rate.0, start.0, c2[1])] + more, rest))
        case None => None
      else None
  }

  /** An input block in front of any list reads as that input, then whatever the list reads as. */
  lemma TakeInputsCons(framerate: Option<string>, start: Option<string>, p: string, tail: seq<string>)
    ensures TakeInputs(InputArgs(framerate, start, p) + tail) ==
      match TakeInputs(tail)
      case Some((more, rest)) => Some(([Input(framerate, start, p)] + more, rest))
      case None => None
  {
    var c := InputArgs(framerate, start, p) + tail;
    var afterRate := Opt("-start_number", start) + (["-i", p] + tail);
    assert c == Opt("-framerate", framerate) + afterRate;
    assert c[0] in InputFlags;
    TakeOptOf("-framerate", framerate, afterRate);
    TakeOptOf("-start_number", start, ["-i", p] + tail);
    assert (["-i", p] + tail)[2..] == tail;
  }

  lemma InputsCons(framerate: Option<string>, start: Option<string>, paths: seq<string>)
    requires paths != []
    ensures Inputs(framerate, start, paths) == [Input(framerate, start, paths[0])] + Inputs(framerate, start, paths[1..])
  {
    var a := Inputs(framerate, start, paths);
    var b := [Input(framerate, start, paths[0])] + Inputs(framerate, start, paths[1..]);
    assert |a| == |b|;
    forall i | 0 <= i < |a|
      ensures a[i] == b[i]
    {
      if i > 0 {
        assert paths[1..][i - 1] == paths[i];
      }
    }
  }

  /** The input blocks of every input, followed by a list no block starts, read back as the inputs. */
  lemma {:induction false} TakeInputsOf(framerate: Option<string>, start: Option<string>, paths: seq<string>, rest: seq<string>)
    requires HeadNotIn(rest, InputFlags)
    ensures TakeInputs(InputSection(framerate, start, paths) + rest) == Some((Inputs(framerate, start, paths), rest))
    decreases |paths|
  {
    if paths == [] {
      assert InputSection(framerate, start, paths) + rest == rest;
      assert Inputs(framerate, start, paths) == [];
    } else {
      var tail := InputSection(framerate, start, paths[1..]) + rest;
      Assoc(InputArgs(framerate, start, paths[0]), InputSection(framerate, start, paths[1..]), rest);
      assert InputSection(framerate, start, paths) + rest == InputArgs(framerate, start, paths[0]) + tail;
      TakeInputsCons(framerate, start, paths[0], tail);
      TakeInputsOf(framerate, start, paths[1..], rest);
      InputsCons(framerate, start, paths);
    }
  }

  // ---------------------------------------------------------------------
  // Metadata
  // ---------------------------------------------------------------------

  /** `-metadata k=v` for every entry whose value is not None, in order */
  function MetadataArgs(entries: seq<(string, Option<string>)>): seq<string>
    decreases |entries|
  {
    if entries == [] then []
    else
      (match entries[0].1
       case Some(v) => ["-metadata", entries[0].0 + "=" + v]
       case None => [])
      + MetadataArgs(entries[1..])
  }

  /**
   * The `k=v` tags of the entries that have a value: every such entry gives
   * its tag, and every tag comes from such an entry.
   */
  function MetadataTags(entries: seq<(string, Option<string>)>): (r: seq<string>)
    ensures |r| <= |entries|
    ensures forall i :: 0 <= i < |entries| && entries[i].1.Some? ==> entries[i].0 + "=" + entries[i].1.value in r
    ensures forall t :: t in r ==> exists i :: 0 <= i < |entries| && entries[i].1.Some? && t == entries[i].0 + "=" + entries[i].1.value
    decreases |entries|
  {
    if entries == [] then []
    else
      var more := MetadataTags(entries[1..]);
      assert forall i :: 1 <= i < |entries| ==> entries[i] == entries[1..][i - 1];
      match entries[0].1
      case Some(v) => [entries[0].0 + "=" + v] + more
      case None => more
  }

  function MetadataSection(metadata: Option<seq<(string, Option<string>)>>): seq<string> {
    match metadata
    case Some(entries) => ["-movflags", "use_metadata_tags"] + MetadataArgs(entries)
    case None => []
  }

  function TakeTags(c: seq<string>): Option<seq<string>>
    decreases |c|
  {
    if c == [] then Some([])
    else if |c| >= 2 && c[0] == "-metadata" then
      match TakeTags(c[2..])
      case Some(more) => Some([c[1]] + more)
      case None => None
    else None
  }

  /** Reads the metadata section, which must end the list. */
  function TakeMetadata(c: seq<string>): Option<Option<seq<string>>> {
    if c == [] then Some(None)
    else if |c| >= 2 && c[0] == "-movflags" && c[1] == "use_metadata_tags" then
      match TakeTags(c[2..])
      case Some(tags) => Some(Some(tags))
      case None => None
    else None
  }

  lemma {:induction false} TakeTagsOf(entries: seq<(string, Option<string>)>)
    ensures TakeTags(MetadataArgs(entries)) == Some(MetadataTags(entries))
    decreases |entries|
  {
    if entries != [] {
      TakeTagsOf(entries[1..]);
      match entries[0].1
      case Some(v) =>
        var c := MetadataArgs(entries);
        assert c[2..] == MetadataArgs(entries[1..]);
      case None =>
        assert MetadataArgs(entries) == MetadataArgs(entries[1..]);
        assert MetadataTags(entries) == MetadataTags(entries[1..]);
    }
  }

  function MetadataRead(metadata: Option<seq<(string, Option<string>)>>): Option<seq<string>> {
    match metadata
    case Some(entries) => Some(MetadataTags(entries))
    case None => None
  }

  lemma TakeMetadataOf(metadata: Option<seq<(string, Option<string>)>>)
    ensures TakeMetadata(MetadataSection(metadata)) == Some(MetadataRead(metadata))
  {
    match metadata
    case Some(entries) =>
      var c := MetadataSection(metadata);
      assert c[2..] == MetadataArgs(entries);
      TakeTagsOf(entries);
    case None =>
  }

  // ---------------------------------------------------------------------
  // The whole ffmpeg command
  // ---------------------------------------------------------------------

  /** The start number after `frame_range` has had its say (vgenc/convert.py:122-123) */
  function EffectiveStart(s: MovieSettings): Option<int> {
    if s.frameRange.Some? then Some(s.frameRange.value.0) else s.startNumber
  }

  function StartText(start: Option<int>): Option<string> {
    match start
    case Some(n) => Some(IntToStr(n))
    case None => None
  }

  const OptionFlags: seq<string> := ["-c:v", "-q:v", "-crf", "-b:v", "-filter_complex", "-c:a", "-q:a", "-b:a"]

  function MapCodec(codecs: map<string, string>, name: Option<string>): Option<string> {
    match name
    case Some(n) => Some(CodecName(codecs, n))
    case None => None
  }

  /** The values written under `OptionFlags`, in that order */
  function OptionValues(s: MovieSettings): seq<Option<string>> {
    [MapCodec(VideoCodecs, s.videoCodec), s.videoQuality, s.constrainedQuality, s.videoBitrate,
     FilterGraph(FilterArgs(s)), MapCodec(AudioCodecs, s.audioCodec), s.audioQuality, s.audioBitrate]
  }

  /** The codec, quality, bitrate and filter options between the inputs and the metadata */
  function OptionArgs(s: MovieSettings): seq<string> {
    Opts(OptionFlags, OptionValues(s))
  }

  /** The ffmpeg command of `convert_movie` without two-pass encoding */
  function MovieArgs(s: MovieSettings): seq<string> {
    ["ffmpeg"] + MovieBody(s) + [s.output, "-y"]
  }

  /** The words between `ffmpeg` and the output path */
  function MovieBody(s: MovieSettings): seq<string> {
    InputSection(s.framerate, StartText(EffectiveStart(s)), s.inputs)
    + (OptionArgs(s) + MetadataSection(s.metadata))
  }

  /** An ffmpeg command as it reads back */
  datatype MovieCall = MovieCall(
    inputs: seq<Input>,
    videoCodec: Option<string>,
    videoQuality: Option<string>,
    constrainedQuality: Option<string>,
    videoBitrate: Option<string>,
    filterGraph: Option<string>,
    audioCodec: Option<string>,
    audioQuality: Option<string>,
    audioBitrate: Option<string>,
    metadata: Option<seq<string>>,
    output: string)

  /** Reads an ffmpeg command back: inputs, options, metadata, then the output and `-y`. */
  function ParseMovieCommand(c: seq<string>): Option<MovieCall> {
    if |c| >= 3 && c[0] == "ffmpeg" && c[|c| - 1] == "-y" then
      match ParseMovieBody(c[1..|c| - 2])
      case None => None
      case Some((inputs, v, metadata)) =>
        Some(MovieCall(inputs, v[0], v[1], v[2], v[3], v[4], v[5], v[6], v[7], metadata, c[|c| - 2]))
    else None
  }

  /** Reads the words between `ffmpeg` and the output path. */
  function ParseMovieBody(body: seq<string>): (r: Option<(seq<Input>, seq<Option<string>>, Option<seq<string>>)>)
    ensures r.Some? ==> |r.value.1| == |OptionFlags|
  {
    match TakeInputs(body)
    case None => None
    case Some((inputs, afterInputs)) =>
      var options := TakeOpts(OptionFlags, afterInputs);
      match TakeMetadata(options.1)
      case None => None
      case Some(metadata) => Some((inputs, options.0, metadata))
  }

  /** What the command of `s` should read back as */
  function MovieRead(s: MovieSettings): MovieCall {
    var v := OptionValues(s);
    MovieCall(Inputs(s.framerate, StartText(EffectiveStart(s)), s.inputs),
              v[0], v[1], v[2], v[3], v[4], v[5], v[6], v[7], MetadataRead(s.metadata), s.output)
  }

  lemma OptsStep(flags: seq<string>, vals: seq<Option<string>>, k: nat)
    requires |flags| == |vals| && k < |flags|
    ensures Opts(flags[k..], vals[k..]) == Opt(flags[k], vals[k]) + Opts(flags[k + 1..], vals[k + 1..])
  {
    assert flags[k..][1..] == flags[k + 1..];
    assert vals[k..][1..] == vals[k + 1..];
  }

  lemma {:induction false} OptsSnoc(flags: seq<string>, vals: seq<Option<string>>, flag: string, value: Option<string>)
    requires |flags| == |vals|
    ensures Opts(flags + [flag], vals + [value]) == Opts(flags, vals) + Opt(flag, value)
    decreases |flags|
  {
    if flags == [] {
      assert [] + [flag] == [flag] && [] + [value] == [value];
      assert Opts([flag], [value]) == Opt(flag, value) + Opts([], []);
    } else {
      assert (flags + [flag])[1..] == flags[1..] + [flag];
      assert (vals + [value])[1..] == vals[1..] + [value];
      OptsSnoc(flags[1..], vals[1..], flag, value);
    }
  }

  /** One more option of the same list extends the section by that option. */
  lemma OptsPrefix(flags: seq<string>, vals: seq<Option<string>>, k: nat)
    requires |flags| == |vals| && k < |flags|
    ensures Opts(flags[..k + 1], vals[..k + 1]) == Opts(flags[..k], vals[..k]) + Opt(flags[k], vals[k])
  {
    assert flags[..k + 1] == flags[..k] + [flags[k]];
    assert vals[..k + 1] == vals[..k] + [vals[k]];
    OptsSnoc(flags[..k], vals[..k], flags[k], vals[k]);
  }

  lemma OptionFlagsDistinct()
    ensures DistinctFlags(OptionFlags)
    ensures forall i :: 0 <= i < |OptionFlags| ==> OptionFlags[i] !in InputFlags
  {
  }

  /** The metadata section starts with `-movflags` or is empty. */
  lemma MetadataSectionHead(metadata: Option<seq<(string, Option<string>)>>)
    ensures HeadNotIn(MetadataSection(metadata), OptionFlags)
    ensures HeadNotIn(MetadataSection(metadata), InputFlags)
  {
    if metadata.Some? {
      assert MetadataSection(metadata)[0] == "-movflags";
    }
  }

  /** The words between `ffmpeg` and the output read back as inputs, options and metadata. */
  lemma MovieBodyReads(framerate: Option<string>, start: Option<string>, paths: seq<string>,
                       vals: seq<Option<string>>, metadata: Option<seq<(string, Option<string>)>>)
    requires |vals| == |OptionFlags|
    ensures ParseMovieBody(InputSection(framerate, start, paths) + (Opts(OptionFlags, vals) + MetadataSection(metadata)))
         == Some((Inputs(framerate, start, paths), vals, MetadataRead(metadata)))
  {
    var options := Opts(OptionFlags, vals);
    var meta := MetadataSection(metadata);
    OptionFlagsDistinct();
    MetadataSectionHead(metadata);
    OptsHead(OptionFlags, vals, meta, InputFlags);
    TakeInputsOf(framerate, start, paths, options + meta);
    TakeOptsOf(OptionFlags, vals, meta);
    TakeMetadataOf(metadata);
  }

  /** A command is read as `ffmpeg`, its body, then the output and `-y`. */
  lemma MovieHeaderReads(body: seq<string>, output: string)
    ensures ParseMovieCommand(["ffmpeg"] + body + [output, "-y"]) ==
      match ParseMovieBody(body)
      case None => None
      case Some((inputs, v, metadata)) =>
        Some(MovieCall(inputs, v[0], v[1], v[2], v[3], v[4], v[5], v[6], v[7], metadata, output))
  {
    var c := ["ffmpeg"] + body + [output, "-y"];
    assert c[1..|c| - 2] == body;
    assert c[|c| - 2] == output;
  }

  /**
   * Every ffmpeg command `convert_movie` builds reads back as its inputs
   * (each with the same rate and start number), its options and its
   * metadata tags: nothing is lost, repeated or misplaced.
   */
  lemma MovieRoundTrip(s: MovieSettings)
    ensures ParseMovieCommand(MovieArgs(s)) == Some(MovieRead(s))
  {
    MovieHeaderReads(MovieBody(s), s.output);
    MovieBodyReads(s.framerate, StartText(EffectiveStart(s)), s.inputs, OptionValues(s), s.metadata);
  }

  // ---------------------------------------------------------------------
  // What the round trip says about convert_movie's rules
  // ---------------------------------------------------------------------

  /** A given frame range decides the start number of every input (vgenc/convert.py:122-123). */
  lemma FrameRangeOverridesStart(s: MovieSettings)
    requires s.frameRange.Some?
    ensures ParseMovieCommand(MovieArgs(s)).Some?
    ensures var read := ParseMovieCommand(MovieArgs(s)).value;
      |read.inputs| == |s.inputs| &&
      forall i :: 0 <= i < |read.inputs| ==> read.inputs[i].startNumber == Some(IntToStr(s.frameRange.value.0))
  {
    MovieRoundTrip(s);
    ReadInputs(s);
  }

  /** The inputs a movie command reads back as, one per path */
  lemma ReadInputs(s: MovieSettings)
    ensures var inputs := MovieRead(s).inputs;
      var start := StartText(EffectiveStart(s));
      && |inputs| == |s.inputs|
      && (start.Some? <==> s.startNumber.Some? || s.frameRange.Some?)
      && (s.frameRange.Some? ==> start == Some(IntToStr(s.frameRange.value.0)))
      && forall i :: 0 <= i < |inputs| ==> inputs[i] == Input(s.framerate, start, s.inputs[i])
  {
  }

  /**
   * Each input gives one block, in order, with `-framerate` exactly when a
   * rate is set and `-start_number` exactly when a start number is
   * (vgenc/convert.py:172-178).
   */
  lemma InputsInOrder(s: MovieSettings)
    ensures ParseMovieCommand(MovieArgs(s)).Some?
    ensures var read := ParseMovieCommand(MovieArgs(s)).value;
      |read.inputs| == |s.inputs| &&
      forall i :: 0 <= i < |read.inputs| ==>
        read.inputs[i].path == s.inputs[i]
        && read.inputs[i].framerate == s.framerate
        && (read.inputs[i].startNumber.Some? <==> s.startNumber.Some? || s.frameRange.Some?)
  {
    MovieRoundTrip(s);
    ReadInputs(s);
  }

  /**
   * The command has a filter graph exactly when there is a filter to put in
   * it, and the graph is the filters joined by commas (vgenc/convert.py:169-170).
   */
  lemma FilterGraphOnlyWithFilters(s: MovieSettings)
    ensures ParseMovieCommand(MovieArgs(s)).Some?
    ensures var read := ParseMovieCommand(MovieArgs(s)).value;
      (read.filterGraph.Some? <==>
        s.isStereo || s.resize.Some? || s.drawText != []
        || exists i :: 0 <= i < |s.videoFilter| && s.videoFilter[i] != [])
      && (read.filterGraph.Some? ==> read.filterGraph.value == Join(",", FilterArgs(s)))
  {
    MovieRoundTrip(s);
    FilterGraphIff(s);
  }

  /**
   * With metadata, the command reads back `-movflags use_metadata_tags` and
   * one `k=v` tag for each entry whose value is not None, and only those
   * (vgenc/convert.py:205-209).
   */
  lemma MetadataSkipsNone(s: MovieSettings)
    requires s.metadata.Some?
    ensures ParseMovieCommand(MovieArgs(s)).Some?
    ensures var read := ParseMovieCommand(MovieArgs(s)).value;
      read.metadata.Some?
      && (forall i :: 0 <= i < |s.metadata.value| && s.metadata.value[i].1.Some? ==>
            s.metadata.value[i].0 + "=" + s.metadata.value[i].1.value in read.metadata.value)
      && (forall t :: t in read.metadata.value ==>
            exists i :: 0 <= i < |s.metadata.value| && s.metadata.value[i].1.Some?
                        && t == s.metadata.value[i].0 + "=" + s.metadata.value[i].1.value)
  {
    MovieRoundTrip(s);
  }

  // ---------------------------------------------------------------------
  // convert_movie's command construction
  // ---------------------------------------------------------------------

  lemma InputSectionPrefix(framerate: Option<string>, start: Option<string>, paths: seq<string>, i: nat)
    requires i < |paths|
    ensures InputSection(framerate, start, paths[..i + 1]) == InputSection(framerate, start, paths[..i]) + InputArgs(framerate, start, paths[i])
  {
    assert paths[..i + 1] == paths[..i] + [paths[i]];
    InputSectionSnoc(framerate, start, paths[..i], paths[i]);
  }

  /** The loop over the inputs of `convert_movie` (vgenc/convert.py:173-178) */
  method ExtendInputs(command0: seq<string>, paths: seq<string>, framerate: Option<string>, startNumber: Option<int>)
    returns (command: seq<string>)
    ensures command == command0 + InputSection(framerate, StartText(startNumber), paths)
  {
    var start := StartText(startNumber);
    command := command0;
    for i := 0 to |paths|
      invariant command == command0 + InputSection(framerate, start, paths[..i])
    {
      ghost var before := command;
      ghost var section := InputSection(framerate, start, paths[..i]);
      ghost var args := InputArgs(framerate, start, paths[i]);
      command := ExtendOpt(command, "-framerate", framerate);
      command := ExtendOpt(command, "-start_number", start);
      command := command + ["-i", paths[i]];
      Regroup(before, Opt("-framerate", framerate), Opt("-start_number", start), ["-i", paths[i]]);
      assert command == before + args;
      InputSectionPrefix(framerate, start, paths, i);
      Assoc(command0, section, args);
    }
    assert paths[..|paths|] == paths;
  }

  lemma {:induction false} MetadataArgsSnoc(entries: seq<(string, Option<string>)>, e: (string, Option<string>))
    ensures MetadataArgs(entries + [e]) == MetadataArgs(entries) + MetadataArgs([e])
    decreases |entries|
  {
    if entries == [] {
      assert [] + [e] == [e];
    } else {
      assert (entries + [e])[1..] == entries[1..] + [e];
      MetadataArgsSnoc(entries[1..], e);
    }
  }

  /** The loop over the metadata entries of `convert_movie` (vgenc/convert.py:207-209) */
  method ExtendMetadata(command0: seq<string>, entries: seq<(string, Option<string>)>) returns (command: seq<string>)
    ensures command == command0 + MetadataArgs(entries)
  {
    command := command0;
    for i := 0 to |entries|
      invariant command == command0 + MetadataArgs(entries[..i])
    {
      assert entries[..i + 1] == entries[..i] + [entries[i]];
      MetadataArgsSnoc(entries[..i], entries[i]);
      assert MetadataArgs([entries[i]]) == Opt("-metadata", MetadataValue(entries[i])) + [];
      var (k, v) := entries[i];
      if v.Some? {
        command := command + ["-metadata", k + "=" + v.value];
      }
    }
    assert entries[..|entries|] == entries;
  }

  function MetadataValue(e: (string, Option<string>)): Option<string> {
    match e.1
    case Some(v) => Some(e.0 + "=" + v)
    case None => None
  }

  /** `-movflags use_metadata_tags` and the tags, when there is metadata (vgenc/convert.py:205-209) */
  method ExtendMetadataSection(command0: seq<string>, metadata: Option<seq<(string, Option<string>)>>)
    returns (command: seq<string>)
    ensures command == command0 + MetadataSection(metadata)
  {
    command := command0;
    if metadata.Some? {
      command := command + ["-movflags", "use_metadata_tags"];
      command := ExtendMetadata(command, metadata.value);
    }
  }

  /**
   * `convert_movie`'s command construction (vgenc/convert.py:120-217)
   * without two-pass encoding and without the missing-frame filler: the
   * command is exactly the one that reads back as the settings, and it
   * ends with the output path and `-y`.
   */
  method ConvertMovieCommand(s: MovieSettings) returns (command: seq<string>)
    ensures command == MovieArgs(s)
    ensures ParseMovieCommand(command) == Some(MovieRead(s))
    ensures |command| >= 3 && command[|command| - 2..] == [s.output, "-y"]
  {
    var startNumber := s.startNumber;
    if s.frameRange.Some? {
      startNumber := Some(s.frameRange.value.0);
    }
    command := ExtendInputs(["ffmpeg"], s.inputs, s.framerate, startNumber);
    ghost var head := command;
    ghost var vals := OptionValues(s);
    command := ExtendOpt(command, "-c:v", MapCodec(VideoCodecs, s.videoCodec));
    command := ExtendOpt(command, "-q:v", s.videoQuality);
    command := ExtendOpt(command, "-crf", s.constrainedQuality);
    command := ExtendOpt(command, "-b:v", s.videoBitrate);
    var args := BuildFilter(s);
    command := ExtendOpt(command, "-filter_complex", FilterGraph(args));
    command := ExtendOpt(command, "-c:a", MapCodec(AudioCodecs, s.audioCodec));
    command := ExtendOpt(command, "-q:a", s.audioQuality);
    command := ExtendOpt(command, "-b:a", s.audioBitrate);
    OptionArgsUnfold(head, s);
    assert command == head + OptionArgs(s);
    command := ExtendMetadataSection(command, s.metadata);
    assert startNumber == EffectiveStart(s);
    Regroup(["ffmpeg"], InputSection(s.framerate, StartText(startNumber), s.inputs), OptionArgs(s), MetadataSection(s.metadata));
    assert command == ["ffmpeg"] + MovieBody(s);
    command := command + [s.output, "-y"];
    MovieRoundTrip(s);
  }

  /** Eight options in a row after any words, one after the other */
  lemma OptsEight(head: seq<string>, f: seq<string>, v: seq<Option<string>>)
    requires |f| == |v| == 8
    ensures head + Opts(f, v) == head + Opt(f[0], v[0]) + Opt(f[1], v[1]) + Opt(f[2], v[2]) + Opt(f[3], v[3])
      + Opt(f[4], v[4]) + Opt(f[5], v[5]) + Opt(f[6], v[6]) + Opt(f[7], v[7])
  {
    assert Opts(f[..0], v[..0]) == [];
    assert head + Opts(f[..0], v[..0]) == head;
    OptsAfterPrefix(head, f, v, 0);
    assert head + Opts(f[..1], v[..1]) == head + Opt(f[0], v[0]);
    OptsAfterPrefix(head, f, v, 1);
    assert head + Opts(f[..2], v[..2]) == head + Opt(f[0], v[0]) + Opt(f[1], v[1]);
    OptsAfterPrefix(head, f, v, 2);
    assert head + Opts(f[..3], v[..3]) == head + Opt(f[0], v[0]) + Opt(f[1], v[1]) + Opt(f[2], v[2]);
    OptsAfterPrefix(head, f, v, 3);
    assert head + Opts(f[..4], v[..4]) == head + Opt(f[0], v[0]) + Opt(f[1], v[1]) + Opt(f[2], v[2]) + Opt(f[3], v[3]);
    OptsAfterPrefix(head, f, v, 4);
    OptsAfterPrefix(head, f, v, 5);
    OptsAfterPrefix(head, f, v, 6);
    OptsAfterPrefix(head, f, v, 7);
    assert f[..8] == f && v[..8] == v;
  }

  lemma OptsAfterPrefix(head: seq<string>, flags: seq<string>, vals: seq<Option<string>>, k: nat)
    requires |flags| == |vals| && k < |flags|
    ensures head + Opts(flags[..k + 1], vals[..k + 1]) == head + Opts(flags[..k], vals[..k]) + Opt(flags[k], vals[k])
  {
    OptsPrefix(flags, vals, k);
  }

  /** The eight options of the movie command, one after the other */
  lemma OptionArgsUnfold(head: seq<string>, s: MovieSettings)
    ensures head + OptionArgs(s) ==
      head + Opt("-c:v", MapCodec(VideoCodecs, s.videoCodec)) + Opt("-q:v", s.videoQuality)
      + Opt("-crf", s.constrainedQuality) + Opt("-b:v", s.videoBitrate)
      + Opt("-filter_complex", FilterGraph(FilterArgs(s))) + Opt("-c:a", MapCodec(AudioCodecs, s.audioCodec))
      + Opt("-q:a", s.audioQuality) + Opt("-b:a", s.audioBitrate)
  {
    OptsEight(head, OptionFlags, OptionValues(s));
  }
}
