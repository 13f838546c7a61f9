// The pure part of the GUI package (vgenc/gui/__init__.py): expanding the
// `%v{left|right}` view groups of an output path, and the constant lookup
// tables the GUI indexes without checking.

module Gui {
  import opened Wrappers
  import opened Text
  import Files

  // ---------------------------------------------------------------------
  // find_views_paths: the pattern %v\{([^}]+)\}
  // ---------------------------------------------------------------------

  /**
   * Where a match of `%v\{([^}]+)\}` starting at s[0] ends: the index of
   * the first `}` after `%v{`, provided the group between is non-empty.
   */
  function GroupEnd(s: string): (r: Option<nat>)
    ensures r.Some? ==>
      && StartsWith(s, "%v{")
      && 3 < r.value < |s| && s[r.value] == '}'
      && Free(s[3..r.value], '}')
  {
    if !StartsWith(s, "%v{") then None
    else
      match Files.IndexOf(s, '}', 3)
      case None => None
      case Some(j) => if j > 3 then Some(j) else None
  }

  /** A path cut into literal characters and view groups, as the regex scans it */
  datatype Token = Lit(c: char) | Group(body: string)

  function Tokens(s: string): seq<Token>
    decreases |s|
  {
    if |s| == 0 then []
    else
      match GroupEnd(s)
      case Some(j) => [Group(s[3..j])] + Tokens(s[j + 1..])
      case None => [Lit(s[0])] + Tokens(s[1..])
  }

  /** A group shown as written (None) or replaced by a view name */
  function Show(t: Token, view: Option<string>): string {
    match t
    case Lit(c) => [c]
    case Group(b) => if view.Some? then view.value else "%v{" + b + "}"
  }

  function Render(ts: seq<Token>, view: Option<string>): string
    decreases |ts|
  {
    if ts == [] then "" else Show(ts[0], view) + Render(ts[1..], view)
  }

  lemma RenderCons(t: Token, ts: seq<Token>, view: Option<string>)
    ensures Render([t] + ts, view) == Show(t, view) + Render(ts, view)
  {
    assert ([t] + ts)[1..] == ts;
  }

  /** `re.sub(pattern, view, path)` */
  function Substitute(path: string, view: string): string {
    Render(Tokens(path), Some(view))
  }

  /** `re.findall(pattern, path)`: the contents of the groups, in order */
  function Bodies(ts: seq<Token>): seq<string>
    decreases |ts|
  {
    if ts == [] then []
    else (if ts[0].Group? then [ts[0].body] else []) + Bodies(ts[1..])
  }

  /** Some match of the pattern starts somewhere in s */
  predicate HasGroup(s: string) {
    exists i :: 0 <= i < |s| && GroupEnd(s[i..]).Some?
  }

  /** Showing every token as written gives back the path. */
  lemma {:induction false} TokensRender(s: string)
    ensures Render(Tokens(s), None) == s
    decreases |s|
  {
    if |s| > 0 {
      match GroupEnd(s) {
        case Some(j) =>
          TokensRender(s[j + 1..]);
          RenderCons(Group(s[3..j]), Tokens(s[j + 1..]), None);
          assert s[..3] == "%v{";
          assert s == "%v{" + s[3..j] + "}" + s[j + 1..];
        case None =>
          TokensRender(s[1..]);
          RenderCons(Lit(s[0]), Tokens(s[1..]), None);
          assert s == [s[0]] + s[1..];
      }
    }
  }

  /** The scan finds a group exactly when some match of the pattern exists. */
  lemma {:induction false} BodiesIffGroup(s: string)
    ensures |Bodies(Tokens(s))| > 0 <==> HasGroup(s)
    decreases |s|
  {
    if |s| > 0 {
      match GroupEnd(s) {
        case Some(j) =>
          assert s[0..] == s;
        case None =>
          BodiesIffGroup(s[1..]);
          assert s[0..] == s;
          assert forall i :: 0 <= i < |s[1..]| ==> s[1..][i..] == s[i + 1..];
          assert HasGroup(s) ==> HasGroup(s[1..]) by {
            forall i | 1 <= i < |s| && GroupEnd(s[i..]).Some?
              ensures HasGroup(s[1..])
            {
              assert s[1..][i - 1..] == s[i..];
            }
          }
      }
    }
  }

  /** Group contents hold no `}` (the pattern's `[^}]+`). */
  lemma {:induction false} BodiesHaveNoBrace(s: string)
    ensures forall k :: 0 <= k < |Bodies(Tokens(s))| ==> Free(Bodies(Tokens(s))[k], '}')
    decreases |s|
  {
    if |s| > 0 {
      match GroupEnd(s) {
        case Some(j) => BodiesHaveNoBrace(s[j + 1..]);
        case None => BodiesHaveNoBrace(s[1..]);
      }
    }
  }

  /** Every view name: the `|`-pieces of the groups, in order */
  function Pieces(bodies: seq<string>): seq<string>
    decreases |bodies|
  {
    if bodies == [] then [] else Split(bodies[0], '|') + Pieces(bodies[1..])
  }

  /** Pieces of a split keep every property of the split string's characters. */
  lemma {:induction false} SplitKeepsFree(s: string, sep: char, c: char)
    requires Free(s, c)
    ensures forall k :: 0 <= k < |Split(s, sep)| ==> Free(Split(s, sep)[k], c)
    decreases |s|
  {
    if s != [] {
      SplitKeepsFree(s[1..], sep, c);
    }
  }

  lemma {:induction false} PiecesFree(bodies: seq<string>)
    requires forall k :: 0 <= k < |bodies| ==> Free(bodies[k], '}')
    ensures forall k :: 0 <= k < |Pieces(bodies)| ==> Free(Pieces(bodies)[k], '}') && Free(Pieces(bodies)[k], '|')
    decreases |bodies|
  {
    if bodies != [] {
      PiecesFree(bodies[1..]);
      SplitKeepsFree(bodies[0], '|', '}');
      SplitPiecesFree(bodies[0], '|');
      var p := Split(bodies[0], '|');
      var q := Pieces(bodies[1..]);
      assert Pieces(bodies) == p + q;
      assert forall k :: 0 <= k < |p + q| ==> (p + q)[k] == if k < |p| then p[k] else q[k - |p|];
    }
  }

  predicate Distinct(xs: seq<string>) {
    forall k, l :: 0 <= k < l < |xs| ==> xs[k] != xs[l]
  }

  /** The distinct elements of xs, each at its first appearance (one order a set may take) */
  function Dedup(xs: seq<string>): (r: seq<string>)
    ensures Distinct(r)
    ensures forall x :: x in r <==> x in xs
    decreases |xs|
  {
    if xs == [] then []
    else
      var front := Dedup(xs[..|xs| - 1]);
      var last := xs[|xs| - 1];
      assert xs == xs[..|xs| - 1] + [last];
      if last in front then front else front + [last]
  }

  // ---------------------------------------------------------------------
  // Distinct views give distinct paths
  // ---------------------------------------------------------------------

  function GroupCount(ts: seq<Token>): nat
    decreases |ts|
  {
    if ts == [] then 0 else (if ts[0].Group? then 1 else 0) + GroupCount(ts[1..])
  }

  lemma {:induction false} RenderLength(ts: seq<Token>, v: string)
    ensures |Render(ts, Some(v))| == |ts| - GroupCount(ts) + GroupCount(ts) * |v|
    decreases |ts|
  {
    if ts != [] {
      RenderLength(ts[1..], v);
    }
  }

  lemma {:induction false} RenderSameLength(ts: seq<Token>, v1: string, v2: string)
    requires |v1| == |v2| && GroupCount(ts) > 0
    requires Render(ts, Some(v1)) == Render(ts, Some(v2))
    ensures v1 == v2
    decreases |ts|
  {
    var a := Render(ts, Some(v1));
    var b := Render(ts, Some(v2));
    if ts[0].Group? {
      assert a[..|v1|] == v1 && b[..|v2|] == v2;
    } else {
      assert a[1..] == Render(ts[1..], Some(v1));
      assert b[1..] == Render(ts[1..], Some(v2));
      RenderSameLength(ts[1..], v1, v2);
    }
  }

  /** A path with view groups determines the view put into it. */
  lemma RenderInjective(ts: seq<Token>, v1: string, v2: string)
    requires GroupCount(ts) > 0
    requires Render(ts, Some(v1)) == Render(ts, Some(v2))
    ensures v1 == v2
  {
    var n := GroupCount(ts);
    RenderLength(ts, v1);
    RenderLength(ts, v2);
    assert n * |v1| == n * |v2|;
    MulCancel(n, |v1|, |v2|);
    RenderSameLength(ts, v1, v2);
  }

  lemma MulCancel(n: nat, x: nat, y: nat)
    requires n > 0 && n * x == n * y
    ensures x == y
  {
    assert n * (x - y) == n * x - n * y;
  }

  lemma {:induction false} GroupCountBodies(ts: seq<Token>)
    ensures GroupCount(ts) == |Bodies(ts)|
    decreases |ts|
  {
    if ts != [] {
      GroupCountBodies(ts[1..]);
    }
  }

  // ---------------------------------------------------------------------
  // find_views_paths
  // ---------------------------------------------------------------------

  function ViewPaths(path: string, views: seq<string>): seq<(string, string)> {
    seq(|views|, k requires 0 <= k < |views| => (views[k], Substitute(path, views[k])))
  }

  /**
   * None when the path holds no `%v{...}` group; otherwise one pair per
   * distinct view named in any group, with every group of the path
   * replaced by that view.
   */
  function FindViewsPaths(path: string): (r: Option<seq<(string, string)>>)
    ensures r.None? <==> !HasGroup(path)
    ensures r.Some? ==> forall v :: (exists k :: 0 <= k < |r.value| && r.value[k].0 == v) <==>
      v in Pieces(Bodies(Tokens(path)))
    ensures r.Some? ==> forall k :: 0 <= k < |r.value| ==>
      && r.value[k].1 == Substitute(path, r.value[k].0)
      && Free(r.value[k].0, '}')
      && Free(r.value[k].0, '|')
    ensures r.Some? ==> forall k, l :: 0 <= k < l < |r.value| ==>
      r.value[k].0 != r.value[l].0 && r.value[k].1 != r.value[l].1
  {
    var bodies := Bodies(Tokens(path));
    BodiesIffGroup(path);
    if |bodies| == 0 then None
    else
      var views := Dedup(Pieces(bodies));
      ViewsFree(path);
      GroupCountBodies(Tokens(path));
      ViewPathsFacts(path, views);
      Some(ViewPaths(path, views))
  }

  /** View names hold neither `}` nor `|`. */
  lemma ViewsFree(path: string)
    ensures forall k :: 0 <= k < |Dedup(Pieces(Bodies(Tokens(path))))| ==>
      var v := Dedup(Pieces(Bodies(Tokens(path))))[k];
      Free(v, '}') && Free(v, '|')
  {
    var pieces := Pieces(Bodies(Tokens(path)));
    var views := Dedup(pieces);
    BodiesHaveNoBrace(path);
    PiecesFree(Bodies(Tokens(path)));
    forall k | 0 <= k < |views|
      ensures Free(views[k], '}') && Free(views[k], '|')
    {
      assert views[k] in pieces;
      var i :| 0 <= i < |pieces| && pieces[i] == views[k];
    }
  }

  /** One pair per listed view, in order, with pairwise different paths. */
  lemma ViewPathsFacts(path: string, views: seq<string>)
    requires GroupCount(Tokens(path)) > 0 && Distinct(views)
    ensures var r := ViewPaths(path, views);
      && |r| == |views|
      && (forall k :: 0 <= k < |r| ==> r[k].0 == views[k] && r[k].1 == Substitute(path, views[k]))
      && (forall k, l :: 0 <= k < l < |r| ==> r[k].1 != r[l].1)
  {
    var r := ViewPaths(path, views);
    forall k, l | 0 <= k < l < |r|
      ensures r[k].1 != r[l].1
    {
      if r[k].1 == r[l].1 {
        RenderInjective(Tokens(path), views[k], views[l]);
      }
    }
  }

  // ---------------------------------------------------------------------
  // Lookup tables
  // ---------------------------------------------------------------------

  /** `(bits,)` or `(bits, 'integer' | 'float')` */
  datatype BitDepth = BitDepth(bits: int, kind: Option<string>)

  datatype FileFormat = FileFormat(compression: Option<string>, ext: string, colorDepths: seq<string>)

  const FileFormats: map<string, FileFormat> := map[
    "JPEG" := FileFormat(Some("jpeg:95"), ".jpg", ["8 bits"]),
    "JPEG 2000" := FileFormat(None, ".j2c", ["8 bits", "12 bits", "16 bits integer"]),
    "DPX" := FileFormat(None, ".dpx", ["8 bits", "10 bits", "12 bits", "16 bits integer"]),
    "Open EXR" := FileFormat(None, ".exr", ["16 bits float", "32 bits float"]),
    "TIFF" := FileFormat(Some("none"), ".tif", ["8 bits", "16 bits integer"]),
    "Targa" := FileFormat(Some("none"), ".tga", ["8 bits"])]

  const ColorDepths: map<string, BitDepth> := map[
    "8 bits" := BitDepth(8, None),
    "10 bits" := BitDepth(10, None),
    "12 bits" := BitDepth(12, None),
    "16 bits integer" := BitDepth(16, Some("integer")),
    "16 bits float" := BitDepth(16, Some("float")),
    "32 bits float" := BitDepth(32, Some("float"))]

  /** A container with no `codecs` entry (Matroska) offers none. */
  datatype MovieContainer = MovieContainer(ext: string, codecs: Option<seq<string>>)

  const MovieContainers: map<string, MovieContainer> := map[
    "MPEG-4" := MovieContainer(".mp4", Some(["H264", "H265", "MJPEG"])),
    "Quicktime" := MovieContainer(".mov", Some(["H264", "MJPEG", "ProRes 422 HQ", "ProRes 4444"])),
    "WebM" := MovieContainer(".webm", Some(["VP9"])),
    "Matroska" := MovieContainer(".mkv", None),
    "Ogg" := MovieContainer(".ogg", Some(["Theora"])),
    "MXF" := MovieContainer(".mxf", Some(["ProRes 422 HQ", "ProRes 4444"]))]

  datatype MovieCodec = MovieCodec(
    codec: string, crf: Option<int>, bitrate: Option<int>,
    profile: Option<string>, pixelFormat: Option<string>, quality: Option<int>)

  const MovieCodecs: map<string, MovieCodec> := map[
    "H264" := MovieCodec("h264", Some(25), Some(0), None, None, None),
    "H265" := MovieCodec("h265", Some(25), Some(0), None, None, None),
    "ProRes 422 HQ" := MovieCodec("prores", None, None, Some("3"), Some("yuv422p10le"), None),
    "ProRes 4444" := MovieCodec("prores", None, None, Some("4"), Some("yuva444p10le"), None),
    "VP9" := MovieCodec("vp9", Some(25), Some(0), None, None, None),
    "AV1" := MovieCodec("av1", Some(25), Some(0), None, None, None),
    "MJPEG" := MovieCodec("mjpeg", None, None, None, None, Some(2)),
    "Theora" := MovieCodec("theora", None, None, None, None, Some(7))]

  const OiiotoolBitDepths: map<BitDepth, string> := map[
    BitDepth(8, None) := "uint8",
    BitDepth(10, None) := "uint10",
    BitDepth(12, None) := "uint12",
    BitDepth(16, Some("integer")) := "uint16",
    BitDepth(16, Some("float")) := "half",
    BitDepth(32, Some("float")) := "float"]

  /** Every colour depth a file format offers has an entry in the depth table. */
  lemma FormatDepthsKnown()
    ensures forall f, d :: f in FileFormats && d in FileFormats[f].colorDepths ==> d in ColorDepths
  {
  }

  /** Every codec a container offers has an entry in the codec table. */
  lemma ContainerCodecsKnown()
    ensures forall c, k ::
      (c in MovieContainers && MovieContainers[c].codecs.Some? && k in MovieContainers[c].codecs.value) ==>
      k in MovieCodecs
  {
  }

  /** The oiiotool table covers exactly the depths the depth table names. */
  lemma BitDepthTablesAgree()
    ensures OiiotoolBitDepths.Keys == ColorDepths.Values
  {
    forall x | x in OiiotoolBitDepths.Keys
      ensures x in ColorDepths.Values
    {
      var name :=
        if x == BitDepth(8, None) then "8 bits"
        else if x == BitDepth(10, None) then "10 bits"
        else if x == BitDepth(12, None) then "12 bits"
        else if x == BitDepth(16, Some("integer")) then "16 bits integer"
        else if x == BitDepth(16, Some("float")) then "16 bits float"
        else "32 bits float";
      assert ColorDepths[name] == x;
    }
    forall x | x in ColorDepths.Values
      ensures x in OiiotoolBitDepths.Keys
    {
      var name :| name in ColorDepths && ColorDepths[name] == x;
    }
  }

  /**
   * The lookup chain from a chosen format and depth to oiiotool's `-d`
   * value never misses, and lands on one of oiiotool's data types.
   */
  function OiioDepthOf(format: string, depth: string): (r: string)
    requires format in FileFormats && depth in FileFormats[format].colorDepths
    ensures r in OiiotoolBitDepths.Values
    ensures r in {"uint8", "uint10", "uint12", "uint16", "half", "float"}
  {
    FormatDepthsKnown();
    BitDepthTablesAgree();
    OiiotoolBitDepths[ColorDepths[depth]]
  }

  /**
   * The codecs a container offers: its own `codecs` list, or every codec of
   * the table when it has none, the fallback `.get('codecs', movie_codecs.keys())`
   * its readers use.
   */
  function Offered(container: string): (r: set<string>)
    requires container in MovieContainers
    ensures r <= MovieCodecs.Keys
    ensures MovieContainers[container].codecs.None? ==> r == MovieCodecs.Keys
  {
    ContainerCodecsKnown();
    match MovieContainers[container].codecs
    case Some(cs) => set c | c in cs
    case None => MovieCodecs.Keys
  }

  /** The codec chosen among those a container offers is always found in the codec table. */
  function CodecOf(container: string, codec: string): (r: MovieCodec)
    requires container in MovieContainers && codec in Offered(container)
    ensures r in MovieCodecs.Values
  {
    MovieCodecs[codec]
  }
}
