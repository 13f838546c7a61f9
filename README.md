# vgenc core, modelled in Dafny

vgenc is a small toolkit. It drives oiiotool, ffmpeg and ImageMagick to
convert image sequences into other images and movies. This project models the
parts of it that decide what gets run:

- **Frame placeholders** (`vgenc/files.py`). `get_frame_info` splits a path
  around its frame placeholder. The placeholder is a run of `#`, a printf
  `%<digits>d`, or the last run of digits. `find_image_sequence_range` finds
  the first and last frame of a sequence in a directory listing.
- **Filling missing frames** (`vgenc/convert.py`, `generate_missing_frames`
  and `replace_frame_padding`). The padding is parsed from the template.
  The range is walked from the last frame down. A missing frame is linked to
  the nearest lower frame that exists, rendered as a canvas by ImageMagick,
  or only reported. The file system is a class whose fields the filler
  updates in place: the paths that exist, the links made and the commands
  run.
- **Command lines** (`vgenc/convert.py`, `convert_image`, `convert_movie`
  with `build_filter` and `build_drawtext`, and `convert_to_gif`). Each
  builder is a method that appends to a list, as the Python code does. Each
  is specified by a function of its settings. Each has a parser as its
  partner, and a lemma shows that reading the command back gives the
  settings it was built from. For `convert_to_gif` this holds when the
  frame before the last is not an option flag of the command, and the name
  read back is the one with the `.gif` suffix.
- **Blender helpers** (`vgenc/_bpyutils.py`). `_expand_text_ranges` expands
  `{frame}` in text ranges. It is modelled with the subset of
  `str.format(frame=...)` that it needs. The Linux branch of
  `convert_os_path` is also modelled.
- **GUI helpers** (`vgenc/gui/__init__.py`). `find_views_paths` expands
  `%v{a|b}` view groups. The lookup tables for file formats, colour depths,
  containers, codecs and oiiotool bit depths are constants, with lemmas that
  the tables refer to each other consistently.

The files are `wrappers.dfy` (Option), `text.dfy` (the Python string and
integer built-ins the code relies on), `files.dfy`, `frames.dfy`,
`commands.dfy`, `bpyutils.dfy` and `gui.dfy`.

Python built-ins are modelled as follows:

- `str(int)` is `IntToStr`.
- `str.zfill` is `ZFill`: the sign stays in front and zeros follow it.
- `int()` is `ParseInt`: ASCII whitespace is stripped, an optional sign is
  read, then ASCII digits.
- `str.replace`, `str.count`, `str.split` and `str.join` are `ReplaceAll`,
  `Count`, `Split` and `Join`.
- Each regular expression is a hand-written scanner. Lemmas say what each
  scanner finds.

Inputs that Python would get from the outside world become parameters:

- what exists on disk is a set of paths;
- `get_image_size` is a function `sizeOf` from path to size, consulted only when the start frame's file exists (it raises otherwise);
- a directory listing is a sorted sequence of names;
- `subprocess.run` is the command list it would receive.

## Model

| member | source | states |
|---|---|---|
| Files.HashRunRule | vgenc/files.py:7-10 | A path with a `#` gets its leftmost maximal run of `#` as the placeholder. The width is the run's length, there is no number, and `start + '#'*digits + end` gives the path back. |
| Files.PrintfRule | vgenc/files.py:12-15 | Without `#`, the leftmost `%<digits>d` is the placeholder. The path is start, `%`, digits, `d`, end. The width is the value of the digits, there is no number, and no `%<digits>d` starts before it. |
| Files.LastDigitsRule | vgenc/files.py:17-20 | With neither of the above, the placeholder is the last run of digits, taken whole. The width is its length and the number is its value. No digit follows it and none comes just before it. |
| Files.NoPlaceholderIff | vgenc/files.py:21-22 | `get_frame_info` returns None exactly when the path has no `#` and no digit. |
| Files.RebuildWithHashes | vgenc/files.py:23-27 | Rebuilding the path with `#` in place of the placeholder parses back to the same width, start and end. |
| Files.HashRunOf | vgenc/files.py:7-10 | A path built as text, then n hashes, then text not starting with `#` parses to exactly that split. |
| Files.NoFramesIff | vgenc/files.py:42-46 | The result is None exactly when no name of the listing matches `prefix(\d{digits})suffix`. |
| Files.InvalidFrameIff | vgenc/files.py:41-44 | `int('')` raises exactly when the width is 0 and some name matches. |
| Files.RangeIsFirstAndLastMatch | vgenc/files.py:42-46 | The range is the value of the first matching name and the value of the last matching name. |
| Files.RangeBounds | vgenc/files.py:41-46 | Both ends of the range are below 10^digits. |
| Files.ExactCapture | vgenc/files.py:41-43 | A name of length prefix + digits + suffix that matches is exactly prefix, the captured digits and suffix. |
| Files.NumericOrderOfSortedNames | vgenc/files.py:37-43 | For two names that are exactly prefix, digits and suffix, the one that sorts first never has the larger frame. |
| Files.CapturesAscend | vgenc/files.py:37-44 | In a sorted listing of such names, the captured frames ascend. |
| Files.SortedRangeIsMinMax | vgenc/files.py:37-46 | In a sorted listing of names that are exactly prefix, digits and suffix, the range returned bounds every matching frame: it is the minimum and the maximum. |
| Text.NatToStr | vgenc/convert.py:30 | `str(n)` is a non-empty run of digits whose value is n, with no leading zero unless it is `"0"`. |
| Text.ParseIntZFill | vgenc/convert.py:30 | `int(str(n).zfill(w))` is n for every integer n and width w, negative numbers included. |
| Text.ZFillInjective | vgenc/convert.py:30 | Distinct frame numbers give distinct zero-filled texts at any width. |
| Text.ReplaceLength | vgenc/convert.py:30 | Each occurrence replaced changes the length by \|rep\| - \|pat\|. |
| Text.ReplaceAbsent | vgenc/convert.py:30 | Without an occurrence, `replace` returns the text unchanged. |
| Text.ReplaceInjective | vgenc/convert.py:30 | When the pattern occurs, different replacements give different results. |
| Text.CountPositiveIffContains | vgenc/_bpyutils.py:161 | `s.count(pat) > 0` exactly when `pat in s`. |
| Text.ReplaceCharAt | vgenc/_bpyutils.py:9 | `s.replace(a, b)` for single characters keeps the length and maps each character independently. |
| Text.JoinSplit | vgenc/gui/__init__.py:175 | Joining the pieces of `s.split(c)` with c gives s. |
| Text.SplitJoin | vgenc/convert.py:142 | Splitting a join of pieces that avoid the separator gives back the pieces. |
| Text.LexOrderIsNumericOrder | vgenc/files.py:37 | For digit strings of equal length, lexicographic order of the names is numeric order. |
| FrameFill.PaddingSpan | vgenc/convert.py:32 | `re.match(r'.*?%(.*)d')` on the first line spans from the first `%` to the last `d` after it, or does not match when no `d` follows a `%`. |
| FrameFill.AsWrittenPaddingOfPlaceholder | vgenc/convert.py:32-35 | The parse as written reads the padding g from `a%<g>d b` when a has no `%` and no line break and b has no `d`. |
| FrameFill.AsWrittenOverruns | vgenc/convert.py:32-35 | For `a%<g>d<m>d b`, where a has no `%` and no line break, m has no line break and b has no `d`, the group runs over the first `d` to `<g>d<m>`, and `int()` rejects it whatever whitespace ends it. |
| FrameFill.PaddingRunsToLastD | vgenc/convert.py:32-35 | On `shot.%04d.dpx` the parse as written captures `04d.` and fails, while the corrected parse reads 4. |
| FrameFill.ParsePaddingFixed | vgenc/files.py:12-14 | The corrected parse never fails. It returns no padding exactly when no `%<digits>d` occurs, and otherwise a width of at least 0. |
| FrameFill.FixedPaddingOfPlaceholder | vgenc/files.py:12-14 | The corrected parse reads g from `a%<g>d b` whenever a has no `%`. |
| FrameFill.FixedPaddingOfNeedle | vgenc/convert.py:30 | The corrected parse reads w back from the needle `%0<w>d` that `replace_frame_padding` looks for. |
| FrameFill.FrameTextReadsBack | vgenc/convert.py:30 | The frame text is `max(padding, len(str(frame)))` long and `int()` reads the frame back from it. |
| FrameFill.FramePathLength | vgenc/convert.py:30 | Each occurrence of the needle changes the path length by the text length minus the needle length. |
| FrameFill.FramePathInjective | vgenc/convert.py:29-30 | When the needle occurs, distinct frames have distinct paths. |
| FrameFill.FramePathConstant | vgenc/convert.py:29-30 | When the needle does not occur, every frame has the template itself as its path. |
| FrameFill.TemplateJobPaths | vgenc/convert.py:29-30 | The template's frame paths are all distinct or all the same. |
| FrameFill.CanvasCommand | vgenc/convert.py:50-63 | The canvas command is `magick -size WxH <background> <target>`. The size is that of the start frame, and the background is `canvas:black` or `pattern:checkerboard` by mode. |
| FrameFill.Nearest | vgenc/convert.py:45-49 | The search finds the highest frame below the missing one, and at least the start number, whose path exists, or finds none. |
| FrameFill.Decide | vgenc/convert.py:42-63 | A frame is skipped exactly when its path exists. Otherwise it is linked exactly in `previous` mode with a lower frame found, or rendered exactly in the canvas modes. A found link uses the nearest frame. |
| FrameFill.Absent | vgenc/convert.py:37-43 | The frames visited and found missing in the original listing, in descending order: exactly those of the range whose path does not exist. |
| FrameFill.LinkSourcesAreOriginal | vgenc/convert.py:37-49 | Walking down from the last frame, every link points at a file that existed before the call, never at a link made by the call. |
| FrameFill.RunIsReplay | vgenc/convert.py:37-64 | With distinct frame paths, the filler decides every frame as if from the original listing. |
| FrameFill.ReplayMissing | vgenc/convert.py:64 | The list returned is the paths of the missing frames, from the last frame down. |
| FrameFill.MissingDistinct | vgenc/convert.py:64 | With distinct frame paths, no path is reported twice. |
| FrameFill.ReplayCommands | vgenc/convert.py:50-63 | On the reference walk, the canvas modes run one magick command per missing frame, in order, and the other modes run none. The filler follows this walk only when the start frame exists (see FillMissingFrames). |
| FrameFill.NoSizeReferenceIff | vgenc/convert.py:50-54 | `get_image_size` fails exactly when the mode is a canvas mode, the start frame is absent from the original listing and some frame of the range is missing. |
| FrameFill.ReplayLinks | vgenc/convert.py:44-49 | In `previous` mode, each missing frame with a lower existing frame is linked to the nearest one. A missing frame without one is not linked. |
| FrameFill.CompleteRangeUntouched | vgenc/convert.py:42-43 | When every frame of the range exists, nothing is linked, run or reported. |
| FrameFill.FileSystem.Symlink | vgenc/convert.py:48 | `os.symlink` onto a path that does not exist records its source, a link it had not made before, and the target is then taken to exist. Nothing else changes. |
| FrameFill.FileSystem.RunWriting | vgenc/convert.py:58-63 | Running magick records the command and makes its output exist. |
| FrameFill.FillFrame | vgenc/convert.py:40-64 | One frame: it raises exactly in a canvas mode with the frame and the start frame both absent, and then changes nothing. A present frame changes nothing. Otherwise the step is the specified decision on the paths that exist. |
| FrameFill.FillMissingFrames | vgenc/convert.py:36-64 | When the size lookup fails, the loop stops before writing anything and leaves the file system as it was. Otherwise it leaves the file system and returns the list exactly as the specification `Run` describes. |
| FrameFill.GenerateMissingFrames | vgenc/convert.py:22-65 | As written: with no `%…d` it returns None and changes nothing. With a group `int()` rejects, it raises and changes nothing. With a canvas mode and an absent start frame, `get_image_size` raises at the first missing frame and nothing changes. Otherwise it fills the range with the parsed padding. |
| FrameFill.GenerateMissingFramesFixed | vgenc/convert.py:22-65 | The same with the corrected padding parse, which never reports a padding error. |
| Commands.ImageOptionsRoundTrip | vgenc/convert.py:78-87 | The optional oiiotool arguments read back as the colour conversion, look, size and compression they came from. |
| Commands.ImageRoundTrip | vgenc/convert.py:77-88 | The whole oiiotool command reads back as input, output and settings. |
| Commands.ConvertImageCommand | vgenc/convert.py:77-88 | The method's list is the specified command, and it reads back as its arguments. |
| Commands.SizeRoundTrip | vgenc/convert.py:84-85 | The `f'{x}x{y}'` size text reads back as (x, y), negative values included. |
| Commands.GifName | vgenc/convert.py:252-253 | The gif output ends in `.gif`. It equals the given name exactly when that name already ends in `.gif`, and it always extends the given name. |
| Commands.GifNameIdempotent | vgenc/convert.py:252-253 | Applying the `.gif` rule twice changes nothing more. |
| Commands.GifLayout | vgenc/convert.py:240-254 | The gif command has six fixed words, the inputs in order at 5.., two words for each of bounce, optimize and a non-zero depth, and a `.gif` name last. |
| Commands.GifRoundTrip | vgenc/convert.py:240-254 | The gif command reads back as its frames, the `fps` of the `1x<fps>` delay, the bounce, optimize and non-zero depth options and the `.gif` name, when the frame before the last is not `-depth`, `-layers` or `-duplicate`. |
| Commands.ReadGifOptionsOf | vgenc/convert.py:245-251 | The bounce, optimize and depth words written after the frames are read back from the end as the settings they came from, and what remains is the frames. |
| Commands.ConvertToGifCommand | vgenc/convert.py:240-254 | The method builds the specified command. The inputs sit in order at 5.., the last word is the `.gif` name, and the command reads back as its settings under the condition of GifRoundTrip. |
| Commands.CodecName | vgenc/convert.py:180 | `dict.get(name, name)`: a known short name maps to the library name, and any other name passes through. |
| Commands.CodecNamesSettle | vgenc/convert.py:6-19 | Mapping a codec name twice gives the same as once, for video and audio. |
| Commands.DrawTextRoundTrip | vgenc/convert.py:125-142 | A drawtext filter whose values avoid `:` reads back as its seven arguments, the start number included when present. |
| Commands.FilterGraphIff | vgenc/convert.py:144-170 | `-filter_complex` is written exactly when the movie is stereo, is resized, has a non-empty filter dictionary or draws a text. |
| Commands.BuildFilter | vgenc/convert.py:144-168 | The loop collects the stereo filter, the scale, the dictionary assignments and the drawtexts, in that order. |
| Commands.ExtendAssignments | vgenc/convert.py:158-159 | The nested loop appends every `k=v` of every dictionary, in order. |
| Commands.ExtendDrawTexts | vgenc/convert.py:167-168 | The loop appends one drawtext filter per text, in order. |
| Commands.ExtendInputs | vgenc/convert.py:173-178 | Each input gets its optional `-framerate` and `-start_number` and then `-i path`, in order. |
| Commands.MetadataTags | vgenc/convert.py:207-209 | The tags written are exactly the `k=v` of the entries whose value is not None. |
| Commands.ExtendMetadata | vgenc/convert.py:207-209 | The loop appends `-metadata k=v` for each entry whose value is not None. |
| Commands.ExtendMetadataSection | vgenc/convert.py:205-209 | With metadata, `-movflags use_metadata_tags` comes before the tags. Without it, nothing is added. |
| Commands.ConvertMovieCommand | vgenc/convert.py:120-217 | The method builds the specified ffmpeg command. It reads back as the inputs, the mapped codecs and options, and the metadata it was built from, and it ends with the output and `-y`. |
| Commands.MovieRoundTrip | vgenc/convert.py:172-217 | The ffmpeg command reads back as the inputs, the eight options, the metadata and the output. |
| Commands.FrameRangeOverridesStart | vgenc/convert.py:122-123 | With a frame range, every input's start number is the start of the range. |
| Commands.InputsInOrder | vgenc/convert.py:173-178 | The inputs read back in order with their paths and framerate. They carry a start number exactly when one was given or a frame range was. |
| Commands.FilterGraphOnlyWithFilters | vgenc/convert.py:169-170 | The command carries a filter graph exactly when some filter was collected, and the graph is their comma join. |
| Commands.MetadataSkipsNone | vgenc/convert.py:205-209 | The tags read back are exactly the entries whose value is not None. |
| BpyUtils.ConvertOsPathLinux | vgenc/_bpyutils.py:7-9 | A path starting with two backslashes becomes `/` followed by the rest with every backslash turned into `/`. The result has no backslash and is one character shorter. Any other path is returned unchanged. |
| BpyUtils.FormatEscape | vgenc/_bpyutils.py:163 | `str.format` undoes brace doubling, so literal text survives. |
| BpyUtils.FormatPlain | vgenc/_bpyutils.py:163 | A text without braces formats to itself. |
| BpyUtils.FormatTemplate | vgenc/_bpyutils.py:163 | Brace-free pieces joined by `{frame}` format to the same pieces joined by `str(frame)`. |
| BpyUtils.FormatBraceFree | vgenc/_bpyutils.py:163 | The output of a successful format, from a text with no doubled braces, has no braces. |
| BpyUtils.FrameEntriesShape | vgenc/_bpyutils.py:162-163 | A templated range fails exactly when some frame's format fails. Otherwise it yields one entry per frame with bounds (f, f+1) and the text formatted for f. |
| BpyUtils.ExpandAppend | vgenc/_bpyutils.py:159-166 | Expanding a concatenation is expanding each part and concatenating. |
| BpyUtils.ExpandFails | vgenc/_bpyutils.py:160-163 | The expansion fails exactly when some range's expansion fails. |
| BpyUtils.ExpandLength | vgenc/_bpyutils.py:160-165 | The expansion has one entry per untemplated range and one per frame of each templated range. |
| BpyUtils.ExpandSound | vgenc/_bpyutils.py:160-165 | Every entry produced lies inside the range it came from. |
| BpyUtils.ExpandUntemplated | vgenc/_bpyutils.py:164-165 | Ranges without `{frame}` pass through unchanged. |
| BpyUtils.ExpandSettles | vgenc/_bpyutils.py:156-166 | Expanding an expansion changes nothing more, when templated texts have no doubled braces. |
| BpyUtils.ExpandTextRanges | vgenc/_bpyutils.py:156-166 | The nested loops return exactly the specified expansion, or the error. |
| Gui.GroupEnd | vgenc/gui/__init__.py:173 | `%v\{([^}]+)\}` matches at the start exactly up to the first `}`, and the body is non-empty and free of `}`. |
| Gui.TokensRender | vgenc/gui/__init__.py:173-174 | The tokenisation of a path into literals and view groups loses nothing. |
| Gui.BodiesIffGroup | vgenc/gui/__init__.py:174 | `re.findall` finds some group exactly when one matches somewhere in the path. |
| Gui.BodiesHaveNoBrace | vgenc/gui/__init__.py:173 | No group body holds `}`. |
| Gui.PiecesFree | vgenc/gui/__init__.py:175 | No view name holds `}` or `\|`. |
| Gui.Dedup | vgenc/gui/__init__.py:175 | The set of views holds each name once and exactly the names split from the groups. |
| Gui.RenderLength | vgenc/gui/__init__.py:176 | A substituted path is as long as its literal characters plus the view's length for each group. |
| Gui.RenderInjective | vgenc/gui/__init__.py:176 | When the path has a group, distinct views give distinct paths. |
| Gui.FindViewsPaths | vgenc/gui/__init__.py:171-176 | None exactly when no group matches. Otherwise one pair per distinct view named in the groups, each with its substituted path, and no two pairs share a view or a path. |
| Gui.FormatDepthsKnown | vgenc/gui/__init__.py:44-72 | Every colour depth a file format offers is in the colour depth table. |
| Gui.ContainerCodecsKnown | vgenc/gui/__init__.py:92-140 | Every codec a container offers is in the codec table. |
| Gui.BitDepthTablesAgree | vgenc/gui/__init__.py:153-159 | The oiiotool table's keys are exactly the values of the colour depth table. |
| Gui.OiioDepthOf | vgenc/gui/__init__.py:153-159 | The chain from a format's colour depth to oiiotool's data type never misses, and lands on one of oiiotool's six types. |
| Gui.Offered | vgenc/gui/__init__.py:92-109 | A container offers a subset of the codec table, and the whole table when it has no `codecs` entry (Matroska). |
| Gui.CodecOf | vgenc/gui/__init__.py:110-140 | Any codec a container offers, Matroska included, is found in the codec table. |

## Left out

- Filesystem and process I/O are inputs and outputs of the model. This covers `os.path.exists`, `os.listdir`, `os.path.isfile`, `os.symlink`, `os.remove` and `subprocess.run`. The file system is a set of paths plus a link map. A command run is recorded, not executed. ImageMagick is assumed to write its target.
- FrameFill.GenerateMissingFrames: `get_image_size` (vgenc/probe.py) is the parameter `sizeOf`. It is taken to fail exactly when the start frame's file does not exist. Other probe failures, such as an unreadable image, are not modelled.
- The two-pass run of `convert_movie` (vgenc/convert.py:191-197) is not modelled. It launches a first ffmpeg process and appends `-pass 2`.
- The wiring of missing frames into `convert_movie` (vgenc/convert.py:210-216) and the removal of the generated files afterwards (219-220) are not modelled. They are I/O around `generate_missing_frames`, which is modelled on its own.
- `convert_to_gif` on a directory path lists the directory (I/O). The listing is the input sequence.
- `convert_to_gif` with a plain string that is not a directory spreads the string into characters (vgenc/convert.py:245). The model takes a list of paths.
- `int()` accepts underscores between digits and non-ASCII digits and whitespace. The regular expressions' `\d` (vgenc/files.py:12,17,41) also matches non-ASCII digits. The model accepts ASCII digits and whitespace only, in both.
- Unicode case and normalisation play no part, since strings are sequences of characters.
- Python's set order of the views in `find_views_paths` is arbitrary. The model returns the views in first-appearance order and claims only order-free properties.
- `re.sub` interprets backslash escapes in a view name used as the replacement. The model inserts the view name literally.
- Files.FindImageSequenceRange: `prefix` and `suffix` are spliced into the pattern unescaped (vgenc/files.py:41). The model treats them as literal text.
- The Windows branch of `convert_os_path` and its `os.path.normpath` are not modelled. The platform test is fixed to Linux.
- Everything that calls into Blender (`bpy`) is not modelled.
- `str.format` replacement fields other than `{frame}` are modelled as errors. This covers other names, `{frame:04d}`, `{frame!r}` and `{frame.real}`. The model does not relate them to what Python would print.
- Values the code passes through `str()` or an f-string are taken as their text: framerate, qualities, bitrates, filter values and drawtext arguments. Integers the code formats itself are written out.
- Commands.DrawTextRoundTrip: holds only for values free of `:`. `build_drawtext` does not escape `:`, so a value holding one splits into two items and the filter cannot be read back.
- The tables `resolutions`, `view_transforms`, `audio_codecs` and `input_colorspaces` of vgenc/gui/__init__.py are not modelled. Neither is the GUI itself (vgenc/gui/convert.py).
- Gui.OiioDepthOf and Gui.CodecOf are about the tables of vgenc/gui/__init__.py. vgenc/gui/convert.py defines its own copies (lines 32-103), which differ: TIFF has no depth list, Targa and MXF are absent, Quicktime offers only H264 and MJPEG, and there are no ProRes codecs. Those copies are not modelled.
- Files.RebuildWithHashes: requires a width above 0. For `%0d` the width is 0 and the rebuild drops the placeholder: `a%0d5` rebuilds to `a5`, which reads back as width 1 with number 5.
- FrameFill.ReplayCommands: the reference walk does not model the size failure. FrameFill.FillMissingFrames and FrameFill.NoSizeReferenceIff state when the filler raises instead.
- FrameFill.FileSystem.Symlink: `os.path.exists` is false for a dangling link, and `os.symlink` then raises because the name is taken. The model has no dangling links, and paths are compared as text, without resolving them.
- FrameFill.FileSystem.Symlink: the model takes every link the filler makes to exist. In the source a link whose source is a relative path with a directory part dangles, because the system resolves the source against the link's own directory: with the template `out/shot.%04d.exr`, the link `out/shot.0002.exr` to `out/shot.0001.exr` points at `out/out/shot.0001.exr`. Decisions within one call are unaffected, since the walk only looks at frames below those already linked, but a later reader of the frames, such as the ffmpeg run of `convert_movie`, finds the dangling links.
- Commands.GifRoundTrip: holds only when the frame before the last is not `-depth`, `-layers` or `-duplicate`. `convert_to_gif` does not mark where the frames end, so such frames would read back as options.
- Files.SortedRangeIsMinMax: a name that is longer than prefix, digits and suffix, for example a whole path with a directory in front, can sort out of numeric order. The lemma assumes names of exactly that shape.
- FrameFill.TemplateJobPaths: when the needle `%0<padding>d` does not occur in the template, every frame maps to the template itself. This happens, for example, for `%4d`, whose padding 4 makes the needle `%04d`. The model covers this case in LinkSourcesAreOriginal. Frame-level results such as RunIsReplay and MissingDistinct assume distinct paths.

## Findings

| source | as written | input that shows it | evidently intended | confidence | as-written member | corrected member |
|---|---|---|---|---|---|---|
| vgenc/convert.py:32 | `re.match(r'.*?%(.*)d', input_path)` takes group 1 greedily, up to the last `d` of the first line | `shot.%04d.dpx`: group 1 is `04d.`, so `int()` raises ValueError and no frame is filled | read the digits of the placeholder, as `%(\d+)d` does in vgenc/files.py:12, giving 4 | not executed | FrameFill.PaddingRunsToLastD | FrameFill.GenerateMissingFramesFixed |

The as-written parse is `FrameFill.ParsePadding`. `FrameFill.AsWrittenOverruns`
states the failure for every template that has another `d` after the
placeholder. `FrameFill.AsWrittenPaddingOfPlaceholder` shows the two parses
agree when nothing after the placeholder holds a `d`.

The corrected parse is `FrameFill.ParsePaddingFixed`.
`FrameFill.FixedPaddingOfPlaceholder` and `FrameFill.FixedPaddingOfNeedle`
prove that it reads the padding of any `%<digits>d` placeholder.
`FrameFill.GenerateMissingFramesFixed` never reports a padding error.
