# odiff_py in Dafny

A model of the string and protocol layer of odiff_py. odiff_py is a Python
wrapper around the `odiff` image-comparison executable. The model covers:

- the exit-code lookup `CompareStatus`;
- the ignore-area token `IgnoreArea.to_region_str`;
- the argument vector `_odiff` builds for the executable;
- the reading of the executable's parsable stdout (`count;percentage;lines`);
- `DiffResult.create_apng` and `DiffResult._repr_markdown_`;
- in `odiff_py/utils.py`: the frame-selection loop of
  `png_images_to_apng_bytes`, `APNG.from_images`, `APNG.__str__` and
  `APNG._repr_markdown_`.

Modules, one per file:

| file | module | models |
|---|---|---|
| results.dfy | Results | `Option` and `Result` |
| text.dfy | Text | the Python string operations the core relies on: `str()` and `int()` of an integer, `rstrip`, `split`, `partition`, `join`, `replace`, and `capitalize` on ASCII letters |
| base64.dfy | Base64 | `base64.b64encode` (section 4 of RFC 4648), and a decoder that inverts it |
| status.dfy | Status | `CompareStatus`, the exit-code check and the status label of the summary |
| ignore_area.dfy | IgnoreAreas | `IgnoreArea`, `to_region_str`, the `--ignore` value, and a reader for it |
| cli_args.dfy | CliArgs | the argument vector, as a function and as the imperative builder |
| stdout.dfy | ParsableStdout | the two `partition(";")` calls and the line-number comprehension |
| utils.dfy | Utils | the frame loop over a stateful assembler; `APNG`, its `<img>` tag, and a reader for the tag |
| wrapper.dfy | Wrapper | `DiffResult`, `create_apng`, `_repr_markdown_`, and `_odiff` from the argument vector to the record |

Things outside the program are parameters.

- The executable is `run: seq<string> -> (int, string, string)`. It takes the
  arguments and gives the exit code, stdout and stderr.
- The file-existence test is `isFile`, and image loading is `load`.
- The APNG assembler is `assemble`, from the frame list to bytes. The loop
  feeds the frames to it.
- The `.2f` formatting of the percentage is `format2f`.

Images are values of any type `I`. The threshold, the diff colour and the
percentage are the text Python would print or read.

Paths are taken as already normalised text (see "## Left out"), and
`tmp_dir / name` is `tmp_dir + "/" + name`.

`int()` is modelled as CPython applies it to `str` arguments: surrounding
white space is stripped, an optional sign is accepted, and `_` may separate
digits.

Every function or lemma that states a property has a partner:

- `DecodeEncode` reads the base64 text back.
- `ParseToRegionStr` and `IgnoreValueRoundTrip` read the ignore argument back.
- `RoundTrip` and `FirstTwoSeparators` read the stdout fields back.
- `RenderRoundTrip` and `StrRoundTrip` read the `<img>` tag back to the `APNG` it came from.
- `FramesOf` is the reference for the assembler loop.
- `Args`, through `ArgsFrame`, `OptionArgsOrdered` and `ArgumentPresent`, is the reference for the argument builder.

Where Python raises an exception the model returns an error value, and it
adds no precondition the code does not have. One case is `_repr_markdown_`
of a differing result whose percentage is `None`: formatting `None` with
`.2f` raises `TypeError`, and the model returns an error. The other departures
from the code are listed under "## Left out".

## Model

| member | source | states |
|---|---|---|
| Status.FromCode | odiff_py/wrapper.py:18-23 | the lookup succeeds exactly for the codes 0, 21 and 22, and the status found has that code as its value |
| Status.FromCodeOfCode | odiff_py/wrapper.py:18-23 | helper spelling out the lookup table: looking up the value of each status gives that status back |
| Status.CheckReturnCode | odiff_py/wrapper.py:187-189 | a code in the lookup gives the status of that code; any other code is an execution error whose message starts with "Error calling odiff executable:\n" |
| Status.ImageMatchLabel | odiff_py/wrapper.py:86 | the status cell of IMAGE_MATCH reads "Image match" (underscores to spaces, then capitalised) |
| Status.LayoutDifferenceLabel | odiff_py/wrapper.py:86 | the status cell of LAYOUT_DIFFERENCE reads "Layout difference" |
| Status.PixelDifferenceLabel | odiff_py/wrapper.py:86 | the status cell of PIXEL_DIFFERENCE reads "Pixel difference" |
| Status.Label | odiff_py/wrapper.py:86 | definition: the enum name with `_` replaced by a space, then capitalised; its three values are the label lemmas above |
| Text.IntToStr | odiff_py/wrapper.py:41 | `str(n)` is non-empty, made of digits with a leading `-` exactly when n is negative |
| Text.NatToStr | odiff_py/wrapper.py:41 | the decimal digits of a natural number have no leading zero |
| Text.ParseInt | odiff_py/wrapper.py:198-200 | definition of `int()` in base 10: white space stripped, an optional sign, digits with single `_` between them; `None` where Python raises `ValueError`; `IntToStrParses` is its partner |
| Text.RStrip | odiff_py/wrapper.py:200 | definition of `rstrip()`: the text without its trailing `isspace()` characters (by the contract of `TrimEnd`) |
| Text.JoinWith | odiff_py/wrapper.py:93 | definition of `sep.join(parts)`; `Split` and `SplitJoin` state it is inverted by splitting |
| Text.IntToStrParses | odiff_py/wrapper.py:198-200 | `int()` reads `str(n)` back as n, with any white space before or after it |
| Text.Split | odiff_py/wrapper.py:200 | `split(c)` gives at least one piece, no piece holds c, and joining the pieces with c gives the input back |
| Text.SplitJoin | odiff_py/wrapper.py:200 | splitting pieces joined with c, none of which holds c, gives the pieces back |
| Text.Partition | odiff_py/wrapper.py:190-191 | `partition(c)` cuts at the first c; without c it gives the whole text and two empty parts |
| Text.PartitionAt | odiff_py/wrapper.py:190-191 | partitioning a + c + t, where a holds no c, gives a, c and t |
| Text.ReplaceChar | odiff_py/wrapper.py:86 | definition of `replace` for one character, read character by character; beyond that it states that no occurrence of the replaced character is left; the labels it produces are stated by the status-label lemmas |
| Text.Capitalize | odiff_py/wrapper.py:86 | definition of `capitalize` on ASCII letters, read character by character; beyond that it states that the first character is no lower-case ASCII letter and no later one an upper-case ASCII letter; the labels are stated by the status-label lemmas |
| Base64.Encode | odiff_py/utils.py:189 | the payload has length 4 * ceil(n / 3) and uses only the base64 alphabet and `=` |
| Base64.DecodeEncode | odiff_py/utils.py:189 | decoding the encoding of any byte string gives the bytes back |
| IgnoreAreas.ToRegionStr | odiff_py/wrapper.py:34-41 | definition of the `x1:y1-x2:y2` token; `NoCommaInToken` and `ParseToRegionStr` state what it guarantees |
| IgnoreAreas.IgnoreValue | odiff_py/wrapper.py:172 | definition of the `--ignore=` value: the tokens joined with `,`; `IgnoreValueRoundTrip` is its partner |
| IgnoreAreas.TupleAndAreaAgree | odiff_py/wrapper.py:172 | a raw 4-tuple and the equal `IgnoreArea` give the same area, and so the same token |
| IgnoreAreas.RegionTokens | odiff_py/wrapper.py:172 | there is one token per ignore entry, in list order, each the `to_region_str` of that entry |
| IgnoreAreas.Normalized | odiff_py/wrapper.py:172 | `IgnoreArea(*ia)` turns each entry into an area, in order |
| IgnoreAreas.ScanIntOf | odiff_py/wrapper.py:41 | the decimal text of any integer, sign included, reads back as that integer when a non-digit follows it |
| IgnoreAreas.ParseToRegionStr | odiff_py/wrapper.py:34-41 | the token `x1:y1-x2:y2` reads back as the same four integers, negative ones included |
| IgnoreAreas.NoCommaInToken | odiff_py/wrapper.py:34-41 | a token holds no `,`, so the joined value splits back into tokens |
| IgnoreAreas.SplitIgnoreValue | odiff_py/wrapper.py:172 | for a non-empty list, the `--ignore` value split at `,` decodes, token by token, to the list of areas, in order |
| IgnoreAreas.IgnoreValueRoundTrip | odiff_py/wrapper.py:172 | for every list, the empty one included, the `--ignore` value reads back as the areas in order, and it is empty exactly for the empty list |
| CliArgs.ResolvePaths | odiff_py/wrapper.py:154-163 | definition: an in-memory base or comparing image lives at tmp_dir/base.png or tmp_dir/comparing.png, a missing diff path becomes tmp_dir/diff.png, and given paths are kept |
| CliArgs.OptionArgs | odiff_py/wrapper.py:164-177 | definition: the eight conditional appends run on the empty list; `OptionArgsOrdered`, `ArgumentPresent`, `OptionAppearsOnce` and `NoOptionTwice` state its properties |
| CliArgs.Args | odiff_py/wrapper.py:153-184 | definition of the whole argument vector; `ArgsFrame` gives its shape |
| CliArgs.AppendOptions | odiff_py/wrapper.py:164-177 | the eight conditional appends add exactly the option arguments of the options, after what was already there |
| CliArgs.BuildArgs | odiff_py/wrapper.py:153-184 | the imperative builder produces the argument vector `Args` |
| CliArgs.ArgsFrame | odiff_py/wrapper.py:153-184 | helper spelling out `Args`: the vector is `--parsable-stdout`, then the option arguments, then exactly the base, comparing and diff paths; the diff path is tmp_dir/diff.png when none is given, and the caller's path otherwise |
| CliArgs.OptionArgsOrdered | odiff_py/wrapper.py:164-177 | every option argument names a known option, in the fixed order antialiasing, diff-color, diff-mask, fail-on-layout, ignore, output-diff-lines, reduce-ram-usage, threshold; the options named are exactly the enabled ones |
| CliArgs.ArgumentPresent | odiff_py/wrapper.py:164-177 | each option's argument is present if and only if its switch is true; for `--ignore=`, if and only if areas are given, even an empty list; colour and threshold are always present |
| CliArgs.OptionAppearsOnce | odiff_py/wrapper.py:166-177 | an enabled option's argument is present, and every argument naming that option is that argument; `--diff-color=` and `--threshold=` are always enabled |
| CliArgs.NoOptionTwice | odiff_py/wrapper.py:164-177 | no two option arguments name the same option |
| CliArgs.RanksOfOptionArgs | odiff_py/wrapper.py:164-177 | the positions, in the fixed order, of the option arguments are the enabled positions, increasing |
| CliArgs.DefaultOptionArgs | odiff_py/wrapper.py:102-109 | with the keyword defaults the options passed are `--diff-color=#FF0000` and `--threshold=0.1` |
| CliArgs.AppendsShift | odiff_py/wrapper.py:164-177 | what the appends add does not depend on the list they start from |
| ParsableStdout.LineStep | odiff_py/wrapper.py:200 | definition of one step of the comprehension (skip a blank piece, keep `int()` of it, or reject it); what the steps add up to is stated by `CollectOutcome`, `ParseLinesOutcome` and the round-trip lemmas |
| ParsableStdout.ParseLines | odiff_py/wrapper.py:200 | definition of `[int(x) for x in pieces if x.rstrip() != ""]` through `Collect` and `LineStep` |
| ParsableStdout.CollectOutcome | odiff_py/wrapper.py:200 | the comprehension succeeds exactly when no piece is rejected, and otherwise fails with the text of the first rejected piece |
| ParsableStdout.ParseLinesOutcome | odiff_py/wrapper.py:200 | the line numbers are read exactly when `int()` accepts every non-blank piece; otherwise the error names the first non-blank piece it refuses |
| ParsableStdout.ParseStdout | odiff_py/wrapper.py:190-200 | failures are `ValueError`s; a percentage, when present, is non-empty and holds no `;`; without a `;` there is no percentage and there are no lines |
| ParsableStdout.FirstTwoSeparators | odiff_py/wrapper.py:190-200 | for count text c and percentage text p without `;`, the count is `int(c)` (absent when c is empty), the percentage is p (absent when empty), and the lines are read from everything after the second `;`, further `;` included; reading fails exactly when c or a line is refused |
| ParsableStdout.NoSeparator | odiff_py/wrapper.py:190-200 | without a `;` the whole output is the count: reading succeeds exactly when it is empty or `int()` accepts it, with the count absent for empty output, and no percentage and no lines; otherwise the error names the output |
| ParsableStdout.OneSeparator | odiff_py/wrapper.py:190-200 | with a single `;` the percentage is the rest of the output and there are no lines |
| ParsableStdout.EmptyOutput | odiff_py/wrapper.py:190-200 | empty stdout reads as no count, no percentage and no lines |
| ParsableStdout.RoundTrip | odiff_py/wrapper.py:190-200 | `str(n);p;` followed by the lines joined with `,` reads back as count n, percentage p and exactly those lines |
| ParsableStdout.TrailingNewline | odiff_py/wrapper.py:200 | a newline at the end of the output changes nothing, also when there are no line numbers and the newline alone is a blank piece |
| ParsableStdout.SplitPrintedLines | odiff_py/wrapper.py:200 | line numbers printed with `,` between them read back as the same list |
| ParsableStdout.SplitPaddedLines | odiff_py/wrapper.py:200 | the same holds with white space after the last number, and with white space alone for no numbers |
| ParsableStdout.PaddingOnly | odiff_py/wrapper.py:200 | a lines field of white space only is skipped and gives no lines |
| ParsableStdout.BadCount | odiff_py/wrapper.py:198 | a count text `int()` refuses is reported as the error, with that text |
| Utils.FramesOf | odiff_py/utils.py:112-114 | no more frames than images, and every frame carries the same delay numerator and denominator |
| Utils.Assembler.constructor | odiff_py/utils.py:110 | a new assembler holds no frames |
| Utils.Assembler.AddFrame | odiff_py/utils.py:114 | adding a frame appends it with its delays and changes nothing else |
| Utils.PngImagesToApngBytes | odiff_py/utils.py:82-118 | the loop feeds the assembler exactly the frames `FramesOf` selects |
| Utils.FramesOfAppend | odiff_py/utils.py:112-114 | the frames of a concatenation are the frames of the parts, concatenated; input order is kept |
| Utils.AppendNone | odiff_py/utils.py:113 | a `None` appended to the images changes no frame |
| Utils.FrameCount | odiff_py/utils.py:112-114 | there is one frame per image that is not `None` |
| Utils.FrameImages | odiff_py/utils.py:112-114 | every frame's image is an input image, and every input image has a frame |
| Utils.FromImages | odiff_py/utils.py:128-153 | the instance holds the assembled bytes of the selected frames, with the delays forwarded, and the checker-board flag set |
| Utils.Render | odiff_py/utils.py:187-194 | definition of the tag for a given style sheet: `<img style="border: 1px solid; ` + the sheet when the flag is true + `" src="data:image/apng;base64,` + base64 of the data + `">`; `RenderRoundTrip` is its partner |
| Utils.Str | odiff_py/utils.py:187-194 | definition of `__str__`: `Render` with the checker-board style sheet; `StrRoundTrip` is its partner |
| Utils.ReprMarkdown | odiff_py/utils.py:196-198 | the markdown is the `__str__` tag, and it reads back as the instance |
| Utils.ParseImgTagOf | odiff_py/utils.py:190-194 | for a payload without `"`, the tag reads back as the style and the payload |
| Utils.RenderRoundTrip | odiff_py/utils.py:187-194 | the tag's style is the border, plus the style sheet exactly when the flag is true; its payload is the base64 encoding of the data; the tag reads back as the instance |
| Utils.StrRoundTrip | odiff_py/utils.py:187-194 | `__str__`, with the real style sheet, reads back as the instance |
| Utils.CssNotEmpty | odiff_py/utils.py:31-56 | the checker-board style sheet is not empty, so the two styles differ |
| Wrapper.CreateApng | odiff_py/wrapper.py:57-77 | the animation holds the assembled frames of base, comparing and diff image, with the flag at its default |
| Wrapper.ResultFrames | odiff_py/wrapper.py:76-77 | the frames are base, then comparing, then the diff image when there is one, all with the same delays |
| Wrapper.SummaryLines | odiff_py/wrapper.py:83-92 | definition of the lines of a differing result: the five table rows, the diff-lines row when there are diff lines, and the animation; `SummaryRows` states their properties |
| Wrapper.Summary | odiff_py/wrapper.py:79-93 | definition of `_repr_markdown_`: the one-line message on a match, an error for a missing percentage, and otherwise the lines joined with newlines; `IdenticalIffMatch`, `SummaryFails` and `SummaryRows` state its properties |
| Wrapper.BuildTable | odiff_py/wrapper.py:83-91 | the rows built by the appends are the table rows |
| Wrapper.ReprMarkdown | odiff_py/wrapper.py:79-93 | the method returns the summary of the result, with the default-delay animation |
| Wrapper.IdenticalIffMatch | odiff_py/wrapper.py:81-82 | the summary is exactly "Images are identical." if and only if the status is IMAGE_MATCH |
| Wrapper.SummaryFails | odiff_py/wrapper.py:88 | helper spelling out `Summary`: the summary fails if and only if the images differ and the percentage is `None` |
| Wrapper.SummaryRows | odiff_py/wrapper.py:83-93 | the status row shows the label, the percentage row shows the formatted percentage with `%`, a "Diff Lines" row is present iff there are diff lines, and the animation comes last |
| Wrapper.Interpret | odiff_py/wrapper.py:186-201 | an execution error happens exactly for codes outside 0, 21 and 22; a record is produced exactly when the code is one of them and stdout reads, and any other failure is the error of reading stdout; a record has the status of the code, the loaded base and comparing images, a diff image exactly when its file exists, the fields read from stdout, and the checker-board flag at its default `True` |
| Wrapper.Odiff | odiff_py/wrapper.py:153-201 | the method interprets the executable's answer to the argument vector, on the resolved paths |
| Wrapper.UnknownExitCode | odiff_py/wrapper.py:187-189 | any other exit code fails with "Error calling odiff executable:\n" followed by stderr unchanged |
| Wrapper.LayoutDifferenceWithoutOutput | odiff_py/wrapper.py:190-201 | code 21 with empty stdout gives LAYOUT_DIFFERENCE with no count, no percentage and no lines |
| Wrapper.PixelDifferenceFields | odiff_py/wrapper.py:190-201 | code 22 with the usual output gives PIXEL_DIFFERENCE with its count, its percentage and exactly its lines |

## Left out

- `run_odiff` (odiff_py/utils.py:59-79) starts a process, quoting the executable path and joining arguments on Windows. That is operating-system I/O. The model replaces it with the `run` parameter.
- Saving in-memory images with PIL (odiff_py/wrapper.py:154-161) is file I/O. The model keeps only the paths they are saved to. Loading images is the `load` parameter; `load_image` is not part of this model.
- `Path(diff).is_file()` is file-system state. The model takes it as the `isFile` parameter.
- `TemporaryDirectory` and the public `odiff` (odiff_py/wrapper.py:258-273), which only supplies a fresh directory to `_odiff`, are file-system resource handling. The directory is the `tmpDir` parameter.
- `APNGAsmBinder`, `assemble` and the reading of the file it writes (odiff_py/utils.py:110, 115-118) are a foreign library and file I/O. The bytes are `assemble(frames)`, and `out_file` is not modelled.
- `APNG.from_file` and `APNG.save` (odiff_py/utils.py:156-185) are only file I/O.
- `float(diff_percent)` and the `:.2f` formatting are floating point. The percentage is kept as text, and the formatting is the `format2f` parameter.
- ParsableStdout.ParseStdout: does not model the `ValueError` that `float()` raises for percentage text that is not a number, because floating point is left out.
- Paths are taken as already normalised text. `Path(x).as_posix()` normalises a path: for example `./a.png` becomes `a.png`, `a//b` becomes `a/b`, the empty path becomes `.`, and Windows backslashes become `/`. The model passes the text through unchanged.
- Text.Capitalize: only ASCII case mapping is modelled. Python's `capitalize` also maps other cased characters, and can change the length (`"ß"` becomes `"Ss"`). The status names are ASCII, so the labels are unaffected.
- Text.ParseInt: does not model CPython's limit of 4300 digits for converting between `int` and `str`, because the limit is a runtime setting. Python raises `ValueError` past it, while the model accepts a number of any length; the same holds for Text.IntToStr.
- The threshold is the text `f"--threshold={threshold}"` prints, not a float.
- The contents of `CHECKER_TRANSPARENCY_CSS` (odiff_py/utils.py:31-56) are kept as the constant, but the tag lemmas hold for any non-empty style sheet.
- Utils.RenderRoundTrip: states that the style sheet is in the style attribute exactly when the flag is true, and that the tag reads back as the instance. It does not state "contains the style sheet as a substring if and only if", because that depends on the letters of the style sheet.
- Wrapper.Interpret: images are loaded after the stdout fields are read, while Python loads them first. Loading cannot fail in this model, so the order does not matter here.
- `is True` tests on the switches are modelled as plain booleans.
- `int()` of non-ASCII digits is not modelled; odiff prints ASCII digits.
- `_repr_markdown_` passes no flag to `create_apng`, and neither does the model; the record's `use_checker_transparency` is kept but not used, as in the code (odiff_py/wrapper.py:76-77).
