/** `DiffResult` and `_odiff` of odiff_py/wrapper.py: the result record, its
    animation and markdown summary, and the run of the executable from the
    argument vector to the record.  Images, the executable, the file-system
    test and the `.2f` formatting of the percentage are parameters. */
module Wrapper {
  import opened Results
  import opened Text
  import opened Base64
  import opened Status
  import opened CliArgs
  import opened ParsableStdout
  import opened Utils

  /** `DiffResult` over an image type `I`; the percentage is the text
      `float()` received. */
  datatype DiffResult<I> = DiffResult(
    baseImage: I,
    comparingImage: I,
    diffImage: Option<I>,
    status: CompareStatus,
    diffPixelCount: Option<int>,
    diffPercentage: Option<string>,
    diffLines: seq<int>,
    useCheckerTransparency: bool)

  // ---------------------------------------------------------------------------
  // create_apng

  /** The images `create_apng` animates: base, comparing, then the diff. */
  function Images<I>(r: DiffResult<I>): seq<Option<I>> {
    [Some(r.baseImage), Some(r.comparingImage), r.diffImage]
  }

  /** `DiffResult.create_apng`.  The record's own `useCheckerTransparency` is
      not passed on, so the animation always has the checker-board default. */
  method CreateApng<I>(r: DiffResult<I>, assemble: seq<Frame<I>> -> seq<byte>, delayNum: int, delayDen: int)
    returns (a: Apng)
    ensures a == Apng(assemble(FramesOf(Images(r), delayNum, delayDen)), true)
  {
    var images := [Some(r.baseImage), Some(r.comparingImage), r.diffImage];
    a := FromImages(images, assemble, delayNum, delayDen);
  }

  /** The animation shows the base image, then the comparing image, then the
      diff image when there is one, each for the same delay. */
  lemma ResultFrames<I>(r: DiffResult<I>, delayNum: int, delayDen: int)
    ensures FramesOf(Images(r), delayNum, delayDen)
         == [Frame(r.baseImage, delayNum, delayDen), Frame(r.comparingImage, delayNum, delayDen)]
            + (if r.diffImage.Some? then [Frame(r.diffImage.value, delayNum, delayDen)] else [])
  {
    var images := Images(r);
    var f0, f1 := Frame(r.baseImage, delayNum, delayDen), Frame(r.comparingImage, delayNum, delayDen);
    assert images[..1][..0] == [];
    assert FramesOf(images[..1], delayNum, delayDen) == [f0];
    assert images[..2][..1] == images[..1];
    assert FramesOf(images[..2], delayNum, delayDen) == [f0, f1];
    assert images[..3][..2] == images[..2] && images[..3] == images;
  }

  // ---------------------------------------------------------------------------
  // _repr_markdown_

  /** `f"{self.diff_percentage:.2f}"` with the percentage `None`: Python raises
      `TypeError`. */
  datatype FormatError = NoneNotFormattable

  /** `str(n)` of an optional count: `None` prints as `None`. */
  function CountText(count: Option<int>): string {
    if count.None? then "None" else IntToStr(count.value)
  }

  /** `str(xs)` of a list of integers. */
  function ListText(xs: seq<int>): string {
    "[" + JoinWith(", ", IntStrs(xs)) + "]"
  }

  const DiffLinesCell: string := "|Diff Lines|"

  /** The rows of the summary table above the animation, for a percentage
      already formatted as `percentText`. */
  function TableRows<I>(r: DiffResult<I>, percentText: string): seq<string> {
    ["|Meaning|Value|",
     "|-------|-----|",
     "|Status|" + Label(r.status) + "|",
     "|Diff Pixel Count|" + CountText(r.diffPixelCount) + "|",
     "|Diff Percentage|" + percentText + "%|"]
    + (if |r.diffLines| > 0 then [DiffLinesCell + ListText(r.diffLines) + "|"] else [])
  }

  /** All lines of the summary: the table, then the animation rendered as
      `apngText`. */
  function SummaryLines<I>(r: DiffResult<I>, percentText: string, apngText: string): seq<string> {
    TableRows(r, percentText) + ["\n<br>" + apngText + "\n"]
  }

  const Identical: string := "Images are identical."

  /** `_repr_markdown_` with the `.2f` formatting `format2f` and the rendered
      animation `apngText`. */
  function Summary<I>(r: DiffResult<I>, format2f: string -> string, apngText: string): Result<string, FormatError> {
    if r.status == ImageMatch then Ok(Identical)
    else if r.diffPercentage.None? then Err(NoneNotFormattable)
    else Ok(JoinWith("\n", SummaryLines(r, format2f(r.diffPercentage.value), apngText)))
  }

  /** The animation `_repr_markdown_` embeds, with the default delays. */
  function SummaryApng<I>(r: DiffResult<I>, assemble: seq<Frame<I>> -> seq<byte>): Apng {
    Apng(assemble(FramesOf(Images(r), DefaultDelayNum, DefaultDelayDen)), true)
  }

  /** The table part of `_repr_markdown_`: the rows are listed, then the
      diff-lines row is appended only when there are diff lines. */
  method BuildTable<I>(r: DiffResult<I>, percentText: string) returns (resultLines: seq<string>)
    ensures resultLines == TableRows(r, percentText)
  {
    resultLines := [
      "|Meaning|Value|",
      "|-------|-----|",
      "|Status|" + Label(r.status) + "|",
      "|Diff Pixel Count|" + CountText(r.diffPixelCount) + "|",
      "|Diff Percentage|" + percentText + "%|"];
    if |r.diffLines| > 0 {
      resultLines := resultLines + [DiffLinesCell + ListText(r.diffLines) + "|"];
    }
  }

  /** `DiffResult._repr_markdown_`: the one-line message for matching images;
      otherwise the table, then the animation, joined by line breaks. */
  method ReprMarkdown<I>(r: DiffResult<I>, format2f: string -> string, assemble: seq<Frame<I>> -> seq<byte>)
    returns (out: Result<string, FormatError>)
    ensures out == Summary(r, format2f, Str(SummaryApng(r, assemble)))
  {
    if r.status == ImageMatch {
      return Ok(Identical);
    }
    if r.diffPercentage.None? {
      return Err(NoneNotFormattable);
    }
    var resultLines := BuildTable(r, format2f(r.diffPercentage.value));
    var apng := CreateApng(r, assemble, DefaultDelayNum, DefaultDelayDen);
    resultLines := resultLines + ["\n<br>" + Str(apng) + "\n"];
    out := Ok(JoinWith("\n", resultLines));
  }

  // Properties of the summary

  lemma JoinStartsWith(sep: string, parts: seq<string>)
    requires |parts| > 0
    ensures HasPrefix(JoinWith(sep, parts), parts[0])
  {
    if |parts| > 1 {
      PrefixOfAppend(parts[0], sep + JoinWith(sep, parts[1..]));
      assert parts[0] + sep + JoinWith(sep, parts[1..]) == parts[0] + (sep + JoinWith(sep, parts[1..]));
    } else {
      PrefixOfAppend(parts[0], "");
      assert parts[0] + "" == parts[0];
    }
  }

  /** The summary is the one-line message exactly when the images match. */
  lemma IdenticalIffMatch<I>(r: DiffResult<I>, format2f: string -> string, apngText: string)
    ensures Summary(r, format2f, apngText) == Ok(Identical) <==> r.status == ImageMatch
  {
    if r.status != ImageMatch && r.diffPercentage.Some? {
      var lines := SummaryLines(r, format2f(r.diffPercentage.value), apngText);
      JoinStartsWith("\n", lines);
      var s := JoinWith("\n", lines);
      assert s[0] == lines[0][0] == '|';
      assert Identical[0] == 'I';
    }
  }

  /** The summary fails exactly when the images differ and there is no
      percentage to format. */
  lemma SummaryFails<I>(r: DiffResult<I>, format2f: string -> string, apngText: string)
    ensures Summary(r, format2f, apngText).Err? <==> r.status != ImageMatch && r.diffPercentage.None?
  {
  }

  lemma NotDiffLinesRow(row: string, k: nat)
    requires k < |row| && k < |DiffLinesCell| && row[k] != DiffLinesCell[k]
    ensures !HasPrefix(row, DiffLinesCell)
  {
    DifferAt(row, DiffLinesCell, k);
  }

  /** The table of a differing result: status row with the label of the
      status, the diff-lines row exactly when there are diff lines, and the
      animation last. */
  lemma SummaryRows<I>(r: DiffResult<I>, percentText: string, apngText: string)
    ensures var lines := SummaryLines(r, percentText, apngText);
      && |lines| == (if |r.diffLines| > 0 then 7 else 6)
      && lines[2] == "|Status|" + Label(r.status) + "|"
      && lines[4] == "|Diff Percentage|" + percentText + "%|"
      && lines[|lines| - 1] == "\n<br>" + apngText + "\n"
      && ((exists i :: 0 <= i < |lines| && HasPrefix(lines[i], DiffLinesCell)) <==> |r.diffLines| > 0)
  {
    var lines := SummaryLines(r, percentText, apngText);
    if |r.diffLines| > 0 {
      PrefixOfAppend(DiffLinesCell, ListText(r.diffLines) + "|");
      assert lines[5] == DiffLinesCell + (ListText(r.diffLines) + "|");
    } else {
      forall i | 0 <= i < |lines| ensures !HasPrefix(lines[i], DiffLinesCell) {
        if i == 0 {
          NotDiffLinesRow(lines[0], 1);
        } else if i == 1 {
          NotDiffLinesRow(lines[1], 1);
        } else if i == 2 {
          assert lines[2][1] == 'S';
          NotDiffLinesRow(lines[2], 1);
        } else if i == 3 {
          assert lines[3][6] == 'P';
          NotDiffLinesRow(lines[3], 6);
        } else if i == 4 {
          assert lines[4][6] == 'P';
          NotDiffLinesRow(lines[4], 6);
        } else {
          assert lines[5][0] == '\n';
          NotDiffLinesRow(lines[5], 0);
        }
      }
    }
  }

  // ---------------------------------------------------------------------------
  // _odiff

  /** The record `_odiff` builds once the executable has run: the exit code
      check first, then the stdout fields; the diff image is loaded only when
      its file exists. */
  function Interpret<I>(p: Paths, code: int, stdout: string, stderr: string,
                        isFile: string -> bool, load: string -> I): (r: Result<DiffResult<I>, OdiffError>)
    ensures r.Err? && r.error.ExecutionError? <==> code != 0 && code != 21 && code != 22
    ensures r.Ok? <==> FromCode(code).Some? && ParseStdout(stdout).Ok?
    ensures r.Err? && r.error.ValueError? ==> ParseStdout(stdout).Err? && r.error == ParseStdout(stdout).error
    ensures r.Ok? ==> && Code(r.value.status) == code
                      && r.value.baseImage == load(p.base) && r.value.comparingImage == load(p.comparing)
                      && (r.value.diffImage.Some? <==> isFile(p.diff))
                      && (r.value.diffImage.Some? ==> r.value.diffImage.value == load(p.diff))
                      && ParseStdout(stdout) == Ok(Fields(r.value.diffPixelCount, r.value.diffPercentage, r.value.diffLines))
                      && r.value.useCheckerTransparency
  {
    match CheckReturnCode(code, stderr)
    case Err(e) => Err(e)
    case Ok(status) =>
      match ParseStdout(stdout)
      case Err(e) => Err(e)
      case Ok(fields) =>
        Ok(DiffResult(
          load(p.base),
          load(p.comparing),
          if isFile(p.diff) then Some(load(p.diff)) else None,
          status,
          fields.count,
          fields.percentage,
          fields.lines,
          true))
  }

  /** `_odiff`: builds the arguments, runs the executable through `run`
      (exit code, stdout, stderr), checks the exit code and reads stdout. */
  method Odiff<I>(tmpDir: string, base: ImageSource, comparing: ImageSource, diff: Option<string>, o: Options,
                  run: seq<string> -> (int, string, string), isFile: string -> bool, load: string -> I)
    returns (r: Result<DiffResult<I>, OdiffError>)
    ensures var (code, stdout, stderr) := run(Args(tmpDir, base, comparing, diff, o));
      r == Interpret(ResolvePaths(tmpDir, base, comparing, diff), code, stdout, stderr, isFile, load)
  {
    var cliArgs := BuildArgs(tmpDir, base, comparing, diff, o);
    var p := ResolvePaths(tmpDir, base, comparing, diff);
    var (returncode, stdout, stderr) := run(cliArgs);
    if FromCode(returncode).None? {
      var msg := ExecutionErrorPrefix + stderr;
      return Err(ExecutionError(msg));
    }
    var fields := ParseStdout(stdout);
    if fields.Err? {
      return Err(fields.error);
    }
    var diffImage := if isFile(p.diff) then Some(load(p.diff)) else None;
    r := Ok(DiffResult(load(p.base), load(p.comparing), diffImage, FromCode(returncode).value,
                       fields.value.count, fields.value.percentage, fields.value.lines, true));
  }

  // Properties of the run

  /** An exit code outside the three bound ones is reported with stderr
      unchanged after the fixed prefix. */
  lemma UnknownExitCode<I>(p: Paths, code: int, stdout: string, stderr: string, isFile: string -> bool, load: string -> I)
    requires code != 0 && code != 21 && code != 22
    ensures Interpret(p, code, stdout, stderr, isFile, load) == Err(ExecutionError(ExecutionErrorPrefix + stderr))
  {
  }

  /** A layout difference reported with empty stdout gives a record with no
      count, no percentage and no diff lines. */
  lemma LayoutDifferenceWithoutOutput<I>(p: Paths, stderr: string, isFile: string -> bool, load: string -> I)
    ensures var r := Interpret(p, 21, "", stderr, isFile, load);
      && r.Ok? && r.value.status == LayoutDifference
      && r.value.diffPixelCount.None? && r.value.diffPercentage.None? && r.value.diffLines == []
  {
    EmptyOutput();
  }

  /** A pixel difference with the usual output gives its count, percentage and
      diff lines back. */
  lemma PixelDifferenceFields<I>(p: Paths, n: int, percent: string, xs: seq<int>, stderr: string,
                                 isFile: string -> bool, load: string -> I)
    requires ';' !in percent && percent != ""
    ensures var r := Interpret(p, 22, IntToStr(n) + ";" + percent + ";" + JoinWith(",", IntStrs(xs)), stderr, isFile, load);
      && r.Ok? && r.value.status == PixelDifference
      && r.value.diffPixelCount == Some(n) && r.value.diffPercentage == Some(percent) && r.value.diffLines == xs
  {
    RoundTrip(n, percent, xs);
  }
}
