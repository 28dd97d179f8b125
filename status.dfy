/** `CompareStatus` of odiff_py/wrapper.py: the exit codes of the odiff
    executable that carry a comparison result, and the error raised for every
    other exit code. */
module Status {
  import opened Results
  import opened Text

  /** The closed set of comparison outcomes. */
  datatype CompareStatus = ImageMatch | LayoutDifference | PixelDifference

  /** The exit code each outcome is bound to (the enum member's value). */
  function Code(s: CompareStatus): int {
    match s
    case ImageMatch => 0
    case LayoutDifference => 21
    case PixelDifference => 22
  }

  /** The enum member's name. */
  function Name(s: CompareStatus): string {
    match s
    case ImageMatch => "IMAGE_MATCH"
    case LayoutDifference => "LAYOUT_DIFFERENCE"
    case PixelDifference => "PIXEL_DIFFERENCE"
  }

  /** The lookup `CompareStatus(code)`, defined exactly on the three bound codes. */
  function FromCode(code: int): (r: Option<CompareStatus>)
    ensures r.Some? <==> code == 0 || code == 21 || code == 22
    ensures r.Some? ==> Code(r.value) == code
  {
    if code == 0 then Some(ImageMatch)
    else if code == 21 then Some(LayoutDifference)
    else if code == 22 then Some(PixelDifference)
    else None
  }

  /** Every status is found again from its own code: `Code` and `FromCode`
      are inverse on the three bound codes. */
  lemma FromCodeOfCode(s: CompareStatus)
    ensures FromCode(Code(s)) == Some(s)
  {
  }

  /** The failures `_odiff` raises: `RuntimeError` for an unknown exit code,
      `ValueError` (with the offending literal) for a field `int()` rejects. */
  datatype OdiffError = ExecutionError(message: string) | ValueError(literal: string)

  const ExecutionErrorPrefix: string := "Error calling odiff executable:\n"

  /** The exit-code check of `_odiff`: a bound code gives its status, any
      other code an execution error carrying stderr unchanged. */
  function CheckReturnCode(code: int, stderr: string): (r: Result<CompareStatus, OdiffError>)
    ensures r.Ok? <==> code == 0 || code == 21 || code == 22
    ensures r.Ok? ==> Code(r.value) == code
    ensures r.Err? ==> r.error.ExecutionError? && HasPrefix(r.error.message, ExecutionErrorPrefix)
                       && r.error.message[|ExecutionErrorPrefix|..] == stderr
  {
    match FromCode(code)
    case Some(s) => Ok(s)
    case None =>
      var message := ExecutionErrorPrefix + stderr;
      assert message[..|ExecutionErrorPrefix|] == ExecutionErrorPrefix;
      assert message[|ExecutionErrorPrefix|..] == stderr;
      Err(ExecutionError(message))
  }

  /** The status as the markdown summary shows it:
      `name.replace('_', ' ').capitalize()`. */
  function Label(s: CompareStatus): string {
    Capitalize(ReplaceChar(Name(s), '_', ' '))
  }

  lemma ImageMatchLabel()
    ensures Label(ImageMatch) == "Image match"
  {
    ImageMatchSpaced();
    ImageMatchCapitalized();
  }

  lemma ImageMatchSpaced()
    ensures ReplaceChar("IMAGE_MATCH", '_', ' ') == "IMAGE MATCH"
  {
    var r := ReplaceChar("IMAGE_MATCH", '_', ' ');
    assert r[0] == 'I' && r[1] == 'M' && r[2] == 'A' && r[3] == 'G' && r[4] == 'E' && r[5] == ' ' && r[6] == 'M' && r[7] == 'A' && r[8] == 'T' && r[9] == 'C' && r[10] == 'H';
  }

  lemma ImageMatchCapitalized()
    ensures Capitalize("IMAGE MATCH") == "Image match"
  {
    var r := Capitalize("IMAGE MATCH");
    assert r[0] == 'I' && r[1] == 'm' && r[2] == 'a' && r[3] == 'g' && r[4] == 'e' && r[5] == ' ' && r[6] == 'm' && r[7] == 'a' && r[8] == 't' && r[9] == 'c' && r[10] == 'h';
  }

  lemma LayoutDifferenceLabel()
    ensures Label(LayoutDifference) == "Layout difference"
  {
    LayoutDifferenceSpaced();
    LayoutDifferenceCapitalized();
  }

  lemma LayoutDifferenceSpaced()
    ensures ReplaceChar("LAYOUT_DIFFERENCE", '_', ' ') == "LAYOUT DIFFERENCE"
  {
    var r := ReplaceChar("LAYOUT_DIFFERENCE", '_', ' ');
    assert r[0] == 'L' && r[1] == 'A' && r[2] == 'Y' && r[3] == 'O' && r[4] == 'U' && r[5] == 'T' && r[6] == ' ' && r[7] == 'D' && r[8] == 'I' && r[9] == 'F' && r[10] == 'F' && r[11] == 'E' && r[12] == 'R' && r[13] == 'E' && r[14] == 'N' && r[15] == 'C' && r[16] == 'E';
  }

  lemma LayoutDifferenceCapitalized()
    ensures Capitalize("LAYOUT DIFFERENCE") == "Layout difference"
  {
    var r := Capitalize("LAYOUT DIFFERENCE");
    assert r[0] == 'L' && r[1] == 'a' && r[2] == 'y' && r[3] == 'o' && r[4] == 'u' && r[5] == 't' && r[6] == ' ' && r[7] == 'd' && r[8] == 'i' && r[9] == 'f' && r[10] == 'f' && r[11] == 'e' && r[12] == 'r' && r[13] == 'e' && r[14] == 'n' && r[15] == 'c' && r[16] == 'e';
  }

  lemma PixelDifferenceLabel()
    ensures Label(PixelDifference) == "Pixel difference"
  {
    PixelDifferenceSpaced();
    PixelDifferenceCapitalized();
  }

  lemma PixelDifferenceSpaced()
    ensures ReplaceChar("PIXEL_DIFFERENCE", '_', ' ') == "PIXEL DIFFERENCE"
  {
    var r := ReplaceChar("PIXEL_DIFFERENCE", '_', ' ');
    assert r[0] == 'P' && r[1] == 'I' && r[2] == 'X' && r[3] == 'E' && r[4] == 'L' && r[5] == ' ' && r[6] == 'D' && r[7] == 'I' && r[8] == 'F' && r[9] == 'F' && r[10] == 'E' && r[11] == 'R' && r[12] == 'E' && r[13] == 'N' && r[14] == 'C' && r[15] == 'E';
  }

  lemma PixelDifferenceCapitalized()
    ensures Capitalize("PIXEL DIFFERENCE") == "Pixel difference"
  {
    var r := Capitalize("PIXEL DIFFERENCE");
    assert r[0] == 'P' && r[1] == 'i' && r[2] == 'x' && r[3] == 'e' && r[4] == 'l' && r[5] == ' ' && r[6] == 'd' && r[7] == 'i' && r[8] == 'f' && r[9] == 'f' && r[10] == 'e' && r[11] == 'r' && r[12] == 'e' && r[13] == 'n' && r[14] == 'c' && r[15] == 'e';
  }

}
