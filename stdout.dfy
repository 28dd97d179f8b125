/** The parsable output of the odiff executable as `_odiff` reads it
    (odiff_py/wrapper.py, lines 190-201): `count;percentage;lines`, where the
    lines are a comma-separated list of line numbers and every field may be
    empty. */
module ParsableStdout {
  import opened Results
  import opened Text
  import opened Status

  /** The three fields once converted.  The percentage is the text `float()`
      receives; floating point is not part of this model. */
  datatype Fields = Fields(count: Option<int>, percentage: Option<string>, lines: seq<int>)

  /** A piece the comprehension skips: `line_nr.rstrip() == ""`. */
  predicate Blank(s: string) {
    RStrip(s) == ""
  }

  /** What the comprehension does with one piece: skips it, keeps the value
      `int()` gives it, or stops with the `ValueError` `int()` raises. */
  datatype Step = Skip | Keep(n: int) | Reject

  /** One step of the comprehension.  Its contract only names the three
      outcomes; what they add up to for a whole lines field is proved in
      `ParseLinesOutcome` and the round-trip lemmas below. */
  function LineStep(piece: string): (r: Step)
    ensures r.Skip? <==> Blank(piece)
    ensures r.Reject? <==> !Blank(piece) && ParseInt(piece).None?
    ensures r.Keep? ==> ParseInt(piece) == Some(r.n)
  {
    if Blank(piece) then Skip
    else match ParseInt(piece)
      case None => Reject
      case Some(n) => Keep(n)
  }

  /** A list comprehension with a filter, evaluated left to right: the kept
      values in order, or the error of the first rejected piece. */
  function Collect(pieces: seq<string>, step: string -> Step): (r: Result<seq<int>, OdiffError>)
    ensures r.Ok? ==> |r.value| <= |pieces|
    ensures r.Err? ==> r.error.ValueError?
  {
    if |pieces| == 0 then Ok([])
    else match step(pieces[0])
      case Reject => Err(ValueError(pieces[0]))
      case Skip => Collect(pieces[1..], step)
      case Keep(n) =>
        var tail := Collect(pieces[1..], step);
        if tail.Err? then tail else Ok([n] + tail.value)
  }

  /** `[int(x) for x in pieces if x.rstrip() != ""]`. */
  function ParseLines(pieces: seq<string>): Result<seq<int>, OdiffError> {
    Collect(pieces, LineStep)
  }

  /** Piece `i` is the first one the comprehension rejects. */
  predicate FirstReject(pieces: seq<string>, step: string -> Step, i: int)
    requires 0 <= i < |pieces|
  {
    step(pieces[i]).Reject? && forall j :: 0 <= j < i ==> !step(pieces[j]).Reject?
  }

  /** The comprehension succeeds exactly when no piece is rejected, and
      otherwise fails with the first rejected piece. */
  lemma {:induction false} CollectOutcome(pieces: seq<string>, step: string -> Step)
    ensures Collect(pieces, step).Ok? <==> forall i :: 0 <= i < |pieces| ==> !step(pieces[i]).Reject?
    ensures Collect(pieces, step).Err? ==>
      exists i :: 0 <= i < |pieces| && FirstReject(pieces, step, i) && Collect(pieces, step).error == ValueError(pieces[i])
  {
    if |pieces| > 0 {
      if step(pieces[0]).Reject? {
        assert FirstReject(pieces, step, 0);
      } else {
        var t := pieces[1..];
        CollectOutcome(t, step);
        forall i | 0 <= i < |t| ensures t[i] == pieces[i + 1] {
        }
        if Collect(pieces, step).Err? {
          var i :| 0 <= i < |t| && FirstReject(t, step, i) && Collect(t, step).error == ValueError(t[i]);
          assert FirstReject(pieces, step, i + 1) by {
            forall j | 0 <= j < i + 1 ensures !step(pieces[j]).Reject? {
              if j > 0 { assert pieces[j] == t[j - 1]; }
            }
          }
        }
      }
    }
  }

  /** The line numbers are read exactly when `int()` accepts every
      non-blank piece; otherwise the first non-blank piece it rejects is the
      literal of the error. */
  lemma ParseLinesOutcome(pieces: seq<string>)
    ensures ParseLines(pieces).Ok? <==> forall i :: 0 <= i < |pieces| && !Blank(pieces[i]) ==> ParseInt(pieces[i]).Some?
    ensures ParseLines(pieces).Err? ==> exists i ::
      && 0 <= i < |pieces| && !Blank(pieces[i]) && ParseInt(pieces[i]).None?
      && (forall j :: 0 <= j < i && !Blank(pieces[j]) ==> ParseInt(pieces[j]).Some?)
      && ParseLines(pieces).error == ValueError(pieces[i])
  {
    CollectOutcome(pieces, LineStep);
    if ParseLines(pieces).Err? {
      var i :| 0 <= i < |pieces| && FirstReject(pieces, LineStep, i) && ParseLines(pieces).error == ValueError(pieces[i]);
      assert forall j :: 0 <= j < i && !Blank(pieces[j]) ==> ParseInt(pieces[j]).Some? by {
        forall j | 0 <= j < i && !Blank(pieces[j]) ensures ParseInt(pieces[j]).Some? {
          assert !LineStep(pieces[j]).Reject?;
        }
      }
    }
  }

  /** The two partitions and three conversions of `_odiff`; count first, then
      the lines, as the `DiffResult` arguments are evaluated. */
  function ParseStdout(stdout: string): (r: Result<Fields, OdiffError>)
    ensures r.Err? ==> r.error.ValueError?
    ensures r.Ok? && r.value.percentage.Some? ==> r.value.percentage.value != "" && ';' !in r.value.percentage.value
    ensures ';' !in stdout && r.Ok? ==> r.value.percentage.None? && r.value.lines == []
  {
    var (countText, _, rest) := Partition(stdout, ';');
    var (percentText, _, linesText) := Partition(rest, ';');
    if countText != "" && ParseInt(countText).None? then Err(ValueError(countText))
    else
      match ParseLines(Split(linesText, ','))
      case Err(e) => Err(e)
      case Ok(lines) =>
        assert ';' !in stdout ==> linesText == "" && Split(linesText, ',') == [""];
        Ok(Fields(
          if countText == "" then None else Some(ParseInt(countText).value),
          if percentText == "" then None else Some(percentText),
          lines))
  }

  // ---------------------------------------------------------------------------
  // Properties

  lemma BlankEmpty()
    ensures Blank("")
  {
  }

  lemma IntToStrNotBlank(n: int)
    ensures !Blank(IntToStr(n))
  {
    var x := IntToStr(n);
    TrimEndPadding(x, "", IsSpace);
    assert x + "" == x;
  }

  /** A number followed by trailing white space (a newline, say) is neither
      blank nor rejected by `int()`. */
  lemma PaddedIntToStr(n: int, w: string)
    requires forall i :: 0 <= i < |w| ==> IsIntSpace(w[i])
    ensures !Blank(IntToStr(n) + w) && ParseInt(IntToStr(n) + w) == Some(n)
  {
    var x := IntToStr(n);
    forall i | 0 <= i < |w| ensures IsSpace(w[i]) {
    }
    TrimEndPadding(x, w, IsSpace);
    IntToStrParses("", n, w);
    EmptyConcat(x, w);
  }

  /** The printed line numbers parse back to the numbers. */
  lemma {:induction false} ParseLinesIntStrs(xs: seq<int>)
    ensures ParseLines(IntStrs(xs)) == Ok(xs)
  {
    if xs != [] {
      var p := IntStrs(xs);
      IntToStrNotBlank(xs[0]);
      IntToStrParsesExactly(xs[0]);
      assert p[1..] == IntStrs(xs[1..]);
      ParseLinesIntStrs(xs[1..]);
      assert [xs[0]] + xs[1..] == xs;
    }
  }

  /** The lines field as odiff prints it: numbers joined by commas. */
  lemma SplitPrintedLines(xs: seq<int>)
    ensures ParseLines(Split(JoinWith(",", IntStrs(xs)), ',')) == Ok(xs)
  {
    if xs == [] {
      EmptyLinesField();
    } else {
      var p := IntStrs(xs);
      forall i | 0 <= i < |p| ensures ',' !in p[i] {
        assert p[i] == IntToStr(xs[i]);
      }
      assert "," == [','];
      SplitJoin(p, ',');
      ParseLinesIntStrs(xs);
    }
  }

  /** Output written as odiff writes it reads back as the fields it came from:
      the count, the percentage text (absent when empty) and the lines. */
  lemma RoundTrip(n: int, percent: string, xs: seq<int>)
    requires ';' !in percent
    ensures ParseStdout(IntToStr(n) + ";" + percent + ";" + JoinWith(",", IntStrs(xs)))
         == Ok(Fields(Some(n), if percent == "" then None else Some(percent), xs))
  {
    var c := IntToStr(n);
    var l := JoinWith(",", IntStrs(xs));
    var s := c + ";" + percent + ";" + l;
    assert ';' !in c by {
      forall i | 0 <= i < |c| ensures c[i] != ';' {
        assert IsDigit(c[i]) || c[i] == '-';
      }
    }
    assert s == c + [';'] + (percent + [';'] + l);
    PartitionAt(c, ';', percent + [';'] + l);
    PartitionAt(percent, ';', l);
    IntToStrNotBlank(n);
    IntToStrParsesExactly(n);
    assert c != "";
    SplitPrintedLines(xs);
  }

  /** The output of a layout difference, where odiff prints nothing: no
      count, no percentage, no lines. */
  lemma EmptyOutput()
    ensures ParseStdout("") == Ok(Fields(None, None, []))
  {
    assert Partition("", ';') == ("", "", "");
    EmptyLinesField();
  }

  /** An empty lines field is one blank piece, which the comprehension skips. */
  lemma EmptyLinesField()
    ensures ParseLines(Split("", ',')) == Ok([])
  {
    assert Split("", ',') == [""];
    BlankEmpty();
    assert [""][1..] == [];
  }

  /** A trailing newline after the last line number changes nothing. */
  lemma TrailingNewline(n: int, percent: string, xs: seq<int>)
    requires ';' !in percent
    ensures ParseStdout(IntToStr(n) + ";" + percent + ";" + JoinWith(",", IntStrs(xs)) + "\n")
         == Ok(Fields(Some(n), if percent == "" then None else Some(percent), xs))
  {
    var c := IntToStr(n);
    var l := JoinWith(",", IntStrs(xs)) + "\n";
    var s := c + ";" + percent + ";" + JoinWith(",", IntStrs(xs)) + "\n";
    assert ';' !in c by {
      forall i | 0 <= i < |c| ensures c[i] != ';' {
        assert IsDigit(c[i]) || c[i] == '-';
      }
    }
    assert s == c + [';'] + (percent + [';'] + l);
    PartitionAt(c, ';', percent + [';'] + l);
    PartitionAt(percent, ';', l);
    IntToStrNotBlank(n);
    IntToStrParsesExactly(n);
    assert c != "";
    SplitPaddedLines(xs, "\n");
  }

  /** Printed line numbers with white space after the last one; with no
      numbers the white space alone is one blank piece, which is skipped. */
  lemma SplitPaddedLines(xs: seq<int>, w: string)
    requires forall i :: 0 <= i < |w| ==> IsIntSpace(w[i])
    ensures ParseLines(Split(JoinWith(",", IntStrs(xs)) + w, ',')) == Ok(xs)
  {
    if xs == [] {
      NoLinesPadded(xs, w);
    } else {
      SplitPadded(xs, w);
      ParseLinesPadded(xs, w);
    }
  }

  lemma NoLinesPadded(xs: seq<int>, w: string)
    requires xs == []
    requires forall i :: 0 <= i < |w| ==> IsIntSpace(w[i])
    ensures ParseLines(Split(JoinWith(",", IntStrs(xs)) + w, ',')) == Ok(xs)
  {
    assert JoinWith(",", IntStrs(xs)) == "";
    PrependEmpty(w);
    PaddingOnly(w);
  }

  /** A lines field of white space only gives no lines. */
  lemma PaddingOnly(w: string)
    requires forall i :: 0 <= i < |w| ==> IsIntSpace(w[i])
    ensures ParseLines(Split(w, ',')) == Ok([])
  {
    BlankPadding(w);
    SplitNoSeparator(w, ',');
    assert LineStep(w).Skip?;
    CollectSkipOne(w, LineStep);
  }

  lemma CollectSkipOne(s: string, step: string -> Step)
    requires step(s).Skip?
    ensures Collect([s], step) == Ok([])
  {
    assert [s][1..] == [];
  }

  lemma BlankPadding(w: string)
    requires forall i :: 0 <= i < |w| ==> IsIntSpace(w[i])
    ensures Blank(w) && ',' !in w
  {
    forall i | 0 <= i < |w| ensures IsSpace(w[i]) && w[i] != ',' {
    }
    TrimEndPadding("", w, IsSpace);
    EmptyConcat(w, "");
    AppendEmpty(w);
  }

  lemma SplitPadded(xs: seq<int>, w: string)
    requires xs != []
    requires forall i :: 0 <= i < |w| ==> IsIntSpace(w[i])
    ensures Split(JoinWith(",", IntStrs(xs)) + w, ',') == PadLast(IntStrs(xs), w)
  {
    var q := PadLast(IntStrs(xs), w);
    PaddedPiecesNoComma(xs, w);
    JoinAppendLast(IntStrs(xs), w);
    SplitJoin(q, ',');
  }

  lemma PaddedPiecesNoComma(xs: seq<int>, w: string)
    requires xs != []
    requires forall i :: 0 <= i < |w| ==> IsIntSpace(w[i])
    ensures forall i :: 0 <= i < |xs| ==> ',' !in PadLast(IntStrs(xs), w)[i]
  {
    var p := IntStrs(xs);
    var q := PadLast(p, w);
    forall i | 0 <= i < |q| ensures ',' !in q[i] {
      if i < |q| - 1 {
        assert q[i] == IntToStr(xs[i]);
      } else {
        NoCommaPadded(xs[|xs| - 1], w);
      }
    }
  }

  lemma NoCommaPadded(n: int, w: string)
    requires forall i :: 0 <= i < |w| ==> IsIntSpace(w[i])
    ensures ',' !in IntToStr(n) + w
  {
    var x := IntToStr(n) + w;
    forall j | 0 <= j < |x| ensures x[j] != ',' {
      if j < |IntToStr(n)| { assert x[j] == IntToStr(n)[j]; } else { assert x[j] == w[j - |IntToStr(n)|]; }
    }
  }

  /** The pieces with white space appended to the last one. */
  function PadLast(p: seq<string>, w: string): (q: seq<string>)
    requires p != []
    ensures |q| == |p| && q[|q| - 1] == p[|p| - 1] + w
    ensures forall i :: 0 <= i < |p| - 1 ==> q[i] == p[i]
  {
    p[..|p| - 1] + [p[|p| - 1] + w]
  }

  /** Appending after a join appends to its last part. */
  lemma {:induction false} JoinAppendLast(p: seq<string>, w: string)
    requires p != []
    ensures JoinWith(",", p) + w == JoinWith(",", PadLast(p, w))
  {
    var q := PadLast(p, w);
    if |p| == 1 {
      assert q == [p[0] + w];
    } else {
      var p1 := p[1..];
      JoinAppendLast(p1, w);
      assert q[0] == p[0];
      assert q[1..] == PadLast(p1, w);
      assert JoinWith(",", p) + w == p[0] + "," + (JoinWith(",", p1) + w);
    }
  }

  /** The comprehension distributes over concatenation. */
  lemma {:induction false} CollectAppend(a: seq<string>, b: seq<string>, step: string -> Step)
    requires Collect(a, step).Ok? && Collect(b, step).Ok?
    ensures Collect(a + b, step) == Ok(Collect(a, step).value + Collect(b, step).value)
  {
    if a == [] {
      assert a + b == b;
      assert Collect(a, step).value + Collect(b, step).value == Collect(b, step).value;
    } else {
      var ab := a + b;
      assert ab[0] == a[0] && ab[1..] == a[1..] + b;
      CollectAppend(a[1..], b, step);
      var rest := Collect(a[1..], step).value + Collect(b, step).value;
      if step(a[0]).Keep? {
        var n := step(a[0]).n;
        assert Collect(a, step).value == [n] + Collect(a[1..], step).value;
        assert [n] + rest == Collect(a, step).value + Collect(b, step).value;
      }
    }
  }

  lemma CollectOne(s: string, step: string -> Step)
    requires step(s).Keep?
    ensures Collect([s], step) == Ok([step(s).n])
  {
    assert [s][1..] == [];
    assert Collect([], step) == Ok([]);
    assert [step(s).n] + [] == [step(s).n];
  }

  lemma ParseLinesPadded(xs: seq<int>, w: string)
    requires xs != []
    requires forall i :: 0 <= i < |w| ==> IsIntSpace(w[i])
    ensures ParseLines(PadLast(IntStrs(xs), w)) == Ok(xs)
  {
    var p := IntStrs(xs);
    var k := |xs| - 1;
    ParseLinesInit(xs);
    ParseLinesLast(xs, w);
    CollectAppend(p[..k], [p[k] + w], LineStep);
    assert PadLast(p, w) == p[..k] + [p[k] + w];
    InitLast(xs);
  }

  lemma ParseLinesInit(xs: seq<int>)
    requires xs != []
    ensures var k := |xs| - 1; ParseLines(IntStrs(xs)[..k]) == Ok(xs[..k])
  {
    var k := |xs| - 1;
    IntStrsTake(xs, k);
    ParseLinesIntStrs(xs[..k]);
  }

  lemma ParseLinesLast(xs: seq<int>, w: string)
    requires xs != []
    requires forall i :: 0 <= i < |w| ==> IsIntSpace(w[i])
    ensures var k := |xs| - 1; ParseLines([IntStrs(xs)[k] + w]) == Ok([xs[k]])
  {
    var k := |xs| - 1;
    PaddedIntToStr(xs[k], w);
    CollectOne(IntToStr(xs[k]) + w, LineStep);
  }

  lemma InitLast(xs: seq<int>)
    requires xs != []
    ensures xs[..|xs| - 1] + [xs[|xs| - 1]] == xs
  {
  }

  /** A count `int()` rejects is reported with its text. */
  lemma BadCount(c: string, rest: string)
    requires ';' !in c && c != "" && ParseInt(c).None?
    ensures ParseStdout(c + ";" + rest) == Err(ValueError(c))
  {
    assert c + ";" + rest == c + [';'] + rest;
    PartitionAt(c, ';', rest);
  }

  /** Only the first two `;` separate fields: the count is the text before
      the first, the percentage the text up to the second (absent when
      empty), and everything after it, further `;` included, is the lines
      field. */
  lemma FirstTwoSeparators(c: string, p: string, l: string)
    requires ';' !in c && ';' !in p
    ensures var r := ParseStdout(c + ";" + p + ";" + l);
      && (r.Ok? <==> (c == "" || ParseInt(c).Some?) && ParseLines(Split(l, ',')).Ok?)
      && (r.Ok? ==> && r.value.count == (if c == "" then None else ParseInt(c))
                    && r.value.percentage == (if p == "" then None else Some(p))
                    && r.value.lines == ParseLines(Split(l, ',')).value)
  {
    assert c + ";" + p + ";" + l == c + [';'] + (p + [';'] + l);
    PartitionAt(c, ';', p + [';'] + l);
    PartitionAt(p, ';', l);
  }

  /** With a single `;` the percentage is everything after it and there are
      no lines. */
  lemma OneSeparator(c: string, p: string)
    requires ';' !in c && ';' !in p
    ensures var r := ParseStdout(c + ";" + p);
      && (r.Ok? <==> c == "" || ParseInt(c).Some?)
      && (r.Ok? ==> && r.value.count == (if c == "" then None else ParseInt(c))
                    && r.value.percentage == (if p == "" then None else Some(p))
                    && r.value.lines == [])
  {
    assert c + ";" + p == c + [';'] + p;
    PartitionAt(c, ';', p);
    assert Partition(p, ';') == (p, "", "");
    EmptyLinesField();
  }

  /** Without a `;` the whole output is the count text: `int()` of it, or
      absent when it is empty, and neither percentage nor lines. */
  lemma NoSeparator(c: string)
    requires ';' !in c
    ensures ParseStdout(c).Ok? <==> c == "" || ParseInt(c).Some?
    ensures ParseStdout(c).Ok? ==> ParseStdout(c).value == Fields(if c == "" then None else ParseInt(c), None, [])
    ensures ParseStdout(c).Err? ==> ParseStdout(c).error == ValueError(c)
  {
    assert Partition(c, ';') == (c, "", "");
    assert Partition("", ';') == ("", "", "");
    EmptyLinesField();
  }
}
