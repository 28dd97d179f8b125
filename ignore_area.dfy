/** `IgnoreArea` of odiff_py/wrapper.py: a rectangle excluded from the
    comparison, its region token `x1:y1-x2:y2`, and the value of the
    `--ignore=` argument.  The decoder at the end reads a token back. */
module IgnoreAreas {
  import opened Results
  import opened Text

  datatype IgnoreArea = IgnoreArea(x1: int, y1: int, x2: int, y2: int)

  /** One entry of the `ignore` option: an `IgnoreArea` or a plain 4-tuple. */
  datatype IgnoreSpec = Area(area: IgnoreArea) | Tuple(a: int, b: int, c: int, d: int)

  /** `IgnoreArea(*ia)`: both forms unpack to the same four integers. */
  function Normalize(spec: IgnoreSpec): IgnoreArea {
    match spec
    case Area(area) => IgnoreArea(area.x1, area.y1, area.x2, area.y2)
    case Tuple(a, b, c, d) => IgnoreArea(a, b, c, d)
  }

  /** A raw tuple and the equal `IgnoreArea` normalise to the same area, and
      normalising an area leaves it unchanged. */
  lemma TupleAndAreaAgree(x1: int, y1: int, x2: int, y2: int)
    ensures Normalize(Tuple(x1, y1, x2, y2)) == Normalize(Area(IgnoreArea(x1, y1, x2, y2)))
                                             == IgnoreArea(x1, y1, x2, y2)
  {
  }

  /** `to_region_str`. */
  function ToRegionStr(a: IgnoreArea): string {
    IntToStr(a.x1) + ":" + IntToStr(a.y1) + "-" + IntToStr(a.x2) + ":" + IntToStr(a.y2)
  }

  /** The region tokens of the `ignore` list, in list order. */
  function RegionTokens(specs: seq<IgnoreSpec>): (r: seq<string>)
    ensures |r| == |specs|
    ensures forall i :: 0 <= i < |specs| ==> r[i] == ToRegionStr(Normalize(specs[i]))
  {
    if specs == [] then [] else [ToRegionStr(Normalize(specs[0]))] + RegionTokens(specs[1..])
  }

  /** The areas of the `ignore` list, in list order. */
  function Normalized(specs: seq<IgnoreSpec>): (r: seq<IgnoreArea>)
    ensures |r| == |specs|
    ensures forall i :: 0 <= i < |specs| ==> r[i] == Normalize(specs[i])
  {
    if specs == [] then [] else [Normalize(specs[0])] + Normalized(specs[1..])
  }

  /** The value after `--ignore=`: the tokens joined with `,`. */
  function IgnoreValue(specs: seq<IgnoreSpec>): string {
    JoinWith(",", RegionTokens(specs))
  }

  // ---------------------------------------------------------------------------
  // Reading a token back

  /** The length of the run of digits at the front of `s`. */
  function DigitRun(s: string): (k: nat)
    ensures k <= |s| && AllDigits(s[..k])
    ensures k == |s| || !IsDigit(s[k])
  {
    if |s| > 0 && IsDigit(s[0]) then
      var k := 1 + DigitRun(s[1..]);
      assert forall i :: 1 <= i < k ==> s[..k][i] == s[1..][..k - 1][i - 1];
      k
    else 0
  }

  /** An optionally negative integer at the front of `s`, and what follows it. */
  function ScanInt(s: string): Option<(int, string)> {
    var neg := |s| > 0 && s[0] == '-';
    var body := if neg then s[1..] else s;
    var k := DigitRun(body);
    if k == 0 then None
    else
      var v: int := DigitsValue(body[..k]);
      Some((if neg then -v else v, body[k..]))
  }

  /** An integer followed by the character `sep`, and what follows both. */
  function ScanField(s: string, sep: char): Option<(int, string)> {
    match ScanInt(s)
    case Some((v, rest)) =>
      if |rest| > 0 && rest[0] == sep then Some((v, rest[1..])) else None
    case None => None
  }

  /** Reads a whole token `x1:y1-x2:y2`; `None` for anything else. */
  function ParseRegion(s: string): Option<IgnoreArea> {
    match ScanField(s, ':')
    case None => None
    case Some((x1, r1)) =>
      match ScanField(r1, '-')
      case None => None
      case Some((y1, r2)) =>
        match ScanField(r2, ':')
        case None => None
        case Some((x2, r3)) =>
          match ScanInt(r3)
          case Some((y2, rest)) => if rest == "" then Some(IgnoreArea(x1, y1, x2, y2)) else None
          case None => None
  }

  /** Reads every token of a list. */
  function ParseRegions(tokens: seq<string>): Option<seq<IgnoreArea>> {
    if tokens == [] then Some([])
    else
      match ParseRegion(tokens[0])
      case None => None
      case Some(a) =>
        match ParseRegions(tokens[1..])
        case None => None
        case Some(rest) => Some([a] + rest)
  }

  lemma {:induction false} DigitRunOf(d: string, rest: string)
    requires AllDigits(d)
    requires rest == [] || !IsDigit(rest[0])
    ensures DigitRun(d + rest) == |d|
  {
    if d == [] {
      assert d + rest == rest;
    } else {
      assert (d + rest)[1..] == d[1..] + rest;
      DigitRunOf(d[1..], rest);
    }
  }

  /** The scanner reads back exactly what `str(n)` wrote. */
  lemma ScanIntOf(n: int, rest: string)
    requires rest == [] || !IsDigit(rest[0])
    ensures ScanInt(IntToStr(n) + rest) == Some((n, rest))
  {
    if n < 0 {
      var t := NatToStr(-n) + rest;
      NegativeText(n, rest);
      ScanNatOf(-n, rest);
      ScanNegative(IntToStr(n) + rest, t, -n, rest);
    } else {
      ScanNatOf(n, rest);
    }
  }

  lemma NegativeText(n: int, rest: string)
    requires n < 0
    ensures IntToStr(n) + rest == "-" + (NatToStr(-n) + rest)
  {
  }

  /** A minus sign in front negates what the scanner reads. */
  lemma ScanNegative(s: string, t: string, m: int, rest: string)
    requires s == "-" + t && t != [] && t[0] != '-' && ScanInt(t) == Some((m, rest))
    ensures ScanInt(s) == Some((-m, rest))
  {
    assert s[0] == '-' && s[1..] == t;
  }

  lemma ScanNatOf(m: nat, rest: string)
    requires rest == [] || !IsDigit(rest[0])
    ensures ScanInt(NatToStr(m) + rest) == Some((m, rest))
    ensures (NatToStr(m) + rest)[0] != '-'
  {
    var body := NatToStr(m) + rest;
    assert body[0] == NatToStr(m)[0];
    DigitRunOf(NatToStr(m), rest);
    assert body[..|NatToStr(m)|] == NatToStr(m) && body[|NatToStr(m)|..] == rest;
    NatToStrValue(m);
  }

  lemma ScanFieldOf(n: int, sep: char, rest: string)
    requires !IsDigit(sep)
    ensures ScanField(IntToStr(n) + ([sep] + rest), sep) == Some((n, rest))
  {
    ScanIntOf(n, [sep] + rest);
    assert ([sep] + rest)[1..] == rest;
  }

  /** For every area, including negative coordinates, the decoder recovers
      the four integers from the token. */
  lemma ParseToRegionStr(a: IgnoreArea)
    ensures ParseRegion(ToRegionStr(a)) == Some(a)
  {
    var t3 := IntToStr(a.y2);
    var t2 := IntToStr(a.x2) + (":" + t3);
    var t1 := IntToStr(a.y1) + ("-" + t2);
    Associate(IntToStr(a.x1), ":", IntToStr(a.y1), "-", IntToStr(a.x2), ":", t3);
    ScanFieldOf(a.x1, ':', t1);
    ScanFieldOf(a.y1, '-', t2);
    ScanFieldOf(a.x2, ':', t3);
    ScanIntOf(a.y2, "");
    AppendEmpty(t3);
    ParseRegionOf(ToRegionStr(a), a, t1, t2, t3);
  }

  /** The four scans of `ParseRegion`, one after the other. */
  lemma ParseRegionOf(s: string, a: IgnoreArea, r1: string, r2: string, r3: string)
    requires ScanField(s, ':') == Some((a.x1, r1))
    requires ScanField(r1, '-') == Some((a.y1, r2))
    requires ScanField(r2, ':') == Some((a.x2, r3))
    requires ScanInt(r3) == Some((a.y2, ""))
    ensures ParseRegion(s) == Some(a)
  {
  }

  lemma Associate(a: string, b: string, c: string, d: string, e: string, f: string, g: string)
    ensures a + b + c + d + e + f + g == a + (b + (c + (d + (e + (f + g)))))
  {
  }

  lemma NoCommaInToken(a: IgnoreArea)
    ensures ',' !in ToRegionStr(a)
  {
  }

  lemma {:induction false} ParseTokens(specs: seq<IgnoreSpec>)
    ensures ParseRegions(RegionTokens(specs)) == Some(Normalized(specs))
  {
    if specs != [] {
      var tokens := RegionTokens(specs);
      var head := Normalize(specs[0]);
      ParseToRegionStr(head);
      assert tokens[1..] == RegionTokens(specs[1..]);
      ParseTokens(specs[1..]);
    }
  }

  /** Reads the value after `--ignore=` back: the empty value is the empty
      list, any other value is split at its commas and every token decoded. */
  function ReadIgnoreValue(v: string): Option<seq<IgnoreArea>> {
    if v == "" then Some([]) else ParseRegions(Split(v, ','))
  }

  /** Splitting the `--ignore=` value of a non-empty list at its commas and
      decoding each token gives back every area, in order. */
  lemma SplitIgnoreValue(specs: seq<IgnoreSpec>)
    requires |specs| > 0
    ensures ParseRegions(Split(IgnoreValue(specs), ',')) == Some(Normalized(specs))
  {
    var tokens := RegionTokens(specs);
    forall i | 0 <= i < |tokens| ensures ',' !in tokens[i] {
      NoCommaInToken(Normalize(specs[i]));
    }
    SplitJoin(tokens, ',');
    assert [','] == ",";
    ParseTokens(specs);
  }

  /** The `--ignore=` value of any list, the empty one included, reads back
      as its areas in order; only the empty list gives the empty value. */
  lemma IgnoreValueRoundTrip(specs: seq<IgnoreSpec>)
    ensures IgnoreValue(specs) == "" <==> specs == []
    ensures ReadIgnoreValue(IgnoreValue(specs)) == Some(Normalized(specs))
  {
    if specs != [] {
      var tokens := RegionTokens(specs);
      assert |tokens[0]| > 0;
      assert |IgnoreValue(specs)| >= |tokens[0]|;
      SplitIgnoreValue(specs);
    }
  }
}
