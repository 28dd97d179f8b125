/** The few Python string operations the wrapper relies on, stated on `string`
    (a sequence of Unicode characters): `str(int)`, `int(str)` in base 10,
    `str.rstrip()`, `str.split(sep)`, `str.partition(sep)` and `sep.join(parts)`. */
module Text {
  import opened Results

  // ---------------------------------------------------------------------------
  // Character classes

  /** Unicode white space above U+007F, as Python classifies it. */
  predicate IsUnicodeSpace(c: char) {
    || c == '\U{85}' || c == '\U{A0}' || c == '\U{1680}'
    || ('\U{2000}' <= c <= '\U{200A}')
    || c == '\U{2028}' || c == '\U{2029}' || c == '\U{202F}' || c == '\U{205F}' || c == '\U{3000}'
  }

  /** The characters for which `str.isspace()` holds; `str.rstrip()` with no
      argument removes exactly these. */
  predicate IsSpace(c: char) {
    c == ' ' || ('\t' <= c <= '\r') || ('\U{1C}' <= c <= '\U{1F}') || IsUnicodeSpace(c)
  }

  /** The characters `int()` skips before and after the digits.  The ASCII
      separators U+001C..U+001F are white space for `isspace()` but not here. */
  predicate IsIntSpace(c: char) {
    c == ' ' || ('\t' <= c <= '\r') || IsUnicodeSpace(c)
  }

  predicate IsDigit(c: char) {
    '0' <= c <= '9'
  }

  predicate AllDigits(s: string) {
    forall i :: 0 <= i < |s| ==> IsDigit(s[i])
  }

  function DigitChar(d: nat): (c: char)
    requires d < 10
    ensures IsDigit(c)
  {
    ('0' as int + d) as char
  }

  function DigitValue(c: char): (d: nat)
    requires IsDigit(c)
    ensures d < 10 && DigitChar(d) == c
  {
    c as int - '0' as int
  }

  // ---------------------------------------------------------------------------
  // Prefixes

  predicate HasPrefix(s: string, p: string) {
    |p| <= |s| && s[..|p|] == p
  }

  /** Two strings that differ at position `k` cannot be prefix and string. */
  lemma DifferAt(s: string, p: string, k: nat)
    requires k < |s| && k < |p| && s[k] != p[k]
    ensures !HasPrefix(s, p)
  {
    if |p| <= |s| {
      assert s[..|p|][k] == s[k];
    }
  }

  lemma PrefixOfAppend(p: string, t: string)
    ensures HasPrefix(p + t, p)
  {
    assert (p + t)[..|p|] == p;
  }

  // ---------------------------------------------------------------------------
  // Stripping

  /** Removes the trailing characters that satisfy `ws`. */
  function TrimEnd(s: string, ws: char -> bool): (r: string)
    ensures |r| <= |s| && r == s[..|r|]
    ensures r == [] || !ws(r[|r| - 1])
    ensures forall i :: |r| <= i < |s| ==> ws(s[i])
  {
    if |s| > 0 && ws(s[|s| - 1]) then TrimEnd(s[..|s| - 1], ws) else s
  }

  /** Removes the leading characters that satisfy `ws`. */
  function TrimStart(s: string, ws: char -> bool): (r: string)
    ensures |r| <= |s| && r == s[|s| - |r|..]
    ensures r == [] || !ws(r[0])
    ensures forall i :: 0 <= i < |s| - |r| ==> ws(s[i])
  {
    if |s| > 0 && ws(s[0]) then
      var r := TrimStart(s[1..], ws);
      assert s[1..][|s| - 1 - |r|..] == s[|s| - |r|..];
      r
    else s
  }

  /** Python's `s.rstrip()`. */
  function RStrip(s: string): string {
    TrimEnd(s, IsSpace)
  }

  lemma {:induction false} TrimStartPadding(w: string, x: string, ws: char -> bool)
    requires forall i :: 0 <= i < |w| ==> ws(w[i])
    requires x == [] || !ws(x[0])
    ensures TrimStart(w + x, ws) == x
  {
    if w != [] {
      assert (w + x)[1..] == w[1..] + x;
      TrimStartPadding(w[1..], x, ws);
    } else {
      assert w + x == x;
    }
  }

  lemma {:induction false} TrimEndPadding(x: string, w: string, ws: char -> bool)
    requires forall i :: 0 <= i < |w| ==> ws(w[i])
    requires x == [] || !ws(x[|x| - 1])
    ensures TrimEnd(x + w, ws) == x
  {
    if w != [] {
      assert (x + w)[..|x + w| - 1] == x + w[..|w| - 1];
      TrimEndPadding(x, w[..|w| - 1], ws);
    } else {
      assert x + w == x;
    }
  }

  // ---------------------------------------------------------------------------
  // Decimal numbers

  /** Python's `str(n)` for a non-negative integer: decimal digits, no leading zero. */
  function NatToStr(n: nat): (r: string)
    ensures |r| > 0 && AllDigits(r)
    ensures |r| == 1 <==> n < 10
    ensures |r| > 1 ==> r[0] != '0'
  {
    if n < 10 then [DigitChar(n)] else NatToStr(n / 10) + [DigitChar(n % 10)]
  }

  /** Python's `str(n)`: a minus sign before the digits of a negative number. */
  function IntToStr(n: int): (r: string)
    ensures |r| > 0 && (IsDigit(r[0]) || r[0] == '-') && IsDigit(r[|r| - 1])
    ensures r[0] == '-' <==> n < 0
    ensures forall i :: 0 <= i < |r| ==> IsDigit(r[i]) || (i == 0 && r[i] == '-')
  {
    if n < 0 then "-" + NatToStr(-n) else NatToStr(n)
  }

  /** `[str(x) for x in xs]`. */
  function IntStrs(xs: seq<int>): (r: seq<string>)
    ensures |r| == |xs|
    ensures forall i :: 0 <= i < |xs| ==> r[i] == IntToStr(xs[i])
  {
    if xs == [] then [] else [IntToStr(xs[0])] + IntStrs(xs[1..])
  }

  lemma IntStrsTake(xs: seq<int>, k: nat)
    requires k <= |xs|
    ensures IntStrs(xs)[..k] == IntStrs(xs[..k])
  {
    var a, b := IntStrs(xs)[..k], IntStrs(xs[..k]);
    forall i | 0 <= i < k ensures a[i] == b[i] {
      assert xs[..k][i] == xs[i];
    }
  }

  predicate DigitsOrUnderscores(s: string) {
    forall i :: 0 <= i < |s| ==> IsDigit(s[i]) || s[i] == '_'
  }

  /** The digits of a decimal literal as `int()` accepts them: at least one
      digit, and every underscore sits between two digits. */
  predicate ValidDecimal(s: string) {
    && |s| > 0
    && DigitsOrUnderscores(s)
    && IsDigit(s[0]) && IsDigit(s[|s| - 1])
    && forall i :: 0 <= i < |s| - 1 ==> !(s[i] == '_' && s[i + 1] == '_')
  }

  /** The value of a run of digits, read left to right; underscores are skipped. */
  function DigitsValue(s: string): nat
    requires DigitsOrUnderscores(s)
  {
    if s == [] then 0
    else
      var v := DigitsValue(s[..|s| - 1]);
      if s[|s| - 1] == '_' then v else 10 * v + DigitValue(s[|s| - 1])
  }

  lemma {:induction false} NatToStrValue(n: nat)
    ensures DigitsValue(NatToStr(n)) == n
  {
    if n >= 10 {
      var r := NatToStr(n);
      assert r[..|r| - 1] == NatToStr(n / 10);
      NatToStrValue(n / 10);
    }
  }

  /** `s.strip()` with the white space `int()` skips. */
  function IntStrip(s: string): string {
    TrimEnd(TrimStart(s, IsIntSpace), IsIntSpace)
  }

  /** An optionally signed decimal literal with nothing around it. */
  function ParseSigned(t: string): Option<int> {
    if |t| > 0 && (t[0] == '+' || t[0] == '-') then
      var body := t[1..];
      if ValidDecimal(body) then
        var v: int := DigitsValue(body);
        Some(if t[0] == '-' then -v else v)
      else None
    else if ValidDecimal(t) then Some(DigitsValue(t))
    else None
  }

  /** Python's `int(s)` (base 10): optional white space around an optionally
      signed decimal literal; `None` where Python raises `ValueError`. */
  function ParseInt(s: string): Option<int> {
    ParseSigned(IntStrip(s))
  }

  lemma ParseSignedIntToStr(n: int)
    ensures ParseSigned(IntToStr(n)) == Some(n)
  {
    var x := IntToStr(n);
    if n < 0 {
      assert x[1..] == NatToStr(-n);
      NatToStrValue(-n);
    } else {
      NatToStrValue(n);
    }
  }

  /** Stripping removes exactly the padding around a text that neither
      starts nor ends with white space. */
  lemma IntStripPadded(w1: string, x: string, w2: string)
    requires forall i :: 0 <= i < |w1| ==> IsIntSpace(w1[i])
    requires forall i :: 0 <= i < |w2| ==> IsIntSpace(w2[i])
    requires x != [] && !IsIntSpace(x[0]) && !IsIntSpace(x[|x| - 1])
    ensures IntStrip(w1 + x + w2) == x
  {
    assert w1 + x + w2 == w1 + (x + w2);
    assert (x + w2)[0] == x[0];
    TrimStartPadding(w1, x + w2, IsIntSpace);
    TrimEndPadding(x, w2, IsIntSpace);
  }

  lemma IntToStrUnpadded(n: int)
    ensures var x := IntToStr(n); !IsIntSpace(x[0]) && !IsIntSpace(x[|x| - 1])
  {
  }

  /** `int(str(n)) == n`, also with white space around the digits. */
  lemma IntToStrParses(w1: string, n: int, w2: string)
    requires forall i :: 0 <= i < |w1| ==> IsIntSpace(w1[i])
    requires forall i :: 0 <= i < |w2| ==> IsIntSpace(w2[i])
    ensures ParseInt(w1 + IntToStr(n) + w2) == Some(n)
  {
    IntToStrUnpadded(n);
    IntStripPadded(w1, IntToStr(n), w2);
    ParseSignedIntToStr(n);
  }

  lemma EmptyConcat(a: string, b: string)
    ensures "" + a + b == a + b
  {
  }

  lemma PrependEmpty(a: string)
    ensures "" + a == a
  {
  }

  lemma AppendEmpty(a: string)
    ensures a + "" == a
  {
  }

  lemma IntToStrParsesExactly(n: int)
    ensures ParseInt(IntToStr(n)) == Some(n)
  {
    var x := IntToStr(n);
    IntToStrUnpadded(n);
    assert TrimStart(x, IsIntSpace) == x;
    assert TrimEnd(x, IsIntSpace) == x;
    ParseSignedIntToStr(n);
  }

  // ---------------------------------------------------------------------------
  // Case and replacement

  function ToUpper(c: char): char {
    if 'a' <= c <= 'z' then (c as int - 32) as char else c
  }

  function ToLower(c: char): char {
    if 'A' <= c <= 'Z' then (c as int + 32) as char else c
  }

  /** Python's `s.replace(from, to)` for single characters.  The contract is
      the character-by-character reading that the status-label lemmas build
      on; the labels themselves are proved there. */
  function ReplaceChar(s: string, from: char, to: char): (r: string)
    ensures |r| == |s|
    ensures forall i :: 0 <= i < |s| ==> r[i] == if s[i] == from then to else s[i]
    ensures from != to ==> from !in r
  {
    seq(|s|, i requires 0 <= i < |s| => if s[i] == from then to else s[i])
  }

  /** Python's `s.capitalize()` on ASCII text: first character upper case,
      the rest lower case.  The contract is the character-by-character reading
      that the status-label lemmas build on. */
  function Capitalize(s: string): (r: string)
    ensures |r| == |s|
    ensures |s| > 0 ==> r[0] == ToUpper(s[0])
    ensures forall i :: 1 <= i < |s| ==> r[i] == ToLower(s[i])
    ensures |r| > 0 ==> !('a' <= r[0] <= 'z')
    ensures forall i :: 1 <= i < |r| ==> !('A' <= r[i] <= 'Z')
  {
    seq(|s|, i requires 0 <= i < |s| => if i == 0 then ToUpper(s[i]) else ToLower(s[i]))
  }

  // ---------------------------------------------------------------------------
  // Joining, splitting, partitioning

  /** Python's `sep.join(parts)`. */
  function JoinWith(sep: string, parts: seq<string>): string {
    if |parts| == 0 then ""
    else if |parts| == 1 then parts[0]
    else parts[0] + sep + JoinWith(sep, parts[1..])
  }

  /** Python's `s.split(c)` for a one-character separator: the pieces between
      the separators, which join back to `s` and contain no separator. */
  function Split(s: string, c: char): (r: seq<string>)
    ensures |r| >= 1
    ensures JoinWith([c], r) == s
    ensures forall i :: 0 <= i < |r| ==> c !in r[i]
  {
    if |s| == 0 then [""]
    else
      var rest := Split(s[1..], c);
      if s[0] == c then
        assert ([""] + rest)[1..] == rest;
        [""] + rest
      else
        var r := [[s[0]] + rest[0]] + rest[1..];
        assert |rest| > 1 ==> r[1..] == rest[1..] && JoinWith([c], rest) == rest[0] + [c] + JoinWith([c], rest[1..]);
        assert s == [s[0]] + s[1..];
        r
  }

  lemma {:induction false} SplitNoSeparator(a: string, c: char)
    requires c !in a
    ensures Split(a, c) == [a]
  {
    if a != [] {
      SplitNoSeparator(a[1..], c);
      assert [a[0]] + a[1..] == a;
    }
  }

  lemma {:induction false} SplitAfterPiece(a: string, c: char, t: string)
    requires c !in a
    ensures Split(a + [c] + t, c) == [a] + Split(t, c)
  {
    var s := a + [c] + t;
    if a == [] {
      assert s[0] == c && s[1..] == t;
    } else {
      assert s[0] == a[0] && s[1..] == a[1..] + [c] + t;
      SplitAfterPiece(a[1..], c, t);
      assert [a[0]] + a[1..] == a;
    }
  }

  /** Splitting a join gives the parts back when no part holds the separator. */
  lemma {:induction false} SplitJoin(parts: seq<string>, c: char)
    requires |parts| >= 1
    requires forall i :: 0 <= i < |parts| ==> c !in parts[i]
    ensures Split(JoinWith([c], parts), c) == parts
  {
    if |parts| == 1 {
      SplitNoSeparator(parts[0], c);
    } else {
      SplitJoin(parts[1..], c);
      SplitAfterPiece(parts[0], c, JoinWith([c], parts[1..]));
      assert [parts[0]] + parts[1..] == parts;
    }
  }

  /** Python's `s.partition(c)`: the text before the first `c`, the separator
      itself (empty when `c` does not occur) and the text after it. */
  function Partition(s: string, c: char): (r: (string, string, string))
    ensures c !in r.0
    ensures c in s ==> r.1 == [c] && s == r.0 + [c] + r.2
    ensures c !in s ==> r == (s, "", "")
  {
    if |s| == 0 then ("", "", "")
    else if s[0] == c then
      assert s == [] + [c] + s[1..];
      ("", [c], s[1..])
    else
      var (head, sep, tail) := Partition(s[1..], c);
      assert s == [s[0]] + s[1..];
      ([s[0]] + head, sep, tail)
  }

  lemma {:induction false} PartitionAt(a: string, c: char, t: string)
    requires c !in a
    ensures Partition(a + [c] + t, c) == (a, [c], t)
  {
    var s := a + [c] + t;
    if a == [] {
      assert s[0] == c && s[1..] == t;
    } else {
      assert s[0] == a[0] && s[1..] == a[1..] + [c] + t;
      PartitionAt(a[1..], c, t);
      assert [a[0]] + a[1..] == a;
    }
  }
}
