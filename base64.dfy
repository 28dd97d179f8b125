/** Standard base64 encoding with padding (section 4 of RFC 4648), as
    Python's `base64.b64encode` produces it, and a decoder that inverts it. */
module Base64 {
  import opened Results

  type byte = b: int | 0 <= b < 256

  /** The character that encodes a 6-bit value (Table 1 of RFC 4648). */
  function Sextet(v: nat): (c: char)
    requires v < 64
  {
    if v < 26 then ('A' as int + v) as char
    else if v < 52 then ('a' as int + (v - 26)) as char
    else if v < 62 then ('0' as int + (v - 52)) as char
    else if v == 62 then '+'
    else '/'
  }

  /** The 6-bit value a character of the alphabet stands for. */
  function SextetValue(c: char): (r: Option<nat>)
    ensures r.Some? ==> r.value < 64 && Sextet(r.value) == c
  {
    if 'A' <= c <= 'Z' then Some(c as int - 'A' as int)
    else if 'a' <= c <= 'z' then Some(c as int - 'a' as int + 26)
    else if '0' <= c <= '9' then Some(c as int - '0' as int + 52)
    else if c == '+' then Some(62)
    else if c == '/' then Some(63)
    else None
  }

  lemma SextetRoundTrip(v: nat)
    requires v < 64
    ensures SextetValue(Sextet(v)) == Some(v)
  {
  }

  /** A character of the encoded alphabet, or the pad character. */
  predicate IsBase64Char(c: char) {
    SextetValue(c).Some? || c == '='
  }

  lemma SextetIsBase64(v: nat)
    requires v < 64
    ensures IsBase64Char(Sextet(v))
  {
    SextetRoundTrip(v);
  }

  /** Three bytes become four characters, six bits each, high bits first. */
  function EncodeBlock(b0: byte, b1: byte, b2: byte): (r: string)
    ensures |r| == 4 && forall i :: 0 <= i < 4 ==> IsBase64Char(r[i])
  {
    SextetIsBase64(b0 / 4);
    SextetIsBase64((b0 % 4) * 16 + b1 / 16);
    SextetIsBase64((b1 % 16) * 4 + b2 / 64);
    SextetIsBase64(b2 % 64);
    [Sextet(b0 / 4), Sextet((b0 % 4) * 16 + b1 / 16), Sextet((b1 % 16) * 4 + b2 / 64), Sextet(b2 % 64)]
  }

  /** `base64.b64encode(d)`: one block per three bytes, a final block padded
      with `=` when one or two bytes remain. */
  function Encode(d: seq<byte>): (r: string)
    ensures |r| == 4 * ((|d| + 2) / 3)
    ensures forall i :: 0 <= i < |r| ==> IsBase64Char(r[i])
  {
    if |d| == 0 then ""
    else if |d| == 1 then
      SextetIsBase64(d[0] / 4);
      SextetIsBase64((d[0] % 4) * 16);
      [Sextet(d[0] / 4), Sextet((d[0] % 4) * 16), '=', '=']
    else if |d| == 2 then
      SextetIsBase64(d[0] / 4);
      SextetIsBase64((d[0] % 4) * 16 + d[1] / 16);
      SextetIsBase64((d[1] % 16) * 4);
      [Sextet(d[0] / 4), Sextet((d[0] % 4) * 16 + d[1] / 16), Sextet((d[1] % 16) * 4), '=']
    else
      var block, rest := EncodeBlock(d[0], d[1], d[2]), Encode(d[3..]);
      assert forall i :: 4 <= i < |block + rest| ==> (block + rest)[i] == rest[i - 4];
      EncodedLengthStep(|d|);
      block + rest
  }

  lemma EncodedLengthStep(n: nat)
    requires n >= 3
    ensures 4 * ((n + 2) / 3) == 4 + 4 * ((n - 3 + 2) / 3)
  {
  }

  /** Decodes one group of four characters; padding is accepted only in the
      last group. */
  function DecodeQuad(q: string, last: bool): Option<seq<byte>>
    requires |q| == 4
  {
    match (SextetValue(q[0]), SextetValue(q[1]))
    case (Some(c0), Some(c1)) =>
      var b0: byte := c0 * 4 + c1 / 16;
      if q[2] == '=' then
        if last && q[3] == '=' then Some([b0]) else None
      else if SextetValue(q[2]).None? then None
      else
        var c2 := SextetValue(q[2]).value;
        var b1: byte := (c1 % 16) * 16 + c2 / 4;
        if q[3] == '=' then
          if last then Some([b0, b1]) else None
        else if SextetValue(q[3]).None? then None
        else
          var b2: byte := (c2 % 4) * 64 + SextetValue(q[3]).value;
          Some([b0, b1, b2])
    case _ => None
  }

  /** Inverse of `Encode`: `None` for text that is not padded base64. */
  function Decode(s: string): Option<seq<byte>>
    decreases |s|
  {
    if |s| == 0 then Some([])
    else if |s| < 4 then None
    else
      match DecodeQuad(s[..4], |s| == 4)
      case None => None
      case Some(head) =>
        match Decode(s[4..])
        case None => None
        case Some(tail) => Some(head + tail)
  }

  lemma BlockRoundTrip(b0: byte, b1: byte, b2: byte, last: bool)
    ensures DecodeQuad(EncodeBlock(b0, b1, b2), last) == Some([b0, b1, b2])
  {
    var c0, c1, c2, c3 := b0 / 4, (b0 % 4) * 16 + b1 / 16, (b1 % 16) * 4 + b2 / 64, b2 % 64;
    SextetRoundTrip(c0);
    SextetRoundTrip(c1);
    SextetRoundTrip(c2);
    SextetRoundTrip(c3);
    assert c1 / 16 == b0 % 4 && c1 % 16 == b1 / 16;
    assert c2 / 4 == b1 % 16 && c2 % 4 == b2 / 64;
  }

  lemma OneByteRoundTrip(b0: byte)
    ensures Decode(Encode([b0])) == Some([b0])
  {
    var s := Encode([b0]);
    SextetRoundTrip(b0 / 4);
    SextetRoundTrip((b0 % 4) * 16);
    assert s[..4] == s && s[4..] == [];
    assert DecodeQuad(s, true) == Some([b0]);
    assert Decode(s[4..]) == Some([]);
    assert [b0] + [] == [b0];
  }

  lemma TwoBytesRoundTrip(b0: byte, b1: byte)
    ensures Decode(Encode([b0, b1])) == Some([b0, b1])
  {
    var s := Encode([b0, b1]);
    var c1 := (b0 % 4) * 16 + b1 / 16;
    SextetRoundTrip(b0 / 4);
    SextetRoundTrip(c1);
    SextetRoundTrip((b1 % 16) * 4);
    assert c1 / 16 == b0 % 4 && c1 % 16 == b1 / 16;
    assert s[..4] == s && s[4..] == [];
    assert DecodeQuad(s, true) == Some([b0, b1]);
    assert Decode(s[4..]) == Some([]);
    assert [b0, b1] + [] == [b0, b1];
  }

  /** Decoding the encoding of any byte string gives it back. */
  lemma {:induction false} DecodeEncode(d: seq<byte>)
    ensures Decode(Encode(d)) == Some(d)
  {
    if |d| == 1 {
      assert d == [d[0]];
      OneByteRoundTrip(d[0]);
    } else if |d| == 2 {
      assert d == [d[0], d[1]];
      TwoBytesRoundTrip(d[0], d[1]);
    } else if |d| >= 3 {
      DecodeEncode(d[3..]);
      BlockStep(d);
    }
  }

  /** One block of three bytes decodes in front of the rest. */
  lemma BlockStep(d: seq<byte>)
    requires |d| >= 3 && Decode(Encode(d[3..])) == Some(d[3..])
    ensures Decode(Encode(d)) == Some(d)
  {
    var s := Encode(d);
    var block := EncodeBlock(d[0], d[1], d[2]);
    assert s == block + Encode(d[3..]);
    assert s[..4] == block && s[4..] == Encode(d[3..]);
    BlockRoundTrip(d[0], d[1], d[2], |s| == 4);
    DecodeFront(s, [d[0], d[1], d[2]], d[3..]);
    FirstThree(d);
  }

  lemma FirstThree(d: seq<byte>)
    requires |d| >= 3
    ensures [d[0], d[1], d[2]] + d[3..] == d
  {
  }

  lemma DecodeFront(s: string, head: seq<byte>, tail: seq<byte>)
    requires |s| >= 4 && DecodeQuad(s[..4], |s| == 4) == Some(head) && Decode(s[4..]) == Some(tail)
    ensures Decode(s) == Some(head + tail)
  {
  }
}
