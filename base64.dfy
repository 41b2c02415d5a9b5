/** The base 64 encoding of section 4 of RFC 4648, as `Buffer.toString("base64")`
    writes it and as `Buffer.from(text, "base64")` reads well-formed text:
    every 3 bytes become 4 characters of the alphabet, and a final group of 1
    or 2 bytes is padded with "=".

    The encoding is taken in two layers: bytes to 6-bit values ("sextets",
    with the value 64 standing for padding), and sextets to characters, one
    for one. */
module Base64 {

  import opened Common

  /** The sextet that stands for the pad character "=". */
  const Pad := 64

  predicate IsAlphabetChar(c: char)
  {
    ('A' <= c <= 'Z') || ('a' <= c <= 'z') || ('0' <= c <= '9') || c == '+' || c == '/'
  }

  /** The character for a sextet (Table 1 of RFC 4648), "=" for Pad. */
  function CharOf(v: int): (c: char)
    requires 0 <= v <= Pad
    ensures v < Pad <==> IsAlphabetChar(c)
  {
    if v < 26 then (65 + v) as char
    else if v < 52 then (97 + v - 26) as char
    else if v < 62 then (48 + v - 52) as char
    else if v == 62 then '+'
    else if v == 63 then '/'
    else '='
  }

  /** The sextet of an alphabet character or of "=". */
  function ValueOf(c: char): (v: int)
    requires IsAlphabetChar(c) || c == '='
    ensures 0 <= v <= Pad
    ensures v < Pad <==> IsAlphabetChar(c)
  {
    if 'A' <= c <= 'Z' then c as int - 65
    else if 'a' <= c <= 'z' then c as int - 97 + 26
    else if '0' <= c <= '9' then c as int - 48 + 52
    else if c == '+' then 62
    else if c == '/' then 63
    else Pad
  }

  lemma CharOfValueOf(c: char)
    requires IsAlphabetChar(c) || c == '='
    ensures CharOf(ValueOf(c)) == c
  {
  }

  lemma ValueOfCharOf(v: int)
    requires 0 <= v <= Pad
    ensures ValueOf(CharOf(v)) == v
  {
  }

  predicate IsSextet(v: int) { 0 <= v < Pad }

  /** Bytes to sextets, padded to a multiple of four. */
  function ToSextets(b: seq<byte>): (x: seq<int>)
    ensures forall i :: 0 <= i < |x| ==> 0 <= x[i] <= Pad
    ensures |x| == 4 * ((|b| + 2) / 3)
  {
    if |b| == 0 then []
    else if |b| == 1 then
      var x0 := b[0] as int;
      [x0 / 4, (x0 % 4) * 16, Pad, Pad]
    else if |b| == 2 then
      var x0, x1 := b[0] as int, b[1] as int;
      [x0 / 4, (x0 % 4) * 16 + x1 / 16, (x1 % 16) * 4, Pad]
    else
      var x0, x1, x2 := b[0] as int, b[1] as int, b[2] as int;
      [x0 / 4, (x0 % 4) * 16 + x1 / 16, (x1 % 16) * 4 + x2 / 64, x2 % 64] + ToSextets(b[3..])
  }

  /** Four sextets without padding as three bytes. */
  function GroupBytes(v0: int, v1: int, v2: int, v3: int): seq<byte>
    requires IsSextet(v0) && IsSextet(v1) && IsSextet(v2) && IsSextet(v3)
  {
    [(v0 * 4 + v1 / 16) as byte, ((v1 % 16) * 16 + v2 / 4) as byte, ((v2 % 4) * 64 + v3) as byte]
  }

  /** The last four sextets: a full group, or one or two bytes followed by
      padding. The bits that padding leaves over must be zero (section 3.5 of
      RFC 4648), so that only canonical text decodes. */
  function LastBytes(v0: int, v1: int, v2: int, v3: int): Option<seq<byte>>
  {
    if !IsSextet(v0) || !IsSextet(v1) then None
    else if v2 == Pad && v3 == Pad then
      if v1 % 16 == 0 then Some([(v0 * 4 + v1 / 16) as byte]) else None
    else if IsSextet(v2) && v3 == Pad then
      if v2 % 4 == 0 then Some([(v0 * 4 + v1 / 16) as byte, ((v1 % 16) * 16 + v2 / 4) as byte]) else None
    else if IsSextet(v2) && IsSextet(v3) then Some(GroupBytes(v0, v1, v2, v3))
    else None
  }

  /** Sextets back to bytes; None unless they are a well-formed, canonical
      padded sequence. */
  function FromSextets(x: seq<int>): (r: Option<seq<byte>>)
    ensures r.Some? ==> |x| % 4 == 0
  {
    if |x| == 0 then Some([])
    else if |x| < 4 then None
    else if |x| == 4 then LastBytes(x[0], x[1], x[2], x[3])
    else if IsSextet(x[0]) && IsSextet(x[1]) && IsSextet(x[2]) && IsSextet(x[3]) then
      match FromSextets(x[4..])
      case None => None
      case Some(rest) => Some(GroupBytes(x[0], x[1], x[2], x[3]) + rest)
    else None
  }

  /** `Buffer.toString("base64")`: four characters for every started group
      of three bytes, each an alphabet character or the pad "=". */
  function Encode(b: seq<byte>): (s: string)
    ensures |s| == |ToSextets(b)| == 4 * ((|b| + 2) / 3)
    ensures forall i :: 0 <= i < |s| ==> IsAlphabetChar(s[i]) || s[i] == '='
  {
    var x := ToSextets(b);
    seq(|x|, i requires 0 <= i < |x| => CharOf(x[i]))
  }

  /** Strict decoding: only text of whole four-character groups over the
      alphabet and "=" can decode. */
  function Decode(s: string): (r: Option<seq<byte>>)
    ensures r.Some? ==> |s| % 4 == 0 && forall i :: 0 <= i < |s| ==> IsAlphabetChar(s[i]) || s[i] == '='
  {
    if forall i :: 0 <= i < |s| ==> IsAlphabetChar(s[i]) || s[i] == '=' then
      FromSextets(seq(|s|, i requires 0 <= i < |s| => ValueOf(s[i])))
    else None
  }

  /** The 6-bit values of three bytes give the bytes back. */
  lemma BytesToSextetsArithmetic(x0: int, x1: int, x2: int)
    requires 0 <= x0 < 256 && 0 <= x1 < 256 && 0 <= x2 < 256
    ensures var v0, v1, v2, v3 := x0 / 4, (x0 % 4) * 16 + x1 / 16, (x1 % 16) * 4 + x2 / 64, x2 % 64;
      v0 * 4 + v1 / 16 == x0 && (v1 % 16) * 16 + v2 / 4 == x1 && (v2 % 4) * 64 + v3 == x2
  {
  }

  /** The bytes of four sextets give the sextets back. */
  lemma SextetsToBytesArithmetic(v0: int, v1: int, v2: int, v3: int)
    requires IsSextet(v0) && IsSextet(v1) && IsSextet(v2) && IsSextet(v3)
    ensures var x0, x1, x2 := v0 * 4 + v1 / 16, (v1 % 16) * 16 + v2 / 4, (v2 % 4) * 64 + v3;
      x0 / 4 == v0 && (x0 % 4) * 16 + x1 / 16 == v1 && (x1 % 16) * 4 + x2 / 64 == v2 && x2 % 64 == v3
  {
  }

  lemma FromSextetsOne(b0: byte)
    ensures FromSextets(ToSextets([b0])) == Some([b0])
  {
    var x0 := b0 as int;
    BytesToSextetsArithmetic(x0, 0, 0);
    var x := [x0 / 4, (x0 % 4) * 16, Pad, Pad];
    assert ToSextets([b0]) == x;
    assert FromSextets(x) == LastBytes(x[0], x[1], x[2], x[3]);
  }

  lemma FromSextetsTwo(b0: byte, b1: byte)
    ensures FromSextets(ToSextets([b0, b1])) == Some([b0, b1])
  {
    var x0, x1 := b0 as int, b1 as int;
    BytesToSextetsArithmetic(x0, x1, 0);
    var x := [x0 / 4, (x0 % 4) * 16 + x1 / 16, (x1 % 16) * 4, Pad];
    assert ToSextets([b0, b1]) == x;
    assert FromSextets(x) == LastBytes(x[0], x[1], x[2], x[3]);
  }

  lemma FromSextetsThree(b0: byte, b1: byte, b2: byte)
    ensures FromSextets(ToSextets([b0, b1, b2])) == Some([b0, b1, b2])
  {
    var x0, x1, x2 := b0 as int, b1 as int, b2 as int;
    BytesToSextetsArithmetic(x0, x1, x2);
    var x := [x0 / 4, (x0 % 4) * 16 + x1 / 16, (x1 % 16) * 4 + x2 / 64, x2 % 64];
    assert [b0, b1, b2][3..] == [];
    assert ToSextets([b0, b1, b2]) == x;
    assert FromSextets(x) == LastBytes(x[0], x[1], x[2], x[3]);
  }

  lemma FromSextetsGroup(g: seq<int>, x: seq<int>)
    requires |g| == 4 && IsSextet(g[0]) && IsSextet(g[1]) && IsSextet(g[2]) && IsSextet(g[3])
    requires |x| > 0 && FromSextets(x).Some?
    ensures FromSextets(g + x) == Some(GroupBytes(g[0], g[1], g[2], g[3]) + FromSextets(x).value)
  {
    assert (g + x)[4..] == x;
    assert (g + x)[0] == g[0] && (g + x)[1] == g[1] && (g + x)[2] == g[2] && (g + x)[3] == g[3];
  }

  /** The sextets of the first three bytes. */
  function HeadSextets(b0: byte, b1: byte, b2: byte): seq<int>
  {
    var x0, x1, x2 := b0 as int, b1 as int, b2 as int;
    [x0 / 4, (x0 % 4) * 16 + x1 / 16, (x1 % 16) * 4 + x2 / 64, x2 % 64]
  }

  lemma ToSextetsCons(b: seq<byte>)
    requires |b| > 3
    ensures ToSextets(b) == HeadSextets(b[0], b[1], b[2]) + ToSextets(b[3..])
  {
  }

  lemma HeadSextetsBytes(b0: byte, b1: byte, b2: byte)
    ensures var g := HeadSextets(b0, b1, b2);
      IsSextet(g[0]) && IsSextet(g[1]) && IsSextet(g[2]) && IsSextet(g[3])
      && GroupBytes(g[0], g[1], g[2], g[3]) == [b0, b1, b2]
  {
    BytesToSextetsArithmetic(b0 as int, b1 as int, b2 as int);
  }

  lemma SplitAfterThree(b: seq<byte>)
    requires |b| >= 3
    ensures [b[0], b[1], b[2]] + b[3..] == b
  {
    assert [b[0], b[1], b[2]] == b[..3];
    assert b[..3] + b[3..] == b;
  }

  lemma FromSextetsStep(b: seq<byte>)
    requires |b| > 3 && FromSextets(ToSextets(b[3..])) == Some(b[3..])
    ensures FromSextets(ToSextets(b)) == Some(b)
  {
    var g := HeadSextets(b[0], b[1], b[2]);
    var t := ToSextets(b[3..]);
    ToSextetsCons(b);
    HeadSextetsBytes(b[0], b[1], b[2]);
    FromSextetsGroup(g, t);
    calc {
      FromSextets(ToSextets(b));
      FromSextets(g + t);
      Some(GroupBytes(g[0], g[1], g[2], g[3]) + b[3..]);
      Some([b[0], b[1], b[2]] + b[3..]);
      { SplitAfterThree(b); }
      Some(b);
    }
  }

  lemma {:induction false} SextetsRoundTrip(b: seq<byte>)
    ensures FromSextets(ToSextets(b)) == Some(b)
  {
    if |b| == 0 {
    } else if |b| == 1 {
      FromSextetsOne(b[0]);
      assert [b[0]] == b;
    } else if |b| == 2 {
      FromSextetsTwo(b[0], b[1]);
      assert [b[0], b[1]] == b;
    } else if |b| == 3 {
      FromSextetsThree(b[0], b[1], b[2]);
      assert [b[0], b[1], b[2]] == b;
    } else {
      SextetsRoundTrip(b[3..]);
      FromSextetsStep(b);
    }
  }

  /** Decoding the encoding of any bytes gives them back. */
  lemma DecodeEncode(b: seq<byte>)
    ensures Decode(Encode(b)) == Some(b)
  {
    var x := ToSextets(b);
    var s := Encode(b);
    var y := seq(|s|, i requires 0 <= i < |s| => ValueOf(s[i]));
    forall i | 0 <= i < |s|
      ensures (IsAlphabetChar(s[i]) || s[i] == '=') && y[i] == x[i]
    {
      ValueOfCharOf(x[i]);
    }
    assert y == x;
    SextetsRoundTrip(b);
  }

  lemma ToSextetsLast(x: seq<int>)
    requires |x| == 4 && LastBytes(x[0], x[1], x[2], x[3]).Some?
    ensures ToSextets(LastBytes(x[0], x[1], x[2], x[3]).value) == x
  {
    var v0, v1, v2, v3 := x[0], x[1], x[2], x[3];
    if v2 == Pad && v3 == Pad {
      SextetsToBytesArithmetic(v0, v1, 0, 0);
    } else if IsSextet(v2) && v3 == Pad {
      SextetsToBytesArithmetic(v0, v1, v2, 0);
    } else {
      SextetsToBytesArithmetic(v0, v1, v2, v3);
      var q := GroupBytes(v0, v1, v2, v3);
      assert q[3..] == [];
    }
  }

  lemma ToSextetsGroup(q: seq<byte>, rest: seq<byte>)
    requires |q| == 3
    ensures ToSextets(q + rest) == ToSextets(q) + ToSextets(rest)
  {
    var b := q + rest;
    assert b[3..] == rest && b[0] == q[0] && b[1] == q[1] && b[2] == q[2];
    assert q[3..] == [];
  }

  lemma ToSextetsStep(x: seq<int>)
    requires |x| > 4 && FromSextets(x).Some? && FromSextets(x[4..]).Some?
    requires ToSextets(FromSextets(x[4..]).value) == x[4..]
    ensures ToSextets(FromSextets(x).value) == x
  {
    var q := GroupBytes(x[0], x[1], x[2], x[3]);
    var rest := FromSextets(x[4..]).value;
    assert FromSextets(x).value == q + rest;
    ToSextetsGroup(q, rest);
    ToSextetsLast(x[..4]);
    assert x == x[..4] + x[4..];
  }

  lemma {:induction false} SextetsCanonical(x: seq<int>)
    requires FromSextets(x).Some?
    ensures ToSextets(FromSextets(x).value) == x
  {
    if |x| == 0 {
    } else if |x| == 4 {
      ToSextetsLast(x);
    } else {
      SextetsCanonical(x[4..]);
      ToSextetsStep(x);
    }
  }

  /** Only the canonical encoding of some bytes decodes to them. */
  lemma EncodeDecode(s: string)
    requires Decode(s).Some?
    ensures Encode(Decode(s).value) == s
  {
    var y := seq(|s|, i requires 0 <= i < |s| => ValueOf(s[i]));
    SextetsCanonical(y);
    var e := Encode(Decode(s).value);
    forall i | 0 <= i < |s|
      ensures e[i] == s[i]
    {
      CharOfValueOf(s[i]);
    }
  }

  /** Decoding and encoding are inverse bijections between byte strings and
      well-formed base 64 text. */
  lemma DecodeIsInverseOfEncode(s: string, b: seq<byte>)
    ensures Decode(s) == Some(b) <==> Encode(b) == s
  {
    if Decode(s) == Some(b) {
      EncodeDecode(s);
    }
    if Encode(b) == s {
      DecodeEncode(b);
    }
  }

  /** Encoding one started group: its four characters, given its sextets. */
  lemma EncodeOfSextets(b: seq<byte>, x: seq<int>)
    requires ToSextets(b) == x && |x| == 4
    ensures Encode(b) == [CharOf(x[0]), CharOf(x[1]), CharOf(x[2]), CharOf(x[3])]
  {
  }

  /** The test vectors of section 10 of RFC 4648 up to "foo", which fix the
      alphabet, the bit order and the padding. */
  lemma StandardTestVectors()
    ensures Encode([]) == ""
    ensures Encode([102]) == "Zg=="
    ensures Encode([102, 111]) == "Zm8="
    ensures Encode([102, 111, 111]) == "Zm9v"
  {
    EncodeOfSextets([102], [25, 32, Pad, Pad]);
    EncodeOfSextets([102, 111], [25, 38, 60, Pad]);
    assert ToSextets([102, 111, 111]) == [25, 38, 61, 47] + ToSextets([]);
    EncodeOfSextets([102, 111, 111], [25, 38, 61, 47]);
  }

  /** The last vector of section 10 of RFC 4648: "foobar", two full groups. */
  lemma StandardTestVectorFoobar()
    ensures Encode([102, 111, 111, 98, 97, 114]) == "Zm9vYmFy"
  {
    var b: seq<byte> := [102, 111, 111, 98, 97, 114];
    assert b[3..][3..] == [];
    assert ToSextets(b[3..]) == [24, 38, 5, 50];
    assert ToSextets(b) == [25, 38, 61, 47, 24, 38, 5, 50];
  }
}
