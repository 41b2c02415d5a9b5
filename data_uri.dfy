/** The image text that the upload handlers accept and the fetch handlers
    return: base 64 text, optionally behind a `data:image/<type>;base64,`
    prefix, which `replace(/^data:image\/[a-z]+;base64,/, "")` removes once,
    and only at the very start. */
module DataUri {

  import opened Common
  import Base64

  const MediaPrefix: string := "data:image/"
  const Base64Marker: string := ";base64,"

  /** The prefix that the fetch handlers put in front of every image. */
  const JpegPrefix: string := "data:image/jpeg;base64,"

  predicate IsLower(c: char) { 'a' <= c <= 'z' }

  /** p is exactly a match of `data:image\/[a-z]+;base64,`. */
  predicate IsImageDataPrefix(p: string)
  {
    |p| > |MediaPrefix| + |Base64Marker|
    && p[..|MediaPrefix|] == MediaPrefix
    && p[|p| - |Base64Marker|..] == Base64Marker
    && forall i :: |MediaPrefix| <= i < |p| - |Base64Marker| ==> IsLower(p[i])
  }

  /** Length of the longest prefix of s made of lower-case letters. */
  function LowerRun(s: string): (n: nat)
    ensures n <= |s|
    ensures forall i :: 0 <= i < n ==> IsLower(s[i])
    ensures n < |s| ==> !IsLower(s[n])
  {
    if s != [] && IsLower(s[0]) then 1 + LowerRun(s[1..]) else 0
  }

  lemma {:induction false} LowerRunStopsAfter(w: string, rest: string)
    requires forall i :: 0 <= i < |w| ==> IsLower(w[i])
    requires rest == [] || !IsLower(rest[0])
    ensures LowerRun(w + rest) == |w|
  {
    if w == [] {
      assert w + rest == rest;
    } else {
      assert (w + rest)[1..] == w[1..] + rest;
      LowerRunStopsAfter(w[1..], rest);
    }
  }

  /** The length of the text the pattern matches at the start of s, if it
      matches there at all. */
  function PrefixLength(s: string): (r: Option<nat>)
    ensures r.Some? ==> r.value <= |s| && IsImageDataPrefix(s[..r.value])
  {
    var m := |MediaPrefix|;
    if |s| < m || s[..m] != MediaPrefix then None
    else
      var n := LowerRun(s[m..]);
      var k := m + n + |Base64Marker|;
      if n > 0 && k <= |s| && s[m + n..k] == Base64Marker then
        assert s[..k][..m] == MediaPrefix;
        assert s[..k][k - |Base64Marker|..] == Base64Marker;
        assert forall i :: m <= i < k - |Base64Marker| ==> s[..k][i] == s[m..][i - m];
        Some(k)
      else None
  }

  /** Whatever matched text starts s, it is the one that PrefixLength finds:
      the pattern has at most one match at the start of a string. */
  lemma PrefixLengthFindsMatch(p: string, rest: string)
    requires IsImageDataPrefix(p)
    ensures PrefixLength(p + rest) == Some(|p|)
  {
    var s := p + rest;
    var m := |MediaPrefix|;
    var w := p[m..|p| - |Base64Marker|];
    assert s[..m] == p[..m];
    assert s[m..] == w + (Base64Marker + rest) by {
      assert p[m..] == w + Base64Marker;
    }
    assert (Base64Marker + rest)[0] == ';';
    LowerRunStopsAfter(w, Base64Marker + rest);
    assert s[m + |w|..|p|] == p[|p| - |Base64Marker|..];
  }

  /** PrefixLength finds nothing exactly when no prefix of s matches. */
  lemma PrefixLengthNone(s: string)
    ensures PrefixLength(s).None? <==> forall k :: 0 <= k <= |s| ==> !IsImageDataPrefix(s[..k])
  {
    if PrefixLength(s).None? {
      forall k | 0 <= k <= |s|
        ensures !IsImageDataPrefix(s[..k])
      {
        if IsImageDataPrefix(s[..k]) {
          assert s == s[..k] + s[k..];
          PrefixLengthFindsMatch(s[..k], s[k..]);
        }
      }
    }
  }

  /** `input.replace(/^data:image\/[a-z]+;base64,/, "")`. */
  function StripImagePrefix(s: string): (r: string)
    ensures |r| <= |s| && r == s[|s| - |r|..]
  {
    match PrefixLength(s)
    case None => s
    case Some(k) => s[k..]
  }

  /** A matched prefix is removed, and only it: the rest is kept as it is,
      even when it starts with another prefix. */
  lemma StripRemovesMatchedPrefix(p: string, rest: string)
    requires IsImageDataPrefix(p)
    ensures StripImagePrefix(p + rest) == rest
  {
    PrefixLengthFindsMatch(p, rest);
    assert (p + rest)[|p|..] == rest;
  }

  /** Text that does not start with a match is left unchanged. */
  lemma StripKeepsUnprefixed(s: string)
    requires forall k :: 0 <= k <= |s| ==> !IsImageDataPrefix(s[..k])
    ensures StripImagePrefix(s) == s
  {
    PrefixLengthNone(s);
  }

  /** The bytes an upload stores: prefix removed, then base 64 decoded; None
      for text that is not well-formed base 64. */
  function ImageBytes(input: string): (r: Option<seq<byte>>)
    ensures r.Some? ==> Base64.Encode(r.value) == StripImagePrefix(input)
  {
    var r := Base64.Decode(StripImagePrefix(input));
    if r.Some? then Base64.EncodeDecode(StripImagePrefix(input)); r else r
  }

  /** The text that a fetch returns for stored bytes. */
  function ImageDataUri(b: seq<byte>): (s: string)
    ensures |s| >= |JpegPrefix| && IsImageDataPrefix(s[..|JpegPrefix|])
    ensures s[|JpegPrefix|..] == Base64.Encode(b)
  {
    var s := JpegPrefix + Base64.Encode(b);
    assert s[..|JpegPrefix|] == JpegPrefix;
    s
  }

  /** Uploading what a fetch returned stores the same bytes. */
  lemma ImageDataUriRoundTrip(b: seq<byte>)
    ensures ImageBytes(ImageDataUri(b)) == Some(b)
  {
    var s := ImageDataUri(b);
    assert s == s[..|JpegPrefix|] + s[|JpegPrefix|..];
    StripRemovesMatchedPrefix(s[..|JpegPrefix|], s[|JpegPrefix|..]);
    Base64.DecodeEncode(b);
  }

  /** Two fetched texts are equal exactly when the stored bytes are. */
  lemma ImageDataUriInjective(b1: seq<byte>, b2: seq<byte>)
    ensures ImageDataUri(b1) == ImageDataUri(b2) <==> b1 == b2
  {
    if ImageDataUri(b1) == ImageDataUri(b2) {
      ImageDataUriRoundTrip(b1);
      ImageDataUriRoundTrip(b2);
    }
  }

  /** Bare base 64 text decodes to b exactly when it is the encoding of b. */
  lemma ImageBytesOfBareText(s: string, b: seq<byte>)
    requires forall k :: 0 <= k <= |s| ==> !IsImageDataPrefix(s[..k])
    ensures ImageBytes(s) == Some(b) <==> Base64.Encode(b) == s
  {
    StripKeepsUnprefixed(s);
    Base64.DecodeIsInverseOfEncode(s, b);
  }
}
