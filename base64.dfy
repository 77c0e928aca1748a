/**
 * Base64 as `base64.b64encode` writes it (RFC 4648, section 4: the standard alphabet,
 * '=' padding, no line breaks), and the decoder the PowerShell loader applies to it
 * (`[System.Convert]::FromBase64String`), proved to undo it.
 */
module Base64 {
  import opened Wrappers
  import opened Utf8

  /** The character for a 6-bit value: A-Z, a-z, 0-9, '+', '/'. */
  function CharOf(k: nat): (c: char)
    requires k < 64
    ensures c != '=' && c != '\'' && c != '\n'
  {
    if k < 26 then ('A' as int + k) as char
    else if k < 52 then ('a' as int + k - 26) as char
    else if k < 62 then ('0' as int + k - 52) as char
    else if k == 62 then '+'
    else '/'
  }

  predicate IsBase64Char(c: char)
  {
    'A' <= c <= 'Z' || 'a' <= c <= 'z' || '0' <= c <= '9' || c == '+' || c == '/'
  }

  function IndexOf(c: char): (k: nat)
    requires IsBase64Char(c)
    ensures k < 64 && CharOf(k) == c
  {
    if 'A' <= c <= 'Z' then c as int - 'A' as int
    else if 'a' <= c <= 'z' then c as int - 'a' as int + 26
    else if '0' <= c <= '9' then c as int - '0' as int + 52
    else if c == '+' then 62
    else 63
  }

  lemma IndexOfCharOf(k: nat)
    requires k < 64
    ensures IsBase64Char(CharOf(k)) && IndexOf(CharOf(k)) == k
  {
  }

  /** What the encoder writes: alphabet characters, then at most two '=' at the very end. */
  predicate IsPadded(s: string)
  {
    |s| % 4 == 0
    && (forall i :: 0 <= i < |s| ==> IsBase64Char(s[i]) || s[i] == '=')
    && (forall i :: 0 <= i < |s| && s[i] == '=' ==> i >= |s| - 2 && (i == |s| - 2 ==> s[|s| - 1] == '='))
  }

  /** Three bytes as four characters. */
  function EncodeGroup(b0: byte, b1: byte, b2: byte): (s: string)
    ensures |s| == 4 && forall i :: 0 <= i < 4 ==> IsBase64Char(s[i])
  {
    IndexOfCharOf(b0 / 4);
    IndexOfCharOf((b0 % 4) * 16 + b1 / 16);
    IndexOfCharOf((b1 % 16) * 4 + b2 / 64);
    IndexOfCharOf(b2 % 64);
    [CharOf(b0 / 4), CharOf((b0 % 4) * 16 + b1 / 16), CharOf((b1 % 16) * 4 + b2 / 64), CharOf(b2 % 64)]
  }

  /** `base64.b64encode(bs)` */
  function Encode(bs: seq<byte>): (s: string)
    ensures |s| == 4 * ((|bs| + 2) / 3)
    decreases |bs|
  {
    if |bs| >= 3 then EncodeGroup(bs[0], bs[1], bs[2]) + Encode(bs[3..])
    else if |bs| == 2 then
      [CharOf(bs[0] / 4), CharOf((bs[0] % 4) * 16 + bs[1] / 16), CharOf((bs[1] % 16) * 4), '=']
    else if |bs| == 1 then
      [CharOf(bs[0] / 4), CharOf((bs[0] % 4) * 16), '=', '=']
    else []
  }

  /**
   * `FromBase64String(s)` on text without whitespace: the length must be a multiple
   * of four, padding may only close the last group, and the bits below the last
   * whole byte are dropped. None where .NET raises a FormatException.
   */
  function Decode(s: string): Option<seq<byte>>
    decreases |s|
  {
    if s == [] then Some([])
    else if |s| < 4 || !IsBase64Char(s[0]) || !IsBase64Char(s[1]) then None
    else
      var i0 := IndexOf(s[0]);
      var i1 := IndexOf(s[1]);
      if |s| == 4 && s[2] == '=' && s[3] == '=' then Some([i0 * 4 + i1 / 16])
      else if |s| == 4 && IsBase64Char(s[2]) && s[3] == '=' then
        var i2 := IndexOf(s[2]);
        Some([i0 * 4 + i1 / 16, (i1 % 16) * 16 + i2 / 4])
      else if IsBase64Char(s[2]) && IsBase64Char(s[3]) then
        var i2 := IndexOf(s[2]);
        var i3 := IndexOf(s[3]);
        match Decode(s[4..])
        case None => None
        case Some(rest) => Some([i0 * 4 + i1 / 16, (i1 % 16) * 16 + i2 / 4, (i2 % 4) * 64 + i3] + rest)
      else None
  }

  /** The bits of three bytes survive their split into four 6-bit values. */
  lemma GroupBits(b0: byte, b1: byte, b2: byte)
    ensures var c1 := (b0 % 4) * 16 + b1 / 16; var c2 := (b1 % 16) * 4 + b2 / 64;
      && (b0 / 4) * 4 + c1 / 16 == b0
      && (c1 % 16) * 16 + c2 / 4 == b1
      && (c2 % 4) * 64 + b2 % 64 == b2
  {
    var c1 := (b0 % 4) * 16 + b1 / 16;
    var c2 := (b1 % 16) * 4 + b2 / 64;
    assert c1 / 16 == b0 % 4 && c1 % 16 == b1 / 16;
    assert c2 / 4 == b1 % 16 && c2 % 4 == b2 / 64;
  }

  /** A full group decodes to its three bytes, followed by whatever the rest decodes to. */
  lemma DecodeGroup(b0: byte, b1: byte, b2: byte, t: string)
    ensures Decode(EncodeGroup(b0, b1, b2) + t) ==
      match Decode(t)
      case None => None
      case Some(rest) => Some([b0, b1, b2] + rest)
  {
    var g := EncodeGroup(b0, b1, b2);
    var s := g + t;
    GroupBits(b0, b1, b2);
    IndexOfCharOf(b0 / 4);
    IndexOfCharOf((b0 % 4) * 16 + b1 / 16);
    IndexOfCharOf((b1 % 16) * 4 + b2 / 64);
    IndexOfCharOf(b2 % 64);
    assert s[..4] == g && s[4..] == t;
    assert s[0] == g[0] && s[1] == g[1] && s[2] == g[2] && s[3] == g[3];
  }

  /** The final group of two bytes, with one '='. */
  lemma DecodeLastTwo(b0: byte, b1: byte)
    ensures Decode(Encode([b0, b1])) == Some([b0, b1])
  {
    var c1 := (b0 % 4) * 16 + b1 / 16;
    var c2 := (b1 % 16) * 4;
    IndexOfCharOf(b0 / 4);
    IndexOfCharOf(c1);
    IndexOfCharOf(c2);
    var s := Encode([b0, b1]);
    assert s == [CharOf(b0 / 4), CharOf(c1), CharOf(c2), '='];
    assert c1 / 16 == b0 % 4 && c1 % 16 == b1 / 16 && c2 / 4 == b1 % 16;
    assert (b0 / 4) * 4 + c1 / 16 == b0;
    assert (c1 % 16) * 16 + c2 / 4 == b1;
  }

  /** The final group of one byte, with two '='. */
  lemma DecodeLastOne(b0: byte)
    ensures Decode(Encode([b0])) == Some([b0])
  {
    GroupBits(b0, 0, 0);
    IndexOfCharOf(b0 / 4);
    IndexOfCharOf((b0 % 4) * 16);
  }

  /** A leading group of three bytes decodes back, given that the rest does. */
  lemma DecodeEncodeGroup(bs: seq<byte>)
    requires |bs| >= 3 && Decode(Encode(bs[3..])) == Some(bs[3..])
    ensures Decode(Encode(bs)) == Some(bs)
  {
    var t := Encode(bs[3..]);
    var g := EncodeGroup(bs[0], bs[1], bs[2]);
    assert Encode(bs) == g + t;
    DecodeGroup(bs[0], bs[1], bs[2], t);
    assert Decode(g + t) == Some([bs[0], bs[1], bs[2]] + bs[3..]);
    SplitThree(bs);
  }

  /** A sequence of at least three elements is its first three followed by the rest. */
  lemma SplitThree<T>(xs: seq<T>)
    requires |xs| >= 3
    ensures [xs[0], xs[1], xs[2]] + xs[3..] == xs
  {
  }

  /** Decoding undoes encoding. */
  lemma {:induction false} DecodeEncode(bs: seq<byte>)
    ensures Decode(Encode(bs)) == Some(bs)
    decreases |bs|
  {
    if |bs| >= 3 {
      DecodeEncode(bs[3..]);
      DecodeEncodeGroup(bs);
    } else if |bs| == 2 {
      DecodeLastTwo(bs[0], bs[1]);
      assert bs == [bs[0], bs[1]];
    } else if |bs| == 1 {
      DecodeLastOne(bs[0]);
      assert bs == [bs[0]];
    }
  }

  /** The encoder's output is well-formed padded Base64: alphabet characters, with '=' only at the end. */
  lemma {:induction false} EncodeIsPadded(bs: seq<byte>)
    ensures IsPadded(Encode(bs))
    decreases |bs|
  {
    var s := Encode(bs);
    if |bs| >= 3 {
      EncodeIsPadded(bs[3..]);
      var t := Encode(bs[3..]);
      assert forall i :: 4 <= i < |s| ==> s[i] == t[i - 4];
    }
  }
}
