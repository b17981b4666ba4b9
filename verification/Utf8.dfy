/** UTF-8 as tty_keysym_to_utf8() writes it, against the decoding rules of section 3 of RFC 3629.
    Shifts and masks of disjoint bits are written as divisions, remainders and sums. */
module Utf8 {
  import opened Division

  const LAST := 0x10_ffff

  predicate Surrogate(c: int) { 0xd800 <= c <= 0xdfff }

  /** Bytes of a code point; nothing above the last one. */
  function Encode(c: nat): (s: seq<int>)
    ensures |s| <= 4 && (s == [] <==> c > LAST)
    ensures forall i :: 0 <= i < |s| ==> 0 <= s[i] < 0x100
  {
    if c <= 0x7f then [c]
    else if c <= 0x7ff then [0xc0 + c / 0x40, 0x80 + c % 0x40]
    else if c <= 0xffff then [0xe0 + c / 0x1000, 0x80 + c / 0x40 % 0x40, 0x80 + c % 0x40]
    else if c <= LAST then [0xf0 + c / 0x4_0000, 0x80 + c / 0x1000 % 0x40, 0x80 + c / 0x40 % 0x40, 0x80 + c % 0x40]
    else []
  }

  datatype Decoded = Bad | Char(code: nat, rest: seq<int>)

  predicate Tail(s: seq<int>, n: nat) {
    n < |s| && forall i :: 1 <= i <= n ==> 0x80 <= s[i] < 0xc0
  }

  /** The first character of a byte string: continuation bytes where they belong, no overlong
      form, no surrogate, nothing above the last code point. */
  function Decode(s: seq<int>): (d: Decoded)
    ensures d.Char? ==> |d.rest| < |s|
  {
    if s == [] then Bad
    else if 0 <= s[0] < 0x80 then Char(s[0], s[1..])
    else if 0xc0 <= s[0] < 0xe0 && Tail(s, 1) then
      Checked((s[0] - 0xc0) * 0x40 + (s[1] - 0x80), 0x80, s[2..])
    else if 0xe0 <= s[0] < 0xf0 && Tail(s, 2) then
      Checked((s[0] - 0xe0) * 0x1000 + (s[1] - 0x80) * 0x40 + (s[2] - 0x80), 0x800, s[3..])
    else if 0xf0 <= s[0] < 0xf8 && Tail(s, 3) then
      Checked((s[0] - 0xf0) * 0x4_0000 + (s[1] - 0x80) * 0x1000 + (s[2] - 0x80) * 0x40 + (s[3] - 0x80), 0x1_0000, s[4..])
    else Bad
  }

  function Checked(c: int, least: nat, rest: seq<int>): (d: Decoded)
    ensures d.Char? ==> d.rest == rest
  {
    if least <= c <= LAST && !Surrogate(c) then Char(c, rest) else Bad
  }

  /** Digits of a code point in base 64. */
  lemma Digits(c: nat)
    ensures c == c / 0x40 * 0x40 + c % 0x40
    ensures c / 0x40 == c / 0x1000 * 0x40 + c / 0x40 % 0x40
    ensures c / 0x1000 == c / 0x4_0000 * 0x40 + c / 0x1000 % 0x40
  {
  }

  predicate Scalar(c: nat) { c <= LAST && !Surrogate(c) }

  /** Every code point that the source encodes decodes back to itself, followed by whatever comes
      after, exactly when it is not a surrogate. */
  lemma DecodeEncode(c: nat, rest: seq<int>)
    requires c <= LAST
    ensures Scalar(c) <==> Decode(Encode(c) + rest) == Char(c, rest)
    ensures !Scalar(c) ==> Decode(Encode(c) + rest) == Bad
  {
    var s := Encode(c) + rest;
    assert s[|Encode(c)|..] == rest;
    if c <= 0x7f {
      assert s[0] == c;
    } else if c <= 0x7ff {
      DecodeTwo(c, s);
    } else if c <= 0xffff {
      DecodeThree(c, s);
    } else {
      DecodeFour(c, s);
    }
  }

  lemma DecodeTwo(c: nat, s: seq<int>)
    requires 0x80 <= c <= 0x7ff && |s| >= 2 && s[0] == 0xc0 + c / 0x40 && s[1] == 0x80 + c % 0x40
    ensures Decode(s) == Checked(c, 0x80, s[2..])
  {
    Digits(c);
    assert Tail(s, 1);
  }

  lemma DecodeThree(c: nat, s: seq<int>)
    requires 0x800 <= c <= 0xffff && |s| >= 3
    requires s[0] == 0xe0 + c / 0x1000 && s[1] == 0x80 + c / 0x40 % 0x40 && s[2] == 0x80 + c % 0x40
    ensures Decode(s) == Checked(c, 0x800, s[3..])
  {
    Digits(c);
    assert Tail(s, 2);
  }

  lemma DecodeFour(c: nat, s: seq<int>)
    requires 0x1_0000 <= c <= LAST && |s| >= 4 && s[0] == 0xf0 + c / 0x4_0000
    requires s[1] == 0x80 + c / 0x1000 % 0x40 && s[2] == 0x80 + c / 0x40 % 0x40 && s[3] == 0x80 + c % 0x40
    ensures Decode(s) == Checked(c, 0x1_0000, s[4..])
  {
    Digits(c);
    assert Tail(s, 3);
  }

  lemma EncodeTwo(x: int, y: int)
    requires 0 <= x && 0 <= y < 0x40 && 0x80 <= x * 0x40 + y <= 0x7ff
    ensures Encode(x * 0x40 + y) == [0xc0 + x, 0x80 + y]
  {
  }

  lemma EncodeThree(w: int, x: int, y: int)
    requires 0 <= w && 0 <= x < 0x40 && 0 <= y < 0x40 && 0x800 <= w * 0x1000 + x * 0x40 + y <= 0xffff
    ensures Encode(w * 0x1000 + x * 0x40 + y) == [0xe0 + w, 0x80 + x, 0x80 + y]
  {
    var c := w * 0x1000 + x * 0x40 + y;
    Unique(c, 0x40, w * 0x40 + x, y);
    Unique(c / 0x40, 0x40, w, x);
    Unique(c, 0x1000, w, x * 0x40 + y);
  }

  lemma EncodeFour(v: int, w: int, x: int, y: int)
    requires 0 <= v && 0 <= w < 0x40 && 0 <= x < 0x40 && 0 <= y < 0x40
    requires 0x1_0000 <= v * 0x4_0000 + w * 0x1000 + x * 0x40 + y <= LAST
    ensures Encode(v * 0x4_0000 + w * 0x1000 + x * 0x40 + y) == [0xf0 + v, 0x80 + w, 0x80 + x, 0x80 + y]
  {
    var c := v * 0x4_0000 + w * 0x1000 + x * 0x40 + y;
    Unique(c, 0x40, v * 0x1000 + w * 0x40 + x, y);
    Unique(c / 0x40, 0x40, v * 0x40 + w, x);
    Unique(c, 0x1000, v * 0x40 + w, x * 0x40 + y);
    Unique(c / 0x1000, 0x40, v, w);
    Unique(c, 0x4_0000, v, w * 0x1000 + x * 0x40 + y);
  }

  /** Whatever decodes is what the source would have written: the encoding is unique. */
  lemma EncodeDecode(s: seq<int>)
    requires Decode(s).Char?
    ensures Scalar(Decode(s).code) && s == Encode(Decode(s).code) + Decode(s).rest
  {
    if s[0] < 0x80 {
      assert s == [s[0]] + s[1..];
    } else if s[0] < 0xe0 {
      EncodeTwo(s[0] - 0xc0, s[1] - 0x80);
      assert s == [s[0], s[1]] + s[2..];
    } else if s[0] < 0xf0 {
      EncodeThree(s[0] - 0xe0, s[1] - 0x80, s[2] - 0x80);
      assert s == [s[0], s[1], s[2]] + s[3..];
    } else {
      EncodeFour(s[0] - 0xf0, s[1] - 0x80, s[2] - 0x80, s[3] - 0x80);
      assert s == [s[0], s[1], s[2], s[3]] + s[4..];
    }
  }

  // ----- streams -----

  function EncodeAll(cs: seq<nat>): seq<int> {
    if cs == [] then [] else Encode(cs[0]) + EncodeAll(cs[1..])
  }

  datatype Text = Malformed | Text(codes: seq<nat>)

  function DecodeAll(s: seq<int>): Text
    decreases |s|
  {
    if s == [] then Text([])
    else match Decode(s)
      case Bad => Malformed
      case Char(c, rest) =>
        match DecodeAll(rest)
        case Malformed => Malformed
        case Text(cs) => Text([c] + cs)
  }

  /** A stream of keys decodes to the keys, character boundaries included. */
  lemma {:induction false} StreamRoundTrip(cs: seq<nat>)
    requires forall i :: 0 <= i < |cs| ==> Scalar(cs[i])
    ensures DecodeAll(EncodeAll(cs)) == Text(cs)
    decreases |cs|
  {
    if cs != [] {
      StreamRoundTrip(cs[1..]);
      DecodeEncode(cs[0], EncodeAll(cs[1..]));
      assert cs == [cs[0]] + cs[1..];
    }
  }

  /** tty_keysym_to_utf8(): all bytes of a Unicode key, or nothing when they do not fit; nothing for
      a key of another kind. */
  method KeysymToUtf8(unicode: bool, c: nat, buffer: array<int>, size: nat) returns (n: nat)
    requires size <= buffer.Length
    modifies buffer
    ensures n == if unicode && |Encode(c)| <= size then |Encode(c)| else 0
    ensures buffer[..n] == Encode(c)[..n]
    ensures buffer[n..] == old(buffer[n..])
  {
    if !unicode {
      return 0;
    }
    if c <= 0x7f {
      if size < 1 {
        return 0;
      }
      buffer[0] := c;
      return 1;
    }
    if c <= 0x7ff {
      if size < 2 {
        return 0;
      }
      buffer[0], buffer[1] := 0xc0 + c / 0x40, 0x80 + c % 0x40;
      return 2;
    }
    if c <= 0xffff {
      if size < 3 {
        return 0;
      }
      buffer[0], buffer[1], buffer[2] := 0xe0 + c / 0x1000, 0x80 + c / 0x40 % 0x40, 0x80 + c % 0x40;
      return 3;
    }
    if c <= LAST {
      if size < 4 {
        return 0;
      }
      buffer[0], buffer[1] := 0xf0 + c / 0x4_0000, 0x80 + c / 0x1000 % 0x40;
      buffer[2], buffer[3] := 0x80 + c / 0x40 % 0x40, 0x80 + c % 0x40;
      return 4;
    }
    return 0;
  }
}
