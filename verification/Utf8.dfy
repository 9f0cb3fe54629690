/** The characters that the truncation of internal/op/error_log.go keeps whole, by their encoding. */
module Utf8 {
  import opened TextTruncate

  /** The characters: code points without the surrogates. */
  predicate Scalar(c: int) {
    0 <= c < 0xD800 || 0xE000 <= c < 0x11_0000
  }

  /** The encoding of a character, section 3 of RFC 3629. */
  function Encode(c: int): seq<int>
    requires Scalar(c)
  {
    if c < 0x80 then [c]
    else if c < 0x800 then [0xC0 + c / 0x40, 0x80 + c % 0x40]
    else if c < 0x1_0000 then [0xE0 + c / 0x1000, 0x80 + c / 0x40 % 0x40, 0x80 + c % 0x40]
    else [0xF0 + c / 0x4_0000, 0x80 + c / 0x1000 % 0x40, 0x80 + c / 0x40 % 0x40, 0x80 + c % 0x40]
  }

  /** The character at the front of a text. */
  function Decode(s: seq<int>, n: nat): int
    requires 0 < n <= 4 && n <= |s|
  {
    if n == 1 then s[0]
    else if n == 2 then (s[0] - 0xC0) * 0x40 + (s[1] - 0x80)
    else if n == 3 then ((s[0] - 0xE0) * 0x40 + (s[1] - 0x80)) * 0x40 + (s[2] - 0x80)
    else (((s[0] - 0xF0) * 0x40 + (s[1] - 0x80)) * 0x40 + (s[2] - 0x80)) * 0x40 + (s[3] - 0x80)
  }

  /** A text starts with a well-formed character exactly when it starts with the encoding of one, and the
      length is that of this encoding. */
  lemma RuneIff(s: Bytes)
    ensures RuneLength(s) > 0 ==> Scalar(Decode(s, RuneLength(s))) && Encode(Decode(s, RuneLength(s))) == s[..RuneLength(s)]
    ensures forall c :: Scalar(c) && Encode(c) <= s ==> RuneLength(s) == |Encode(c)|
  {
    hide Encode;
    if RuneLength(s) > 0 {
      RuneIsEncoded(s);
    }
    forall c | Scalar(c) && Encode(c) <= s ensures RuneLength(s) == |Encode(c)| {
      EncodedIsRune(s, c);
    }
  }

  lemma RuneIsEncoded(s: Bytes)
    requires RuneLength(s) > 0
    ensures Scalar(Decode(s, RuneLength(s))) && Encode(Decode(s, RuneLength(s))) == s[..RuneLength(s)]
  {
    hide Encode, Scalar;
    var n := RuneLength(s);
    assert n == 1 || n == 2 || n == 3 || n == 4;
    if n == 1 {
      One(s[0]);
      assert s[..1] == [s[0]];
    } else if n == 2 {
      Two(s[0], s[1]);
      assert s[..2] == [s[0], s[1]];
    } else if n == 3 {
      Three(s[0], s[1], s[2]);
      assert s[..3] == [s[0], s[1], s[2]];
    } else {
      Four(s[0], s[1], s[2], s[3]);
      assert s[..4] == [s[0], s[1], s[2], s[3]];
    }
  }

  lemma One(a: int)
    requires 0 <= a <= 0x7F
    ensures Scalar(a) && Encode(a) == [a]
  {
  }

  lemma Two(a: int, b: int)
    requires 0xC2 <= a <= 0xDF && 0x80 <= b <= 0xBF
    ensures var c := (a - 0xC0) * 0x40 + (b - 0x80);
            Scalar(c) && Encode(c) == [a, b]
  {
    Digits(a - 0xC0, b - 0x80);
  }

  lemma Three(a: int, b: int, d: int)
    requires 0xE0 <= a <= 0xEF && 0x80 <= b <= 0xBF && 0x80 <= d <= 0xBF && (a == 0xE0 ==> b >= 0xA0) && (a == 0xED ==> b <= 0x9F)
    ensures var c := ((a - 0xE0) * 0x40 + (b - 0x80)) * 0x40 + (d - 0x80);
            Scalar(c) && Encode(c) == [a, b, d]
  {
    var high := (a - 0xE0) * 0x40 + (b - 0x80);
    Digits(a - 0xE0, b - 0x80);
    Digits(high, d - 0x80);
    Twice(high * 0x40 + (d - 0x80));
  }

  lemma Four(a: int, b: int, d: int, e: int)
    requires 0xF0 <= a <= 0xF4 && 0x80 <= b <= 0xBF && 0x80 <= d <= 0xBF && 0x80 <= e <= 0xBF
    requires (a == 0xF0 ==> b >= 0x90) && (a == 0xF4 ==> b <= 0x8F)
    ensures var c := (((a - 0xF0) * 0x40 + (b - 0x80)) * 0x40 + (d - 0x80)) * 0x40 + (e - 0x80);
            Scalar(c) && Encode(c) == [a, b, d, e]
  {
    var high := (a - 0xF0) * 0x40 + (b - 0x80);
    var middle := high * 0x40 + (d - 0x80);
    Digits(a - 0xF0, b - 0x80);
    Digits(high, d - 0x80);
    Digits(middle, e - 0x80);
    Twice(middle * 0x40 + (e - 0x80));
  }

  /** The digits of a number in base 64. */
  lemma Digits(high: int, low: int)
    requires 0 <= low < 0x40 && high >= 0
    ensures (high * 0x40 + low) / 0x40 == high && (high * 0x40 + low) % 0x40 == low
  {
  }

  lemma Twice(c: int)
    requires c >= 0
    ensures c / 0x1000 == c / 0x40 / 0x40 && c / 0x4_0000 == c / 0x40 / 0x40 / 0x40
  {
  }

  lemma EncodedIsRune(s: Bytes, c: int)
    requires Scalar(c) && Encode(c) <= s
    ensures RuneLength(s) == |Encode(c)|
  {
    var e := Encode(c);
    assert forall i :: 0 <= i < |e| ==> s[i] == e[i];
    if c < 0x80 {
    } else if c < 0x800 {
    } else if c < 0x1_0000 {
      ThreeDigits(c, c / 0x1000, c / 0x40 % 0x40, c % 0x40);
    } else {
      FourDigits(c, c / 0x4_0000, c / 0x1000 % 0x40, c / 0x40 % 0x40, c % 0x40);
    }
  }

  lemma ThreeDigits(c: int, x: int, y: int, z: int)
    requires 0x800 <= c < 0x1_0000 && Scalar(c) && x == c / 0x1000 && y == c / 0x40 % 0x40 && z == c % 0x40
    ensures 0 <= x <= 15 && 0 <= y < 0x40 && 0 <= z < 0x40 && (x == 0 ==> y >= 0x20) && (x == 13 ==> y < 0x20)
  {
    Twice(c);
    assert c == (x * 0x40 + y) * 0x40 + z;
  }

  lemma FourDigits(c: int, x: int, y: int, z: int, w: int)
    requires 0x1_0000 <= c < 0x11_0000 && x == c / 0x4_0000 && y == c / 0x1000 % 0x40 && z == c / 0x40 % 0x40 && w == c % 0x40
    ensures 0 <= x <= 4 && 0 <= y < 0x40 && 0 <= z < 0x40 && 0 <= w < 0x40 && (x == 0 ==> y >= 0x10) && (x == 4 ==> y < 0x10)
  {
    Twice(c);
    assert c == ((x * 0x40 + y) * 0x40 + z) * 0x40 + w;
  }
}
