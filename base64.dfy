/**
 * The standard base64 encoding with mandatory padding (section 4 of
 * RFC 4648), as Go's `base64.StdEncoding` decodes it: the input is a
 * sequence of four-character quanta over the alphabet `A-Z a-z 0-9 + /`;
 * only the last quantum may end in `=` or `==`.  The decoder is not in
 * strict mode, so the bits of the last character that fall below a padded
 * quantum's output are ignored ("QR==" decodes like "QQ==").
 */
module Base64 {
  import opened Wrappers
  import opened Bytes

  /** The padding character `=`. */
  const Pad: byte := 61

  predicate IsUpper(c: byte) { 65 <= c <= 90 }
  predicate IsLower(c: byte) { 97 <= c <= 122 }

  /** A character of the standard alphabet (Table 1 of RFC 4648). */
  predicate IsAlphabet(c: byte)
  {
    IsUpper(c) || IsLower(c) || IsDigit(c) || c == 43 || c == 47
  }

  /** The six-bit value a character of the alphabet stands for. */
  function SextetOf(c: byte): (v: nat)
    requires IsAlphabet(c)
    ensures v < 64
  {
    if IsUpper(c) then c - 65
    else if IsLower(c) then c - 97 + 26
    else if IsDigit(c) then c - 48 + 52
    else if c == 43 then 62
    else 63
  }

  /** The character of the alphabet that stands for a six-bit value. */
  function CharOf(v: nat): (c: byte)
    requires v < 64
    ensures IsAlphabet(c) && SextetOf(c) == v
  {
    if v < 26 then v + 65
    else if v < 52 then v - 26 + 97
    else if v < 62 then v - 52 + 48
    else if v == 62 then 43
    else 47
  }

  /** The four characters for a group of three bytes. */
  function Group3(x: byte, y: byte, z: byte): (r: seq<byte>)
    ensures |r| == 4 && IsFull(r[0], r[1], r[2], r[3])
  {
    [CharOf(x / 4), CharOf(x % 4 * 16 + y / 16), CharOf(y % 16 * 4 + z / 64), CharOf(z % 64)]
  }

  /** The four characters for a last group of two bytes: three and `=`. */
  function Group2(x: byte, y: byte): (r: seq<byte>)
    ensures |r| == 4 && r[3] == Pad
  {
    [CharOf(x / 4), CharOf(x % 4 * 16 + y / 16), CharOf(y % 16 * 4), Pad]
  }

  /** The four characters for a last group of one byte: two and `==`. */
  function Group1(x: byte): (r: seq<byte>)
    ensures |r| == 4 && r[2] == Pad && r[3] == Pad
  {
    [CharOf(x / 4), CharOf(x % 4 * 16), Pad, Pad]
  }

  /** Encodes `d` and pads the last quantum with `=`. */
  function Encode(d: seq<byte>): (r: seq<byte>)
    ensures |r| == 4 * ((|d| + 2) / 3)
    ensures forall i :: 0 <= i < |r| ==> IsAlphabet(r[i]) || r[i] == Pad
    decreases |d|
  {
    if |d| == 0 then []
    else if |d| == 1 then Group1(d[0])
    else if |d| == 2 then Group2(d[0], d[1])
    else Group3(d[0], d[1], d[2]) + Encode(d[3..])
  }

  /** The first byte a quantum starting with sextets `a`, `b` yields. */
  function Byte0(a: nat, b: nat): byte
    requires a < 64 && b < 64
  {
    a * 4 + b / 16
  }

  function Byte1(b: nat, c: nat): byte
    requires b < 64 && c < 64
  {
    b % 16 * 16 + c / 4
  }

  function Byte2(c: nat, d: nat): byte
    requires c < 64 && d < 64
  {
    c % 4 * 64 + d
  }

  /** A quantum of four alphabet characters: three bytes. */
  predicate IsFull(a: byte, b: byte, c: byte, d: byte)
  {
    IsAlphabet(a) && IsAlphabet(b) && IsAlphabet(c) && IsAlphabet(d)
  }

  function DecodeFull(a: byte, b: byte, c: byte, d: byte): (r: seq<byte>)
    requires IsFull(a, b, c, d)
    ensures |r| == 3
  {
    var (va, vb, vc, vd) := (SextetOf(a), SextetOf(b), SextetOf(c), SextetOf(d));
    [Byte0(va, vb), Byte1(vb, vc), Byte2(vc, vd)]
  }

  /**
   * The last quantum: four alphabet characters, three and `=`, or two and
   * `==`; padding anywhere else is an error.
   */
  function DecodeLast(a: byte, b: byte, c: byte, d: byte): (r: Option<seq<byte>>)
  {
    if IsFull(a, b, c, d) then Some(DecodeFull(a, b, c, d))
    else if IsAlphabet(a) && IsAlphabet(b) && IsAlphabet(c) && d == Pad then
      Some([Byte0(SextetOf(a), SextetOf(b)), Byte1(SextetOf(b), SextetOf(c))])
    else if IsAlphabet(a) && IsAlphabet(b) && c == Pad && d == Pad then
      Some([Byte0(SextetOf(a), SextetOf(b))])
    else None
  }

  /** Decodes padded standard base64; `None` is Go's `CorruptInputError`. */
  function Decode(s: seq<byte>): (r: Option<seq<byte>>)
    decreases |s|
  {
    if |s| == 0 then Some([])
    else if |s| < 4 then None
    else if |s| == 4 then DecodeLast(s[0], s[1], s[2], s[3])
    else if !IsFull(s[0], s[1], s[2], s[3]) then None
    else
      match Decode(s[4..])
      case None => None
      case Some(rest) => Some(DecodeFull(s[0], s[1], s[2], s[3]) + rest)
  }

  /** Splitting a packed value `hi * m + lo` at `m` gives back its two parts. */
  lemma Unpack(hi: nat, lo: nat, m: nat)
    requires m == 4 || m == 16 || m == 64
    requires lo < m
    ensures (hi * m + lo) / m == hi && (hi * m + lo) % m == lo
  {
    if m == 4 {
    } else if m == 16 {
    } else {
    }
  }

  /** The first byte comes back from the first two sextets it was split into. */
  lemma Byte0Unpacks(x: byte, y: byte)
    ensures Byte0(x / 4, x % 4 * 16 + y / 16) == x
  {
    Unpack(x % 4, y / 16, 16);
  }

  /** The second byte comes back from the two middle sextets. */
  lemma Byte1Unpacks(x: byte, y: byte, z: byte)
    ensures Byte1(x % 4 * 16 + y / 16, y % 16 * 4 + z / 64) == y
  {
    Unpack(x % 4, y / 16, 16);
    Unpack(y % 16, z / 64, 4);
  }

  /** The third byte comes back from the last two sextets. */
  lemma Byte2Unpacks(y: byte, z: byte)
    ensures Byte2(y % 16 * 4 + z / 64, z % 64) == z
  {
    Unpack(y % 16, z / 64, 4);
  }

  /** The three bytes of a full group come back from its four characters. */
  lemma Group3RoundTrip(x: byte, y: byte, z: byte)
    ensures var e := Group3(x, y, z); DecodeFull(e[0], e[1], e[2], e[3]) == [x, y, z]
  {
    Byte0Unpacks(x, y);
    Byte1Unpacks(x, y, z);
    Byte2Unpacks(y, z);
  }

  lemma Group2RoundTrip(x: byte, y: byte)
    ensures var e := Group2(x, y); DecodeLast(e[0], e[1], e[2], e[3]) == Some([x, y])
  {
    Byte0Unpacks(x, y);
    Byte1Unpacks(x, y, 0);
    assert !IsAlphabet(Pad);
  }

  lemma Group1RoundTrip(x: byte)
    ensures var e := Group1(x); DecodeLast(e[0], e[1], e[2], e[3]) == Some([x])
  {
    Byte0Unpacks(x, 0);
    assert !IsAlphabet(Pad);
  }

  /** Decoding the padded encoding of any byte sequence gives it back. */
  lemma {:induction false} DecodeEncode(d: seq<byte>)
    ensures Decode(Encode(d)) == Some(d)
    decreases |d|
  {
    var e := Encode(d);
    if |d| == 0 {
    } else if |d| == 1 {
      Group1RoundTrip(d[0]);
      assert d == [d[0]];
    } else if |d| == 2 {
      Group2RoundTrip(d[0], d[1]);
      assert d == [d[0], d[1]];
    } else {
      Group3RoundTrip(d[0], d[1], d[2]);
      if |d| == 3 {
        assert e == Group3(d[0], d[1], d[2]) + [];
        assert d == [d[0], d[1], d[2]];
      } else {
        DecodeEncode(d[3..]);
        DecodeGroup3Prefix(d[0], d[1], d[2], Encode(d[3..]));
        assert d == [d[0], d[1], d[2]] + d[3..];
      }
    }
  }

  /** A full group in front of a decodable rest decodes to its three bytes in front of the rest's. */
  lemma DecodeGroup3Prefix(x: byte, y: byte, z: byte, rest: seq<byte>)
    requires |rest| > 0 && Decode(rest).Some?
    ensures Decode(Group3(x, y, z) + rest) == Some([x, y, z] + Decode(rest).value)
  {
    var g := Group3(x, y, z);
    Group3RoundTrip(x, y, z);
    var s := g + rest;
    assert s[..4] == g && s[4..] == rest;
  }

  /**
   * The decoder is lenient about the unused low bits of a padded quantum:
   * "QR==" and "QQ==" both decode to "A", while "QQ=" (short) and "Q===" (a
   * lone sextet) are rejected.
   */
  lemma LenientTrailingBits()
    ensures Decode(Ascii("QR==")) == Some(Ascii("A"))
    ensures Decode(Ascii("QQ==")) == Some(Ascii("A"))
    ensures Decode(Ascii("QQ=")) == None
    ensures Decode(Ascii("Q===")) == None
  {
    assert Ascii("QR==") == [81, 82, Pad, Pad];
    assert Ascii("QQ==") == [81, 81, Pad, Pad];
    assert Ascii("Q===") == [81, Pad, Pad, Pad];
    assert Ascii("A") == [65];
  }

  /** Input whose length is not a multiple of four is rejected. */
  lemma {:induction false} DecodeRejectsLength(s: seq<byte>)
    requires |s| % 4 != 0
    ensures Decode(s) == None
    decreases |s|
  {
    if |s| > 4 && IsFull(s[0], s[1], s[2], s[3]) {
      DecodeRejectsLength(s[4..]);
    }
  }

  /** Input holding a character that is neither in the alphabet nor `=` is rejected. */
  lemma {:induction false} DecodeRejectsForeign(s: seq<byte>, i: nat)
    requires i < |s| && !IsAlphabet(s[i]) && s[i] != Pad
    ensures Decode(s) == None
    decreases |s|
  {
    if |s| > 4 && IsFull(s[0], s[1], s[2], s[3]) {
      DecodeRejectsForeign(s[4..], i - 4);
    }
  }

  /** `=` is accepted only in the last two positions. */
  lemma {:induction false} DecodePadOnlyAtEnd(s: seq<byte>, i: nat)
    requires i < |s| && s[i] == Pad && Decode(s).Some?
    ensures i >= |s| - 2
    decreases |s|
  {
    if |s| > 4 {
      DecodePadOnlyAtEnd(s[4..], i - 4);
    }
  }

  /**
   * What a successful decode yields has the length its encoding would
   * have: every accepted input is as long as the canonical encoding of
   * its result.
   */
  lemma {:induction false} DecodeLength(s: seq<byte>)
    requires Decode(s).Some?
    ensures |s| == 4 * ((|Decode(s).value| + 2) / 3)
    decreases |s|
  {
    if |s| > 4 {
      DecodeLength(s[4..]);
      var m := |Decode(s[4..]).value|;
      assert |Decode(s).value| == m + 3;
      assert (m + 3 + 2) / 3 == (m + 2) / 3 + 1;
    }
  }
}
