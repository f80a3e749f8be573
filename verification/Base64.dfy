/** RFC 4648 base64 as the stream body uses it: the standard alphabet, the shape the gate accepts, a
    decoder that ignores pad bits, and the canonical texts on which decoding is exact. */
module Base64 {
  import opened Prelude
  import opened Utf8

  const PAD: CodePoint := 0x3D

  /** Section 4, table 1. */
  function Letter(n: nat): CodePoint
    requires n < 64
  {
    if n < 26 then 0x41 + n
    else if n < 52 then 0x61 + (n - 26)
    else if n < 62 then 0x30 + (n - 52)
    else if n == 62 then 0x2B
    else 0x2F
  }

  predicate IsLetter(c: CodePoint) {
    0x41 <= c <= 0x5A || 0x61 <= c <= 0x7A || 0x30 <= c <= 0x39 || c == 0x2B || c == 0x2F
  }

  function Sextet(c: CodePoint): (n: nat)
    requires IsLetter(c)
    ensures n < 64 && Letter(n) == c
  {
    if 0x41 <= c <= 0x5A then c - 0x41
    else if 0x61 <= c <= 0x7A then c - 0x61 + 26
    else if 0x30 <= c <= 0x39 then c - 0x30 + 52
    else if c == 0x2B then 62
    else 63
  }

  lemma SextetOfLetter(n: nat)
    requires n < 64
    ensures IsLetter(Letter(n)) && Sextet(Letter(n)) == n && Letter(n) != PAD
  {
  }

  /** `base64.b64encode`. */
  function Encode(data: Bytes): Text {
    if data == [] then []
    else
      var a := data[0] as nat;
      if |data| == 1 then [Letter(a / 4), Letter(a % 4 * 16), PAD, PAD]
      else
        var b := data[1] as nat;
        if |data| == 2 then [Letter(a / 4), Letter(a % 4 * 16 + b / 16), Letter(b % 16 * 4), PAD]
        else
          var c := data[2] as nat;
          [Letter(a / 4), Letter(a % 4 * 16 + b / 16), Letter(b % 16 * 4 + c / 64), Letter(c % 64)] + Encode(data[3..])
  }

  predicate OnePad(t: Text) {
    |t| == 4 && IsLetter(t[0]) && IsLetter(t[1]) && IsLetter(t[2]) && t[3] == PAD
  }

  predicate TwoPads(t: Text) {
    |t| == 4 && IsLetter(t[0]) && IsLetter(t[1]) && t[2] == PAD && t[3] == PAD
  }

  predicate FullGroup(t: Text) {
    |t| >= 4 && IsLetter(t[0]) && IsLetter(t[1]) && IsLetter(t[2]) && IsLetter(t[3])
  }

  /** The shape the regular expression of the gate accepts. */
  predicate Shaped(t: Text) {
    t == [] || OnePad(t) || TwoPads(t) || (FullGroup(t) && Shaped(t[4..]))
  }

  /** Number of trailing pad characters, as `len(t) - len(t.rstrip("="))`. */
  function Padding(t: Text): nat {
    if t != [] && t[|t| - 1] == PAD then 1 + Padding(t[..|t| - 1]) else 0
  }

  /** The size the gate computes before it decodes anything. */
  function AnnouncedSize(t: Text): int {
    |t| / 4 * 3 - Padding(t)
  }

  function FirstByte(t: Text): Byte
    requires |t| >= 2 && IsLetter(t[0]) && IsLetter(t[1])
  {
    Sextet(t[0]) * 4 + Sextet(t[1]) / 16
  }

  function SecondByte(t: Text): Byte
    requires |t| >= 3 && IsLetter(t[1]) && IsLetter(t[2])
  {
    Sextet(t[1]) % 16 * 16 + Sextet(t[2]) / 4
  }

  function ThirdByte(t: Text): Byte
    requires |t| >= 4 && IsLetter(t[2]) && IsLetter(t[3])
  {
    Sextet(t[2]) % 4 * 64 + Sextet(t[3])
  }

  /** `base64.b64decode` on a shaped text: pad bits are dropped unread. */
  function LooseDecode(t: Text): Bytes
    requires Shaped(t)
  {
    if t == [] then []
    else if TwoPads(t) then [FirstByte(t)]
    else if OnePad(t) then [FirstByte(t), SecondByte(t)]
    else [FirstByte(t), SecondByte(t), ThirdByte(t)] + LooseDecode(t[4..])
  }

  /** RFC 4648 section 3.5: the bits that no byte takes are zero. */
  predicate PadBitsZero(t: Text)
    requires Shaped(t)
  {
    if t == [] then true
    else if TwoPads(t) then Sextet(t[1]) % 16 == 0
    else if OnePad(t) then Sextet(t[2]) % 4 == 0
    else PadBitsZero(t[4..])
  }

  /** Splitting three bytes into four sextets and joining them again. */
  lemma SplitThenJoin(a: nat, b: nat, c: nat)
    requires a < 256 && b < 256 && c < 256
    ensures var (s0, s1, s2, s3) := (a / 4, a % 4 * 16 + b / 16, b % 16 * 4 + c / 64, c % 64);
            && s0 < 64 && s1 < 64 && s2 < 64 && s3 < 64
            && s0 * 4 + s1 / 16 == a && s1 % 16 * 16 + s2 / 4 == b && s2 % 4 * 64 + s3 == c
  {
  }

  lemma JoinThenSplit(s0: nat, s1: nat, s2: nat, s3: nat)
    requires s0 < 64 && s1 < 64 && s2 < 64 && s3 < 64
    ensures var (a, b, c) := (s0 * 4 + s1 / 16, s1 % 16 * 16 + s2 / 4, s2 % 4 * 64 + s3);
            && a / 4 == s0 && a % 4 * 16 + b / 16 == s1 && b % 16 * 4 + c / 64 == s2 && c % 64 == s3
            && a % 4 * 16 == s1 / 16 * 16 && b % 16 * 4 == s2 / 4 * 4
  {
  }

  lemma DecodeOfOneByte(a: Byte)
    ensures TwoPads(Encode([a])) && LooseDecode(Encode([a])) == [a]
  {
    hide Letter, IsLetter, Sextet;
    var x: nat := a as int;
    SplitThenJoin(x, 0, 0);
    SextetOfLetter(x / 4);
    SextetOfLetter(x % 4 * 16);
  }

  lemma DecodeOfTwoBytes(a: Byte, b: Byte)
    ensures OnePad(Encode([a, b])) && LooseDecode(Encode([a, b])) == [a, b]
  {
    hide Letter, IsLetter, Sextet;
    var x: nat, y: nat := a as int, b as int;
    SplitThenJoin(x, y, 0);
    SextetOfLetter(x / 4);
    SextetOfLetter(x % 4 * 16 + y / 16);
    SextetOfLetter(y % 16 * 4);
  }

  lemma DecodeOfFullGroup(a: Byte, b: Byte, c: Byte, rest: Bytes)
    requires Shaped(Encode(rest))
    ensures var t := Encode([a, b, c] + rest); Shaped(t) && LooseDecode(t) == [a, b, c] + LooseDecode(Encode(rest))
  {
    hide Letter, IsLetter, Sextet;
    PadIsNoLetter();
    var x: nat, y: nat, z: nat := a as int, b as int, c as int;
    SplitThenJoin(x, y, z);
    SextetOfLetter(x / 4);
    SextetOfLetter(x % 4 * 16 + y / 16);
    SextetOfLetter(y % 16 * 4 + z / 64);
    SextetOfLetter(z % 64);
    var data := [a, b, c] + rest;
    assert data[3..] == rest;
    var t := Encode(data);
    assert t[4..] == Encode(rest);
    assert FullGroup(t) && !OnePad(t) && !TwoPads(t);
    assert [FirstByte(t), SecondByte(t), ThirdByte(t)] == [a, b, c];
  }

  lemma PadIsNoLetter()
    ensures !IsLetter(PAD)
  {
  }

  lemma {:induction false} DecodeOfEncode(data: Bytes)
    ensures Shaped(Encode(data)) && LooseDecode(Encode(data)) == data
  {
    if |data| == 1 {
      DecodeOfOneByte(data[0]);
      assert data == [data[0]];
    } else if |data| == 2 {
      DecodeOfTwoBytes(data[0], data[1]);
      assert data == [data[0], data[1]];
    } else if data != [] {
      DecodeOfEncode(data[3..]);
      DecodeOfFullGroup(data[0], data[1], data[2], data[3..]);
      assert data == [data[0], data[1], data[2]] + data[3..];
    }
  }

  lemma EncodeOfLastGroup(t: Text)
    requires OnePad(t) || TwoPads(t)
    ensures Encode(LooseDecode(t)) == t <==> PadBitsZero(t)
  {
    hide Letter, IsLetter, Sextet;
    var s0, s1, s2 := Sextet(t[0]), Sextet(t[1]), if OnePad(t) then Sextet(t[2]) else 0;
    JoinThenSplit(s0, s1, s2, 0);
    var data := LooseDecode(t);
    if TwoPads(t) {
      SextetOfLetter(s1 / 16 * 16);
      assert Encode(data)[0] == t[0] && Encode(data)[1] == Letter(s1 / 16 * 16);
      assert s1 == s1 / 16 * 16 + s1 % 16;
    } else {
      SextetOfLetter(s2 / 4 * 4);
      assert Encode(data)[0] == t[0] && Encode(data)[1] == t[1] && Encode(data)[2] == Letter(s2 / 4 * 4);
      assert s2 == s2 / 4 * 4 + s2 % 4;
    }
  }

  lemma EncodeOfFullGroup(t: Text)
    requires FullGroup(t) && Shaped(t[4..])
    ensures Encode(LooseDecode(t)) == t[..4] + Encode(LooseDecode(t[4..]))
  {
    hide Letter, IsLetter, Sextet;
    PadIsNoLetter();
    JoinThenSplit(Sextet(t[0]), Sextet(t[1]), Sextet(t[2]), Sextet(t[3]));
    var data := LooseDecode(t);
    assert data[3..] == LooseDecode(t[4..]);
    assert Encode(data)[4..] == Encode(data[3..]);
    assert Encode(data)[..4] == t[..4];
  }

  lemma {:induction false} EncodeOfDecode(t: Text)
    requires Shaped(t)
    ensures Encode(LooseDecode(t)) == t <==> PadBitsZero(t)
  {
    if OnePad(t) || TwoPads(t) {
      EncodeOfLastGroup(t);
    } else if t != [] {
      EncodeOfFullGroup(t);
      EncodeOfDecode(t[4..]);
      assert t == t[..4] + t[4..];
      var again := t[..4] + Encode(LooseDecode(t[4..]));
      assert again[4..] == Encode(LooseDecode(t[4..]));
    }
  }

  lemma {:induction false} PaddingOfTail(t: Text, k: nat)
    requires k <= |t| && forall i :: 0 <= i < k ==> t[i] != PAD
    ensures Padding(t) == Padding(t[k..])
    decreases |t|
  {
    if |t| > k && t[|t| - 1] == PAD {
      PaddingOfTail(t[..|t| - 1], k);
      assert t[..|t| - 1][k..] == t[k..][..|t| - k - 1];
    }
  }

  /** The announced size is the decoded size, so the length check after decoding cannot fail. */
  lemma {:induction false} AnnouncedSizeIsExact(t: Text)
    requires Shaped(t)
    ensures |t| % 4 == 0 && AnnouncedSize(t) == |LooseDecode(t)|
  {
    if OnePad(t) {
      PaddingOfTail(t, 3);
      assert Padding([PAD]) == 1 by { assert [PAD][..0] == []; }
      assert t[3..] == [PAD];
    } else if TwoPads(t) {
      PaddingOfTail(t, 2);
      assert t[2..] == [PAD, PAD];
      assert [PAD, PAD][..1] == [PAD];
      assert Padding([PAD]) == 1 by { assert [PAD][..0] == []; }
      assert Padding([PAD, PAD]) == 2;
    } else if t != [] {
      PaddingOfTail(t, 4);
      AnnouncedSizeIsExact(t[4..]);
    }
  }
}
