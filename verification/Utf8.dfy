/** UTF-8 as RFC 3629 defines it, and as Python's strict codec applies it: text is a
    sequence of code points, of which the surrogates have no encoding. */
module Utf8 {
  import opened Prelude

  /** One element of a Python string: any code point, a lone surrogate included. */
  type CodePoint = c: int | 0 <= c < 0x110000

  type Text = seq<CodePoint>

  /** A string literal of the program, as code points. */
  function T(s: string): (t: Text)
    ensures |t| == |s| && forall i :: 0 <= i < |s| ==> t[i] == s[i] as int
  {
    seq(|s|, i requires 0 <= i < |s| => s[i] as int)
  }

  predicate IsScalar(c: CodePoint) {
    !(0xD800 <= c < 0xE000)
  }

  predicate ScalarText(t: Text) {
    forall i :: 0 <= i < |t| ==> IsScalar(t[i])
  }

  /** The low six bits of c, as a continuation byte. */
  function Continuation(c: nat): Byte {
    0x80 + c % 0x40
  }

  function EncodeOne(c: CodePoint): Bytes {
    var upper := c / 0x40;
    if c < 0x80 then [c]
    else if c < 0x800 then [0xC0 + upper, Continuation(c)]
    else if c < 0x10000 then [0xE0 + upper / 0x40, Continuation(upper), Continuation(c)]
    else [0xF0 + upper / 0x40 / 0x40, Continuation(upper / 0x40), Continuation(upper), Continuation(c)]
  }

  function Concat(t: Text): Bytes {
    if t == [] then [] else EncodeOne(t[0]) + Concat(t[1..])
  }

  /** `text.encode("utf-8", errors="strict")`: None stands for UnicodeEncodeError. */
  function Encode(t: Text): Option<Bytes> {
    if ScalarText(t) then Some(Concat(t)) else None
  }

  predicate IsContinuation(b: Bytes, i: nat) {
    i < |b| && 0x80 <= b[i] < 0xC0
  }

  /** The number whose leading bits are `upper` and whose low six bits continuation byte i holds. */
  function Extend(upper: int, b: Bytes, i: nat): int
    requires i < |b|
  {
    upper * 0x40 + (b[i] as int - 0x80)
  }

  /** The code point at the head of b and the number of bytes it takes. */
  function DecodeOne(b: Bytes): Option<(CodePoint, nat)>
  {
    if b == [] then None
    else
      var lead := b[0] as int;
      if lead < 0x80 then Some((lead, 1))
      else if 0xC2 <= lead < 0xE0 && IsContinuation(b, 1) then
        Some((Extend(lead - 0xC0, b, 1), 2))
      else if 0xE0 <= lead < 0xF0 && IsContinuation(b, 1) && IsContinuation(b, 2) then
        var c := Extend(Extend(lead - 0xE0, b, 1), b, 2);
        if c < 0x800 || !IsScalar(c) then None else Some((c, 3))
      else if 0xF0 <= lead < 0xF5 && IsContinuation(b, 1) && IsContinuation(b, 2) && IsContinuation(b, 3) then
        var c := Extend(Extend(Extend(lead - 0xF0, b, 1), b, 2), b, 3);
        if c < 0x10000 || c >= 0x110000 then None else Some((c, 4))
      else None
  }

  /** `data.decode("utf-8", errors="strict")`: None stands for UnicodeDecodeError. */
  function Decode(b: Bytes): Option<Text>
  {
    if b == [] then Some([])
    else
      match DecodeOne(b)
      case None => None
      case Some(head) =>
        if head.1 == 0 || head.1 > |b| then None
        else
          match Decode(b[head.1..])
          case None => None
          case Some(tail) => Some([head.0] + tail)
  }

  lemma DecodeOneOfEncodeOne(c: CodePoint, rest: Bytes)
    requires IsScalar(c)
    ensures DecodeOne(EncodeOne(c) + rest) == Some((c, |EncodeOne(c)|))
  {
    var b := EncodeOne(c) + rest;
    assert forall i :: 0 <= i < |EncodeOne(c)| ==> b[i] == EncodeOne(c)[i];
  }

  lemma ExtendIsDivided(upper: nat, b: Bytes, i: nat)
    requires IsContinuation(b, i)
    ensures Extend(upper, b, i) / 0x40 == upper
    ensures Continuation(Extend(upper, b, i)) == b[i]
  {
  }

  lemma EncodeOneOfDecodeOne(b: Bytes)
    requires DecodeOne(b).Some?
    ensures var (c, n) := DecodeOne(b).value; IsScalar(c) && 0 < n <= |b| && b[..n] == EncodeOne(c)
  {
    var (c, n) := DecodeOne(b).value;
    var lead := b[0] as int;
    if n == 2 {
      ExtendIsDivided(lead - 0xC0, b, 1);
    } else if n == 3 {
      var c1 := Extend(lead - 0xE0, b, 1);
      ExtendIsDivided(lead - 0xE0, b, 1);
      ExtendIsDivided(c1, b, 2);
    } else if n == 4 {
      var c1 := Extend(lead - 0xF0, b, 1);
      var c2 := Extend(c1, b, 2);
      ExtendIsDivided(lead - 0xF0, b, 1);
      ExtendIsDivided(c1, b, 2);
      ExtendIsDivided(c2, b, 3);
    }
  }

  lemma {:induction false} DecodeConcat(t: Text)
    requires ScalarText(t)
    ensures Decode(Concat(t)) == Some(t)
  {
    if t != [] {
      var n := |EncodeOne(t[0])|;
      DecodeOneOfEncodeOne(t[0], Concat(t[1..]));
      assert Concat(t) == EncodeOne(t[0]) + Concat(t[1..]);
      assert Concat(t)[n..] == Concat(t[1..]);
      DecodeConcat(t[1..]);
      assert [t[0]] + t[1..] == t;
    }
  }

  lemma {:induction false} ConcatDecode(b: Bytes)
    requires Decode(b).Some?
    ensures ScalarText(Decode(b).value) && Concat(Decode(b).value) == b
  {
    hide DecodeOne, EncodeOne;
    if b != [] {
      EncodeOneOfDecodeOne(b);
      var (c, n) := DecodeOne(b).value;
      ConcatDecode(b[n..]);
      var t := Decode(b).value;
      assert t[0] == c && t[1..] == Decode(b[n..]).value;
      assert b == b[..n] + b[n..];
    }
  }

  /** The strict codec is a bijection between scalar texts and the byte strings it decodes. */
  lemma CodecIsBijective(t: Text, b: Bytes)
    ensures Encode(t) == Some(b) <==> Decode(b) == Some(t)
  {
    if Encode(t) == Some(b) { DecodeConcat(t); }
    if Decode(b) == Some(t) { ConcatDecode(b); }
  }

  lemma {:induction false} ConcatDistributes(s: Text, t: Text)
    ensures Concat(s + t) == Concat(s) + Concat(t)
  {
    if s == [] {
      assert s + t == t;
    } else {
      assert (s + t)[1..] == s[1..] + t;
      ConcatDistributes(s[1..], t);
    }
  }
}
