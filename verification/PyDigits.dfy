/** What `str.isdigit` and `int` make of the digits of Unicode 14. */
module PyDigits {
  import opened Prelude
  import opened Utf8
  import opened JsonNumber

  /** The zero of a run of ten decimal digits. */
  predicate IsDecimalZero(c: CodePoint) {
    || c == 0x30 || c == 0x660 || c == 0x6F0 || c == 0x7C0 || c == 0x966 || c == 0x9E6 || c == 0xA66
    || c == 0xAE6 || c == 0xB66 || c == 0xBE6 || c == 0xC66 || c == 0xCE6 || c == 0xD66 || c == 0xDE6
    || c == 0xE50 || c == 0xED0 || c == 0xF20 || c == 0x1040 || c == 0x1090 || c == 0x17E0 || c == 0x1810
    || c == 0x1946 || c == 0x19D0 || c == 0x1A80 || c == 0x1A90 || c == 0x1B50 || c == 0x1BB0 || c == 0x1C40
    || c == 0x1C50 || c == 0xA620 || c == 0xA8D0 || c == 0xA900 || c == 0xA9D0 || c == 0xA9F0 || c == 0xAA50
    || c == 0xABF0 || c == 0xFF10 || c == 0x104A0 || c == 0x10D30 || c == 0x11066 || c == 0x110F0 || c == 0x11136
    || c == 0x111D0 || c == 0x112F0 || c == 0x11450 || c == 0x114D0 || c == 0x11650 || c == 0x116C0 || c == 0x11730
    || c == 0x118E0 || c == 0x11950 || c == 0x11C50 || c == 0x11D50 || c == 0x11DA0 || c == 0x16A60 || c == 0x16AC0
    || c == 0x16B50 || c == 0x1D7CE || c == 0x1D7D8 || c == 0x1D7E2 || c == 0x1D7EC || c == 0x1D7F6 || c == 0x1E140
    || c == 0x1E2F0 || c == 0x1E950 || c == 0x1FBF0
  }

  /** How far c stands behind its zero, searched from d on. */
  function DecimalFrom(c: CodePoint, d: nat): (value: Option<nat>)
    requires d <= 10
    decreases 10 - d
  {
    if d == 10 || d > c then None else if IsDecimalZero(c - d) then Some(d) else DecimalFrom(c, d + 1)
  }

  /** `unicodedata.decimal(c, None)`. */
  function Decimal(c: CodePoint): Option<nat> {
    DecimalFrom(c, 0)
  }

  /** Superscripts, subscripts, circled digits and their like: digits with no decimal value. */
  predicate IsOtherDigit(c: CodePoint) {
    || 0xB2 <= c <= 0xB3 || c == 0xB9 || 0x1369 <= c <= 0x1371 || c == 0x19DA || c == 0x2070
    || 0x2074 <= c <= 0x2079 || 0x2080 <= c <= 0x2089 || 0x2460 <= c <= 0x2468 || 0x2474 <= c <= 0x247C
    || 0x2488 <= c <= 0x2490 || c == 0x24EA || 0x24F5 <= c <= 0x24FD || c == 0x24FF || 0x2776 <= c <= 0x277E
    || 0x2780 <= c <= 0x2788 || 0x278A <= c <= 0x2792 || 0x10A40 <= c <= 0x10A43 || 0x10E60 <= c <= 0x10E68
    || 0x11052 <= c <= 0x1105A || 0x1F100 <= c <= 0x1F10A
  }

  /** `t.isdigit()`. */
  predicate AllDigits(t: Text) {
    t != [] && forall i :: 0 <= i < |t| ==> Decimal(t[i]).Some? || IsOtherDigit(t[i])
  }

  /** `int(t)` of digits; None stands for its ValueError. */
  function IntOf(t: Text): Option<nat> {
    if t == [] then Some(0)
    else
      match (IntOf(t[..|t| - 1]), Decimal(t[|t| - 1]))
      case (Some(n), Some(d)) => Some(10 * n + d)
      case _ => None
  }

  /** `int` takes exactly digits that all have a decimal value. */
  lemma {:induction false} IntOfExactly(t: Text)
    ensures IntOf(t).Some? <==> forall i :: 0 <= i < |t| ==> Decimal(t[i]).Some?
  {
    hide Decimal;
    if t != [] { IntOfExactly(t[..|t| - 1]); }
  }

  lemma {:induction false} DecimalBehind(c: CodePoint, d: nat)
    requires 0x30 <= c <= 0x39 && d <= c - 0x30
    ensures DecimalFrom(c, d) == Some(c - 0x30)
    decreases 10 - d
  {
    if d < c - 0x30 { DecimalBehind(c, d + 1); }
  }

  lemma DecimalIsAscii(d: nat)
    requires d < 10
    ensures Decimal(0x30 + d) == Some(d)
  {
    DecimalBehind(0x30 + d, 0);
  }

  /** `int` undoes `str` on ordinals. */
  lemma {:induction false} IntOfNatText(n: nat)
    ensures AllDigits(NatText(n)) && IntOf(NatText(n)) == Some(n)
  {
    hide Decimal, IsOtherDigit;
    DecimalIsAscii(n % 10);
    if n < 10 {
      assert IntOf([]) == Some(0);
      assert NatText(n) == [0x30 + n] && NatText(n)[..0] == [];
    } else {
      IntOfNatText(n / 10);
      assert NatText(n) == NatText(n / 10) + [0x30 + n % 10];
      assert NatText(n)[..|NatText(n)| - 1] == NatText(n / 10);
      assert n == 10 * (n / 10) + n % 10;
    }
  }

  const SUPERSCRIPT_TWO: CodePoint := 0xB2

  lemma {:induction false} NoDecimalBehind(d: nat)
    requires d <= 10
    ensures DecimalFrom(SUPERSCRIPT_TWO, d) == None
    decreases 10 - d
  {
    if d < 10 { NoDecimalBehind(d + 1); }
  }

  /** A superscript is a digit that `int` refuses. */
  lemma SuperscriptIsNoInt()
    ensures AllDigits([SUPERSCRIPT_TWO]) && IntOf([SUPERSCRIPT_TWO]) == None
  {
    NoDecimalBehind(0);
    hide Decimal, DecimalFrom;
    IntOfExactly([SUPERSCRIPT_TWO]);
    assert Decimal([SUPERSCRIPT_TWO][0]) == None by { DecimalStarts(SUPERSCRIPT_TWO); }
  }

  lemma DecimalStarts(c: CodePoint)
    ensures Decimal(c) == DecimalFrom(c, 0)
  {
    hide DecimalFrom;
  }
}
