/** Number tokens: the grammar `ExactJSONNumber` checks and the reader matches greedily
    (RFC 8259 section 6), and the decimal spelling of an integer. */
module JsonNumber {
  import opened Prelude
  import opened Utf8

  predicate IsDigit(c: CodePoint) {
    0x30 <= c <= 0x39
  }

  /** Number of digits at the head of s. */
  function Digits(s: Text): (n: nat)
    ensures n <= |s|
  {
    if s == [] || !IsDigit(s[0]) then 0 else 1 + Digits(s[1..])
  }

  function SignLength(s: Text): (n: nat)
    ensures n <= 1 && n <= |s|
  {
    if s != [] && s[0] == 0x2D then 1 else 0
  }

  /** `0` alone, or a digit run that does not begin with zero; 0 when neither is there. */
  function IntegerLength(s: Text): (n: nat)
    ensures n <= |s|
  {
    if s != [] && s[0] == 0x30 then 1 else Digits(s)
  }

  function FractionLength(s: Text): (n: nat)
    ensures n <= |s|
  {
    if s != [] && s[0] == 0x2E && Digits(s[1..]) > 0 then 1 + Digits(s[1..]) else 0
  }

  function ExponentLength(s: Text): (n: nat)
    ensures n <= |s|
  {
    if s != [] && (s[0] == 0x65 || s[0] == 0x45) then
      var k := if |s| > 1 && (s[1] == 0x2B || s[1] == 0x2D) then 2 else 1;
      if Digits(s[k..]) > 0 then k + Digits(s[k..]) else 0
    else 0
  }

  /** Fraction and exponent, both optional. */
  function TailLength(s: Text): (n: nat)
    ensures n <= |s|
  {
    var fraction := FractionLength(s);
    fraction + ExponentLength(s[fraction..])
  }

  function UnsignedLength(s: Text): (n: nat)
    ensures n <= |s|
  {
    var whole := IntegerLength(s);
    if whole == 0 then 0 else whole + TailLength(s[whole..])
  }

  /** Length of the number token at the head of s; 0 when there is none. */
  function NumberLength(s: Text): (n: nat)
    ensures n <= |s|
  {
    var sign := SignLength(s);
    var magnitude := UnsignedLength(s[sign..]);
    if magnitude == 0 then 0 else sign + magnitude
  }

  /** `_JSON_NUMBER_RE.fullmatch(lexeme)`. */
  predicate IsNumber(lexeme: Text) {
    lexeme != [] && NumberLength(lexeme) == |lexeme|
  }

  /** True when no number token can reach into s from its left. */
  predicate Delimits(s: Text) {
    s == [] || !(IsDigit(s[0]) || s[0] == 0x2E || s[0] == 0x65 || s[0] == 0x45)
  }

  predicate IsNumberCharacter(c: CodePoint) {
    IsDigit(c) || c == 0x2D || c == 0x2B || c == 0x2E || c == 0x65 || c == 0x45
  }

  lemma {:induction false} DigitsStop(s: Text, rest: Text)
    requires rest == [] || !IsDigit(rest[0]) || Digits(s) < |s|
    ensures Digits(s + rest) == Digits(s)
  {
    if s == [] {
      assert s + rest == rest;
    } else if IsDigit(s[0]) {
      assert (s + rest)[1..] == s[1..] + rest;
      DigitsStop(s[1..], rest);
    }
  }

  lemma {:induction false} DigitsAreDigits(s: Text, i: nat)
    requires i < Digits(s)
    ensures IsDigit(s[i])
  {
    if i > 0 { DigitsAreDigits(s[1..], i - 1); }
  }

  lemma ExponentStops(s: Text, rest: Text)
    requires Delimits(rest) && ExponentLength(s) == |s|
    ensures ExponentLength(s + rest) == |s|
  {
    if s == [] {
      assert s + rest == rest;
    } else {
      var k := if |s| > 1 && (s[1] == 0x2B || s[1] == 0x2D) then 2 else 1;
      assert (s + rest)[k..] == s[k..] + rest;
      DigitsStop(s[k..], rest);
    }
  }

  lemma TailStops(s: Text, rest: Text)
    requires Delimits(rest) && TailLength(s) == |s|
    ensures TailLength(s + rest) == |s|
  {
    var fraction := FractionLength(s);
    if s == [] {
      assert s + rest == rest;
    } else {
      assert (s + rest)[1..] == s[1..] + rest;
      DigitsStop(s[1..], rest);
      assert FractionLength(s + rest) == fraction;
    }
    assert (s + rest)[fraction..] == s[fraction..] + rest;
    ExponentStops(s[fraction..], rest);
  }

  lemma UnsignedStops(s: Text, rest: Text)
    requires Delimits(rest) && s != [] && UnsignedLength(s) == |s|
    ensures UnsignedLength(s + rest) == |s|
  {
    var whole := IntegerLength(s);
    DigitsStop(s, rest);
    assert (s + rest)[whole..] == s[whole..] + rest;
    TailStops(s[whole..], rest);
  }

  /** A complete token in front of a delimiter is matched whole and no further. */
  lemma TokenIsMaximal(lexeme: Text, rest: Text)
    requires IsNumber(lexeme) && Delimits(rest)
    ensures NumberLength(lexeme + rest) == |lexeme|
  {
    hide UnsignedLength, Delimits;
    var sign := SignLength(lexeme);
    assert (lexeme + rest)[sign..] == lexeme[sign..] + rest;
    UnsignedStops(lexeme[sign..], rest);
  }

  predicate NumberCharacters(s: Text) {
    forall i :: 0 <= i < |s| ==> IsNumberCharacter(s[i])
  }

  lemma DigitRunIsNumberCharacters(s: Text)
    ensures Digits(s[..Digits(s)]) == Digits(s)
    ensures NumberCharacters(s[..Digits(s)])
  {
    PrefixDigits(s, Digits(s));
    forall i | 0 <= i < Digits(s) ensures IsDigit(s[i]) { DigitsAreDigits(s, i); }
  }

  lemma ExponentToken(s: Text)
    ensures var n := ExponentLength(s); ExponentLength(s[..n]) == n && NumberCharacters(s[..n])
  {
    var n := ExponentLength(s);
    if n > 0 {
      var k := if |s| > 1 && (s[1] == 0x2B || s[1] == 0x2D) then 2 else 1;
      DigitRunIsNumberCharacters(s[k..]);
      assert s[..n] == s[..k] + s[k..][..n - k];
      assert s[..n][k..] == s[k..][..n - k];
    }
  }

  lemma FractionToken(s: Text, n: nat)
    requires FractionLength(s) <= n <= |s|
    ensures FractionLength(s[..n]) == FractionLength(s) && NumberCharacters(s[..FractionLength(s)])
  {
    var fraction := FractionLength(s);
    if fraction > 0 {
      DigitRunIsNumberCharacters(s[1..]);
      assert s[..fraction] == [s[0]] + s[1..][..fraction - 1];
      PrefixDigits(s[1..], n - 1);
      assert s[..n][1..] == s[1..][..n - 1];
    }
  }

  lemma TailToken(s: Text)
    ensures var n := TailLength(s); TailLength(s[..n]) == n && NumberCharacters(s[..n])
  {
    hide Digits, FractionLength, ExponentLength;
    var n := TailLength(s);
    var fraction := FractionLength(s);
    FractionToken(s, n);
    ExponentToken(s[fraction..]);
    assert s[..n][fraction..] == s[fraction..][..n - fraction];
    assert s[..n] == s[..fraction] + s[fraction..][..n - fraction];
  }

  lemma UnsignedToken(s: Text)
    ensures var n := UnsignedLength(s); UnsignedLength(s[..n]) == n && NumberCharacters(s[..n])
  {
    hide TailLength, IsNumberCharacter;
    var n := UnsignedLength(s);
    var whole := IntegerLength(s);
    if whole > 0 {
      WholeToken(s, n);
      TailToken(s[whole..]);
      assert s[..n][whole..] == s[whole..][..n - whole];
      assert s[..n] == s[..whole] + s[whole..][..n - whole];
    }
  }

  lemma WholeToken(s: Text, n: nat)
    requires 0 < IntegerLength(s) <= n <= |s|
    ensures IntegerLength(s[..n]) == IntegerLength(s) && NumberCharacters(s[..IntegerLength(s)])
  {
    DigitRunIsNumberCharacters(s);
    PrefixDigits(s, n);
  }

  lemma SignIsNumberCharacter()
    ensures IsNumberCharacter(0x2D)
  {
  }

  /** The matched token is itself a number, made of number characters. */
  lemma TokenIsNumber(s: Text)
    requires NumberLength(s) > 0
    ensures IsNumber(s[..NumberLength(s)]) && NumberCharacters(s[..NumberLength(s)])
  {
    hide UnsignedLength, IsNumberCharacter;
    var n := NumberLength(s);
    var sign := SignLength(s);
    var token, magnitude := s[..n], s[sign..][..n - sign];
    assert magnitude == token[sign..] by { assert token == s[..sign] + magnitude; }
    assert UnsignedLength(magnitude) == n - sign && NumberCharacters(magnitude) by { UnsignedToken(s[sign..]); }
    assert SignLength(token) == sign;
    assert NumberLength(token) == n;
    SignIsNumberCharacter();
    forall i | 0 <= i < n ensures IsNumberCharacter(token[i]) {
      if i >= sign { assert token[i] == magnitude[i - sign]; }
    }
  }

  lemma {:induction false} PrefixDigits(s: Text, n: nat)
    requires n <= |s|
    ensures Digits(s[..n]) == if Digits(s) <= n then Digits(s) else n
  {
    if s != [] && IsDigit(s[0]) && n > 0 {
      assert s[..n][1..] == s[1..][..n - 1];
      PrefixDigits(s[1..], n - 1);
    }
  }

  // Integers: what `str(i)` writes and `int(lexeme)` reads.

  function NatText(n: nat): (t: Text)
    ensures t != []
  {
    if n < 10 then [0x30 + n] else NatText(n / 10) + [0x30 + n % 10]
  }

  function IntText(i: int): Text {
    if i < 0 then [0x2D] + NatText(-i) else NatText(i)
  }

  function NatValue(t: Text): int {
    if t == [] then 0 else NatValue(t[..|t| - 1]) * 10 + (t[|t| - 1] as int - 0x30)
  }

  /** True when `json.loads` gives the token to `int` rather than to `float`. */
  predicate IsIntegerToken(lexeme: Text) {
    IsNumber(lexeme) && SignLength(lexeme) + IntegerLength(lexeme[SignLength(lexeme)..]) == |lexeme|
  }

  function IntValue(lexeme: Text): int {
    if SignLength(lexeme) == 1 then -NatValue(lexeme[1..]) else NatValue(lexeme)
  }

  lemma {:induction false} NatTextDigits(n: nat)
    ensures Digits(NatText(n)) == |NatText(n)|
    ensures NatText(n)[0] == 0x30 ==> n == 0
    ensures NatValue(NatText(n)) == n
  {
    if n >= 10 {
      NatTextDigits(n / 10);
      var t := NatText(n / 10);
      assert NatText(n) == t + [0x30 + n % 10];
      DigitsJoin(t, [0x30 + n % 10]);
      assert NatText(n)[..|t|] == t;
    }
  }

  lemma {:induction false} DigitsJoin(s: Text, t: Text)
    requires Digits(s) == |s|
    ensures Digits(s + t) == |s| + Digits(t)
  {
    if s == [] {
      assert s + t == t;
    } else {
      assert (s + t)[1..] == s[1..] + t;
      DigitsJoin(s[1..], t);
    }
  }

  /** `str(i)` is an integer token, and reading it gives i back. */
  lemma IntTextIsToken(i: int)
    ensures IsIntegerToken(IntText(i)) && IntValue(IntText(i)) == i
  {
    var t := IntText(i);
    if i < 0 {
      NatTextDigits(-i);
      assert t[1..] == NatText(-i);
    } else {
      NatTextDigits(i);
      assert IsDigit(t[0]);
      assert t[0..] == t;
    }
    var sign := SignLength(t);
    assert IntegerLength(t[sign..]) == |t| - sign;
    assert t[|t|..] == [];
  }
}
