// Characters, UTF-8 and number texts. A char stands for one octet of a JSON text.
module JsonText {
  import opened Common

  // Outcome of reading a prefix of a text: what was read and what is left. A failure leaves what has not been
  // read; held tells that the octet before it has been read and not been given back.
  datatype Parsed<T> = Fail(rest: string, held: bool) | Done(value: T, rest: string)

  function Prepend(front: string, p: Parsed<string>): Parsed<string>
  {
    if p.Fail? then p else Done(front + p.value, p.rest)
  }

  // The value and the rest when ok, and a failure otherwise.
  predicate Gives<T(==)>(p: Parsed<T>, ok: bool, value: T, rest: string)
  {
    if ok then p == Done(value, rest) else p.Fail?
  }

  const BACKSPACE: char := 8 as char
  const FORMFEED: char := 12 as char
  const DELETE: char := 127 as char

  predicate IsSpace(c: char) { c == ' ' || c == '\t' || c == '\n' || c == '\r' }

  function SkipSpace(t: string): (r: string)
    ensures |r| <= |t|
    ensures |r| > 0 ==> !IsSpace(r[0])
    decreases |t|
  {
    if |t| > 0 && IsSpace(t[0]) then SkipSpace(t[1..]) else t
  }

  function Newlines(t: string): nat
  {
    if |t| == 0 then 0 else Newlines(t[..|t| - 1]) + (if t[|t| - 1] == '\n' then 1 else 0)
  }

  // ---------------------------------------------------------------- UTF-8, RFC 3629

  // The encoder of picojson's _parse_codepoint, branch by branch.
  function EncodeUtf8(u: nat): string
    requires u < 0x110000
  {
    if u < 0x80 then [u as char]
    else if u < 0x800 then [(0xC0 + u / 0x40) as char, (0x80 + u % 0x40) as char]
    else if u < 0x10000 then
      [(0xE0 + u / 0x1000) as char, (0x80 + u / 0x40 % 0x40) as char, (0x80 + u % 0x40) as char]
    else
      [(0xF0 + u / 0x40000) as char, (0x80 + u / 0x1000 % 0x40) as char,
       (0x80 + u / 0x40 % 0x40) as char, (0x80 + u % 0x40) as char]
  }

  predicate Within(t: string, i: nat, low: nat, high: nat)
  {
    i < |t| && low <= t[i] as int <= high
  }

  // Section 4: the length of the character a text starts with, or 0 when there is none.
  function CharacterLength(t: string): (n: nat)
    ensures n <= |t| && n <= 4
  {
    if Within(t, 0, 0x00, 0x7F) then 1
    else if Within(t, 0, 0xC2, 0xDF) && Within(t, 1, 0x80, 0xBF) then 2
    else if Within(t, 0, 0xE0, 0xE0) && Within(t, 1, 0xA0, 0xBF) && Within(t, 2, 0x80, 0xBF) then 3
    else if Within(t, 0, 0xE1, 0xEC) && Within(t, 1, 0x80, 0xBF) && Within(t, 2, 0x80, 0xBF) then 3
    else if Within(t, 0, 0xED, 0xED) && Within(t, 1, 0x80, 0x9F) && Within(t, 2, 0x80, 0xBF) then 3
    else if Within(t, 0, 0xEE, 0xEF) && Within(t, 1, 0x80, 0xBF) && Within(t, 2, 0x80, 0xBF) then 3
    else if Within(t, 0, 0xF0, 0xF0) && Within(t, 1, 0x90, 0xBF) && Within(t, 2, 0x80, 0xBF)
      && Within(t, 3, 0x80, 0xBF) then 4
    else if Within(t, 0, 0xF1, 0xF3) && Within(t, 1, 0x80, 0xBF) && Within(t, 2, 0x80, 0xBF)
      && Within(t, 3, 0x80, 0xBF) then 4
    else if Within(t, 0, 0xF4, 0xF4) && Within(t, 1, 0x80, 0x8F) && Within(t, 2, 0x80, 0xBF)
      && Within(t, 3, 0x80, 0xBF) then 4
    else 0
  }

  predicate ValidUtf8(t: string)
    decreases |t|
  {
    |t| == 0 || (CharacterLength(t) > 0 && ValidUtf8(t[CharacterLength(t)..]))
  }

  // Section 3: the number an octet sequence carries.
  function DecodeUtf8(t: string): int
    requires CharacterLength(t) > 0
  {
    var n := CharacterLength(t);
    if n == 1 then t[0] as int
    else if n == 2 then (t[0] as int - 0xC0) * 0x40 + (t[1] as int - 0x80)
    else if n == 3 then (t[0] as int - 0xE0) * 0x1000 + (t[1] as int - 0x80) * 0x40 + (t[2] as int - 0x80)
    else
      (t[0] as int - 0xF0) * 0x40000 + (t[1] as int - 0x80) * 0x1000
      + (t[2] as int - 0x80) * 0x40 + (t[3] as int - 0x80)
  }

  predicate IsScalar(u: int)
  {
    0 <= u < 0xD800 || 0xE000 <= u < 0x110000
  }

  lemma EncodeShort(u: nat)
    requires u < 0x800
    ensures CharacterLength(EncodeUtf8(u)) == |EncodeUtf8(u)| && DecodeUtf8(EncodeUtf8(u)) == u
  {
  }

  lemma EncodeThree(u: nat)
    requires 0x800 <= u < 0xD800 || 0xE000 <= u < 0x10000
    ensures CharacterLength(EncodeUtf8(u)) == |EncodeUtf8(u)| && DecodeUtf8(EncodeUtf8(u)) == u
  {
    var a, b := u / 0x40, u / 0x1000;
    assert u == 0x40 * a + u % 0x40;
    assert a == 0x40 * b + a % 0x40;
  }

  lemma EncodeFour(u: nat)
    requires 0x10000 <= u < 0x110000
    ensures CharacterLength(EncodeUtf8(u)) == |EncodeUtf8(u)| && DecodeUtf8(EncodeUtf8(u)) == u
  {
    var a, b, c := u / 0x40, u / 0x1000, u / 0x40000;
    assert u == 0x40 * a + u % 0x40;
    assert a == 0x40 * b + a % 0x40;
    assert b == 0x40 * c + b % 0x40;
  }

  // Every scalar value is encoded as one well-formed character that decodes back to it.
  lemma EncodeUtf8Decodes(u: nat)
    requires IsScalar(u)
    ensures CharacterLength(EncodeUtf8(u)) == |EncodeUtf8(u)|
    ensures DecodeUtf8(EncodeUtf8(u)) == u
    ensures ValidUtf8(EncodeUtf8(u))
  {
    hide EncodeUtf8, CharacterLength, DecodeUtf8;
    if u < 0x800 {
      EncodeShort(u);
    } else if u < 0x10000 {
      EncodeThree(u);
    } else {
      EncodeFour(u);
    }
    EncodeNonempty(u);
    assert EncodeUtf8(u)[|EncodeUtf8(u)|..] == "";
  }

  lemma EncodeNonempty(u: nat)
    requires u < 0x110000
    ensures |EncodeUtf8(u)| > 0
  {
  }

  lemma CharacterLengthOfPrefix(a: string, b: string)
    requires CharacterLength(a) > 0
    ensures CharacterLength(a + b) == CharacterLength(a)
  {
  }

  lemma {:induction false} Utf8Concat(a: string, b: string)
    requires ValidUtf8(a) && ValidUtf8(b)
    ensures ValidUtf8(a + b)
    decreases |a|
  {
    if |a| == 0 {
      assert a + b == b;
    } else {
      CharacterLengthOfPrefix(a, b);
      var n := CharacterLength(a);
      assert (a + b)[n..] == a[n..] + b;
      Utf8Concat(a[n..], b);
    }
  }

  // A valid text can be cut in front of every ASCII octet: those never continue a character.
  lemma {:induction false} Utf8Cut(a: string, b: string)
    requires ValidUtf8(a + b)
    requires |b| > 0 && b[0] as int < 0x80
    ensures ValidUtf8(a) && ValidUtf8(b)
    decreases |a|
  {
    if |a| == 0 {
      assert a + b == b;
    } else {
      var n := CharacterLength(a + b);
      assert (a + b)[|a|] == b[0];
      assert n <= |a|;
      assert (a + b)[n..] == a[n..] + b;
      Utf8Cut(a[n..], b);
      assert CharacterLength(a) == n by {
        assert forall i | 0 <= i < n :: a[i] == (a + b)[i];
      }
    }
  }

  // Dropping leading ASCII octets keeps a text valid.
  lemma Utf8DropAscii(t: string)
    requires ValidUtf8(t) && |t| > 0 && t[0] as int < 0x80
    ensures ValidUtf8(t[1..])
  {
  }

  // ---------------------------------------------------------------- hexadecimal digits

  predicate IsHex(c: char) { '0' <= c <= '9' || 'A' <= c <= 'F' || 'a' <= c <= 'f' }

  function HexValue(c: char): (n: nat)
    requires IsHex(c)
    ensures n < 16
  {
    if '0' <= c <= '9' then c as int - '0' as int
    else if 'A' <= c <= 'F' then c as int - 'A' as int + 10
    else c as int - 'a' as int + 10
  }

  // The digits printf("%x") uses.
  function HexDigit(n: nat): (c: char)
    requires n < 16
    ensures IsHex(c) && HexValue(c) == n
  {
    if n < 10 then ('0' as int + n) as char else ('a' as int + n - 10) as char
  }

  // ---------------------------------------------------------------- decimal numbers

  predicate IsDigit(c: char) { '0' <= c <= '9' }

  function DigitsOf(n: nat): (t: string)
    ensures |t| > 0 && forall i | 0 <= i < |t| :: IsDigit(t[i])
  {
    if n < 10 then [('0' as int + n) as char] else DigitsOf(n / 10) + [('0' as int + n % 10) as char]
  }

  // printf("%.f") of an integral number.
  function Decimal(n: int): (t: string)
    ensures |t| > 0 && (t[0] == '-' || IsDigit(t[0]))
    ensures forall i | 0 <= i < |t| :: IsNumberChar(t[i])
  {
    if n < 0 then "-" + DigitsOf(-n) else DigitsOf(n)
  }

  function DigitsValue(t: string): nat
    requires forall i | 0 <= i < |t| :: IsDigit(t[i])
  {
    if |t| == 0 then 0
    else
      assert IsDigit(t[|t| - 1]);
      10 * DigitsValue(t[..|t| - 1]) + (t[|t| - 1] as int - '0' as int)
  }

  lemma {:induction false} DigitsRoundTrip(n: nat)
    ensures DigitsValue(DigitsOf(n)) == n
  {
    if n >= 10 {
      DigitsRoundTrip(n / 10);
      var t := DigitsOf(n);
      assert t[..|t| - 1] == DigitsOf(n / 10);
    }
  }

  // The octets _parse_number collects.
  predicate IsNumberChar(c: char)
  {
    IsDigit(c) || c == '+' || c == '-' || c == 'e' || c == 'E' || c == '.'
  }

  function NumberLength(t: string): (n: nat)
    ensures n <= |t|
    ensures forall i | 0 <= i < n :: IsNumberChar(t[i])
    ensures n < |t| ==> !IsNumberChar(t[n])
    decreases |t|
  {
    if |t| > 0 && IsNumberChar(t[0]) then 1 + NumberLength(t[1..]) else 0
  }

  function DigitsEnd(t: string, i: nat): (j: nat)
    requires i <= |t|
    ensures i <= j <= |t|
    ensures forall k | i <= k < j :: IsDigit(t[k])
    ensures j < |t| ==> !IsDigit(t[j])
    decreases |t| - i
  {
    if i < |t| && IsDigit(t[i]) then DigitsEnd(t, i + 1) else i
  }

  function Power10(k: nat): real
  {
    if k == 0 then 1.0 else 10.0 * Power10(k - 1)
  }

  lemma Power10Positive(k: nat)
    ensures Power10(k) > 0.0
  {
  }

  function Scale(x: real, exponent: int): real
  {
    Power10Positive(if exponent < 0 then -exponent else exponent);
    if exponent >= 0 then x * Power10(exponent) else x / Power10(-exponent)
  }

  function SignLength(t: string, i: nat): (n: nat)
    requires i <= |t|
    ensures i + n <= |t|
  {
    if i < |t| && (t[i] == '+' || t[i] == '-') then 1 else 0
  }

  // strtod on a text made of number characters, without rounding: the number when the whole
  // text is one, None when the conversion stops before the end.
  function Strtod(t: string): Option<real>
  {
    var start := SignLength(t, 0);
    var whole := DigitsEnd(t, start);
    var dot := if whole < |t| && t[whole] == '.' then 1 else 0;
    var fraction := DigitsEnd(t, whole + dot);
    if whole - start + (fraction - whole - dot) == 0 then None
    else
      var digits := t[start..whole] + t[whole + dot..fraction];
      var magnitude := DigitsValue(digits) as real;
      var number := if t[0] == '-' then -magnitude else magnitude;
      var places := fraction - whole - dot;
      if fraction == |t| then Some(Scale(number, -places))
      else if t[fraction] != 'e' && t[fraction] != 'E' then None
      else
        var power := fraction + 1 + SignLength(t, fraction + 1);
        var end := DigitsEnd(t, power);
        if end == power || end != |t| then None
        else
          var e: int := DigitsValue(t[power..end]);
          Some(Scale(number, (if t[fraction + 1] == '-' then -e else e) - places))
  }

  lemma {:induction false} DigitsEndAt(t: string, i: nat, j: nat)
    requires i <= j <= |t| && (forall k | i <= k < j :: IsDigit(t[k])) && (j == |t| || !IsDigit(t[j]))
    ensures DigitsEnd(t, i) == j
    decreases j - i
  {
    if i < j {
      DigitsEndAt(t, i + 1, j);
    }
  }

  lemma DecimalRoundTrip(n: int)
    ensures Strtod(Decimal(n)) == Some(n as real)
  {
    hide Strtod, DigitsValue;
    var t := Decimal(n);
    var start := if n < 0 then 1 else 0;
    assert t[start..] == DigitsOf(if n < 0 then -n else n);
    DigitsRoundTrip(if n < 0 then -n else n);
    StrtodOfDigits(t, start);
  }

  // A sign, if there is one, and digits.
  lemma StrtodOfDigits(t: string, start: nat)
    requires start == SignLength(t, 0) < |t| && forall k | start <= k < |t| :: IsDigit(t[k])
    ensures Strtod(t)
         == Some(if t[0] == '-' then -(DigitsValue(t[start..]) as real) else DigitsValue(t[start..]) as real)
  {
    hide DigitsValue, Scale;
    DigitsEndAt(t, start, |t|);
    DigitsEndAt(t, |t|, |t|);
    assert t[start..|t|] + t[|t|..|t|] == t[start..];
    ScaleZero(if t[0] == '-' then -(DigitsValue(t[start..]) as real) else DigitsValue(t[start..]) as real);
  }

  lemma ScaleZero(x: real)
    ensures Scale(x, 0) == x
  {
  }
}
