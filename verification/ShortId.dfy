/**
 Short ids (src/utils/shortid.rs): sixteen bytes as a big number in base 57,
 printed with an alphabet without ambiguous characters and padded to 22.
 */
module ShortId {
  import opened Bits

  const ID_LENGTH: nat := 22

  // ---- Numbers as digits ------------------------------------------------------------------

  /** The value of little-endian base-57 digits. */
  function Value(digits: seq<nat>): nat
  {
    if digits == [] then 0 else digits[0] + 57 * Value(digits[1..])
  }

  /** The value of big-endian bytes. */
  function BytesValue(bytes: seq<Byte>): nat
  {
    if bytes == [] then 0 else 256 * BytesValue(bytes[..|bytes| - 1]) + bytes[|bytes| - 1] as nat
  }

  function Pow(b: nat, k: nat): nat
    decreases k
  {
    if k == 0 then 1 else b * Pow(b, k - 1)
  }

  predicate Digits57(digits: seq<nat>)
  {
    forall i :: 0 <= i < |digits| ==> digits[i] < 57
  }

  /** No leading zero, except for zero itself. */
  predicate Canonical(digits: seq<nat>)
  {
    |digits| == 1 || (|digits| > 1 && digits[|digits| - 1] != 0)
  }

  /** The digits pushed while the carry is not used up. */
  function CarryDigits(carry: nat): seq<nat>
  {
    if carry == 0 then [] else [carry % 57] + CarryDigits(carry / 57)
  }

  /** One byte shifted in: every digit becomes `(digit << 8) | carry` modulo 57. */
  function ShiftIn(digits: seq<nat>, carry: nat): seq<nat>
  {
    if digits == [] then CarryDigits(carry)
    else
      var v := 256 * digits[0] + carry;
      [v % 57] + ShiftIn(digits[1..], v / 57)
  }

  function NumberOf(bytes: seq<Byte>): seq<nat>
  {
    if bytes == [] then [0] else ShiftIn(NumberOf(bytes[..|bytes| - 1]), bytes[|bytes| - 1])
  }

  lemma {:induction false} CarryDigitsValue(carry: nat)
    ensures Value(CarryDigits(carry)) == carry && Digits57(CarryDigits(carry))
    ensures carry > 0 ==> |CarryDigits(carry)| > 0 && CarryDigits(carry)[|CarryDigits(carry)| - 1] != 0
  {
    if carry > 0 {
      CarryDigitsValue(carry / 57);
    }
  }

  /** The carry stays a byte, so `|` adds; the digits stay below 57; the value is 256 times the old one plus the byte. */
  lemma {:induction false} ShiftInValue(digits: seq<nat>, carry: nat)
    requires Digits57(digits) && carry < 256
    ensures Value(ShiftIn(digits, carry)) == 256 * Value(digits) + carry
    ensures Digits57(ShiftIn(digits, carry))
    decreases |digits|
  {
    if digits == [] {
      CarryDigitsValue(carry);
    } else {
      var v := 256 * digits[0] + carry;
      ShiftInValue(digits[1..], v / 57);
      var rest := ShiftIn(digits[1..], v / 57);
      assert ([v % 57] + rest)[1..] == rest;
    }
  }

  lemma {:induction false} ShiftInLast(digits: seq<nat>, carry: nat)
    requires digits != [] && digits[|digits| - 1] != 0
    ensures |ShiftIn(digits, carry)| > 0 && ShiftIn(digits, carry)[|ShiftIn(digits, carry)| - 1] != 0
    decreases |digits|
  {
    var v := 256 * digits[0] + carry;
    var rest := ShiftIn(digits[1..], v / 57);
    if |digits| == 1 {
      assert rest == CarryDigits(v / 57) && v / 57 > 0;
      CarryDigitsValue(v / 57);
    } else {
      ShiftInLast(digits[1..], v / 57);
    }
    assert ShiftIn(digits, carry) == [v % 57] + rest;
    assert ([v % 57] + rest)[|rest|] == rest[|rest| - 1];
  }

  lemma {:induction false} ShiftInCanonical(digits: seq<nat>, carry: nat)
    requires Canonical(digits)
    ensures Canonical(ShiftIn(digits, carry))
  {
    var v := 256 * digits[0] + carry;
    if |digits| == 1 {
      assert ShiftIn(digits[1..], v / 57) == CarryDigits(v / 57);
      CarryDigitsValue(v / 57);
    } else {
      ShiftInLast(digits[1..], v / 57);
    }
  }

  /** The digit list has the big-endian value of the bytes. */
  lemma {:induction false} NumberValue(bytes: seq<Byte>)
    ensures var n := NumberOf(bytes); Digits57(n) && Canonical(n) && Value(n) == BytesValue(bytes)
    decreases |bytes|
  {
    if bytes != [] {
      var before := bytes[..|bytes| - 1];
      NumberValue(before);
      ShiftInValue(NumberOf(before), bytes[|bytes| - 1]);
      ShiftInCanonical(NumberOf(before), bytes[|bytes| - 1]);
    }
  }

  // ---- Size -----------------------------------------------------------------------------------

  lemma {:induction false} TopDigitBound(digits: seq<nat>)
    requires digits != [] && digits[|digits| - 1] != 0
    ensures Value(digits) >= Pow(57, |digits| - 1)
    decreases |digits|
  {
    if |digits| > 1 {
      TopDigitBound(digits[1..]);
    }
  }

  lemma {:induction false} PowGrows(b: nat, k: nat, l: nat)
    requires b >= 1 && k <= l
    ensures Pow(b, k) <= Pow(b, l)
    decreases l
  {
    if k < l {
      PowGrows(b, k, l - 1);
      Larger(b, Pow(b, l - 1));
    }
  }

  lemma {:induction false} Larger(b: nat, x: nat)
    requires b >= 1
    ensures x <= b * x
  {
  }

  lemma {:induction false} BytesBound(bytes: seq<Byte>)
    ensures BytesValue(bytes) < Pow(256, |bytes|)
    decreases |bytes|
  {
    if bytes != [] {
      BytesBound(bytes[..|bytes| - 1]);
    }
  }

  /** 2^128 < 57^22 */
  lemma {:induction false} SixteenBytesFit()
    ensures Pow(256, 16) < Pow(57, 22)
  {
    assert Pow(256, 4) == 4294967296;
    assert Pow(256, 8) == 18446744073709551616;
    assert Pow(256, 12) == 79228162514264337593543950336;
    assert Pow(256, 16) == 340282366920938463463374607431768211456;
    assert Pow(57, 6) == 34296447249;
    assert Pow(57, 12) == 1176246293903439668001;
    assert Pow(57, 18) == 40341068970691068873250369779249;
    assert Pow(57, 22) == 425840364395683893717099776640122223249;
  }

  lemma {:induction false} NumberLength(bytes: seq<Byte>)
    requires |bytes| == 16
    ensures |NumberOf(bytes)| <= ID_LENGTH
  {
    hide NumberOf, Pow;
    var n := NumberOf(bytes);
    NumberValue(bytes);
    BytesBound(bytes);
    SixteenBytesFit();
    if |n| > ID_LENGTH {
      TopDigitBound(n);
      PowGrows(57, ID_LENGTH, |n| - 1);
    }
  }

  // ---- Text ---------------------------------------------------------------------------------------

  /** The alphabet, range by range: 2-9, A-H, J-N, P-Z, a-k, m-z. */
  function LetterOf(d: nat): char
    requires d < 57
  {
    if d < 8 then '2' + d as char
    else if d < 16 then 'A' + (d - 8) as char
    else if d < 21 then 'J' + (d - 16) as char
    else if d < 32 then 'P' + (d - 21) as char
    else if d < 43 then 'a' + (d - 32) as char
    else 'm' + (d - 43) as char
  }

  const ALPHABET := "23456789" + "ABCDEFGHJKLMNPQRSTUVWXYZ" + "abcdefghijkmnopqrstuvwxyz"

  /** The ranges are the alphabet. */
  lemma {:induction false} LetterIsAlphabetEntry(d: nat)
    requires d < 57
    ensures |ALPHABET| == 57 && LetterOf(d) == ALPHABET[d]
  {
  }

  /** The digit a character stands for. */
  function DigitOf(c: char): nat
  {
    if '2' <= c <= '9' then c as nat - '2' as nat
    else if 'A' <= c <= 'H' then c as nat - 'A' as nat + 8
    else if 'J' <= c <= 'N' then c as nat - 'J' as nat + 16
    else if 'P' <= c <= 'Z' then c as nat - 'P' as nat + 21
    else if 'a' <= c <= 'k' then c as nat - 'a' as nat + 32
    else if 'm' <= c <= 'z' then c as nat - 'm' as nat + 43
    else 0
  }

  /** Letters stand for their digit, and none of them is ambiguous. */
  lemma {:induction false} LetterReadBack(d: nat)
    requires d < 57
    ensures DigitOf(LetterOf(d)) == d
    ensures LetterOf(d) !in ['0', 'O', '1', 'I', 'l']
  {
  }

  /** Most significant digit first. */
  function Letters(digits: seq<nat>): (text: string)
    requires Digits57(digits)
    ensures |text| == |digits|
  {
    if digits == [] then "" else Letters(digits[1..]) + [LetterOf(digits[0])]
  }

  function Padding(n: nat): (text: string)
    ensures |text| == n
  {
    if n == 0 then "" else Padding(n - 1) + [LetterOf(0)]
  }

  function IdText(digits: seq<nat>): string
    requires Digits57(digits)
  {
    if |digits| < ID_LENGTH then Padding(ID_LENGTH - |digits|) + Letters(digits) else Letters(digits)
  }

  /** `encode` */
  function Encoded(bytes: seq<Byte>): string
  {
    NumberValue(bytes);
    IdText(NumberOf(bytes))
  }

  /** The number a text stands for, read most significant digit first. */
  function TextValue(text: string): nat
  {
    if text == "" then 0 else 57 * TextValue(text[..|text| - 1]) + DigitOf(text[|text| - 1])
  }

  lemma {:induction false} LettersValue(digits: seq<nat>)
    requires Digits57(digits)
    ensures TextValue(Letters(digits)) == Value(digits)
    decreases |digits|
  {
    if digits != [] {
      LettersValue(digits[1..]);
      LetterReadBack(digits[0]);
      var rest := Letters(digits[1..]);
      assert (rest + [LetterOf(digits[0])])[..|rest|] == rest;
    }
  }

  lemma {:induction false} PaddingIsZero(n: nat, text: string)
    ensures TextValue(Padding(n) + text) == TextValue(text)
    decreases n + |text|
  {
    var all := Padding(n) + text;
    if text != "" {
      assert all[..|all| - 1] == Padding(n) + text[..|text| - 1];
      PaddingIsZero(n, text[..|text| - 1]);
    } else if n > 0 {
      assert all[..|all| - 1] == Padding(n - 1) + "";
      PaddingIsZero(n - 1, "");
      LetterReadBack(0);
    }
  }

  /** Reading an id back gives the number of the bytes. */
  lemma {:induction false} EncodedReadBack(bytes: seq<Byte>)
    ensures TextValue(Encoded(bytes)) == BytesValue(bytes)
  {
    hide NumberOf, BytesValue;
    NumberValue(bytes);
    var n := NumberOf(bytes);
    LettersValue(n);
    if |n| < ID_LENGTH {
      PaddingIsZero(ID_LENGTH - |n|, Letters(n));
    }
  }

  /** Sixteen bytes give exactly 22 characters. */
  lemma {:induction false} EncodedLength(bytes: seq<Byte>)
    requires |bytes| == 16
    ensures |Encoded(bytes)| == ID_LENGTH
  {
    NumberLength(bytes);
  }

  lemma {:induction false} BytesValueInjective(a: seq<Byte>, b: seq<Byte>)
    requires |a| == |b| && BytesValue(a) == BytesValue(b)
    ensures a == b
    decreases |a|
  {
    if a != [] {
      var n := |a| - 1;
      BytesValueInjective(a[..n], b[..n]);
      assert a == a[..n] + [a[n]] && b == b[..n] + [b[n]];
    }
  }

  /** Different inputs of one length give different ids. */
  lemma {:induction false} EncodedInjective(a: seq<Byte>, b: seq<Byte>)
    requires |a| == |b| && Encoded(a) == Encoded(b)
    ensures a == b
  {
    EncodedReadBack(a);
    EncodedReadBack(b);
    BytesValueInjective(a, b);
  }

  // ---- The loops of `encode` -------------------------------------------------------------------------

  /** One outer iteration: digits in place, then the rest of the carry pushed. */
  method ShiftInByte(number: seq<nat>, b: Byte) returns (num: seq<nat>)
    requires Digits57(number)
    ensures num == ShiftIn(number, b) && Digits57(num)
  {
    hide Or, ShiftIn;
    num := number;
    var carry: nat := b;
    for j := 0 to |number|
      invariant |num| == |number| && carry < 256
      invariant forall k :: 0 <= k < |num| ==> num[k] < 57
      invariant ShiftIn(number, b) == num[..j] + ShiftIn(num[j..], carry)
    {
      ShiftInAt(num, j, carry);
      var v := Or(num[j] * 256, carry);
      num := num[j := v % 57];
      carry := v / 57;
    }
    assert num[..|number|] == num && num[|number|..] == [];
    ShiftInNothing(carry);
    while carry > 0
      invariant ShiftIn(number, b) == num + CarryDigits(carry)
      invariant Digits57(num)
    {
      num := num + [carry % 57];
      carry := carry / 57;
    }
  }

  lemma {:induction false} ShiftInNothing(carry: nat)
    ensures ShiftIn([], carry) == CarryDigits(carry)
  {
  }

  /** One step of the in-place loop: `d << 8 | carry` is addition, and its quotient fits in a byte again. */
  lemma {:induction false} ShiftInAt(num: seq<nat>, j: nat, carry: nat)
    requires Digits57(num) && j < |num| && carry < 256
    ensures var v := Or(num[j] * 256, carry);
            var next := num[j := v % 57];
            v / 57 < 256
            && num[..j] + ShiftIn(num[j..], carry) == next[..j + 1] + ShiftIn(next[j + 1..], v / 57)
  {
    assert Pow2(8) == 256;
    OrDisjoint(num[j], carry, 8);
    var v := num[j] * 256 + carry;
    var next := num[j := v % 57];
    assert num[j..][1..] == num[j + 1..] == next[j + 1..];
    assert next[..j + 1] == num[..j] + [v % 57];
    assert ShiftIn(num[j..], carry) == [v % 57] + ShiftIn(next[j + 1..], v / 57);
  }

  method Encode(bytes: seq<Byte>) returns (encoded: string)
    ensures encoded == Encoded(bytes)
  {
    hide ShiftIn, LetterOf, Value, BytesValue;
    var num: seq<nat> := [0];
    for i := 0 to |bytes|
      invariant num == NumberOf(bytes[..i]) && Digits57(num)
    {
      assert bytes[..i + 1][..i] == bytes[..i];
      num := ShiftInByte(num, bytes[i]);
    }
    assert bytes[..|bytes|] == bytes;
    encoded := "";
    var k := |num|;
    assert num[..k] == num;
    while k > 0
      invariant 0 <= k <= |num|
      invariant Letters(num) == encoded + Letters(num[..k])
    {
      LettersOfLast(num[..k]);
      k := k - 1;
      assert num[..k + 1][..k] == num[..k];
      encoded := encoded + [LetterOf(num[k])];
    }
    if |encoded| < ID_LENGTH {
      var s := "";
      for i := 0 to ID_LENGTH - |encoded|
        invariant s == Padding(i)
      {
        s := s + [LetterOf(0)];
      }
      encoded := s + encoded;
    }
  }

  lemma {:induction false} LettersOfLast(digits: seq<nat>)
    requires Digits57(digits) && digits != []
    ensures Letters(digits) == [LetterOf(digits[|digits| - 1])] + Letters(digits[..|digits| - 1])
    decreases |digits|
  {
    if |digits| > 1 {
      LettersOfLast(digits[1..]);
      assert digits[1..][..|digits| - 2] == digits[..|digits| - 1][1..];
    }
  }
}
