/**
  What the rendering of a format string means. A format string is described by the pieces it
  is written from, and the text of each piece by what a reader sees in it: a numeral and the
  number it stands for, a string and where it stands, the columns that are filled up.
*/
module PrintfFields {
  import opened Common
  import opened PrintfModel

  ////// Numerals

  predicate IsDigitOf(c: char, base: nat, upper: bool) {
    || '0' <= c <= '9'
    || (base == 16 && if upper then 'A' <= c <= 'F' else 'a' <= c <= 'f')
  }

  /** s is the number n written out, without a leading zero. */
  predicate IsNumeral(s: seq<char>, base: nat, upper: bool, n: int) {
    && s != [] && (forall i :: 0 <= i < |s| ==> IsDigitOf(s[i], base, upper))
    && ValueOf(s, base) == n && (s[0] == '0' ==> |s| == 1)
  }

  lemma {:induction false} DigitsAreDigits(num: nat, base: nat, upper: bool)
    requires base == 10 || base == 16
    ensures forall i :: 0 <= i < |Digits(num, base, upper)| ==> IsDigitOf(Digits(num, base, upper)[i], base, upper)
    decreases num
  {
    if num >= base {
      var q, _ := Divide(num, base);
      DigitsAreDigits(q, base, upper);
    }
  }

  lemma DigitsAreNumeral(num: nat, base: nat, upper: bool)
    requires base == 10 || base == 16
    ensures IsNumeral(Digits(num, base, upper), base, upper, num)
  {
    DigitsStandForNumber(num, base, upper);
    DigitsAreDigits(num, base, upper);
  }

  ////// Fields

  predicate DifferBy(x: int, y: int, q: int, m: nat) {
    x - y == q * m
  }

  ghost predicate Congruent(x: int, y: int, m: nat) {
    exists q :: DifferBy(x, y, q, m)
  }

  /** n is what the low bits of a word stand for as a signed number from -half up to half. */
  ghost predicate IsSigned(n: int, bits: nat, half: nat) {
    0 <= n + half < 2 * half && Congruent(n, bits, 2 * half)
  }

  /** n is what the low bits of a word stand for as a number below the limit. */
  ghost predicate IsUnsigned(n: int, bits: nat, limit: nat) {
    0 <= n < limit && Congruent(n, bits, limit)
  }

  /** The digits of n begin at k; in front of them are its sign and then only filling, and
      the whole is no wider than it must be. */
  predicate NumberFrom(text: seq<char>, k: nat, n: int, base: nat, upper: bool, filling: char, width: int) {
    var sign := if n < 0 then 1 else 0;
    && sign <= k < |text| && (n < 0 ==> text[0] == '-')
    && (forall i :: sign <= i < k ==> text[i] == filling)
    && IsNumeral(text[k..], base, upper, if n < 0 then -n else n)
    && |text| == Max(width, sign + |text| - k)
  }

  ghost predicate IsNumber(text: seq<char>, n: int, base: nat, upper: bool, filling: char, width: int) {
    exists k :: NumberFrom(text, k, n, base, upper, filling, width)
  }

  /** The string is at one end of the text, and blanks fill it up to the width. */
  predicate IsAligned(text: seq<char>, s: seq<char>, width: int, left: bool) {
    && |text| == Max(width, |s|)
    && (if left then text[..|s|] == s else text[|text| - |s|..] == s)
    && forall i :: 0 <= i < |text| && (if left then i >= |s| else i < |text| - |s|) ==> text[i] == ' '
  }

  /** Half the range of the integers that a length modifier asks for. */
  function HalfOf(modifier: seq<char>): nat {
    if modifier == "hh" then 0x80
    else if modifier == "h" then 0x8000
    else if modifier == "" then 0x8000_0000
    else 0x8000_0000_0000_0000
  }

  function Filling(zero: bool): char {
    if zero then '0' else ' '
  }

  /** The columns of a number: a negative one gives up one of them. */
  function Columns(n: int, width: int): int {
    if n < 0 then width - 1 else width
  }

  /** What the text of a field says, conversion by conversion. */
  ghost predicate FieldMeans(text: seq<char>, left: bool, zero: bool, width: int, m: seq<char>, c: char, arg: Arg) {
    if c == 's' then
      (arg.Text? ==> IsAligned(text, arg.s, width, left)) && (arg.Null? ==> IsAligned(text, "(null)", width, left))
    else if c == 'f' then arg.Float? ==> text == arg.text
    else if c == '%' then text == "%"
    else if c == 'c' || c == 'p' || IsInteger(c) then arg.Word? ==> WordMeans(text, left, zero, width, m, c, arg.bits)
    else c != '\0' ==> text == ['%', c]
  }

  predicate IsInteger(c: char) {
    c == 'd' || c == 'i' || c == 'u' || c == 'x' || c == 'X'
  }

  ghost predicate WordMeans(text: seq<char>, left: bool, zero: bool, width: int, m: seq<char>, c: char, bits: nat) {
    if c == 'c' then IsAligned(text, [(bits % 256) as char], width, left)
    else if c == 'p' then PointerMeans(text, bits)
    else if c == 'd' || c == 'i' then SignedMeans(text, zero, width, HalfOf(m), bits)
    else if c == 'u' then UnsignedMeans(text, zero, width, 2 * HalfOf(m), 10, false, bits)
    else UnsignedMeans(text, zero, width, 2 * HalfOf(m), 16, c == 'X', bits)
  }

  ghost predicate SignedMeans(text: seq<char>, zero: bool, width: int, half: nat, bits: nat)
  {
    exists n :: IsSigned(n, bits, half) && IsNumber(text, n, 10, false, Filling(zero), Columns(n, width))
  }

  ghost predicate UnsignedMeans(text: seq<char>, zero: bool, width: int, limit: nat, base: nat, upper: bool, bits: nat)
  {
    exists n :: IsUnsigned(n, bits, limit) && IsNumber(text, n, base, upper, Filling(zero), width)
  }

  /** Sixteen digits behind 0x. */
  ghost predicate PointerMeans(text: seq<char>, bits: nat) {
    && |text| == 18 && text[..2] == "0x" && (forall i :: 2 <= i < 18 ==> IsDigitOf(text[i], 16, false))
    && IsUnsigned(ValueOf(text[2..], 16), bits, 0x1_0000_0000_0000_0000)
  }

  ////// The text of a field has its meaning

  predicate IsModifier(m: seq<char>) {
    m == "" || m == "h" || m == "hh" || m == "l" || m == "ll" || m == "z"
  }

  function ModifierNamed(m: seq<char>): Modifier {
    if m == "" then Plain
    else if m == "h" then Short
    else if m == "hh" then Char
    else if m == "ll" then LongLong
    else Long
  }

  lemma UnsignedIs(arg: Arg, m: seq<char>)
    requires arg.Word? && IsModifier(m)
    ensures IsUnsigned(Unsigned(arg, ModifierNamed(m)), arg.bits, 2 * HalfOf(m))
  {
    var low, range := BitsOf(arg), 2 * HalfOf(m);
    assert range == Range(ModifierNamed(m));
    LowBits(low, range);
    LowBits(arg.bits, 0x1_0000_0000_0000_0000);
    var q, q' := low / range, arg.bits / 0x1_0000_0000_0000_0000;
    var wide := if range == 0x100 then 0x100_0000_0000_0000
                else if range == 0x1_0000 then 0x1_0000_0000_0000
                else if range == 0x1_0000_0000 then 0x1_0000_0000
                else 1;
    assert DifferBy(low % range, arg.bits, -q - wide * q', range);
  }

  lemma LowBits(bits: nat, range: nat)
    requires range > 0
    ensures bits == bits / range * range + bits % range && 0 <= bits % range < range
  {
  }

  lemma SignedIs(arg: Arg, m: seq<char>)
    requires arg.Word? && IsModifier(m)
    ensures IsSigned(Signed(arg, ModifierNamed(m)), arg.bits, HalfOf(m))
  {
    var n, range := Unsigned(arg, ModifierNamed(m)), 2 * HalfOf(m);
    UnsignedIs(arg, m);
    var q :| DifferBy(n, arg.bits, q, range);
    assert DifferBy(n - range, arg.bits, q - 1, range);
  }

  function SignedBy(num: nat, negative: bool): int {
    if negative then 0 - num else num
  }

  /** out_num writes a number. */
  lemma NumTextIsNumber(num: nat, base: nat, width: int, zero: bool, upper: bool, negative: bool)
    requires (base == 10 || base == 16) && (negative ==> num > 0)
    ensures IsNumber(NumText(num, base, width, zero, upper, negative), SignedBy(num, negative), base, upper,
                     Filling(zero), width)
  {
    var text, digits := NumText(num, base, width, zero, upper, negative), Digits(num, base, upper);
    var n := SignedBy(num, negative);
    DigitsAreNumeral(num, base, upper);
    assert text[|text| - |digits|..] == digits;
    assert NumberFrom(text, |text| - |digits|, n, base, upper, Filling(zero), width);
  }

  lemma AlignedIsAligned(s: seq<char>, width: int, left: bool)
    ensures IsAligned(Aligned(s, width, left), s, width, left)
  {
    var text := Aligned(s, width, left);
    assert if left then text[..|s|] == s else text[|text| - |s|..] == s;
  }

  lemma SignedTextIsNumber(s: Spec, n: int)
    requires -INT_LIMIT < s.width < INT_LIMIT
    ensures IsNumber(SignedText(s, n), n, 10, false, Filling(s.zero), Columns(n, s.width))
  {
    if n < 0 {
      assert I32(s.width - 1) == s.width - 1;
      NumTextIsNumber(-n, 10, s.width - 1, s.zero, false, true);
    } else {
      NumTextIsNumber(n, 10, s.width, s.zero, false, false);
    }
  }

  lemma SignedField(s: Spec, m: seq<char>, arg: Arg)
    requires arg.Word? && IsModifier(m) && s.modifier == ModifierNamed(m) && -INT_LIMIT < s.width < INT_LIMIT
    ensures SignedMeans(SignedText(s, Signed(arg, s.modifier)), s.zero, s.width, HalfOf(m), arg.bits)
  {
    SignedIs(arg, m);
    SignedTextIsNumber(s, Signed(arg, s.modifier));
  }

  lemma UnsignedField(s: Spec, m: seq<char>, arg: Arg, base: nat, upper: bool)
    requires arg.Word? && IsModifier(m) && s.modifier == ModifierNamed(m) && (base == 10 || base == 16)
    ensures UnsignedMeans(UnsignedText(s, arg, base, upper), s.zero, s.width, 2 * HalfOf(m), base, upper, arg.bits)
  {
    UnsignedIs(arg, m);
    NumTextIsNumber(Unsigned(arg, s.modifier), base, s.width, s.zero, upper, false);
  }

  function Power16(k: nat): nat {
    if k == 0 then 1 else 16 * Power16(k - 1)
  }

  lemma {:induction false} HexLength(num: nat, k: nat)
    requires num < Power16(k) && k > 0
    ensures |Digits(num, 16, false)| <= k
    decreases k
  {
    if num >= 16 {
      HexLength(num / 16, k - 1);
    }
  }

  lemma {:induction false} ZerosAreZero(k: nat, base: nat)
    ensures ValueOf(Repeat('0', k), base) == 0
  {
    if k > 0 {
      ZerosAreZero(k - 1, base);
      ValueOfMore(Repeat('0', k - 1), '0', base);
    }
  }

  lemma {:induction false} ZerosInFront(k: nat, s: seq<char>, base: nat)
    ensures ValueOf(Repeat('0', k) + s, base) == ValueOf(s, base)
    decreases |s|
  {
    if s == [] {
      assert Repeat('0', k) + [] == Repeat('0', k);
      ZerosAreZero(k, base);
    } else {
      var front, c := s[..|s| - 1], s[|s| - 1];
      ZerosInFront(k, front, base);
      assert Repeat('0', k) + s == Repeat('0', k) + front + [c];
      ValueOfMore(Repeat('0', k) + front, c, base);
    }
  }

  lemma WordLength(num: nat)
    requires num < 0x1_0000_0000_0000_0000
    ensures |Digits(num, 16, false)| <= 16
  {
    assert Power16(4) == 0x1_0000 && Power16(8) == 0x1_0000 * Power16(4);
    assert Power16(12) == 0x1_0000 * Power16(8) && Power16(16) == 0x1_0000 * Power16(12);
    HexLength(num, 16);
  }

  /** A numeral with zeros in front, up to sixteen digits. */
  lemma SixteenDigits(num: nat, text: seq<char>)
    requires num < 0x1_0000_0000_0000_0000 && text == NumText(num, 16, 16, true, false, false)
    ensures |text| == 16 && ValueOf(text, 16) == num && forall i :: 0 <= i < 16 ==> IsDigitOf(text[i], 16, false)
  {
    var digits := Digits(num, 16, false);
    WordLength(num);
    DigitsAreNumeral(num, 16, false);
    Filled(digits, 16 - |digits|, text, num);
  }

  lemma Filled(digits: seq<char>, k: nat, text: seq<char>, num: nat)
    requires IsNumeral(digits, 16, false, num) && text == Repeat('0', k) + digits
    ensures ValueOf(text, 16) == num && forall i :: 0 <= i < |text| ==> IsDigitOf(text[i], 16, false)
  {
    ZerosInFront(k, digits, 16);
  }

  lemma PointerField(arg: Arg)
    requires arg.Word?
    ensures PointerMeans(PointerText(arg), arg.bits)
  {
    var digits := NumText(BitsOf(arg), 16, 16, true, false, false);
    SixteenDigits(BitsOf(arg), digits);
    assert ("0x" + digits)[2..] == digits;
    LowBits(arg.bits, 0x1_0000_0000_0000_0000);
    assert DifferBy(BitsOf(arg), arg.bits, -(arg.bits / 0x1_0000_0000_0000_0000), 0x1_0000_0000_0000_0000);
  }

  lemma IntegerField(s: Spec, m: seq<char>, c: char, arg: Arg)
    requires IsModifier(m) && s.modifier == ModifierNamed(m) && -INT_LIMIT < s.width < INT_LIMIT
    requires arg.Word? && IsInteger(c)
    ensures WordMeans(FieldText(s, c, arg), s.left, s.zero, s.width, m, c, arg.bits)
  {
    if c == 'd' || c == 'i' {
      SignedField(s, m, arg);
    } else if c == 'u' {
      UnsignedField(s, m, arg, 10, false);
    } else {
      UnsignedField(s, m, arg, 16, c == 'X');
    }
  }

  lemma LowByte(bits: nat)
    ensures bits % 0x1_0000_0000_0000_0000 % 256 == bits % 256
  {
    var q, low := bits / 0x1_0000_0000_0000_0000, bits % 0x1_0000_0000_0000_0000;
    assert bits == 256 * (0x100_0000_0000_0000 * q) + low;
  }

  lemma CharField(s: Spec, arg: Arg)
    requires arg.Word?
    ensures IsAligned(FieldText(s, 'c', arg), [(arg.bits % 256) as char], s.width, s.left)
  {
    LowByte(arg.bits);
    AlignedIsAligned([CharOf(arg)], s.width, s.left);
  }

  lemma WordField(s: Spec, m: seq<char>, c: char, arg: Arg)
    requires IsModifier(m) && s.modifier == ModifierNamed(m) && -INT_LIMIT < s.width < INT_LIMIT
    requires arg.Word? && (c == 'c' || c == 'p' || IsInteger(c))
    ensures WordMeans(FieldText(s, c, arg), s.left, s.zero, s.width, m, c, arg.bits)
  {
    if c == 'c' {
      CharField(s, arg);
    } else if c == 'p' {
      PointerField(arg);
    } else {
      IntegerField(s, m, c, arg);
    }
  }

  /** The text of every field has the meaning of its conversion. */
  lemma FieldTextMeans(s: Spec, m: seq<char>, c: char, arg: Arg)
    requires IsModifier(m) && s.modifier == ModifierNamed(m) && -INT_LIMIT < s.width < INT_LIMIT
    ensures FieldMeans(FieldText(s, c, arg), s.left, s.zero, s.width, m, c, arg)
  {
    if c == 's' {
      AlignedIsAligned(StringOf(arg), s.width, s.left);
    } else if arg.Word? && (c == 'c' || c == 'p' || IsInteger(c)) {
      WordField(s, m, c, arg);
    }
  }

  ////// The width of negative numbers

  /** A signed number reaches the width of its field unless it is negative and shorter. */
  lemma ReachesWidth(s: Spec, n: int)
    requires -INT_LIMIT < s.width < INT_LIMIT
    ensures n >= 0 ==> |SignedText(s, n)| == Max(s.width, |Digits(n, 10, false)|)
    ensures n < 0 ==> |SignedText(s, n)| == Max(s.width - 1, 1 + |Digits(-n, 10, false)|)
    ensures |SignedText(s, n)| >= s.width <==> n >= 0 || 1 + |Digits(-n, 10, false)| >= s.width
  {
    assert I32(s.width - 1) == s.width - 1;
  }

  /** The field %5d with -42: four columns, with the blank behind the sign. */
  lemma MinusFortyTwo(s: Spec, arg: Arg)
    requires s.width == 5 && !s.zero && s.modifier == Plain && arg == Word(0xFFFF_FFD6)
    ensures FieldText(s, 'd', arg) == "- 42"
  {
    assert Signed(arg, s.modifier) == -42;
    assert Digits(4, 10, false) == "4" && Digits(42, 10, false) == "4" + "2";
    assert Repeat(' ', 1) == " ";
  }
}
