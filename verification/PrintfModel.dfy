/**
  What vsnprintf would write if there were no limit: the rendering of a format string and
  its arguments, with the source's treatment of flags, width, length modifiers and signs.
*/
module PrintfModel {
  import opened Common

  ////// Numbers

  function Digit(d: nat, upper: bool): char
    requires d < 16
  {
    if d < 10 then ('0' as int + d) as char
    else ((if upper then 'A' as int else 'a' as int) + (d - 10)) as char
  }

  /** The digits of a number, the most significant first. */
  function Digits(num: nat, base: nat, upper: bool): (s: seq<char>)
    requires 2 <= base <= 16
    ensures |s| > 0
    decreases num
  {
    if num < base then [Digit(num, upper)] else Digits(num / base, base, upper) + [Digit(num % base, upper)]
  }

  /** The digits in the order itoa_base produces them; none for 0. */
  function Produced(num: nat, base: nat, upper: bool): seq<char>
    requires 2 <= base <= 16
    decreases num
  {
    if num == 0 then [] else [Digit(num % base, upper)] + Produced(num / base, base, upper)
  }

  lemma {:induction false} ReversedAt(s: seq<char>, i: nat)
    requires i < |s|
    ensures Reversed(s)[i] == s[|s| - 1 - i]
  {
    if i < |s| - 1 {
      ReversedAt(s[1..], i);
    }
  }

  lemma AtLeast(q: nat, base: nat, k: nat)
    requires base >= k
    ensures q * base >= q * k && (q > 0 ==> q * base >= base)
  {
    if q > 0 {
      assert q * base == (q - 1) * base + base;
    }
    assert q * base - q * k == q * (base - k);
  }

  lemma Remainder(num: nat, base: nat)
    requires base > 0
    ensures num == (num / base) * base + num % base && num % base < base
  {
  }

  /** Quotient and remainder. */
  lemma Divide(num: nat, base: nat) returns (q: nat, r: nat)
    requires base >= 2
    ensures q == num / base && r == num % base && r < base
    ensures num == q * base + r
    ensures if num < base then q == 0 && r == num else 0 < q < num
  {
    q, r := num / base, num % base;
    Remainder(num, base);
    AtLeast(q, base, 2);
  }

  lemma {:induction false} ProducedIsReversed(num: nat, base: nat, upper: bool)
    requires 2 <= base <= 16 && num > 0
    ensures Reversed(Produced(num, base, upper)) == Digits(num, base, upper)
    decreases num
  {
    var q, r := Divide(num, base);
    ReversedCons(Digit(r, upper), Produced(q, base, upper));
    if num >= base {
      ProducedIsReversed(q, base, upper);
    }
  }

  lemma ReversedCons(c: char, s: seq<char>)
    ensures Reversed([c] + s) == Reversed(s) + [c]
  {
    assert ([c] + s)[1..] == s;
  }

  function DigitValue(c: char): int {
    if '0' <= c <= '9' then c as int - '0' as int
    else if 'a' <= c <= 'f' then c as int - 'a' as int + 10
    else c as int - 'A' as int + 10
  }

  /** The number that a string of digits stands for. */
  function ValueOf(s: seq<char>, base: nat): int {
    if s == [] then 0 else ValueOf(s[..|s| - 1], base) * base + DigitValue(s[|s| - 1])
  }

  lemma ValueOfMore(s: seq<char>, c: char, base: nat)
    ensures ValueOf(s + [c], base) == ValueOf(s, base) * base + DigitValue(c)
  {
    assert (s + [c])[..|s|] == s;
  }

  /** The digits stand for the number, and it has no leading zero unless it is 0. */
  lemma {:induction false} DigitsStandForNumber(num: nat, base: nat, upper: bool)
    requires 2 <= base <= 16
    ensures ValueOf(Digits(num, base, upper), base) == num
    ensures Digits(num, base, upper)[0] == '0' <==> num == 0
    decreases num
  {
    var q, r := Divide(num, base);
    if num < base {
      ValueOfMore([], Digit(num, upper), base);
      assert [] + [Digit(num, upper)] == [Digit(num, upper)];
    } else {
      DigitsStandForNumber(q, base, upper);
      ValueOfMore(Digits(q, base, upper), Digit(r, upper), base);
    }
  }

  function Power10(k: nat): nat {
    if k == 0 then 1 else 10 * Power10(k - 1)
  }

  /** A number below 10^k has at most k digits, in base 10 or more. */
  lemma {:induction false} DigitsLength(num: nat, base: nat, upper: bool, k: nat)
    requires 10 <= base <= 16 && num < Power10(k) && k > 0
    ensures |Digits(num, base, upper)| <= k
    decreases k
  {
    if num >= base {
      assert num / base <= num / 10;
      assert num / base < Power10(k - 1);
      DigitsLength(num / base, base, upper, k - 1);
    }
  }

  /** 64-bit numbers have at most twenty digits, so they fit the source's buffer of 64. */
  lemma WordDigits(num: nat, base: nat, upper: bool)
    requires 10 <= base <= 16 && num < 0x1_0000_0000_0000_0000
    ensures |Digits(num, base, upper)| <= 20
  {
    assert Power10(4) == 10_000;
    assert Power10(8) == 10_000 * Power10(4) && Power10(12) == 10_000 * Power10(8);
    assert Power10(16) == 10_000 * Power10(12) && Power10(20) == 10_000 * Power10(16);
    DigitsLength(num, base, upper, 20);
  }

  lemma ProducedLength(num: nat, base: nat, upper: bool)
    requires 10 <= base <= 16 && 0 < num < 0x1_0000_0000_0000_0000
    ensures |Produced(num, base, upper)| <= 20
  {
    WordDigits(num, base, upper);
    ProducedIsReversed(num, base, upper);
  }

  ////// Arguments

  /** One slot of the argument list: a word as 64 bits, a string, a null pointer, or a
      floating-point number, given by the characters it is printed as. */
  datatype Arg = Word(bits: nat) | Text(s: seq<char>) | Null | Float(text: seq<char>)

  function BitsOf(arg: Arg): nat {
    if arg.Word? then arg.bits % 0x1_0000_0000_0000_0000 else 0
  }

  function StringOf(arg: Arg): seq<char> {
    if arg.Text? then arg.s else "(null)"
  }

  function FloatOf(arg: Arg): seq<char> {
    if arg.Float? then arg.text else []
  }

  datatype Modifier = Plain | Short | Char | Long | LongLong

  /** The values a word can be cut down to: 2 to the power of its width. */
  function Range(m: Modifier): nat {
    match m
    case Plain => 0x1_0000_0000
    case Short => 0x1_0000
    case Char => 0x100
    case Long => 0x1_0000_0000_0000_0000
    case LongLong => 0x1_0000_0000_0000_0000
  }

  function Unsigned(arg: Arg, m: Modifier): (n: nat)
    ensures n < 0x1_0000_0000_0000_0000
  {
    BitsOf(arg) % Range(m)
  }

  function Signed(arg: Arg, m: Modifier): (n: int)
    ensures -0x8000_0000_0000_0000 <= n < 0x8000_0000_0000_0000
  {
    var n := Unsigned(arg, m);
    if n >= Range(m) / 2 then n - Range(m) else n
  }

  ////// Fields

  function Repeat(c: char, n: int): (s: seq<char>)
    ensures |s| == if n > 0 then n else 0
    ensures forall i :: 0 <= i < |s| ==> s[i] == c
  {
    if n <= 0 then [] else Repeat(c, n - 1) + [c]
  }

  function Sign(negative: bool): seq<char> {
    if negative then "-" else []
  }

  /** out_num: the sign, the padding, the digits. */
  function NumText(num: nat, base: nat, width: int, zero: bool, upper: bool, negative: bool): seq<char>
    requires 2 <= base <= 16
  {
    var digits := Digits(num, base, upper);
    var pad := width - (|digits| + |Sign(negative)|);
    Sign(negative) + Repeat(if zero then '0' else ' ', pad) + digits
  }

  lemma NumTextParts(num: nat, base: nat, width: int, zero: bool, upper: bool, negative: bool, pad: nat,
                     text: seq<char>)
    requires 2 <= base <= 16
    requires var length := |Digits(num, base, upper)| + |Sign(negative)|;
             pad == if width > length then width - length else 0
    ensures var fill, digits := Repeat(if zero then '0' else ' ', pad), Digits(num, base, upper);
            && text + Sign(negative) + fill + digits == text + NumText(num, base, width, zero, upper, negative)
            && |NumText(num, base, width, zero, upper, negative)| == |Sign(negative)| + |fill| + |digits|
  {
    Associate(text, Sign(negative), Repeat(if zero then '0' else ' ', pad));
    Associate(text, Sign(negative) + Repeat(if zero then '0' else ' ', pad), Digits(num, base, upper));
  }

  function Aligned(s: seq<char>, width: int, left: bool): seq<char> {
    if left then s + Repeat(' ', width - |s|) else Repeat(' ', width - |s|) + s
  }

  /** A signed 32-bit value. */
  function I32(x: int): int {
    (x + 0x8000_0000) % 0x1_0000_0000 - 0x8000_0000
  }

  /** The flags, width and length modifier of a field, and where its conversion is. */
  datatype Spec = Spec(left: bool, zero: bool, width: int, modifier: Modifier, at: nat)

  function CharOf(arg: Arg): char {
    (BitsOf(arg) % 256) as char
  }

  function SignedText(s: Spec, n: int): seq<char> {
    if n < 0 then NumText(-n, 10, I32(s.width - 1), s.zero, false, true)
    else NumText(n, 10, s.width, s.zero, false, false)
  }

  function UnsignedText(s: Spec, arg: Arg, base: nat, upper: bool): seq<char>
    requires 2 <= base <= 16
  {
    NumText(Unsigned(arg, s.modifier), base, s.width, s.zero, upper, false)
  }

  function PointerText(arg: Arg): seq<char> {
    "0x" + NumText(BitsOf(arg), 16, 16, true, false, false)
  }

  function UnknownText(c: char): seq<char> {
    if c == '\0' then ['%'] else ['%', c]
  }

  function FieldText(s: Spec, c: char, arg: Arg): seq<char> {
    match c
    case 's' => Aligned(StringOf(arg), s.width, s.left)
    case 'c' => Aligned([CharOf(arg)], s.width, s.left)
    case 'd' => SignedText(s, Signed(arg, s.modifier))
    case 'i' => SignedText(s, Signed(arg, s.modifier))
    case 'f' => FloatOf(arg)
    case 'u' => UnsignedText(s, arg, 10, false)
    case 'x' => UnsignedText(s, arg, 16, false)
    case 'X' => UnsignedText(s, arg, 16, true)
    case 'p' => PointerText(arg)
    case '%' => ['%']
    case _ => UnknownText(c)
  }

  predicate UsesArg(c: char) {
    c == 's' || c == 'c' || c == 'd' || c == 'i' || c == 'f' || c == 'u' || c == 'x' || c == 'X' || c == 'p'
  }

  ////// Format strings

  function CharAt(fmt: seq<char>, i: nat): char {
    if i < |fmt| then fmt[i] else '\0'
  }

  predicate IsDigit(c: char) {
    '0' <= c <= '9'
  }

  function SkipDigits(fmt: seq<char>, i: nat): (j: nat)
    ensures i <= j && (i <= |fmt| ==> j <= |fmt|)
    decreases |fmt| - i
  {
    if IsDigit(CharAt(fmt, i)) then SkipDigits(fmt, i + 1) else i
  }

  function Number(fmt: seq<char>, i: nat, n: int): int
    decreases |fmt| - i
  {
    if IsDigit(CharAt(fmt, i)) then Number(fmt, i + 1, I32(n * 10 + (fmt[i] as int - '0' as int))) else n
  }

  function Step(fmt: seq<char>, i: nat, c: char): (j: nat)
    requires c != '\0'
    ensures i <= j && (i <= |fmt| ==> j <= |fmt|)
  {
    if CharAt(fmt, i) == c then i + 1 else i
  }

  /** Where the length modifier begins. */
  function ModifierAt(fmt: seq<char>, i: nat): (j: nat)
    ensures i <= j && (i <= |fmt| ==> j <= |fmt|)
  {
    if CharAt(fmt, i) == '.' then SkipDigits(fmt, i + 1) else i
  }

  /** The length modifier at i, and where it ends. */
  function ModifierOf(fmt: seq<char>, i: nat): (r: (Modifier, nat))
    ensures i <= r.1 && (i <= |fmt| ==> r.1 <= |fmt|)
  {
    match CharAt(fmt, i)
    case 'h' => if CharAt(fmt, i + 1) == 'h' then (Char, i + 2) else (Short, i + 1)
    case 'l' => if CharAt(fmt, i + 1) == 'l' then (LongLong, i + 2) else (Long, i + 1)
    case 'z' => (Long, i + 1)
    case _ => (Plain, i)
  }

  /** What follows a percent sign at i. */
  function ParseSpec(fmt: seq<char>, i: nat): (s: Spec)
    ensures i <= s.at && (i <= |fmt| ==> s.at <= |fmt|)
  {
    var i1 := Step(fmt, i, '-');
    var i2 := Step(fmt, i1, '0');
    var (m, at) := ModifierOf(fmt, ModifierAt(fmt, SkipDigits(fmt, i2)));
    Spec(i1 > i, i2 > i1, Number(fmt, i2, 0), m, at)
  }

  function ArgAt(args: seq<Arg>, a: nat): Arg {
    if a < |args| then args[a] else Null
  }

  /** Everything the format string from i on stands for, the arguments being taken from a on. */
  function Render(fmt: seq<char>, i: nat, args: seq<Arg>, a: nat): seq<char>
    decreases |fmt| - i
  {
    if i >= |fmt| then []
    else if fmt[i] != '%' then [fmt[i]] + Render(fmt, i + 1, args, a)
    else
      var s := ParseSpec(fmt, i + 1);
      var c := CharAt(fmt, s.at);
      FieldText(s, c, ArgAt(args, a)) + Render(fmt, s.at + 1, args, if UsesArg(c) then a + 1 else a)
  }

  lemma RenderChar(fmt: seq<char>, i: nat, args: seq<Arg>, a: nat, text: seq<char>)
    requires i < |fmt| && fmt[i] != '%'
    ensures text + Render(fmt, i, args, a) == text + [fmt[i]] + Render(fmt, i + 1, args, a)
  {
  }

  lemma RenderField(fmt: seq<char>, i: nat, args: seq<Arg>, a: nat, text: seq<char>, s: Spec, c: char,
                    i': nat, a': nat, piece: seq<char>)
    requires i < |fmt| && fmt[i] == '%' && s == ParseSpec(fmt, i + 1) && c == CharAt(fmt, s.at)
    requires i' == s.at + 1 && a' == (if UsesArg(c) then a + 1 else a) && piece == FieldText(s, c, ArgAt(args, a))
    ensures text + Render(fmt, i, args, a) == text + piece + Render(fmt, i', args, a')
  {
    assert Render(fmt, i, args, a) == piece + Render(fmt, i', args, a');
    Associate(text, piece, Render(fmt, i', args, a'));
  }

  lemma Associate(a: seq<char>, b: seq<char>, c: seq<char>)
    ensures a + (b + c) == a + b + c
  {
  }

  ////// The count

  /** The count after padding that stops when the buffer is full. */
  function PaddedCount(written: nat, n: int, size: nat): nat {
    if written >= size || n <= 0 then written else Min(written + n, size)
  }

  function AlignedCount(length: nat, width: int, left: bool, written: nat, size: nat): nat {
    if left then PaddedCount(written + length, width - length, size)
    else PaddedCount(written, width - length, size) + length
  }

  function FieldCount(s: Spec, c: char, arg: Arg, written: nat, size: nat): nat {
    if c == 's' then AlignedCount(|StringOf(arg)|, s.width, s.left, written, size)
    else if c == 'c' then AlignedCount(1, s.width, s.left, written, size)
    else written + |FieldText(s, c, arg)|
  }

  /** The count that the main loop reaches: it stops at a full buffer, and so does the
      padding of strings, but not the padding of numbers. */
  function Counted(fmt: seq<char>, i: nat, args: seq<Arg>, a: nat, written: nat, size: nat): nat
    decreases |fmt| - i
  {
    if i >= |fmt| || written >= size then written
    else if fmt[i] != '%' then Counted(fmt, i + 1, args, a, written + 1, size)
    else
      var s := ParseSpec(fmt, i + 1);
      var c := CharAt(fmt, s.at);
      Counted(fmt, s.at + 1, args, if UsesArg(c) then a + 1 else a,
              FieldCount(s, c, ArgAt(args, a), written, size), size)
  }

  lemma CountedField(fmt: seq<char>, i: nat, args: seq<Arg>, a: nat, s: Spec, c: char, i': nat, a': nat, written: nat,
                     written': nat, size: nat)
    requires i < |fmt| && fmt[i] == '%' && s == ParseSpec(fmt, i + 1) && c == CharAt(fmt, s.at) && written < size
    requires i' == s.at + 1 && a' == (if UsesArg(c) then a + 1 else a)
    requires written' == FieldCount(s, c, ArgAt(args, a), written, size)
    ensures Counted(fmt, i, args, a, written, size) == Counted(fmt, i', args, a', written', size)
  {
  }

  /** A count is exact while the text fits, and at least the size of the buffer once it does not. */
  predicate Counts(count: nat, length: nat, size: nat) {
    if length < size then count == length else size <= count <= length
  }

  lemma FieldCounts(s: Spec, c: char, arg: Arg, written: nat, size: nat)
    ensures Counts(FieldCount(s, c, arg, written, size), written + |FieldText(s, c, arg)|, size) || written >= size
  {
  }

  /** One turn of the main loop: n characters, and what it counts. */
  lemma CountedStep(fmt: seq<char>, i: nat, args: seq<Arg>, a: nat, written: nat, size: nat)
    returns (i': nat, a': nat, n: nat, written': nat)
    requires i < |fmt| && written < size
    ensures i < i' && Counts(written', written + n, size)
    ensures |Render(fmt, i, args, a)| == n + |Render(fmt, i', args, a')|
    ensures Counted(fmt, i, args, a, written, size) == Counted(fmt, i', args, a', written', size)
  {
    if fmt[i] != '%' {
      i', a', n, written' := i + 1, a, 1, written + 1;
    } else {
      var s := ParseSpec(fmt, i + 1);
      var c, arg := CharAt(fmt, s.at), ArgAt(args, a);
      FieldCounts(s, c, arg, written, size);
      i', a' := s.at + 1, if UsesArg(c) then a + 1 else a;
      n, written' := |FieldText(s, c, arg)|, FieldCount(s, c, arg, written, size);
    }
  }

  /** What the count says about the whole rendering. */
  lemma {:induction false} CountedIsLength(fmt: seq<char>, i: nat, args: seq<Arg>, a: nat, written: nat, size: nat)
    ensures Counts(Counted(fmt, i, args, a, written, size), written + |Render(fmt, i, args, a)|, size)
    decreases |fmt| - i
  {
    if i < |fmt| && written < size {
      var i', a', n, written' := CountedStep(fmt, i, args, a, written, size);
      CountedIsLength(fmt, i', args, a', written', size);
    }
  }

  const INT_LIMIT := 0x8000_0000  // 2^31

  /** The return value is the count as an int. It is the count exactly when that is below
      2^31, and then it is at least the size exactly when the text was cut off. A count from
      there up to 2^32 that fills the buffer comes back negative. */
  lemma ReturnTells(count: nat, length: nat, size: nat)
    requires Counts(count, length, size)
    ensures I32(count) == count <==> count < INT_LIMIT
    ensures count < INT_LIMIT ==> (I32(count) >= size <==> length >= size)
    ensures count < 2 * INT_LIMIT && size > 0 ==>
            ((I32(count) >= size <==> length >= size) <==> count < INT_LIMIT || count < size)
  {
  }

  const HUGE_WIDTH := "a%2147483647d"

  lemma HugeWidthNumber(fmt: seq<char>)
    requires fmt == HUGE_WIDTH
    ensures Number(fmt, 2, 0) == 2147483647
  {
    assert Number(fmt, 11, 214748364) == Number(fmt, 12, 2147483647);
    assert Number(fmt, 9, 2147483) == Number(fmt, 10, 21474836) == Number(fmt, 11, 214748364);
    assert Number(fmt, 7, 21474) == Number(fmt, 8, 214748) == Number(fmt, 9, 2147483);
    assert Number(fmt, 5, 214) == Number(fmt, 6, 2147) == Number(fmt, 7, 21474);
    assert Number(fmt, 3, 2) == Number(fmt, 4, 21) == Number(fmt, 5, 214);
  }

  lemma HugeWidthDigits(fmt: seq<char>)
    requires fmt == HUGE_WIDTH
    ensures SkipDigits(fmt, 2) == 12
  {
    assert SkipDigits(fmt, 10) == SkipDigits(fmt, 11) == SkipDigits(fmt, 12);
    assert SkipDigits(fmt, 7) == SkipDigits(fmt, 8) == SkipDigits(fmt, 9) == SkipDigits(fmt, 10);
    assert SkipDigits(fmt, 4) == SkipDigits(fmt, 5) == SkipDigits(fmt, 6) == SkipDigits(fmt, 7);
  }

  /** A field with a width and nothing else. */
  lemma WidthOnly(fmt: seq<char>, i: nat, j: nat)
    requires CharAt(fmt, i) != '-' && CharAt(fmt, i) != '0' && SkipDigits(fmt, i) == j && CharAt(fmt, j) == 'd'
    ensures ParseSpec(fmt, i) == Spec(false, false, Number(fmt, i, 0), Plain, j)
  {
  }

  /** A one-digit number fills its field. */
  lemma OneDigitField(s: Spec, arg: Arg)
    requires arg == Word(5) && s.modifier == Plain && s.width >= 1
    ensures |FieldText(s, 'd', arg)| == s.width
  {
    assert Signed(arg, s.modifier) == 5;
    assert |Digits(5, 10, false)| == 1;
  }

  /** A format string of one character and one field. */
  lemma CharThenField(fmt: seq<char>, args: seq<Arg>, s: Spec)
    requires |fmt| == 13 && fmt[0] != '%' && fmt[1] == '%' && fmt[12] == 'd' && |args| == 1
    requires s == ParseSpec(fmt, 2) && s.at == 12
    ensures |Render(fmt, 0, args, 0)| == 1 + |FieldText(s, 'd', args[0])|
    ensures Counted(fmt, 0, args, 0, 0, 10) == 1 + |FieldText(s, 'd', args[0])|
  {
    assert Render(fmt, 13, args, 1) == [];
    RenderField(fmt, 1, args, 0, [], s, 'd', 13, 1, FieldText(s, 'd', args[0]));
    assert Counted(fmt, 1, args, 0, 1, 10) == Counted(fmt, 13, args, 1, FieldCount(s, 'd', args[0], 1, 10), 10);
    assert Counted(fmt, 0, args, 0, 0, 10) == Counted(fmt, 1, args, 0, 1, 10);
  }

  /** Such a call: a width of 2147483647 behind one more character. */
  lemma HugeWidth(fmt: seq<char>, args: seq<Arg>)
    requires fmt == HUGE_WIDTH && args == [Word(5)]
    ensures Counted(fmt, 0, args, 0, 0, 10) == INT_LIMIT == |Render(fmt, 0, args, 0)|
    ensures I32(INT_LIMIT) == -INT_LIMIT
  {
    HugeWidthNumber(fmt);
    HugeWidthDigits(fmt);
    WidthOnly(fmt, 2, 12);
    var s := ParseSpec(fmt, 2);
    OneDigitField(s, args[0]);
    CharThenField(fmt, args, s);
  }
}
