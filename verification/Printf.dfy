/**
  vsnprintf: characters go to a buffer of limited size and are counted even when they no
  longer fit.
*/
module Printf {
  import opened Common
  import opened PrintfModel

  /** printf_state_t. */
  class Output {
    const str: array<char>
    const size: nat
    var written: nat

    constructor (str: array<char>, size: nat)
      ensures this.str == str && this.size == size && written == 0
    {
      this.str, this.size, written := str, size, 0;
    }

    /** The buffer shows as much of the text as fits, and is what it was everywhere else; the
        count is exact as long as all of it fits. */
    ghost predicate Shows(before: seq<char>, text: seq<char>)
      reads this`written, str
    {
      && size <= str.Length == |before|
      && (if |text| < size then written == |text| else size <= written <= |text|)
      && (forall p :: 0 <= p < str.Length ==> str[p] == if p < size && p < |text| then text[p] else before[p])
    }

    /** out_char. */
    method OutChar(c: char, ghost before: seq<char>, ghost text: seq<char>)
      requires Shows(before, text)
      modifies str, this`written
      ensures Shows(before, text + [c]) && written == old(written) + 1
    {
      if written < size {
        str[written] := c;
      }
      written := written + 1;
    }

    /** out_string, up to the end of the string. */
    method OutString(s: seq<char>, ghost before: seq<char>, ghost text: seq<char>)
      requires Shows(before, text)
      modifies str, this`written
      ensures Shows(before, text + s) && written == old(written) + |s|
    {
      var i := 0;
      assert text + s[..0] == text;
      while i < |s|
        invariant 0 <= i <= |s| && Shows(before, text + s[..i]) && written == old(written) + i
      {
        assert text + s[..i + 1] == text + s[..i] + [s[i]];
        OutChar(s[i], before, text + s[..i]);
        i := i + 1;
      }
      assert s[..i] == s;
    }

    /** The padding of a number, which goes on to its end. */
    method OutRepeated(c: char, n: int, ghost before: seq<char>, ghost text: seq<char>)
      requires Shows(before, text)
      modifies str, this`written
      ensures Shows(before, text + Repeat(c, n)) && written == old(written) + |Repeat(c, n)|
    {
      var i := 0;
      assert text + Repeat(c, 0) == text;
      while i < n
        invariant 0 <= i && (i <= n || i == 0) && Shows(before, text + Repeat(c, i)) && written == old(written) + i
      {
        assert text + Repeat(c, i + 1) == text + Repeat(c, i) + [c];
        OutChar(c, before, text + Repeat(c, i));
        i := i + 1;
      }
      assert n <= 0 ==> Repeat(c, n) == Repeat(c, 0);
    }

    /** The padding of a string or character, which stops when the buffer is full. */
    method OutPadding(n: int, ghost before: seq<char>, ghost text: seq<char>)
      requires Shows(before, text)
      modifies str, this`written
      ensures Shows(before, text + Repeat(' ', n)) && written == PaddedCount(old(written), n, size)
    {
      var i := 0;
      assert text + Repeat(' ', 0) == text;
      while i < n && written < size
        invariant 0 <= i && (i <= n || i == 0) && Shows(before, text + Repeat(' ', i)) && written == old(written) + i
        invariant i > 0 ==> written <= size
      {
        assert text + Repeat(' ', i + 1) == text + Repeat(' ', i) + [' '];
        OutChar(' ', before, text + Repeat(' ', i));
        i := i + 1;
      }
      if i < n {
        RepeatGrows(' ', i, n);
        Enough(before, text + Repeat(' ', i), text + Repeat(' ', n));
      } else {
        assert n <= 0 ==> Repeat(' ', n) == Repeat(' ', 0);
      }
    }

    method OutSign(negative: bool, ghost before: seq<char>, ghost text: seq<char>)
      requires Shows(before, text)
      modifies str, this`written
      ensures Shows(before, text + Sign(negative)) && written == old(written) + |Sign(negative)|
    {
      assert text + [] == text;
      if negative {
        OutChar('-', before, text);
      }
    }

    /** out_num. */
    method OutNum(num: nat, base: nat, width: int, zero: bool, upper: bool, negative: bool, ghost before: seq<char>,
                  ghost text: seq<char>)
      requires Shows(before, text) && 10 <= base <= 16 && num < 0x1_0000_0000_0000_0000
      modifies str, this`written
      ensures Shows(before, text + NumText(num, base, width, zero, upper, negative))
      ensures written == old(written) + |NumText(num, base, width, zero, upper, negative)|
    {
      var digits := ItoaBase(num, base, upper);
      var totalLength := |digits| + if negative then 1 else 0;
      var pad := if width > totalLength then width - totalLength else 0;
      var filler := if zero then '0' else ' ';
      NumTextParts(num, base, width, zero, upper, negative, pad, text);
      OutSign(negative, before, text);
      OutRepeated(filler, pad, before, text + Sign(negative));
      OutString(digits, before, text + Sign(negative) + Repeat(filler, pad));
    }

    /** Strings and characters: padded on the left or on the right. */
    method OutAligned(s: seq<char>, width: int, left: bool, ghost before: seq<char>, ghost text: seq<char>)
      requires Shows(before, text)
      modifies str, this`written
      ensures Shows(before, text + Aligned(s, width, left))
      ensures written == AlignedCount(|s|, width, left, old(written), size)
    {
      ghost var padding := Repeat(' ', width - |s|);
      if left {
        OutString(s, before, text);
        OutPadding(width - |s|, before, text + s);
        assert text + s + padding == text + Aligned(s, width, left);
      } else {
        OutPadding(width - |s|, before, text);
        OutString(s, before, text + padding);
        assert text + padding + s == text + Aligned(s, width, left);
      }
    }

    /** Signed numbers: a negative one gives up one column of its width. */
    method OutSigned(s: Spec, arg: Arg, ghost before: seq<char>, ghost text: seq<char>)
      requires Shows(before, text)
      modifies str, this`written
      ensures Shows(before, text + SignedText(s, Signed(arg, s.modifier)))
      ensures written == old(written) + |SignedText(s, Signed(arg, s.modifier))|
    {
      var n := Signed(arg, s.modifier);
      var negative := n < 0;
      var width := if negative then I32(s.width - 1) else s.width;
      OutNum(if negative then -n else n, 10, width, s.zero, false, negative, before, text);
    }

    method OutUnsigned(s: Spec, arg: Arg, base: nat, upper: bool, ghost before: seq<char>, ghost text: seq<char>)
      requires Shows(before, text) && 10 <= base <= 16
      modifies str, this`written
      ensures Shows(before, text + UnsignedText(s, arg, base, upper))
      ensures written == old(written) + |UnsignedText(s, arg, base, upper)|
    {
      OutNum(Unsigned(arg, s.modifier), base, s.width, s.zero, upper, false, before, text);
    }

    method OutPointer(arg: Arg, ghost before: seq<char>, ghost text: seq<char>)
      requires Shows(before, text)
      modifies str, this`written
      ensures Shows(before, text + PointerText(arg)) && written == old(written) + |PointerText(arg)|
    {
      OutString("0x", before, text);
      OutNum(BitsOf(arg), 16, 16, true, false, false, before, text + "0x");
      assert text + "0x" + NumText(BitsOf(arg), 16, 16, true, false, false) == text + PointerText(arg);
    }

    /** A conversion that is not known is copied, unless the format string ends there. */
    method OutUnknown(c: char, ghost before: seq<char>, ghost text: seq<char>)
      requires Shows(before, text)
      modifies str, this`written
      ensures Shows(before, text + UnknownText(c)) && written == old(written) + |UnknownText(c)|
    {
      OutChar('%', before, text);
      if c != '\0' {
        OutChar(c, before, text + ['%']);
        assert text + ['%'] + [c] == text + UnknownText(c);
      }
    }

    /** The conversions of numbers. */
    method OutInteger(s: Spec, c: char, arg: Arg, ghost before: seq<char>, ghost text: seq<char>)
      requires Shows(before, text) && (c == 'd' || c == 'i' || c == 'u' || c == 'x' || c == 'X')
      modifies str, this`written
      ensures Shows(before, text + FieldText(s, c, arg)) && written == old(written) + |FieldText(s, c, arg)|
    {
      if c == 'd' || c == 'i' {
        OutSigned(s, arg, before, text);
      } else if c == 'u' {
        OutUnsigned(s, arg, 10, false, before, text);
      } else {
        OutUnsigned(s, arg, 16, c == 'X', before, text);
      }
    }

    /** The conversion of one field. */
    method OutField(s: Spec, c: char, arg: Arg, ghost before: seq<char>, ghost text: seq<char>)
      requires Shows(before, text)
      modifies str, this`written
      ensures Shows(before, text + FieldText(s, c, arg)) && written == FieldCount(s, c, arg, old(written), size)
    {
      if c == 's' {
        OutAligned(StringOf(arg), s.width, s.left, before, text);
      } else if c == 'c' {
        OutAligned([CharOf(arg)], s.width, s.left, before, text);
      } else if c == 'd' || c == 'i' || c == 'u' || c == 'x' || c == 'X' {
        OutInteger(s, c, arg, before, text);
      } else if c == 'f' {
        OutString(FloatOf(arg), before, text);
      } else if c == 'p' {
        OutPointer(arg, before, text);
      } else if c == '%' {
        OutChar('%', before, text);
      } else {
        OutUnknown(c, before, text);
      }
    }

    /** A percent sign and what belongs to it. */
    method OutPercent(fmt: seq<char>, i: nat, args: seq<Arg>, a: nat, ghost before: seq<char>, ghost text: seq<char>)
      returns (i': nat, a': nat, ghost text': seq<char>)
      requires Shows(before, text) && i < |fmt| && fmt[i] == '%' && written < size && Lacks(fmt, '\0')
      modifies str, this`written
      ensures i < i' && Shows(before, text')
      ensures text + Render(fmt, i, args, a) == text' + Render(fmt, i', args, a')
      ensures Counted(fmt, i, args, a, old(written), size) == Counted(fmt, i', args, a', written, size)
    {
      var s := Parse(fmt, i + 1);
      var c := CharAt(fmt, s.at);
      var arg := ArgAt(args, a);
      ghost var piece := FieldText(s, c, arg);
      i', a', text' := s.at + 1, if UsesArg(c) then a + 1 else a, text + piece;
      RenderField(fmt, i, args, a, text, s, c, i', a', piece);
      OutField(s, c, arg, before, text);
      CountedField(fmt, i, args, a, s, c, i', a', old(written), written, size);
    }

    /** One turn of the main loop. */
    method OutNext(fmt: seq<char>, i: nat, args: seq<Arg>, a: nat, ghost before: seq<char>, ghost text: seq<char>)
      returns (i': nat, a': nat, ghost text': seq<char>)
      requires Shows(before, text) && i < |fmt| && written < size && Lacks(fmt, '\0')
      modifies str, this`written
      ensures i < i' && Shows(before, text')
      ensures text + Render(fmt, i, args, a) == text' + Render(fmt, i', args, a')
      ensures Counted(fmt, i, args, a, old(written), size) == Counted(fmt, i', args, a', written, size)
    {
      if fmt[i] != '%' {
        OutChar(fmt[i], before, text);
        i', a', text' := i + 1, a, text + [fmt[i]];
        RenderChar(fmt, i, args, a, text);
      } else {
        i', a', text' := OutPercent(fmt, i, args, a, before, text);
      }
    }

    /** The main loop: text is added until the format string or the buffer ends. */
    method Format(fmt: seq<char>, args: seq<Arg>)
      requires Shows(str[..], []) && written == 0 && size > 0 && Lacks(fmt, '\0')
      modifies str, this`written
      ensures Shows(old(str[..]), Render(fmt, 0, args, 0)) && written == Counted(fmt, 0, args, 0, 0, size)
    {
      ghost var before, text, whole := str[..], [], Render(fmt, 0, args, 0);
      var i, a: nat := 0, 0;
      while i < |fmt| && written < size
        invariant Shows(before, text) && whole == text + Render(fmt, i, args, a)
        invariant Counted(fmt, i, args, a, written, size) == Counted(fmt, 0, args, 0, 0, size)
        decreases |fmt| - i
      {
        i, a, text := OutNext(fmt, i, args, a, before, text);
      }
      if i < |fmt| {
        Enough(before, text, whole);
      }
    }

    /** Once the buffer is full, what more there is to show makes no difference. */
    lemma Enough(before: seq<char>, text: seq<char>, longer: seq<char>)
      requires Shows(before, text) && written >= size && text <= longer
      ensures Shows(before, longer)
    {
    }
  }

  /** vsnprintf. The count is returned as an int. */
  method VsnPrintf(str: array<char>, size: nat, fmt: seq<char>, args: seq<Arg>) returns (result: int)
    requires size <= str.Length && Lacks(fmt, '\0')
    modifies str
    ensures size == 0 ==> result == 0 && str[..] == old(str[..])
    ensures size > 0 ==> Stored(old(str[..]), str[..], size, Render(fmt, 0, args, 0))
    ensures size > 0 ==> result == I32(Counted(fmt, 0, args, 0, 0, size))
    ensures size > 0 && Counted(fmt, 0, args, 0, 0, size) < INT_LIMIT ==>
              && (result >= size <==> |Render(fmt, 0, args, 0)| >= size)
              && (result < size ==> result == |Render(fmt, 0, args, 0)|)
  {
    if size == 0 {
      return 0;
    }
    var state := new Output(str, size);
    state.Format(fmt, args);
    CountedIsLength(fmt, 0, args, 0, 0, size);
    ReturnTells(state.written, |Render(fmt, 0, args, 0)|, size);
    if state.written < size {
      str[state.written] := '\0';
    } else {
      str[size - 1] := '\0';
    }
    result := I32(state.written);
  }

  /** The first characters of the text, as many as fit, then NUL; nothing else is touched. */
  ghost predicate Stored(before: seq<char>, after: seq<char>, size: nat, text: seq<char>) {
    var n := if |text| < size then |text| else size - 1;
    && |after| == |before| && 0 <= n < |after|
    && after[..n] == text[..n] && after[n] == '\0' && after[n + 1..] == before[n + 1..]
  }

  ////// Format specifications

  /** The flags, width, precision and length modifier after a percent sign. */
  method Parse(fmt: seq<char>, start: nat) returns (s: Spec)
    requires start <= |fmt| && Lacks(fmt, '\0')
    ensures s == ParseSpec(fmt, start)
  {
    var i := start;
    var left, zero := false, false;
    if CharAt(fmt, i) == '-' {
      left := true;
      i := i + 1;
    }
    if CharAt(fmt, i) == '0' {
      zero := true;
      i := i + 1;
    }
    var width;
    width, i := ParseNumber(fmt, i);
    if CharAt(fmt, i) == '.' {
      var _, j := ParseNumber(fmt, i + 1);
      i := j;
    }
    var modifier;
    modifier, i := ParseModifier(fmt, i);
    s := Spec(left, zero, width, modifier, i);
  }

  method ParseNumber(fmt: seq<char>, start: nat) returns (n: int, i: nat)
    ensures n == Number(fmt, start, 0) && i == SkipDigits(fmt, start)
  {
    n, i := 0, start;
    while IsDigit(CharAt(fmt, i))
      invariant Number(fmt, i, n) == Number(fmt, start, 0) && SkipDigits(fmt, i) == SkipDigits(fmt, start)
      decreases |fmt| - i
    {
      n := I32(n * 10 + (fmt[i] as int - '0' as int));
      i := i + 1;
    }
  }

  method ParseModifier(fmt: seq<char>, start: nat) returns (m: Modifier, i: nat)
    ensures (m, i) == ModifierOf(fmt, start)
  {
    m, i := Plain, start;
    if CharAt(fmt, i) == 'h' {
      i := i + 1;
      if CharAt(fmt, i) == 'h' {
        m, i := Char, i + 1;
      } else {
        m := Short;
      }
    } else if CharAt(fmt, i) == 'l' {
      i := i + 1;
      if CharAt(fmt, i) == 'l' {
        m, i := LongLong, i + 1;
      } else {
        m := Long;
      }
    } else if CharAt(fmt, i) == 'z' {
      m, i := Long, i + 1;
    }
  }

  lemma {:induction false} RepeatGrows(c: char, i: nat, n: nat)
    requires i <= n
    ensures Repeat(c, i) <= Repeat(c, n)
    decreases n
  {
    if i < n {
      RepeatGrows(c, i, n - 1);
    }
  }

  /** itoa_base: the digits are produced from the last to the first and then reversed in place. */
  method ItoaBase(number: nat, base: nat, upper: bool) returns (text: seq<char>)
    requires 10 <= base <= 16 && number < 0x1_0000_0000_0000_0000
    ensures text == Digits(number, base, upper)
  {
    var buf := new char[64];
    var p := Produce(buf, number, base, upper);
    ReverseInPlace(buf, p);
    text := buf[..p];
  }

  method Produce(buf: array<char>, number: nat, base: nat, upper: bool) returns (p: nat)
    requires buf.Length == 64 && 10 <= base <= 16 && number < 0x1_0000_0000_0000_0000
    modifies buf
    ensures p < 64 && Reversed(buf[..p]) == Digits(number, base, upper)
  {
    if number == 0 {
      buf[0] := '0';
      p := 1;
      ReversedCons('0', []);
      assert buf[..1] == ['0'] + [];
    } else {
      p := ProduceDigits(buf, number, base, upper);
      ProducedIsReversed(number, base, upper);
    }
  }

  /** The division loop. */
  method ProduceDigits(buf: array<char>, number: nat, base: nat, upper: bool) returns (p: nat)
    requires buf.Length == 64 && 10 <= base <= 16 && 0 < number < 0x1_0000_0000_0000_0000
    modifies buf
    ensures p < 64 && buf[..p] == Produced(number, base, upper)
  {
    p := 0;
    ProducedLength(number, base, upper);
    var num: nat := number;
    while num > 0
      invariant p <= 20 && Progress(buf[..p], num, base, upper, number)
      decreases num
    {
      num := PutDigit(buf, p, num, base, upper, number);
      p := p + 1;
    }
  }

  /** The digits so far and those of what is left make up the digits of the number. */
  ghost predicate Progress(s: seq<char>, num: nat, base: nat, upper: bool, number: nat) {
    && 10 <= base <= 16 && |Produced(number, base, upper)| <= 20
    && s + Produced(num, base, upper) == Produced(number, base, upper)
  }

  /** One turn of the division loop. */
  method PutDigit(buf: array<char>, p: nat, num: nat, base: nat, upper: bool, ghost number: nat) returns (q: nat)
    requires p <= 20 && buf.Length == 64 && num > 0 && Progress(buf[..p], num, base, upper, number)
    modifies buf
    ensures p < 20 && q < num && Progress(buf[..p + 1], q, base, upper, number)
  {
    ghost var s := buf[..p];
    var c;
    c, q := NextDigit(num, base, upper);
    buf[p] := c;
    assert buf[..p + 1] == s + [c];
  }

  method NextDigit(num: nat, base: nat, upper: bool) returns (c: char, q: nat)
    requires 10 <= base <= 16 && num > 0
    ensures Produced(num, base, upper) == [c] + Produced(q, base, upper) && q < num
  {
    ghost var _, _ := Divide(num, base);
    c, q := Digit(num % base, upper), num / base;
  }

  method ReverseInPlace(buf: array<char>, n: nat)
    requires 0 < n <= buf.Length
    modifies buf
    ensures buf[..n] == Reversed(old(buf[..n]))
  {
    ghost var was := buf[..n];
    var start, end := 0, n - 1;
    while start < end
      invariant 0 <= start <= n && start + end == n - 1
      invariant forall i :: start <= i <= end ==> buf[i] == was[i]
      invariant forall i :: 0 <= i < start ==> buf[i] == was[n - 1 - i]
      invariant forall i :: end < i < n ==> buf[i] == was[n - 1 - i]
    {
      buf[start], buf[end] := buf[end], buf[start];
      start, end := start + 1, end - 1;
    }
    forall i | 0 <= i < n
      ensures buf[i] == Reversed(was)[i]
    {
      ReversedAt(was, i);
    }
  }
}
