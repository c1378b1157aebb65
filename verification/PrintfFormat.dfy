/**
  Format strings as they are written, from literal characters and fields, and the proof that
  vsnprintf's text means what was written.
*/
module PrintfFormat {
  import opened Common
  import opened PrintfModel
  import opened PrintfFields

  /** A character that stands for itself, or a field: its flags, the digits of its width, its
      precision with the point, its length modifier and its conversion. */
  datatype Piece =
    | Literal(c: char)
    | Field(left: bool, zero: bool, width: seq<char>, precision: seq<char>, modifier: seq<char>, conversion: char)

  predicate AllDigits(s: seq<char>) {
    forall i :: 0 <= i < |s| ==> IsDigit(s[i])
  }

  predicate IsPrecision(s: seq<char>) {
    s == [] || (s[0] == '.' && AllDigits(s[1..]))
  }

  /** A width begins with a digit other than 0, unless the flag 0 is in front of it, and is an int. */
  predicate IsWidth(s: seq<char>, zero: bool) {
    AllDigits(s) && (s == [] || s[0] != '0' || zero) && ValueOf(s, 10) < INT_LIMIT
  }

  /** A conversion is none of the characters that come before it in a field. */
  predicate IsConversion(c: char) {
    !IsDigit(c) && c != '-' && c != '.' && c != 'h' && c != 'l' && c != 'z'
  }

  predicate IsPiece(p: Piece) {
    match p
    case Literal(c) => c != '%'
    case Field(_, zero, width, precision, modifier, c) =>
      IsWidth(width, zero) && IsPrecision(precision) && IsModifier(modifier) && IsConversion(c)
  }

  function Flag(on: bool, c: char): seq<char> {
    if on then [c] else []
  }

  function Written(p: Piece): (s: seq<char>)
    ensures |s| > 0
  {
    match p
    case Literal(c) => [c]
    case Field(left, zero, width, precision, modifier, c) =>
      "%" + Flag(left, '-') + Flag(zero, '0') + width + precision + modifier + [c]
  }

  /** The format string. */
  function Format(pieces: seq<Piece>): seq<char> {
    if pieces == [] then [] else Written(pieces[0]) + Format(pieces[1..])
  }

  ////// What it means

  predicate TakesArgument(p: Piece) {
    p.Field? && (IsInteger(p.conversion) || p.conversion in {'s', 'c', 'f', 'p'})
  }

  ghost predicate PieceMeans(text: seq<char>, p: Piece, arg: Arg) {
    match p
    case Literal(c) => text == [c]
    case Field(left, zero, width, _, modifier, c) =>
      FieldMeans(text, left, zero, ValueOf(width, 10), modifier, c, arg)
  }

  /** The texts of the pieces one behind another, each with the next argument if it takes one. */
  ghost predicate Means(text: seq<char>, pieces: seq<Piece>, args: seq<Arg>) {
    if pieces == [] then text == []
    else
      var rest := if TakesArgument(pieces[0]) && args != [] then args[1..] else args;
      exists k: nat :: k <= |text| && PieceMeans(text[..k], pieces[0], if args == [] then Null else args[0])
                       && Means(text[k..], pieces[1..], rest)
  }

  ////// Parsing what was written

  predicate At(fmt: seq<char>, i: nat, s: seq<char>) {
    i + |s| <= |fmt| && fmt[i..i + |s|] == s
  }

  lemma AtParts(fmt: seq<char>, i: nat, s: seq<char>, t: seq<char>)
    requires At(fmt, i, s + t)
    ensures At(fmt, i, s) && At(fmt, i + |s|, t)
  {
    assert (s + t)[..|s|] == s && (s + t)[|s|..] == t;
    assert fmt[i..i + |s + t|][..|s|] == fmt[i..i + |s|];
    assert fmt[i..i + |s + t|][|s|..] == fmt[i + |s|..i + |s + t|];
  }

  lemma AtFirst(fmt: seq<char>, i: nat, s: seq<char>)
    requires At(fmt, i, s) && s != []
    ensures CharAt(fmt, i) == s[0]
  {
    assert fmt[i..i + |s|][0] == fmt[i];
  }

  lemma AtRest(fmt: seq<char>, i: nat, s: seq<char>)
    requires At(fmt, i, s) && s != []
    ensures At(fmt, i + 1, s[1..])
  {
    assert [s[0]] + s[1..] == s;
    AtParts(fmt, i, [s[0]], s[1..]);
  }

  lemma {:induction false} SkipsDigits(fmt: seq<char>, i: nat, s: seq<char>)
    requires At(fmt, i, s) && AllDigits(s) && !IsDigit(CharAt(fmt, i + |s|))
    ensures SkipDigits(fmt, i) == i + |s|
    decreases |s|
  {
    if s != [] {
      AtFirst(fmt, i, s);
      AtRest(fmt, i, s);
      SkipsDigits(fmt, i + 1, s[1..]);
    }
  }

  /** The front of a decimal numeral stands for no more than the whole. */
  lemma {:induction false} FrontValue(s: seq<char>, k: nat)
    requires AllDigits(s) && k <= |s|
    ensures 0 <= ValueOf(s[..k], 10) <= ValueOf(s, 10)
    decreases |s|
  {
    if s != [] {
      var front := s[..|s| - 1];
      if k < |s| {
        FrontValue(front, k);
        assert s[..k] == front[..k];
      } else {
        FrontValue(front, |front|);
        assert s[..k] == s && front[..|front|] == front;
      }
    }
  }

  /** The width loop has read the first k digits. */
  lemma {:induction false} ReadsFront(fmt: seq<char>, i: nat, s: seq<char>, k: nat)
    requires At(fmt, i, s) && AllDigits(s) && ValueOf(s, 10) < INT_LIMIT && k <= |s|
    ensures Number(fmt, i, 0) == Number(fmt, i + k, ValueOf(s[..k], 10))
    decreases k
  {
    if k > 0 {
      var front := s[..k - 1];
      ReadsFront(fmt, i, s, k - 1);
      assert s[..k] == front + [s[k - 1]];
      ValueOfMore(front, s[k - 1], 10);
      FrontValue(s, k);
      assert fmt[i..i + |s|][k - 1] == fmt[i + k - 1];
    }
  }

  lemma ReadsNumber(fmt: seq<char>, i: nat, s: seq<char>)
    requires At(fmt, i, s) && AllDigits(s) && ValueOf(s, 10) < INT_LIMIT && !IsDigit(CharAt(fmt, i + |s|))
    ensures Number(fmt, i, 0) == ValueOf(s, 10)
  {
    ReadsFront(fmt, i, s, |s|);
    assert s[..|s|] == s;
  }

  lemma ReadsFlag(fmt: seq<char>, i: nat, on: bool, c: char)
    requires c != '\0' && At(fmt, i, Flag(on, c)) && (!on ==> CharAt(fmt, i) != c)
    ensures Step(fmt, i, c) == i + |Flag(on, c)|
  {
    if on {
      AtFirst(fmt, i, Flag(on, c));
    }
  }

  lemma ReadsPrecision(fmt: seq<char>, i: nat, s: seq<char>)
    requires At(fmt, i, s) && IsPrecision(s) && !IsDigit(CharAt(fmt, i + |s|))
    requires s == [] ==> CharAt(fmt, i) != '.'
    ensures ModifierAt(fmt, i) == i + |s|
  {
    if s != [] {
      AtFirst(fmt, i, s);
      AtRest(fmt, i, s);
      SkipsDigits(fmt, i + 1, s[1..]);
    }
  }

  lemma ReadsModifier(fmt: seq<char>, i: nat, s: seq<char>)
    requires At(fmt, i, s) && IsModifier(s) && IsConversion(CharAt(fmt, i + |s|))
    ensures ModifierOf(fmt, i) == (ModifierNamed(s), i + |s|)
  {
    if s != [] {
      AtFirst(fmt, i, s);
      AtRest(fmt, i, s);
      if |s| == 2 {
        AtFirst(fmt, i + 1, s[1..]);
      }
    }
  }

  ////// The parts of a field

  function FromModifier(p: Piece): seq<char>
    requires p.Field?
  {
    p.modifier + [p.conversion]
  }

  function FromPrecision(p: Piece): seq<char>
    requires p.Field?
  {
    p.precision + FromModifier(p)
  }

  function FromWidth(p: Piece): seq<char>
    requires p.Field?
  {
    p.width + FromPrecision(p)
  }

  function FromZero(p: Piece): seq<char>
    requires p.Field?
  {
    Flag(p.zero, '0') + FromWidth(p)
  }

  lemma WrittenParts(p: Piece)
    requires p.Field?
    ensures Written(p) == "%" + (Flag(p.left, '-') + FromZero(p))
  {
    var front := "%" + Flag(p.left, '-');
    Associate(front + Flag(p.zero, '0') + p.width, p.precision, FromModifier(p));
    Associate(front + Flag(p.zero, '0') + p.width + p.precision, p.modifier, [p.conversion]);
    Associate(front + Flag(p.zero, '0'), p.width, FromPrecision(p));
    Associate(front, Flag(p.zero, '0'), FromWidth(p));
    Associate("%", Flag(p.left, '-'), FromZero(p));
  }

  /** The first characters tell where a part ends. */
  lemma FirstCharacters(p: Piece)
    requires p.Field? && IsPiece(p)
    ensures !IsDigit(FromModifier(p)[0]) && FromModifier(p)[0] != '.' && FromModifier(p)[0] != '-'
    ensures !IsDigit(FromPrecision(p)[0]) && FromPrecision(p)[0] != '-'
    ensures FromWidth(p)[0] != '-' && (!p.zero ==> FromWidth(p)[0] != '0') && FromZero(p)[0] != '-'
  {
    assert p.modifier == [] ==> FromModifier(p)[0] == p.conversion;
    assert p.modifier != [] ==> FromModifier(p)[0] == p.modifier[0];
    assert p.precision == [] ==> FromPrecision(p) == FromModifier(p);
    assert p.width == [] ==> FromWidth(p) == FromPrecision(p);
    assert !p.zero ==> FromZero(p) == FromWidth(p);
  }

  lemma ParsesModifier(fmt: seq<char>, i: nat, p: Piece, at: nat)
    requires p.Field? && IsPiece(p) && At(fmt, i, FromModifier(p)) && at == i + |p.modifier|
    ensures ModifierOf(fmt, i) == (ModifierNamed(p.modifier), at) && CharAt(fmt, at) == p.conversion
  {
    AtParts(fmt, i, p.modifier, [p.conversion]);
    AtFirst(fmt, at, [p.conversion]);
    ReadsModifier(fmt, i, p.modifier);
  }

  lemma ParsesTail(fmt: seq<char>, i: nat, p: Piece, at: nat) returns (j: nat)
    requires p.Field? && IsPiece(p) && At(fmt, i, FromPrecision(p)) && at + 1 == i + |FromPrecision(p)|
    ensures ModifierAt(fmt, i) == j
    ensures ModifierOf(fmt, j) == (ModifierNamed(p.modifier), at) && CharAt(fmt, at) == p.conversion
  {
    j := i + |p.precision|;
    FirstCharacters(p);
    AtParts(fmt, i, p.precision, FromModifier(p));
    AtFirst(fmt, j, FromModifier(p));
    ReadsPrecision(fmt, i, p.precision);
    ParsesModifier(fmt, j, p, at);
  }

  lemma ParsesWidth(fmt: seq<char>, i: nat, p: Piece, end: nat) returns (j: nat)
    requires p.Field? && IsPiece(p) && At(fmt, i, FromWidth(p)) && end == i + |FromWidth(p)|
    ensures Number(fmt, i, 0) == ValueOf(p.width, 10) && SkipDigits(fmt, i) == j
    ensures At(fmt, j, FromPrecision(p)) && end == j + |FromPrecision(p)|
  {
    j := i + |p.width|;
    FirstCharacters(p);
    AtParts(fmt, i, p.width, FromPrecision(p));
    AtFirst(fmt, j, FromPrecision(p));
    ReadsNumber(fmt, i, p.width);
    SkipsDigits(fmt, i, p.width);
  }

  lemma ParsesFlag(fmt: seq<char>, i: nat, on: bool, c: char, tail: seq<char>)
    requires c != '\0' && At(fmt, i, Flag(on, c) + tail) && tail != [] && (!on ==> tail[0] != c)
    ensures Step(fmt, i, c) == i + |Flag(on, c)| && At(fmt, i + |Flag(on, c)|, tail)
  {
    AtParts(fmt, i, Flag(on, c), tail);
    AtFirst(fmt, i + |Flag(on, c)|, tail);
    ReadsFlag(fmt, i, on, c);
  }

  lemma ParsesFlags(fmt: seq<char>, i: nat, p: Piece, end: nat) returns (i1: nat, i2: nat)
    requires p.Field? && IsPiece(p) && At(fmt, i, Written(p)) && end == i + |Written(p)|
    ensures CharAt(fmt, i) == '%' && Step(fmt, i + 1, '-') == i1 && Step(fmt, i1, '0') == i2
    ensures p.left == (i1 > i + 1) && p.zero == (i2 > i1)
    ensures At(fmt, i2, FromWidth(p)) && end == i2 + |FromWidth(p)|
  {
    i1 := i + 1 + |Flag(p.left, '-')|;
    i2 := i1 + |Flag(p.zero, '0')|;
    WrittenParts(p);
    FirstCharacters(p);
    AtFirst(fmt, i, Written(p));
    AtParts(fmt, i, "%", Flag(p.left, '-') + FromZero(p));
    ParsesFlag(fmt, i + 1, p.left, '-', FromZero(p));
    ParsesFlag(fmt, i1, p.zero, '0', FromWidth(p));
  }

  lemma SpecOf(fmt: seq<char>, i: nat, i1: nat, i2: nat, i3: nat, i4: nat, s: Spec)
    requires i1 == Step(fmt, i, '-') && i2 == Step(fmt, i1, '0') && i3 == SkipDigits(fmt, i2)
    requires i4 == ModifierAt(fmt, i3) && ModifierOf(fmt, i4) == (s.modifier, s.at)
    requires s.left == (i1 > i) && s.zero == (i2 > i1) && s.width == Number(fmt, i2, 0)
    ensures ParseSpec(fmt, i) == s
  {
  }

  /** What vsnprintf reads of a field is what was written. */
  lemma ParsesField(fmt: seq<char>, i: nat, p: Piece, at: nat)
    requires p.Field? && IsPiece(p) && At(fmt, i, Written(p)) && at + 1 == i + |Written(p)|
    ensures ParseSpec(fmt, i + 1) == Spec(p.left, p.zero, ValueOf(p.width, 10), ModifierNamed(p.modifier), at)
    ensures CharAt(fmt, at) == p.conversion && CharAt(fmt, i) == '%'
  {
    var i1, i2 := ParsesFlags(fmt, i, p, at + 1);
    var i3 := ParsesWidth(fmt, i2, p, at + 1);
    var i4 := ParsesTail(fmt, i3, p, at);
    SpecOf(fmt, i + 1, i1, i2, i3, i4, Spec(p.left, p.zero, ValueOf(p.width, 10), ModifierNamed(p.modifier), at));
  }

  ////// The rendering means what was written

  function ArgsFrom(args: seq<Arg>, a: nat): seq<Arg> {
    if a <= |args| then args[a..] else []
  }

  lemma RendersField(fmt: seq<char>, i: nat, p: Piece, arg: Arg, s: Spec, i': nat)
    requires IsPiece(p) && p.Field? && At(fmt, i, Written(p)) && i' == i + |Written(p)| && s == ParseSpec(fmt, i + 1)
    ensures PieceMeans(FieldText(s, p.conversion, arg), p, arg)
    ensures CharAt(fmt, i) == '%' && CharAt(fmt, s.at) == p.conversion && s.at + 1 == i'
  {
    ParsesField(fmt, i, p, i' - 1);
    FrontValue(p.width, 0);
    FieldTextMeans(s, p.modifier, p.conversion, arg);
  }

  lemma RenderIs(fmt: seq<char>, i: nat, args: seq<Arg>, a: nat, s: Spec, c: char, i': nat, a': nat)
    requires CharAt(fmt, i) == '%' && s == ParseSpec(fmt, i + 1) && c == CharAt(fmt, s.at)
    requires i' == s.at + 1 && a' == (if UsesArg(c) then a + 1 else a)
    ensures Render(fmt, i, args, a) == FieldText(s, c, ArgAt(args, a)) + Render(fmt, i', args, a')
  {
  }

  /** One piece of the format string. */
  lemma RendersPiece(fmt: seq<char>, i: nat, p: Piece, args: seq<Arg>, a: nat, i': nat, a': nat)
    returns (piece: seq<char>)
    requires IsPiece(p) && At(fmt, i, Written(p)) && i' == i + |Written(p)|
    requires a' == if TakesArgument(p) then a + 1 else a
    ensures PieceMeans(piece, p, ArgAt(args, a)) && Render(fmt, i, args, a) == piece + Render(fmt, i', args, a')
  {
    if p.Literal? {
      piece := [p.c];
      AtFirst(fmt, i, [p.c]);
    } else {
      var s := ParseSpec(fmt, i + 1);
      piece := FieldText(s, p.conversion, ArgAt(args, a));
      RendersField(fmt, i, p, ArgAt(args, a), s, i');
      RenderIs(fmt, i, args, a, s, p.conversion, i', a');
    }
  }

  lemma MeansMore(text: seq<char>, piece: seq<char>, more: seq<char>, p: Piece, pieces: seq<Piece>, arg: Arg,
                  args: seq<Arg>, rest: seq<Arg>, takes: bool)
    requires pieces != [] && p == pieces[0] && text == piece + more && Means(more, pieces[1..], rest)
    requires arg == if args == [] then Null else args[0]
    requires rest == if takes && args != [] then args[1..] else args
    ensures takes == TakesArgument(p) && PieceMeans(piece, p, arg) ==> Means(text, pieces, args)
  {
    var k := |piece|;
    assert text[..k] == piece && text[k..] == more;
  }

  /** One piece, and what is left behind it. */
  lemma RendersFirst(fmt: seq<char>, i: nat, pieces: seq<Piece>, args: seq<Arg>, a: nat, text: seq<char>, takes: bool)
    returns (piece: seq<char>, more: seq<char>, i': nat, a': nat)
    requires i <= |fmt| && fmt[i..] == Format(pieces) && pieces != [] && IsPiece(pieces[0])
    requires text == Render(fmt, i, args, a) && takes == TakesArgument(pieces[0])
    ensures i <= i' <= |fmt| && fmt[i'..] == Format(pieces[1..]) && a' == if takes then a + 1 else a
    ensures text == piece + more && more == Render(fmt, i', args, a')
    ensures PieceMeans(piece, pieces[0], ArgAt(args, a))
  {
    i', a' := i + |Written(pieces[0])|, if takes then a + 1 else a;
    SplitFormat(fmt, i, pieces[0], pieces[1..], i');
    more := Render(fmt, i', args, a');
    piece := RendersPiece(fmt, i, pieces[0], args, a, i', a');
  }

  /** What is rendered from a place where a piece begins. */
  lemma {:induction false} RenderMeans(fmt: seq<char>, i: nat, pieces: seq<Piece>, args: seq<Arg>, a: nat,
                                       text: seq<char>, left: seq<Arg>)
    requires i <= |fmt| && fmt[i..] == Format(pieces) && forall j :: 0 <= j < |pieces| ==> IsPiece(pieces[j])
    requires text == Render(fmt, i, args, a) && left == ArgsFrom(args, a)
    ensures Means(text, pieces, left)
    decreases |pieces|
  {
    if pieces == [] {
      assert fmt[i..] == [];
    } else {
      var takes := TakesArgument(pieces[0]);
      var piece, more, i', a' := RendersFirst(fmt, i, pieces, args, a, text, takes);
      var left' := ArgsFrom(args, a');
      RenderMeans(fmt, i', pieces[1..], args, a', more, left');
      NextArgument(args, a, takes);
      MeansMore(text, piece, more, pieces[0], pieces, ArgAt(args, a), left, left', takes);
    }
  }

  lemma NextArgument(args: seq<Arg>, a: nat, takes: bool)
    ensures ArgAt(args, a) == if ArgsFrom(args, a) == [] then Null else ArgsFrom(args, a)[0]
    ensures var left := ArgsFrom(args, a);
            ArgsFrom(args, if takes then a + 1 else a) == if takes && left != [] then left[1..] else left
  {
  }

  lemma SplitFormat(fmt: seq<char>, i: nat, p: Piece, rest: seq<Piece>, i': nat)
    requires i <= |fmt| && fmt[i..] == Written(p) + Format(rest) && i' == i + |Written(p)|
    ensures i' <= |fmt| && At(fmt, i, Written(p)) && fmt[i'..] == Format(rest)
  {
    var w := Written(p);
    assert fmt[i..][..|w|] == w && fmt[i..][|w|..] == Format(rest);
  }

  /** The whole format string, and all its arguments. */
  lemma WholeRenderMeans(pieces: seq<Piece>, args: seq<Arg>)
    requires forall j :: 0 <= j < |pieces| ==> IsPiece(pieces[j])
    ensures Means(Render(Format(pieces), 0, args, 0), pieces, args)
  {
    var fmt := Format(pieces);
    assert fmt[0..] == fmt && args[0..] == args;
    RenderMeans(fmt, 0, pieces, args, 0, Render(fmt, 0, args, 0), args);
  }
}
