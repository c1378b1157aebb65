/**
  The 8.3 names of FAT32 directory entries: eleven bytes, eight for the base and three for
  the extension, in upper case and padded with blanks. A name is a string without its
  terminating NUL.
*/
module Fat32Name {
  import opened Common

  type Name = seq<Byte>

  const BLANK := 0x20
  const DOT := 0x2E

  predicate IsUpper(b: int) {
    65 <= b <= 90
  }

  predicate IsLower(b: int) {
    97 <= b <= 122
  }

  function Lower(b: Byte): Byte {
    if IsUpper(b) then b + 32 else b
  }

  function Upper(b: Byte): Byte {
    if IsLower(b) then b - 32 else b
  }

  ////// Entry to name

  /** The lower-case bytes from i on, up to a blank. */
  function UpTo(entry: Name, i: nat, end: nat): Name
    requires end <= |entry|
    decreases end - i, entry
  {
    if i >= end || entry[i] == BLANK then [] else [Lower(entry[i])] + UpTo(entry, i + 1, end)
  }

  function Decode(entry: Name): Name
    requires |entry| == 11
  {
    UpTo(entry, 0, 8) + if entry[8] != BLANK then [DOT] + UpTo(entry, 8, 11) else []
  }

  /** fat32_name_from_entry. */
  method NameFromEntry(entry: Name) returns (name: Name)
    requires |entry| == 11
    ensures name == Decode(entry)
  {
    name := CopyPart(entry, 0, 8);
    if entry[8] != BLANK {
      var extension := CopyPart(entry, 8, 11);
      name := name + [DOT] + extension;
    }
  }

  /** The copying loop, which ends at a blank. */
  method CopyPart(entry: Name, start: nat, end: nat) returns (part: Name)
    requires start <= end <= |entry|
    ensures part == UpTo(entry, start, end)
  {
    part := [];
    var i := start;
    while i < end && entry[i] != BLANK
      invariant start <= i <= end && part + UpTo(entry, i, end) == UpTo(entry, start, end)
    {
      part := part + [if IsUpper(entry[i]) then entry[i] + 32 else entry[i]];
      i := i + 1;
    }
  }

  ////// Name to entry

  /** Where the base ends: at a dot, at the end of the name, or after eight bytes. */
  function BaseEnd(name: Name, i: nat): (k: nat)
    requires i <= 8 && i <= |name|
    ensures i <= k <= 8 && k <= |name|
    decreases 8 - i, name
  {
    if i < |name| && name[i] != DOT && i < 8 then BaseEnd(name, i + 1) else i
  }

  /** Where the extension is taken from: one dot is skipped. */
  function ExtStart(name: Name): (x: nat)
    ensures x <= |name|
  {
    var k := BaseEnd(name, 0);
    if k < |name| && name[k] == DOT then k + 1 else k
  }

  function EntryByte(name: Name, p: nat): Byte {
    if p < 8 then
      if p < BaseEnd(name, 0) then Upper(name[p]) else BLANK
    else
      if ExtStart(name) + (p - 8) < |name| then Upper(name[ExtStart(name) + (p - 8)]) else BLANK
  }

  function Encode(name: Name): (entry: Name)
    ensures |entry| == 11 && forall p :: 0 <= p < 11 ==> entry[p] == EntryByte(name, p)
  {
    seq(11, p requires 0 <= p => EntryByte(name, p))
  }

  /** fat32_name_to_entry. */
  method NameToEntry(name: Name) returns (entry: Name)
    ensures entry == Encode(name)
  {
    var dest := new Byte[11](_ => BLANK);
    var i := 0;
    while i < |name| && name[i] != DOT && i < 8
      invariant 0 <= i <= 8 && i <= |name| && BaseEnd(name, i) == BaseEnd(name, 0)
      invariant forall p :: 0 <= p < 11 ==> dest[p] == if p < i then Upper(name[p]) else BLANK
    {
      dest[i] := if IsLower(name[i]) then name[i] - 32 else name[i];
      i := i + 1;
    }
    if i < |name| && name[i] == DOT {
      i := i + 1;
    }
    var j := 8;
    while i < |name| && j < 11
      invariant 8 <= j <= 11 && i == ExtStart(name) + (j - 8) && i <= |name|
      invariant forall p :: 0 <= p < 11 ==> dest[p] == if p < j then EntryByte(name, p) else BLANK
    {
      dest[j] := if IsLower(name[i]) then name[i] - 32 else name[i];
      j := j + 1;
      i := i + 1;
    }
    entry := dest[..];
  }

  ////// The codec

  predicate Plain(name: Name) {
    forall i :: 0 <= i < |name| ==> name[i] != BLANK && !IsUpper(name[i])
  }

  /** Lower-case names with a base of at most eight bytes and, after a dot, an extension of
      one to three. */
  predicate Canonical(name: Name) {
    var k := BaseEnd(name, 0);
    && (k == |name| || (name[k] == DOT && 1 <= |name| - k - 1 <= 3))
    && Plain(name)
  }

  lemma {:induction false} BaseEndIs(name: Name, i: nat, k: nat)
    requires i <= k <= 8 && k <= |name| && (k == 8 || k == |name| || name[k] == DOT)
    requires forall j :: i <= j < k ==> name[j] != DOT
    ensures BaseEnd(name, i) == k
    decreases k - i
  {
    if i < k {
      BaseEndIs(name, i + 1, k);
    }
  }

  lemma {:induction false} BaseHasNoDot(name: Name, i: nat, j: nat)
    requires i <= 8 && i <= |name| && i <= j < BaseEnd(name, i)
    ensures name[j] != DOT
    decreases 8 - i
  {
    if i < j {
      BaseHasNoDot(name, i + 1, j);
    }
  }

  /** What a copied part looks like. */
  lemma {:induction false} UpToShape(entry: Name, i: nat, end: nat)
    requires i <= end <= |entry|
    ensures var part := UpTo(entry, i, end);
            && |part| <= end - i && Plain(part)
            && (forall j :: 0 <= j < |part| ==> part[j] == Lower(entry[i + j]) && entry[i + j] != BLANK)
            && (|part| < end - i ==> entry[i + |part|] == BLANK)
    decreases end - i
  {
    if i < end && entry[i] != BLANK {
      UpToShape(entry, i + 1, end);
      var part, rest := UpTo(entry, i, end), UpTo(entry, i + 1, end);
      forall j | 0 <= j < |part|
        ensures part[j] == Lower(entry[i + j]) && entry[i + j] != BLANK
      {
        if j > 0 {
          assert part[j] == rest[j - 1] == Lower(entry[i + 1 + (j - 1)]);
        }
      }
    }
  }

  /** When a copied part is exactly s. */
  lemma {:induction false} UpToIs(entry: Name, i: nat, end: nat, s: Name)
    requires i + |s| <= end <= |entry| && Plain(s)
    requires forall j :: 0 <= j < |s| ==> entry[i + j] == Upper(s[j])
    requires i + |s| < end ==> entry[i + |s|] == BLANK
    ensures UpTo(entry, i, end) == s
    decreases |s|
  {
    if s != [] {
      assert entry[i + 0] == Upper(s[0]);
      forall j | 0 <= j < |s[1..]|
        ensures entry[i + 1 + j] == Upper(s[1..][j])
      {
        assert entry[i + (j + 1)] == Upper(s[j + 1]);
      }
      UpToIs(entry, i + 1, end, s[1..]);
    }
  }

  lemma CanonicalRoundTrip(name: Name)
    requires Canonical(name)
    ensures Decode(Encode(name)) == name
  {
    var k, x, entry := BaseEnd(name, 0), ExtStart(name), Encode(name);
    var base, ext := name[..k], name[x..];
    UpToIs(entry, 0, 8, base);
    assert k == |name| ==> ext == [];
    UpToIs(entry, 8, 11, ext);
    assert name == if k < |name| then base + [DOT] + ext else base;
  }

  /** The base of an encoded name: no longer than the name's own, and without a dot. */
  lemma DecodedBase(name: Name)
    ensures var base := UpTo(Encode(name), 0, 8);
            && |base| <= BaseEnd(name, 0) && Plain(base)
            && forall j :: 0 <= j < |base| ==> base[j] != DOT
  {
    var k, entry := BaseEnd(name, 0), Encode(name);
    var base := UpTo(entry, 0, 8);
    UpToShape(entry, 0, 8);
    forall j | 0 <= j < |base|
      ensures entry[j] != BLANK
    {
      assert base[j] == Lower(entry[0 + j]);
    }
    assert k < 8 ==> entry[k] == EntryByte(name, k) == BLANK;
    forall j | 0 <= j < |base|
      ensures base[j] != DOT
    {
      BaseHasNoDot(name, 0, j);
      assert base[j] == Lower(entry[0 + j]) && entry[j] == EntryByte(name, j) == Upper(name[j]);
    }
  }

  /** A base without a dot and a short extension make a canonical name. */
  lemma PartsAreCanonical(name: Name, base: Name, ext: Name)
    requires |base| <= 8 && Plain(base) && Plain(ext) && (forall j :: 0 <= j < |base| ==> base[j] != DOT)
    requires name == base || (name == base + [DOT] + ext && 1 <= |ext| <= 3)
    ensures Canonical(name)
  {
    assert forall j :: 0 <= j < |base| ==> name[j] == base[j];
    BaseEndIs(name, 0, |base|);
    if name != base {
      forall i | 0 <= i < |name|
        ensures name[i] != BLANK && !IsUpper(name[i])
      {
        assert i > |base| ==> name[i] == ext[i - |base| - 1];
      }
    }
  }

  lemma RoundTripIsCanonical(name: Name)
    requires Decode(Encode(name)) == name
    ensures Canonical(name)
  {
    var entry := Encode(name);
    DecodedBase(name);
    UpToShape(entry, 8, 11);
    PartsAreCanonical(name, UpTo(entry, 0, 8), UpTo(entry, 8, 11));
  }

  /** Decoding the encoding gives back exactly the canonical names. */
  lemma DecodeEncodeIff(name: Name)
    requires Lacks(name, 0)
    ensures Decode(Encode(name)) == name <==> Canonical(name)
  {
    if Canonical(name) {
      CanonicalRoundTrip(name);
    }
    if Decode(Encode(name)) == name {
      RoundTripIsCanonical(name);
    }
  }

  /** Different canonical names have different entries. */
  lemma EncodeIsInjective(a: Name, b: Name)
    requires Canonical(a) && Canonical(b) && Encode(a) == Encode(b)
    ensures a == b
  {
    CanonicalRoundTrip(a);
    CanonicalRoundTrip(b);
  }

  /** The first blank from i on, or the end. */
  function BlankAt(entry: Name, i: nat, end: nat): (b: nat)
    requires i <= end <= |entry|
    ensures i <= b <= end
    decreases end - i, entry
  {
    if i == end || entry[i] == BLANK then i else BlankAt(entry, i + 1, end)
  }

  /** Upper case, no dot in the base, and both parts padded with blanks. */
  predicate Padded(entry: Name)
    requires |entry| == 11
  {
    && (forall p :: BlankAt(entry, 0, 8) <= p < 8 ==> entry[p] == BLANK)
    && (forall p :: BlankAt(entry, 8, 11) <= p < 11 ==> entry[p] == BLANK)
    && (forall p :: 0 <= p < 11 ==> !IsLower(entry[p]))
    && (forall p :: 0 <= p < BlankAt(entry, 0, 8) ==> entry[p] != DOT)
  }

  lemma {:induction false} UpToLength(entry: Name, i: nat, end: nat)
    requires i <= end <= |entry|
    ensures i + |UpTo(entry, i, end)| == BlankAt(entry, i, end)
    decreases end - i
  {
    if i < end && entry[i] != BLANK {
      UpToLength(entry, i + 1, end);
    }
  }

  lemma {:induction false} BlankAtIs(entry: Name, i: nat, end: nat, b: nat)
    requires i <= b <= end <= |entry| && (b < end ==> entry[b] == BLANK)
    requires forall p :: i <= p < b ==> entry[p] != BLANK
    ensures BlankAt(entry, i, end) == b
    decreases b - i
  {
    if i < b {
      BlankAtIs(entry, i + 1, end, b);
    }
  }

  lemma PaddedRoundTrip(entry: Name)
    requires |entry| == 11 && Padded(entry)
    ensures Encode(Decode(entry)) == entry
  {
    var base, ext, name := UpTo(entry, 0, 8), UpTo(entry, 8, 11), Decode(entry);
    UpToShape(entry, 0, 8);
    UpToShape(entry, 8, 11);
    UpToLength(entry, 0, 8);
    UpToLength(entry, 8, 11);
    assert forall j :: 0 <= j < |base| ==> name[j] == base[j] != DOT;
    BaseEndIs(name, 0, |base|);
    forall p: nat | p < 11
      ensures EntryByte(name, p) == entry[p]
    {
      if 8 <= p < 8 + |ext| {
        assert name[ExtStart(name) + (p - 8)] == ext[p - 8] == Lower(entry[8 + (p - 8)]);
      }
    }
  }

  lemma BasePartOfEncode(name: Name)
    requires forall i :: 0 <= i < |name| ==> name[i] != BLANK
    ensures BlankAt(Encode(name), 0, 8) == BaseEnd(name, 0)
    ensures forall p :: 0 <= p < BaseEnd(name, 0) ==> Encode(name)[p] != DOT
  {
    var k, entry := BaseEnd(name, 0), Encode(name);
    forall p | 0 <= p < k
      ensures entry[p] != BLANK && entry[p] != DOT
    {
      BaseHasNoDot(name, 0, p);
      assert entry[p] == EntryByte(name, p) == Upper(name[p]);
    }
    BlankAtIs(entry, 0, 8, k);
  }

  lemma ExtPartOfEncode(name: Name)
    requires forall i :: 0 <= i < |name| ==> name[i] != BLANK
    ensures forall p :: BlankAt(Encode(name), 8, 11) <= p < 11 ==> Encode(name)[p] == BLANK
  {
    var x, entry := ExtStart(name), Encode(name);
    var e := if x + 3 < |name| then 11 else 8 + (|name| - x);
    forall p | 8 <= p < 11
      ensures if p < e then entry[p] != BLANK else entry[p] == BLANK
    {
      assert entry[p] == EntryByte(name, p);
    }
    BlankAtIs(entry, 8, 11, e);
  }

  lemma EncodeIsPadded(name: Name)
    requires forall i :: 0 <= i < |name| ==> name[i] != BLANK
    ensures Padded(Encode(name))
  {
    BasePartOfEncode(name);
    ExtPartOfEncode(name);
    forall p | 0 <= p < 11
      ensures !IsLower(Encode(name)[p])
    {
      assert Encode(name)[p] == EntryByte(name, p);
    }
  }

  lemma DecodeHasNoBlank(entry: Name)
    requires |entry| == 11
    ensures forall i :: 0 <= i < |Decode(entry)| ==> Decode(entry)[i] != BLANK
  {
    UpToShape(entry, 0, 8);
    UpToShape(entry, 8, 11);
  }

  /** Encoding the decoding gives back exactly the padded upper-case entries. */
  lemma EncodeDecodeIff(entry: Name)
    requires |entry| == 11 && Lacks(entry, 0)
    ensures Encode(Decode(entry)) == entry <==> Padded(entry)
  {
    if Padded(entry) {
      PaddedRoundTrip(entry);
    }
    if Encode(Decode(entry)) == entry {
      DecodeHasNoBlank(entry);
      EncodeIsPadded(Decode(entry));
    }
  }

  ////// Names that are not canonical

  function LowerCase(name: Name): (r: Name)
    ensures |r| == |name|
    ensures forall i :: 0 <= i < |name| ==> r[i] == if 65 <= name[i] <= 90 then name[i] + 32 else name[i]
  {
    seq(|name|, i requires 0 <= i < |name| => Lower(name[i]))
  }

  lemma {:induction false} BaseEndOfLower(name: Name, i: nat)
    requires i <= 8 && i <= |name|
    ensures BaseEnd(LowerCase(name), i) == BaseEnd(name, i)
    decreases 8 - i
  {
    if i < |name| && name[i] != DOT && i < 8 {
      BaseEndOfLower(name, i + 1);
    }
  }

  /** Capital and small letters make the same entry, which has no small ones. */
  lemma EncodeIgnoresCase(name: Name)
    ensures Encode(LowerCase(name)) == Encode(name)
    ensures forall p :: 0 <= p < 11 ==> !(97 <= Encode(name)[p] <= 122)
  {
    BaseEndOfLower(name, 0);
  }

  /** A name whose base is too long is cut into a base of eight and an extension of three: it has
      the entry of another name, with a dot behind the eighth byte. */
  lemma EncodeSplitsLong(name: Name)
    requires |name| > 8 && forall i :: 0 <= i <= 8 ==> name[i] != DOT
    ensures Encode(name) == Encode(name[..8] + [DOT] + name[8..])
    ensures forall p :: 0 <= p < 11 && p < |name| ==>
              Encode(name)[p] == if 97 <= name[p] <= 122 then name[p] - 32 else name[p]
  {
    var dotted := name[..8] + [DOT] + name[8..];
    BaseEndIs(name, 0, 8);
    BaseEndIs(dotted, 0, 8);
    forall p | 0 <= p < 11
      ensures EntryByte(name, p) == EntryByte(dotted, p)
    {
    }
  }
}
