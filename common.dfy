/**
 * `IO::Common`: four-character codes (FourCC) and the client versions.
 *
 * A FourCC is written in the source as a four-character string literal and
 * packed into a 32-bit unsigned integer, one character per byte. Characters
 * are modelled as the bytes of the C++ `char`s; a `char` of 0x80 or more is
 * negative where `char` is signed (the x86 ABIs), and promoting it to `int`
 * before the shift extends its sign.
 */
module FourCCs {
  import opened ByteBuffers

  /** Where the first character of the literal goes in the packed value. */
  datatype FourCCEndian =
    | Little  // first character in the most significant byte
    | Big     // first character in the least significant byte

  /** The four characters of a FourCC literal (its terminating NUL dropped). */
  type FourCCText = s: seq<Byte> | |s| == 4 witness [0, 0, 0, 0]

  /** The four bytes of `x`, most significant first. */
  function HighToLow(x: bv32): (bytes: seq<Byte>)
    ensures |bytes| == 4
  {
    [((x >> 24) & 0xFF) as Byte, ((x >> 16) & 0xFF) as Byte, ((x >> 8) & 0xFF) as Byte, (x & 0xFF) as Byte]
  }

  /** `text` back to front. */
  function Reversed(text: FourCCText): (r: FourCCText)
    ensures forall k | 0 <= k < 4 :: r[k] == text[3 - k]
  {
    [text[3], text[2], text[1], text[0]]
  }

  /** The packed value, with each character taken as an unsigned byte. */
  function FourCC(text: FourCCText, endian: FourCCEndian): (x: bv32)
    ensures endian == Little ==> HighToLow(x) == text
    ensures endian == Big ==> HighToLow(x) == Reversed(text)
  {
    var c0, c1, c2, c3 := text[0] as bv32, text[1] as bv32, text[2] as bv32, text[3] as bv32;
    if endian == Big then (c3 << 24) | (c2 << 16) | (c1 << 8) | c0
    else (c0 << 24) | (c1 << 16) | (c2 << 8) | c3
  }

  /** The two byte orders are mirror images of each other. */
  lemma BigIsReversedLittle(text: FourCCText)
    ensures FourCC(text, Big) == FourCC(Reversed(text), Little)
  {
    HighToLowInjective(FourCC(text, Big), FourCC(Reversed(text), Little));
  }

  /** A 32-bit value is determined by its four bytes. */
  lemma HighToLowInjective(x: bv32, y: bv32)
    requires HighToLow(x) == HighToLow(y)
    ensures x == y
  {
    assert HighToLow(x)[0] == HighToLow(y)[0] && HighToLow(x)[1] == HighToLow(y)[1];
    assert HighToLow(x)[2] == HighToLow(y)[2] && HighToLow(x)[3] == HighToLow(y)[3];
  }

  /** A `char` promoted to `int`, as its 32-bit pattern, where `char` is signed. */
  function PromotedChar(c: Byte): (w: bv32)
    ensures c < 0x80 ==> w == c as bv32
    ensures c >= 0x80 ==> w & 0xFF == c as bv32 && w >> 8 == 0xFF_FFFF
  {
    if c < 0x80 then c as bv32 else (c as bv32) | 0xFFFF_FF00
  }

  /** The packed value as the template computes it: promoted `char`s, shifted and or-ed. */
  function FourCCAsWritten(text: FourCCText, endian: FourCCEndian): bv32
  {
    var c0, c1, c2, c3 := PromotedChar(text[0]), PromotedChar(text[1]), PromotedChar(text[2]), PromotedChar(text[3]);
    if endian == Big then Pack(c3, c2, c1, c0) else Pack(c0, c1, c2, c3)
  }

  /** The template's shifts and or-s, from the most significant character to the least. */
  function Pack(hi: bv32, b2: bv32, b1: bv32, lo: bv32): bv32
  {
    (hi << 24) | (b2 << 16) | (b1 << 8) | lo
  }

  /** On ASCII literals, the only ones the library writes, the template packs bytes as intended. */
  lemma AsWrittenAgreesOnAscii(text: FourCCText, endian: FourCCEndian)
    requires forall k | 0 <= k < 4 :: text[k] < 0x80
    ensures FourCCAsWritten(text, endian) == FourCC(text, endian)
  {
    var c0, c1, c2, c3 := text[0] as bv32, text[1] as bv32, text[2] as bv32, text[3] as bv32;
    assert PromotedChar(text[0]) == c0 && PromotedChar(text[1]) == c1;
    assert PromotedChar(text[2]) == c2 && PromotedChar(text[3]) == c3;
    assert FourCCAsWritten(text, endian) == if endian == Big then Pack(c3, c2, c1, c0) else Pack(c0, c1, c2, c3);
  }

  /** A non-ASCII last character spreads its sign over the other three bytes. */
  lemma AsWrittenSignExtends()
    ensures var text: FourCCText := [0x41, 0x41, 0x41, 0x80];
      FourCCAsWritten(text, Little) == 0xFFFF_FF80
      && FourCCToStr(FourCCAsWritten(text, Little), false) != text
      && FourCCToStr(FourCC(text, Little), false) == text
  {
    var text: FourCCText := [0x41, 0x41, 0x41, 0x80];
    assert FourCCAsWritten(text, Little) == 0xFFFF_FF80;
    assert FourCCToStr(0xFFFF_FF80, false)[0] == 0xFF;
    LittleRoundTrip(text);
  }

  // ---------------------------------------------------------------------
  // Unpacking
  // ---------------------------------------------------------------------

  /**
   * The five `char`s of the `FourCCStr` array: the bytes of `x` in the
   * order `endian` packed them, then a NUL.
   */
  function FourCCStr(x: bv32, endian: FourCCEndian): (chars: seq<Byte>)
    ensures |chars| == 5 && chars[4] == 0
    ensures endian == Little ==> chars[..4] == HighToLow(x)
    ensures endian == Big ==> chars[..4] == Reversed(HighToLow(x))
  {
    var big := endian == Big;
    [ (if big then x & 0xFF else (x >> 24) & 0xFF) as Byte,
      (if big then (x >> 8) & 0xFF else (x >> 16) & 0xFF) as Byte,
      (if big then (x >> 16) & 0xFF else (x >> 8) & 0xFF) as Byte,
      (if big then (x >> 24) & 0xFF else x & 0xFF) as Byte,
      0 ]
  }

  /** The five `char`s `FourCCToStr` fills in before building its string. */
  function FourCCToStrChars(x: bv32, reverse: bool): (chars: seq<Byte>)
    ensures |chars| == 5 && chars[4] == 0
  {
    [ (if reverse then x & 0xFF else (x >> 24) & 0xFF) as Byte,
      (if reverse then (x >> 8) & 0xFF else (x >> 16) & 0xFF) as Byte,
      (if reverse then (x >> 16) & 0xFF else (x >> 8) & 0xFF) as Byte,
      (if reverse then (x >> 24) & 0xFF else x & 0xFF) as Byte,
      0 ]
  }

  /** The constant array and the function fill in the same characters for either order. */
  lemma FourCCStrMatchesToStr(x: bv32, endian: FourCCEndian)
    ensures FourCCStr(x, endian) == FourCCToStrChars(x, endian == Big)
  {
  }

  /** The characters of a NUL-terminated array before its first NUL. */
  function UpToNul(chars: seq<Byte>): (s: seq<Byte>)
    ensures |s| <= |chars| && s == chars[..|s|]
    ensures forall k | 0 <= k < |s| :: s[k] != 0
    ensures |s| < |chars| ==> chars[|s|] == 0
  {
    if chars == [] || chars[0] == 0 then [] else [chars[0]] + UpToNul(chars[1..])
  }

  /** The string stops at the latest at a NUL at position `n`. */
  lemma {:induction false} UpToNulStops(chars: seq<Byte>, n: nat)
    requires n < |chars| && chars[n] == 0
    ensures |UpToNul(chars)| <= n
  {
    if chars[0] != 0 {
      UpToNulStops(chars[1..], n - 1);
    }
  }

  /**
   * The string `FourCCToStr` returns: it is built from the character array
   * as a C string, so it ends at the first NUL byte of `x`.
   */
  function FourCCToStr(x: bv32, reverse: bool): (s: seq<Byte>)
    ensures |s| <= 4 && s == FourCCToStrChars(x, reverse)[..|s|]
    ensures |s| == 4 <==> forall k | 0 <= k < 4 :: FourCCToStrChars(x, reverse)[k] != 0
  {
    var chars := FourCCToStrChars(x, reverse);
    UpToNulStops(chars, 4);
    UpToNul(chars)
  }

  /** `FourCCToStr` without reversal undoes the `Little` packing of a literal without NULs. */
  lemma LittleRoundTrip(text: FourCCText)
    requires forall k | 0 <= k < 4 :: text[k] != 0
    ensures FourCCToStr(FourCC(text, Little), false) == text
  {
    var x := FourCC(text, Little);
    assert FourCCToStrChars(x, false)[..4] == HighToLow(x) == text;
  }

  /** `FourCCToStr` with reversal undoes the `Big` packing of a literal without NULs. */
  lemma BigRoundTrip(text: FourCCText)
    requires forall k | 0 <= k < 4 :: text[k] != 0
    ensures FourCCToStr(FourCC(text, Big), true) == text
  {
    var x := FourCC(text, Big);
    assert FourCCToStrChars(x, true)[..4] == Reversed(HighToLow(x)) == text;
  }

  /** A zero byte cuts the string short: a code of 0 prints as the empty string. */
  lemma ZeroPrintsEmpty(reverse: bool)
    ensures FourCCToStr(0, reverse) == []
  {
  }

  // ---------------------------------------------------------------------
  // Client versions
  // ---------------------------------------------------------------------

  datatype ClientVersion =
    | CLASSIC | TBC | WOTLK | CATA | MOP | WOD | LEGION | BFA | SL | DF
    | CLASSIC_NEW | TBC_NEW | WOTLK_NEW

  /** The enumerator's value. */
  function Ordinal(v: ClientVersion): nat
  {
    match v
    case CLASSIC => 0 case TBC => 1 case WOTLK => 2 case CATA => 3 case MOP => 4
    case WOD => 5 case LEGION => 6 case BFA => 7 case SL => 8 case DF => 9
    case CLASSIC_NEW => 100 case TBC_NEW => 101 case WOTLK_NEW => 102
  }

  /** The enumerators in declaration order. */
  const ALL_VERSIONS: seq<ClientVersion> :=
    [CLASSIC, TBC, WOTLK, CATA, MOP, WOD, LEGION, BFA, SL, DF, CLASSIC_NEW, TBC_NEW, WOTLK_NEW]

  /**
   * Declaration order is value order, every version is declared once, and
   * the re-released clients compare above every original one.
   */
  lemma VersionsOrdered()
    ensures forall i, j | 0 <= i < j < |ALL_VERSIONS| :: Ordinal(ALL_VERSIONS[i]) < Ordinal(ALL_VERSIONS[j])
    ensures forall v: ClientVersion :: v in ALL_VERSIONS
    ensures forall v: ClientVersion :: Ordinal(v) <= Ordinal(WOTLK) <==> v in {CLASSIC, TBC, WOTLK}
  {
    forall i, j | 0 <= i < j < |ALL_VERSIONS|
      ensures Ordinal(ALL_VERSIONS[i]) < Ordinal(ALL_VERSIONS[j])
    {
      OrdinalAt(i);
      OrdinalAt(j);
    }
    forall v: ClientVersion
      ensures v in ALL_VERSIONS
    {
      VersionListed(v);
    }
  }

  lemma VersionListed(v: ClientVersion)
    ensures v in ALL_VERSIONS
  {
    assert ALL_VERSIONS[Index(v)] == v;
  }

  /** Where `v` stands in declaration order. */
  function Index(v: ClientVersion): (i: nat)
    ensures i < |ALL_VERSIONS|
  {
    match v
    case CLASSIC => 0 case TBC => 1 case WOTLK => 2 case CATA => 3 case MOP => 4
    case WOD => 5 case LEGION => 6 case BFA => 7 case SL => 8 case DF => 9
    case CLASSIC_NEW => 10 case TBC_NEW => 11 case WOTLK_NEW => 12
  }

  lemma OrdinalAt(i: nat)
    requires i < |ALL_VERSIONS|
    ensures Ordinal(ALL_VERSIONS[i]) == if i < 10 then i else 90 + i
  {
  }
}
