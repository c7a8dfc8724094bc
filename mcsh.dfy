/**
 * MCSH: the shadow map of a terrain chunk, 64x64 one-bit pixels stored in
 * the file as 512 bytes. Byte i holds pixels i*8 .. i*8+7, least significant
 * bit first. Reading can copy row 62 into row 63 and then column 62 into
 * column 63.
 *
 * The input buffer is passed as its contents and its read cursor; the bytes
 * `Write` appends to its buffer are returned.
 */
module ShadowMaps {
  import opened Wrappers
  import opened ByteBuffers

  const SHADOW_DIM: nat := 64
  const N_SHADOW_PIXELS: nat := 4096
  const N_SHADOW_BYTES: nat := 512

  /** A shadow map, row-major: pixel (row, col) is at row * 64 + col. */
  type Shadowmap = m: seq<bool> | |m| == N_SHADOW_PIXELS witness seq(N_SHADOW_PIXELS, _ => false)

  /** The byte with only bit `j` set (`std::bitset<8>` position `j`). */
  function Mask(j: nat): (mask: Byte)
    requires j < 8
  {
    if j == 0 then 0x01 else if j == 1 then 0x02 else if j == 2 then 0x04 else if j == 3 then 0x08
    else if j == 4 then 0x10 else if j == 5 then 0x20 else if j == 6 then 0x40 else 0x80
  }

  /** Bit `j` of `b`, counting from the least significant. */
  predicate Bit(b: Byte, j: nat)
    requires j < 8
  {
    b & Mask(j) != 0
  }

  /** The bits of `b`, least significant first. */
  function Bits(b: Byte): (bits: seq<bool>)
    ensures |bits| == 8 && forall j | 0 <= j < 8 :: bits[j] == Bit(b, j)
  {
    seq(8, j requires 0 <= j < 8 => Bit(b, j))
  }

  /** The byte whose bits below `n` are `bits[0..n]` and whose other bits are clear. */
  function PackPrefix(bits: seq<bool>, n: nat): (b: Byte)
    requires n <= |bits| && n <= 8
  {
    if n == 0 then 0
    else PackPrefix(bits, n - 1) | (if bits[n - 1] then Mask(n - 1) else 0)
  }

  lemma {:induction false} PackPrefixBits(bits: seq<bool>, n: nat)
    requires n <= |bits| && n <= 8
    ensures forall j | 0 <= j < 8 :: Bit(PackPrefix(bits, n), j) == (j < n && bits[j])
  {
    if n > 0 {
      PackPrefixBits(bits, n - 1);
      var low := PackPrefix(bits, n - 1);
      var bit: Byte := if bits[n - 1] then Mask(n - 1) else 0;
      forall j | 0 <= j < 8
        ensures Bit(low | bit, j) == (j < n && bits[j])
      {
        OrBit(low, bit, j);
        MaskBit(n - 1, j);
      }
    }
  }

  lemma OrBit(x: Byte, y: Byte, j: nat)
    requires j < 8
    ensures Bit(x | y, j) == (Bit(x, j) || Bit(y, j))
  {
  }

  lemma MaskBit(i: nat, j: nat)
    requires i < 8 && j < 8
    ensures Bit(Mask(i), j) == (i == j) && !Bit(0, j)
  {
  }

  /** The byte holding eight pixels, the first in the least significant bit. */
  function PackByte(bits: seq<bool>): (b: Byte)
    requires |bits| == 8
    ensures Bits(b) == bits
  {
    PackPrefixBits(bits, 8);
    PackPrefix(bits, 8)
  }

  /** A byte is determined by its eight bits. */
  lemma BitsDetermine(x: Byte, y: Byte)
    requires Bits(x) == Bits(y)
    ensures x == y
  {
    forall j | 0 <= j < 8
      ensures x & Mask(j) == y & Mask(j)
    {
      assert Bits(x)[j] == Bits(y)[j];
      MaskedEqual(x, y, j);
    }
    MasksDetermine(x, y);
  }

  lemma MaskedEqual(x: Byte, y: Byte, j: nat)
    requires j < 8 && Bit(x, j) == Bit(y, j)
    ensures x & Mask(j) == y & Mask(j)
  {
  }

  lemma MasksDetermine(x: Byte, y: Byte)
    requires forall j | 0 <= j < 8 :: x & Mask(j) == y & Mask(j)
    ensures x == y
  {
    assert x & 0x01 == y & 0x01 && x & 0x02 == y & 0x02 && x & 0x04 == y & 0x04 && x & 0x08 == y & 0x08 by {
      assert x & Mask(0) == y & Mask(0) && x & Mask(1) == y & Mask(1);
      assert x & Mask(2) == y & Mask(2) && x & Mask(3) == y & Mask(3);
    }
    assert x & 0x10 == y & 0x10 && x & 0x20 == y & 0x20 && x & 0x40 == y & 0x40 && x & 0x80 == y & 0x80 by {
      assert x & Mask(4) == y & Mask(4) && x & Mask(5) == y & Mask(5);
      assert x & Mask(6) == y & Mask(6) && x & Mask(7) == y & Mask(7);
    }
  }

  /** Packing the bits of a byte gives the byte back. */
  lemma PackBits(b: Byte)
    ensures PackByte(Bits(b)) == b
  {
    BitsDetermine(PackByte(Bits(b)), b);
  }

  // ---------------------------------------------------------------------
  // The map as a function of the stored bytes
  // ---------------------------------------------------------------------

  /** The map stored in 512 bytes: pixel i*8+j is bit j of byte i. */
  function Unpack(bytes: seq<Byte>): (m: Shadowmap)
    requires |bytes| == N_SHADOW_BYTES
    ensures forall i, j | 0 <= i < N_SHADOW_BYTES && 0 <= j < 8 :: m[i * 8 + j] == Bit(bytes[i], j)
  {
    var m := seq(N_SHADOW_PIXELS, k requires 0 <= k < N_SHADOW_PIXELS => Bit(bytes[k / 8], k % 8));
    assert forall i, j | 0 <= i < N_SHADOW_BYTES && 0 <= j < 8 :: m[i * 8 + j] == Bit(bytes[i], j) by {
      forall i, j | 0 <= i < N_SHADOW_BYTES && 0 <= j < 8
        ensures m[i * 8 + j] == Bit(bytes[i], j)
      {
        DivModByte(i, j);
      }
    }
    m
  }

  lemma DivModByte(i: nat, j: nat)
    requires j < 8
    ensures (i * 8 + j) / 8 == i && (i * 8 + j) % 8 == j
  {
  }

  lemma DivModRow(row: nat, col: nat)
    requires col < 64
    ensures (row * 64 + col) / 64 == row && (row * 64 + col) % 64 == col
  {
  }

  /** The 512 bytes storing a map: byte i packs pixels i*8 .. i*8+7. */
  function Pack(m: Shadowmap): (bytes: seq<Byte>)
    ensures |bytes| == N_SHADOW_BYTES
    ensures forall i, j | 0 <= i < N_SHADOW_BYTES && 0 <= j < 8 :: Bit(bytes[i], j) == m[i * 8 + j]
  {
    var bytes := seq(N_SHADOW_BYTES, i requires 0 <= i < N_SHADOW_BYTES => PackByte(m[i * 8..i * 8 + 8]));
    assert forall i, j | 0 <= i < N_SHADOW_BYTES && 0 <= j < 8 ::
      Bit(bytes[i], j) == Bits(bytes[i])[j] == m[i * 8..i * 8 + 8][j];
    bytes
  }

  /** Writing a map that was read without the fix-up reproduces the bytes read. */
  lemma PackUnpack(bytes: seq<Byte>)
    requires |bytes| == N_SHADOW_BYTES
    ensures Pack(Unpack(bytes)) == bytes
  {
    var m := Unpack(bytes);
    forall i | 0 <= i < N_SHADOW_BYTES
      ensures Pack(m)[i] == bytes[i]
    {
      assert Bits(Pack(m)[i]) == Bits(bytes[i]);
      BitsDetermine(Pack(m)[i], bytes[i]);
    }
  }

  /** Reading the bytes a map was written as gives the map back. */
  lemma UnpackPack(m: Shadowmap)
    ensures Unpack(Pack(m)) == m
  {
    var r := Unpack(Pack(m));
    forall k | 0 <= k < N_SHADOW_PIXELS
      ensures r[k] == m[k]
    {
      assert k == (k / 8) * 8 + k % 8;
    }
  }

  /** Pixel (row, col) of `m`. */
  function Pixel(m: Shadowmap, row: nat, col: nat): bool
    requires row < SHADOW_DIM && col < SHADOW_DIM
  {
    m[row * 64 + col]
  }

  /** `m` with row 63 replaced by row 62. */
  function FixRow(m: Shadowmap): (r: Shadowmap)
    ensures forall row, col | 0 <= row < SHADOW_DIM && 0 <= col < SHADOW_DIM ::
      Pixel(r, row, col) == if row == 63 then Pixel(m, 62, col) else Pixel(m, row, col)
  {
    seq(N_SHADOW_PIXELS, k requires 0 <= k < N_SHADOW_PIXELS => if k >= 63 * 64 then m[k - 64] else m[k])
  }

  /** `m` with column 63 replaced by column 62, in every row. */
  function FixColumn(m: Shadowmap): (r: Shadowmap)
    ensures forall row, col | 0 <= row < SHADOW_DIM && 0 <= col < SHADOW_DIM ::
      Pixel(r, row, col) == if col == 63 then Pixel(m, row, 62) else Pixel(m, row, col)
  {
    var r := seq(N_SHADOW_PIXELS, k requires 0 <= k < N_SHADOW_PIXELS => if k % 64 == 63 then m[k - 1] else m[k]);
    assert forall row, col | 0 <= row < SHADOW_DIM && 0 <= col < SHADOW_DIM ::
      Pixel(r, row, col) == if col == 63 then Pixel(m, row, 62) else Pixel(m, row, col) by {
      forall row, col | 0 <= row < SHADOW_DIM && 0 <= col < SHADOW_DIM
        ensures Pixel(r, row, col) == if col == 63 then Pixel(m, row, 62) else Pixel(m, row, col)
      {
        DivModRow(row, col);
      }
    }
    r
  }

  /**
   * The fix-up: row 63 copies row 62, then column 63 copies column 62, so
   * the corner pixel comes from (62, 62). Everything else is kept, and
   * afterwards the last row and column repeat their neighbours.
   */
  function Fixed(m: Shadowmap): (r: Shadowmap)
    ensures forall col | 0 <= col < 63 :: Pixel(r, 63, col) == Pixel(m, 62, col)
    ensures forall row | 0 <= row < 63 :: Pixel(r, row, 63) == Pixel(m, row, 62)
    ensures Pixel(r, 63, 63) == Pixel(m, 62, 62)
    ensures forall row, col | 0 <= row < 63 && 0 <= col < 63 :: Pixel(r, row, col) == Pixel(m, row, col)
    ensures forall col | 0 <= col < SHADOW_DIM :: Pixel(r, 63, col) == Pixel(r, 62, col)
    ensures forall row | 0 <= row < SHADOW_DIM :: Pixel(r, row, 63) == Pixel(r, row, 62)
  {
    FixColumn(FixRow(m))
  }

  /** Fixing an already fixed map changes nothing. */
  lemma FixedIdempotent(m: Shadowmap)
    ensures Fixed(Fixed(m)) == Fixed(m)
  {
    var f := Fixed(m);
    forall k | 0 <= k < N_SHADOW_PIXELS
      ensures Fixed(f)[k] == f[k]
    {
      var row, col := k / 64, k % 64;
      assert k == row * 64 + col;
      assert Pixel(Fixed(f), row, col) == Pixel(f, row, col);
    }
  }

  /** The map `Read` leaves behind. */
  function ReadMap(bytes: seq<Byte>, fix: bool): (m: Shadowmap)
    requires |bytes| == N_SHADOW_BYTES
  {
    if fix then Fixed(Unpack(bytes)) else Unpack(bytes)
  }

  // ---------------------------------------------------------------------
  // The chunk object
  // ---------------------------------------------------------------------

  /** The shadow map of one chunk, held as a fixed-size bit array. */
  class Mcsh {
    const shadow: array<bool>

    /** All 4096 bits start clear. */
    constructor ()
      ensures fresh(shadow) && shadow.Length == N_SHADOW_PIXELS
      ensures forall k | 0 <= k < N_SHADOW_PIXELS :: !shadow[k]
    {
      shadow := new bool[N_SHADOW_PIXELS](_ => false);
    }

    /**
     * Reads 512 bytes at the cursor `at` and returns the cursor after them;
     * a buffer too short to hold them is `None` and leaves the map as it was.
     */
    method Read(input: seq<Byte>, at: nat, fix: bool) returns (r: Option<nat>)
      requires shadow.Length == N_SHADOW_PIXELS
      modifies shadow
      ensures r.Some? <==> at + N_SHADOW_BYTES <= |input|
      ensures r.Some? ==> r.value == at + N_SHADOW_BYTES
      ensures r.Some? ==> shadow[..] == ReadMap(input[at..at + N_SHADOW_BYTES], fix)
      ensures r.None? ==> shadow[..] == old(shadow[..])
    {
      if at + N_SHADOW_BYTES > |input| {
        return None;
      }
      var bytes := input[at..at + N_SHADOW_BYTES];
      var i := 0;
      while i < N_SHADOW_BYTES
        invariant i <= N_SHADOW_BYTES
        invariant forall k | 0 <= k < i * 8 :: shadow[k] == Unpack(bytes)[k]
      {
        SetByte(i, bytes[i], Unpack(bytes));
        i := i + 1;
      }
      assert shadow[..] == Unpack(bytes);
      if fix {
        FixLastRow();
        FixLastColumn();
      }
      return Some(at + N_SHADOW_BYTES);
    }

    /** Sets pixels i*8 .. i*8+7 to the bits of `b`, least significant first. */
    method SetByte(i: nat, b: Byte, ghost m: Shadowmap)
      requires shadow.Length == N_SHADOW_PIXELS && i < N_SHADOW_BYTES
      requires forall j | 0 <= j < 8 :: m[i * 8 + j] == Bit(b, j)
      requires forall k | 0 <= k < i * 8 :: shadow[k] == m[k]
      modifies shadow
      ensures forall k | 0 <= k < (i + 1) * 8 :: shadow[k] == m[k]
    {
      var j := 0;
      while j < 8
        invariant j <= 8
        invariant forall k | 0 <= k < i * 8 + j :: shadow[k] == m[k]
      {
        shadow[i * 8 + j] := Bit(b, j);
        j := j + 1;
      }
    }

    /** Copies row 62 into row 63. */
    method FixLastRow()
      requires shadow.Length == N_SHADOW_PIXELS
      modifies shadow
      ensures shadow[..] == FixRow(old(shadow[..]))
    {
      ghost var m: Shadowmap := shadow[..];
      var i := 0;
      while i < SHADOW_DIM
        invariant i <= SHADOW_DIM
        invariant forall k | 0 <= k < N_SHADOW_PIXELS && !(63 * 64 <= k < 63 * 64 + i) :: shadow[k] == m[k]
        invariant forall k | 63 * 64 <= k < 63 * 64 + i :: shadow[k] == m[k - 64]
      {
        shadow[63 * 64 + i] := shadow[62 * 64 + i];
        i := i + 1;
      }
      assert shadow[..] == FixRow(m);
    }

    /** Copies column 62 into column 63, row by row. */
    method FixLastColumn()
      requires shadow.Length == N_SHADOW_PIXELS
      modifies shadow
      ensures shadow[..] == FixColumn(old(shadow[..]))
    {
      ghost var m: Shadowmap := shadow[..];
      var i := 0;
      while i < SHADOW_DIM
        invariant i <= SHADOW_DIM
        invariant forall k | 0 <= k < N_SHADOW_PIXELS && !(k % 64 == 63 && k < i * 64) :: shadow[k] == m[k]
        invariant forall k | 0 <= k < i * 64 && k % 64 == 63 :: shadow[k] == m[k - 1]
      {
        shadow[i * 64 + 63] := shadow[i * 64 + 62];
        i := i + 1;
      }
      assert shadow[..] == FixColumn(m);
    }

    /** The 512 bytes `Write` appends to its buffer; the map is not changed. */
    method Write() returns (bytes: seq<Byte>)
      requires shadow.Length == N_SHADOW_PIXELS
      ensures bytes == Pack(shadow[..])
    {
      bytes := [];
      var i := 0;
      while i < N_SHADOW_BYTES
        invariant i <= N_SHADOW_BYTES
        invariant bytes == Pack(shadow[..])[..i]
      {
        var b := PackPixels(i);
        bytes := bytes + [b];
        i := i + 1;
      }
    }

    /** Packs pixels i*8 .. i*8+7 into one byte, the first in the least significant bit. */
    method PackPixels(i: nat) returns (b: Byte)
      requires shadow.Length == N_SHADOW_PIXELS && i < N_SHADOW_BYTES
      ensures b == Pack(shadow[..])[i]
    {
      ghost var bits := shadow[i * 8..i * 8 + 8];
      b := 0;
      var j := 0;
      while j < 8
        invariant j <= 8
        invariant b == PackPrefix(bits, j)
      {
        if shadow[i * 8 + j] {
          b := b | Mask(j);
        }
        j := j + 1;
      }
    }
  }
}
