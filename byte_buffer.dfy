/**
 * `IO::Common::ByteBuffer`: a byte buffer with a size (the bytes in use),
 * a capacity (the bytes allocated) and a read/write cursor. The contract
 * macros of the library (`Require`, `Ensure`, `Invariant`) abort the
 * program when they fail; here they are preconditions.
 *
 * Values of a type `T` are read and written as their object
 * representation: `width` bytes standing for `sizeof(T)`.
 */
module ByteBuffers {
  import opened Wrappers

  type Byte = bv8

  /** `std::numeric_limits<std::size_t>::max()` on a 64-bit target. */
  const SIZE_MAX: nat := 0xFFFF_FFFF_FFFF_FFFF

  datatype SeekDir = Forward | Backwards
  datatype SeekType = Absolute | Relative

  /** `s` with `src` written over it from `at` on, growing it when `src` runs past its end. */
  function Overwrite(s: seq<Byte>, at: nat, src: seq<Byte>): (r: seq<Byte>)
    requires at <= |s|
    ensures |r| == if at + |src| > |s| then at + |src| else |s|
    ensures r[at..at + |src|] == src
    ensures forall i :: 0 <= i < |s| && !(at <= i < at + |src|) ==> r[i] == s[i]
  {
    s[..at] + src + (if at + |src| < |s| then s[at + |src|..] else [])
  }

  /** `Overwrite` is the only sequence of its length with `src` in place and the rest of `s` kept. */
  lemma OverwriteDetermined(s: seq<Byte>, at: nat, src: seq<Byte>, t: seq<Byte>)
    requires at <= |s|
    requires |t| == if at + |src| > |s| then at + |src| else |s|
    requires forall i :: at <= i < at + |src| ==> t[i] == src[i - at]
    requires forall i :: 0 <= i < |s| && !(at <= i < at + |src|) ==> t[i] == s[i]
    ensures t == Overwrite(s, at, src)
  {
    var r := Overwrite(s, at, src);
    forall i | 0 <= i < |t|
      ensures t[i] == r[i]
    {
      if at <= i < at + |src| {
        assert r[i] == r[at..at + |src|][i - at];
      }
    }
  }

  /** The bytes up to the first NUL from `at` on, when one lies before `|s|`. */
  function NulTerminated(s: seq<Byte>, at: nat): (r: Option<nat>)
    requires at <= |s|
    ensures r.Some? ==> at + r.value < |s| && s[at + r.value] == 0
                        && forall i :: at <= i < at + r.value ==> s[i] != 0
    ensures r.None? ==> forall i :: at <= i < |s| ==> s[i] != 0
    decreases |s| - at
  {
    if at == |s| then None
    else if s[at] == 0 then Some(0)
    else match NulTerminated(s, at + 1)
         case None => None
         case Some(n) => Some(n + 1)
  }

  class ByteBuffer {
    var owned: bool
    var pos: nat
    var size: nat
    /** The allocation: its length is the capacity. */
    var data: array<Byte>

    /** The cursor never passes the end of the data, and the data fit the allocation. */
    predicate Valid()
      reads this
    {
      pos <= size <= data.Length
    }

    /** The bytes in use. */
    function Contents(): seq<Byte>
      reads this, data
      requires Valid()
    {
      data[..size]
    }

    /** The constructors from a pointer and a size: owning (a copy) or borrowed. */
    constructor FromBytes(bytes: seq<Byte>, owned: bool)
      requires |bytes| > 0
      ensures Valid() && fresh(data)
      ensures this.owned == owned && pos == 0 && Contents() == bytes && data.Length == |bytes|
    {
      this.owned := owned;
      pos := 0;
      size := |bytes|;
      data := new Byte[|bytes|](i requires 0 <= i < |bytes| => bytes[i]);
    }

    /** The constructor that allocates `n` bytes of its own. */
    constructor Sized(n: nat)
      ensures Valid() && fresh(data)
      ensures owned && pos == 0 && size == n && data.Length == n
    {
      owned := true;
      pos := 0;
      size := n;
      data := new Byte[n];
    }

    /** `IsEof`. */
    method IsEof() returns (eof: bool)
      requires Valid()
      ensures eof <==> pos == size
    {
      eof := pos == size;
    }

    /** `Seek<dir, type>(offset)`: absolute seeks count from the start or the end, relative ones from the cursor. */
    method Seek(dir: SeekDir, kind: SeekType, offset: nat)
      requires Valid()
      requires kind == Absolute ==> offset <= size
      requires kind == Relative && dir == Forward ==> SIZE_MAX - pos >= offset && pos + offset <= size
      requires kind == Relative && dir == Backwards ==> offset <= pos
      modifies this
      ensures Valid() && owned == old(owned) && size == old(size) && data == old(data)
      ensures pos == match (kind, dir)
                     case (Absolute, Forward) => offset
                     case (Absolute, Backwards) => old(size) - offset
                     case (Relative, Forward) => old(pos) + offset
                     case (Relative, Backwards) => old(pos) - offset
    {
      match (kind, dir)
      case (Absolute, Forward) => pos := offset;
      case (Absolute, Backwards) => pos := size - offset;
      case (Relative, Forward) => pos := pos + offset;
      case (Relative, Backwards) => pos := pos - offset;
    }

    /** `Read(dest, offset, n)` with the bound it evidently means: `n` bytes from `offset`, cursor untouched. */
    method ReadAt(offset: nat, n: nat) returns (bytes: seq<Byte>)
      requires Valid() && offset + n <= size
      ensures bytes == Contents()[offset..offset + n]
      ensures |bytes| == n
    {
      bytes := data[offset..offset + n];
    }

    /** `Read(dest, n)` with the bound it evidently means: `n` bytes from the cursor, cursor untouched. */
    method ReadHere(n: nat) returns (bytes: seq<Byte>)
      requires Valid() && pos + n <= size
      ensures bytes == Contents()[pos..pos + n]
      ensures |bytes| == n
    {
      bytes := data[pos..pos + n];
    }

    /** `Peek<T>(offset)`: checked against the cursor, read at the absolute offset; nothing moves. */
    method Peek(offset: nat, width: nat) returns (bytes: seq<Byte>)
      requires Valid() && SIZE_MAX - offset >= pos && pos + offset + width <= size
      ensures bytes == Contents()[offset..offset + width]
    {
      bytes := data[offset..offset + width];
    }

    /** `ReadView<T>`, `Read<T>()` and `Read(T&)`: the value at the cursor, which moves past it. */
    method Read(width: nat) returns (bytes: seq<Byte>)
      requires Valid() && SIZE_MAX - width >= pos && pos + width <= size
      modifies this
      ensures Valid() && owned == old(owned) && size == old(size) && data == old(data)
      ensures bytes == Contents()[old(pos)..old(pos) + width]
      ensures pos == old(pos) + width
    {
      bytes := data[pos..pos + width];
      pos := pos + width;
    }

    /** `Read(T&, offset)`: the value at an absolute offset; the cursor stays. */
    method ReadValueAt(offset: nat, width: nat) returns (bytes: seq<Byte>)
      requires Valid() && SIZE_MAX - offset >= size && offset + width <= size
      ensures bytes == Contents()[offset..offset + width]
    {
      bytes := data[offset..offset + width];
    }

    /** `Reserve<ReservePolicy::Strict>(n)`: `n` more bytes in use, reallocating exactly enough when needed. */
    method Reserve(n: nat)
      requires Valid() && SIZE_MAX - size >= n && owned
      modifies this
      ensures Valid() && owned == old(owned) && pos == old(pos)
      ensures size == old(size) + n
      ensures data.Length == if old(data.Length) < old(size) + n then old(size) + n else old(data.Length)
      ensures data[..old(size)] == old(Contents())
      ensures data == old(data) || fresh(data)
    {
      if data.Length < size + n {
        var grown := new Byte[size + n];
        forall i | 0 <= i < size {
          grown[i] := data[i];
        }
        data := grown;
      }
      size := size + n;
    }

    /** `Reserve<ReservePolicy::Double>(n)`, with a zero capacity grown to exactly what is needed. */
    method ReserveDouble(n: nat)
      requires Valid() && SIZE_MAX - size >= n && owned
      requires 0 < data.Length < size + n ==> GrowAsWritten(data.Length, data.Length, size + n, size + n) != Overflow
      modifies this
      ensures Valid() && owned == old(owned) && pos == old(pos)
      ensures size == old(size) + n
      ensures data[..old(size)] == old(Contents())
      ensures data == old(data) || fresh(data)
      ensures old(data.Length) >= old(size) + n ==> data == old(data)
      ensures old(data.Length) < old(size) + n && old(data.Length) > 0 ==>
                GrowAsWritten(old(data.Length), old(data.Length), old(size) + n, old(size) + n) == Grown(data.Length)
                && data.Length - old(data.Length) < old(size) + n
      ensures old(data.Length) == 0 && n > 0 ==> data.Length == old(size) + n
    {
      if data.Length < size + n {
        var capacity := GrownCapacity(data.Length, size + n);
        var grown := new Byte[capacity];
        forall i | 0 <= i < size {
          grown[i] := data[i];
        }
        data := grown;
      }
      size := size + n;
    }

    /** `Write(src, n, offset)` and `Write<T>(data, offset)`: the bytes at `offset`, growing the buffer; the cursor stays. */
    method WriteAt(src: seq<Byte>, offset: nat)
      requires Valid() && SIZE_MAX - offset >= |src|
      requires offset + |src| > size ==> owned
      modifies this, data
      ensures Valid() && owned == old(owned) && pos == old(pos)
      ensures size == if offset + |src| > old(size) then offset + |src| else old(size)
      ensures Contents()[offset..offset + |src|] == src
      ensures forall i :: 0 <= i < old(size) && !(offset <= i < offset + |src|) ==> Contents()[i] == old(Contents())[i]
      ensures offset <= old(size) ==> Contents() == Overwrite(old(Contents()), offset, src)
      ensures data == old(data) || fresh(data)
    {
      if offset + |src| > size {
        Reserve(offset + |src| - size);
      }
      KeptPrefix(old(Contents()));
      CopyIn(src, offset);
      assert Contents()[offset..offset + |src|] == data[offset..offset + |src|];
      if offset <= old(size) {
        OverwriteDetermined(old(Contents()), offset, src, Contents());
      }
    }

    /** `Write(src, n)` and `Write<T>(data)`: the bytes at the cursor, growing the buffer; the cursor moves past them. */
    method Write(src: seq<Byte>)
      requires Valid() && SIZE_MAX - pos >= |src|
      requires pos + |src| > size ==> owned
      modifies this, data
      ensures Valid() && owned == old(owned)
      ensures Contents() == Overwrite(old(Contents()), old(pos), src)
      ensures pos == old(pos) + |src|
      ensures data == old(data) || fresh(data)
    {
      if pos + |src| > size {
        Reserve(pos + |src| - size);
      }
      KeptPrefix(old(Contents()));
      CopyIn(src, pos);
      OverwriteDetermined(old(Contents()), old(pos), src, Contents());
      pos := pos + |src|;
    }

    /** The bytes of `before` are the first bytes of the data, index by index. */
    lemma KeptPrefix(before: seq<Byte>)
      requires Valid() && |before| <= size && data[..|before|] == before
      ensures forall i :: 0 <= i < |before| ==> data[i] == before[i]
    {
      forall i | 0 <= i < |before|
        ensures data[i] == before[i]
      {
        assert data[i] == data[..|before|][i];
      }
    }

    /** The `memcpy` into the buffer. */
    method CopyIn(src: seq<Byte>, offset: nat)
      requires Valid() && offset + |src| <= size
      modifies data
      ensures Valid()
      ensures forall i :: 0 <= i < size && !(offset <= i < offset + |src|) ==> data[i] == old(data[i])
      ensures forall i :: offset <= i < offset + |src| ==> data[i] == src[i - offset]
      ensures data[offset..offset + |src|] == src
    {
      forall i | 0 <= i < |src| {
        data[offset + i] := src[i];
      }
    }

    /** `ReadString` with the bound it evidently means: the bytes before the next NUL within the data. */
    method ReadString() returns (r: Option<seq<Byte>>)
      requires Valid()
      modifies this
      ensures Valid() && owned == old(owned) && size == old(size) && data == old(data)
      ensures r.None? <==> NulTerminated(Contents(), old(pos)).None?
      ensures r.Some? ==> var n := NulTerminated(Contents(), old(pos)).value;
                          && r.value == Contents()[old(pos)..old(pos) + n]
                          && pos == old(pos) + n + 1
      ensures r.None? ==> pos == old(pos)
    {
      var len := 0;
      while pos + len < size && data[pos + len] != 0
        invariant pos + len <= size
        invariant forall i :: pos <= i < pos + len ==> data[i] != 0
        decreases size - len
      {
        len := len + 1;
      }
      if pos + len == size {
        return None;
      }
      assert NulTerminated(data[..size], pos) == Some(len) by {
        NulTerminatedFirst(data[..size], pos, len);
      }
      r := Some(data[pos..pos + len]);
      pos := pos + len + 1;
    }

    /** `operator==`: the same size and the same bytes in use. */
    method Equals(other: ByteBuffer) returns (eq: bool)
      requires Valid() && other.Valid()
      ensures eq <==> Contents() == other.Contents()
    {
      if size != other.size {
        return false;
      }
      var i := 0;
      while i < size
        invariant i <= size
        invariant data[..i] == other.data[..i]
      {
        if data[i] != other.data[i] {
          assert Contents()[i] != other.Contents()[i];
          return false;
        }
        i := i + 1;
        assert data[..i] == data[..i - 1] + [data[i - 1]];
        assert other.data[..i] == other.data[..i - 1] + [other.data[i - 1]];
      }
      return true;
    }
  }

  lemma NulTerminatedFirst(s: seq<Byte>, at: nat, n: nat)
    requires at + n < |s| && s[at + n] == 0
    requires forall i :: at <= i < at + n ==> s[i] != 0
    ensures NulTerminated(s, at) == Some(n)
    decreases n
  {
    if n > 0 {
      NulTerminatedFirst(s, at + 1, n - 1);
    }
  }

  /**
   * The growth loop of the double policy: the old capacity is added until
   * the required size is reached; a zero capacity grows straight to it. The
   * caller must not trip the overflow check, which aborts.
   */
  method GrownCapacity(capacity: nat, required: nat) returns (grown: nat)
    requires capacity < required <= SIZE_MAX
    requires capacity > 0 ==> GrowAsWritten(capacity, capacity, required, required) != Overflow
    ensures required <= grown <= SIZE_MAX
    ensures capacity > 0 ==> GrowAsWritten(capacity, capacity, required, required) == Grown(grown)
    ensures capacity > 0 ==> grown - capacity < required
    ensures capacity == 0 ==> grown == required
  {
    if capacity == 0 {
      return required;
    }
    grown := capacity;
    ghost var fuel := required;
    while grown < required
      invariant grown + fuel >= required && grown - capacity < required && grown <= SIZE_MAX
      invariant GrowAsWritten(grown, capacity, required, fuel) == GrowAsWritten(capacity, capacity, required, required)
      decreases required - grown
    {
      grown := grown + capacity;
      fuel := fuel - 1;
    }
  }

  // ---------------------------------------------------------------------------
  // The bounds and loops as written

  /** The check of `Read(dest, offset, n)` as written. */
  predicate ReadAtAccepts(size: nat, offset: nat, n: nat)
  {
    offset <= size && n <= size && SIZE_MAX - n >= size
  }

  /** The check of `Read(dest, n)` as written. */
  predicate ReadHereAccepts(size: nat, pos: nat, n: nat)
    requires pos <= size
  {
    n <= size && SIZE_MAX - n >= size - pos
  }

  /** Both checks let through reads that run past the bytes in use. */
  lemma ReadChecksAdmitOverrun()
    ensures ReadAtAccepts(4, 3, 2) && 3 + 2 > 4
    ensures ReadHereAccepts(4, 3, 2) && 3 + 2 > 4
  {
  }

  /** How `ReadString` as written ends. */
  datatype ScanEnd = Terminated(len: nat) | Aborted | OutOfAllocation

  /**
   * The scan of `ReadString` as written over the allocation `mem`: each
   * byte is read before the bound `pos + len <= size` is checked.
   */
  function ScanAsWritten(mem: seq<Byte>, pos: nat, size: nat, len: nat): (r: ScanEnd)
    ensures r.Terminated? ==> pos + r.len < |mem| && mem[pos + r.len] == 0
    decreases |mem| - (pos + len)
  {
    if pos + len >= |mem| then OutOfAllocation
    else if mem[pos + len] == 0 then Terminated(len)
    else if !(pos + len <= size) then Aborted
    else ScanAsWritten(mem, pos, size, len + 1)
  }

  /**
   * With no NUL among the bytes in use and a zero byte just past them in the
   * allocation, `ReadString` as written returns the whole tail and leaves
   * the cursor one past the end.
   */
  lemma ReadStringPassesEnd()
    ensures ScanAsWritten([65, 0], 0, 1, 0) == Terminated(1)
    ensures 0 + 1 + 1 > 1
  {
    assert ScanAsWritten([65, 0], 0, 1, 1) == Terminated(1);
  }

  /** How the growth loop ends: with a capacity, on the overflow check, or not within the rounds allowed. */
  datatype Growth = Grown(capacity: nat) | Overflow | Unfinished

  /**
   * The growth loop of `Reserve<ReservePolicy::Double>` as written, run for
   * at most `fuel` rounds; each round first checks that adding `capacity`
   * stays within `SIZE_MAX`.
   */
  function GrowAsWritten(grown: nat, capacity: nat, required: nat, fuel: nat): (r: Growth)
    ensures r.Grown? ==> r.capacity >= required && r.capacity >= grown
    ensures r.Grown? && grown <= SIZE_MAX ==> r.capacity <= SIZE_MAX
    decreases fuel
  {
    if grown >= required then Grown(grown)
    else if fuel == 0 then Unfinished
    else if SIZE_MAX - grown < capacity then Overflow
    else GrowAsWritten(grown + capacity, capacity, required, fuel - 1)
  }

  /** Doubling a capacity of 2^63 to hold one byte more trips the overflow check. */
  lemma GrowPastSizeMaxAborts()
    ensures GrowAsWritten(0x8000_0000_0000_0000, 0x8000_0000_0000_0000, 0x8000_0000_0000_0001, 0x8000_0000_0000_0001) == Overflow
  {
  }

  /** From a zero capacity (a buffer built with size 0) the loop as written never ends. */
  lemma {:induction false} GrowFromZeroNeverEnds(required: nat, fuel: nat)
    requires required > 0
    ensures GrowAsWritten(0, 0, required, fuel) == Unfinished
  {
    if fuel > 0 {
      GrowFromZeroNeverEnds(required, fuel - 1);
    }
  }

  /** From a positive capacity the loop as written ends within `required` rounds, with a capacity or on the overflow check. */
  lemma {:induction false} GrowFromPositiveEnds(grown: nat, capacity: nat, required: nat, fuel: nat)
    requires capacity > 0 && grown + fuel >= required
    ensures !GrowAsWritten(grown, capacity, required, fuel).Unfinished?
    decreases fuel
  {
    if grown < required {
      GrowFromPositiveEnds(grown + capacity, capacity, required, fuel - 1);
    }
  }
}
