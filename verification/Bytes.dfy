/** Byte strings, little-endian numbers and the two ways the program touches a
    buffer: reading a fixed-width number at an offset, and overwriting a range. */
module Bytes {
  datatype Option<+T> = None | Some(value: T)

  datatype Result<+T, +E> = Ok(value: T) | Err(error: E)

  type Byte = b: int | 0 <= b < 256
  type U16 = x: int | 0 <= x < 0x1_0000
  type U32 = x: int | 0 <= x < 0x1_0000_0000
  type U64 = x: int | 0 <= x < 0x1_0000_0000_0000_0000
  type Bytes = seq<Byte>

  const U32_MAX: U32 := 0xffff_ffff
  const U64_MAX: U64 := 0xffff_ffff_ffff_ffff

  /** The value of an unsigned 32-bit computation whose exact result is `x`. */
  function Wrap32(x: int): U32 {
    x % 0x1_0000_0000
  }

  lemma WrapSmall(x: int)
    requires 0 <= x <= U32_MAX
    ensures Wrap32(x) == x
  {
  }

  function Min(a: int, b: int): int {
    if a < b then a else b
  }

  function Max(a: int, b: int): int {
    if a < b then b else a
  }

  // ---- little-endian numbers ----

  function Pow256(n: nat): (p: nat)
    ensures p >= 1
  {
    if n == 0 then 1 else 256 * Pow256(n - 1)
  }

  function Unsigned(s: Bytes): nat {
    if s == [] then 0 else s[0] + 256 * Unsigned(s[1..])
  }

  function LittleEndian(v: nat, width: nat): (s: Bytes)
    ensures |s| == width
    decreases width
  {
    if width == 0 then [] else [v % 256] + LittleEndian(v / 256, width - 1)
  }

  lemma Powers()
    ensures Pow256(1) == 0x100 && Pow256(2) == 0x1_0000 && Pow256(4) == 0x1_0000_0000
    ensures Pow256(8) == 0x1_0000_0000_0000_0000
  {
    assert Pow256(2) == 256 * Pow256(1);
    assert Pow256(3) == 256 * Pow256(2);
    assert Pow256(4) == 256 * Pow256(3);
    assert Pow256(5) == 256 * Pow256(4);
    assert Pow256(6) == 256 * Pow256(5);
    assert Pow256(7) == 256 * Pow256(6);
  }

  lemma {:induction false} UnsignedOfLittleEndian(v: nat, width: nat)
    requires v < Pow256(width)
    ensures Unsigned(LittleEndian(v, width)) == v
    decreases width
  {
    if width > 0 {
      UnsignedOfLittleEndian(v / 256, width - 1);
    }
  }

  lemma {:induction false} LittleEndianOfUnsigned(s: Bytes)
    ensures Unsigned(s) < Pow256(|s|)
    ensures LittleEndian(Unsigned(s), |s|) == s
  {
    if s != [] {
      LittleEndianOfUnsigned(s[1..]);
    }
  }

  lemma {:induction false} UnsignedAppend(s: Bytes, t: Bytes)
    ensures Unsigned(s + t) == Unsigned(s) + Pow256(|s|) * Unsigned(t)
  {
    if s == [] {
      assert s + t == t;
    } else {
      assert (s + t)[1..] == s[1..] + t;
      UnsignedAppend(s[1..], t);
    }
  }

  function Zeros(n: nat): (s: Bytes)
    ensures |s| == n && forall i :: 0 <= i < n ==> s[i] == 0
  {
    seq(n, _ => 0)
  }

  lemma {:induction false} UnsignedOfZeros(s: Bytes)
    ensures Unsigned(s) == 0 <==> forall i :: 0 <= i < |s| ==> s[i] == 0
  {
    if s != [] {
      UnsignedOfZeros(s[1..]);
      if Unsigned(s) == 0 {
        forall i | 0 <= i < |s| ensures s[i] == 0 {
          assert i > 0 ==> s[i] == s[1..][i - 1];
        }
      } else if s[0] == 0 {
        var j :| 0 <= j < |s[1..]| && s[1..][j] != 0;
        assert s[j + 1] != 0;
      }
    }
  }

  // ---- reading ----

  predicate Fits(b: Bytes, offset: int, size: int) {
    0 <= offset && 0 <= size && offset + size <= |b|
  }

  function Slice(b: Bytes, offset: int, size: int): (s: Bytes)
    requires Fits(b, offset, size)
    ensures |s| == size
  {
    b[offset..offset + size]
  }

  function ReadAt(b: Bytes, offset: int, width: nat): (v: nat)
    requires Fits(b, offset, width)
    ensures v < Pow256(width)
  {
    LittleEndianOfUnsigned(Slice(b, offset, width));
    Unsigned(Slice(b, offset, width))
  }

  /** The two buffers hold the same bytes over a range. */
  ghost predicate SameRange(a: Bytes, b: Bytes, offset: int, size: int) {
    Fits(a, offset, size) && Fits(b, offset, size)
    && forall i :: offset <= i < offset + size ==> a[i] == b[i]
  }

  lemma SameRangeRead(a: Bytes, b: Bytes, offset: int, size: int)
    requires SameRange(a, b, offset, size)
    ensures Slice(a, offset, size) == Slice(b, offset, size)
    ensures ReadAt(a, offset, size) == ReadAt(b, offset, size)
  {
    assert Slice(a, offset, size) == Slice(b, offset, size);
  }

  // ---- writing ----

  function Patch(b: Bytes, offset: int, s: Bytes): (r: Bytes)
    requires Fits(b, offset, |s|)
    ensures |r| == |b|
    ensures forall i :: 0 <= i < |b| ==>
      r[i] == if offset <= i < offset + |s| then s[i - offset] else b[i]
  {
    b[..offset] + s + b[offset + |s|..]
  }

  /** A write is read back, and does not disturb a range it does not meet. */
  lemma PatchRead(b: Bytes, offset: int, s: Bytes)
    requires Fits(b, offset, |s|)
    ensures Slice(Patch(b, offset, s), offset, |s|) == s
    ensures ReadAt(Patch(b, offset, s), offset, |s|) == Unsigned(s)
  {
    assert Slice(Patch(b, offset, s), offset, |s|) == s;
  }

  lemma PatchElsewhere(b: Bytes, offset: int, s: Bytes, at: int, size: nat)
    requires Fits(b, offset, |s|) && Fits(b, at, size)
    requires at + size <= offset || offset + |s| <= at
    ensures Slice(Patch(b, offset, s), at, size) == Slice(b, at, size)
    ensures ReadAt(Patch(b, offset, s), at, size) == ReadAt(b, at, size)
  {
    SameRangeRead(Patch(b, offset, s), b, at, size);
  }

  /** Overwrites a range of a buffer, in place. */
  method CopyInto(bytes: array<Byte>, offset: nat, data: Bytes)
    requires offset + |data| <= bytes.Length
    modifies bytes
    ensures bytes[..] == Patch(old(bytes[..]), offset, data)
  {
    ghost var before := bytes[..];
    var k := 0;
    while k < |data|
      invariant 0 <= k <= |data|
      invariant forall i :: 0 <= i < bytes.Length ==>
        bytes[i] == if offset <= i < offset + k then data[i - offset] else before[i]
    {
      bytes[offset + k] := data[k];
      k := k + 1;
    }
    assert bytes[..] == Patch(before, offset, data);
  }

  /** What `std::vector::resize` does to the contents. */
  function Resize(b: Bytes, size: nat): (r: Bytes)
    ensures |r| == size
    ensures forall i :: 0 <= i < size ==> r[i] == if i < |b| then b[i] else 0
  {
    if size <= |b| then b[..size] else b + Zeros(size - |b|)
  }
}
