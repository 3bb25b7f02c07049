/** Writing a list of fixed-width fields into a buffer, in place and field by field. */
module ByteFields {
  import opened Bytes

  datatype Field = Field(offset: nat, width: nat, value: nat)

  /** A buffer after some writes, and whether all of them succeeded. */
  datatype Written = Written(bytes: Bytes, ok: bool)

  predicate Writable(size: nat, f: Field) {
    f.offset + f.width <= size && f.value < Pow256(f.width)
  }

  function PatchField(b: Bytes, f: Field): (r: Bytes)
    requires Writable(|b|, f)
    ensures |r| == |b|
  {
    Patch(b, f.offset, LittleEndian(f.value, f.width))
  }

  /** The fields in order; writing stops at the first that does not fit. */
  function WriteAll(b: Bytes, fields: seq<Field>): (r: Written)
    ensures |r.bytes| == |b|
    ensures r.ok ==> forall k :: 0 <= k < |fields| ==> Writable(|b|, fields[k])
  {
    if fields == [] then Written(b, true)
    else
      var before, last := WriteAll(b, fields[..|fields| - 1]), fields[|fields| - 1];
      if !before.ok || !Writable(|b|, last) then Written(before.bytes, false)
      else Written(PatchField(before.bytes, last), true)
  }

  /** One value, byte by byte. */
  method WriteValue(bytes: array<Byte>, f: Field) returns (ok: bool)
    modifies bytes
    ensures ok == Writable(bytes.Length, f)
    ensures bytes[..] == if ok then PatchField(old(bytes[..]), f) else old(bytes[..])
  {
    hide LittleEndian, Pow256, Patch;
    if f.offset > bytes.Length || f.width > bytes.Length - f.offset || f.value >= Pow256(f.width) {
      return false;
    }
    ghost var before, all := bytes[..], LittleEndian(f.value, f.width);
    var rest: nat := f.value;
    var index: nat := 0;
    assert all[0..] == all;
    while index < f.width
      invariant 0 <= index <= f.width
      invariant forall i :: 0 <= i < index ==> bytes[f.offset + i] == all[i]
      invariant forall i :: 0 <= i < bytes.Length && !(f.offset <= i < f.offset + index) ==> bytes[i] == before[i]
      invariant LittleEndian(rest, f.width - index) == all[index..]
    {
      NextByte(rest, f.width - index);
      bytes[f.offset + index] := rest % 256;
      rest := rest / 256;
      assert all[index..][1..] == all[index + 1..];
      index := index + 1;
    }
    ok := true;
    assert bytes[..] == PatchField(before, f);
  }

  lemma NextByte(v: nat, width: nat)
    requires width > 0
    ensures LittleEndian(v, width)[0] == v % 256 && LittleEndian(v, width)[1..] == LittleEndian(v / 256, width - 1)
  {
  }

  method WriteFields(bytes: array<Byte>, fields: seq<Field>) returns (ok: bool)
    modifies bytes
    ensures Written(bytes[..], ok) == WriteAll(old(bytes[..]), fields)
  {
    hide PatchField;
    ghost var before := bytes[..];
    var index := 0;
    while index < |fields|
      invariant 0 <= index <= |fields|
      invariant Written(bytes[..], true) == WriteAll(before, fields[..index])
    {
      assert fields[..index + 1][..index] == fields[..index];
      var written := WriteValue(bytes, fields[index]);
      if !written {
        WriteStops(before, fields, index + 1);
        return false;
      }
      index := index + 1;
    }
    assert fields[..index] == fields;
    ok := true;
  }

  lemma {:induction false} WriteStops(b: Bytes, fields: seq<Field>, n: nat)
    requires n <= |fields| && !WriteAll(b, fields[..n]).ok
    ensures WriteAll(b, fields) == WriteAll(b, fields[..n])
    decreases |fields| - n
  {
    hide PatchField;
    if n < |fields| {
      assert fields[..n + 1][..n] == fields[..n];
      WriteStops(b, fields, n + 1);
    } else {
      assert fields[..n] == fields;
    }
  }

  // ---- what can be read afterwards ----

  predicate Apart(a: Field, b: Field) {
    a.offset + a.width <= b.offset || b.offset + b.width <= a.offset
  }

  ghost predicate AllApart(fields: seq<Field>) {
    forall i, j :: 0 <= i < j < |fields| ==> Apart(fields[i], fields[j])
  }

  /** No field meets the range. */
  ghost predicate Avoid(fields: seq<Field>, at: int, size: int) {
    forall k :: 0 <= k < |fields| ==> fields[k].offset + fields[k].width <= at || at + size <= fields[k].offset
  }

  lemma {:induction false} ReadElsewhere(b: Bytes, fields: seq<Field>, at: int, size: nat)
    requires Fits(b, at, size) && Avoid(fields, at, size)
    ensures Slice(WriteAll(b, fields).bytes, at, size) == Slice(b, at, size)
    ensures ReadAt(WriteAll(b, fields).bytes, at, size) == ReadAt(b, at, size)
  {
    hide Slice, LittleEndian, Patch, Unsigned;
    if fields != [] {
      var rest, last := fields[..|fields| - 1], fields[|fields| - 1];
      assert forall k :: 0 <= k < |rest| ==> rest[k] == fields[k];
      ReadElsewhere(b, rest, at, size);
      var before := WriteAll(b, rest);
      if before.ok && Writable(|b|, last) {
        PatchElsewhere(before.bytes, last.offset, LittleEndian(last.value, last.width), at, size);
      }
    }
  }

  /** Each field of a successful write is read back. */
  lemma {:induction false} ReadField(b: Bytes, fields: seq<Field>, k: nat)
    requires WriteAll(b, fields).ok && AllApart(fields) && k < |fields|
    ensures Fits(b, fields[k].offset, fields[k].width)
    ensures ReadAt(WriteAll(b, fields).bytes, fields[k].offset, fields[k].width) == fields[k].value
  {
    hide Slice, LittleEndian, Patch, Unsigned;
    var rest, last := fields[..|fields| - 1], fields[|fields| - 1];
    assert forall i :: 0 <= i < |rest| ==> rest[i] == fields[i];
    var before := WriteAll(b, rest);
    if k < |rest| {
      ReadField(b, rest, k);
      assert Apart(fields[k], last);
      PatchElsewhere(before.bytes, last.offset, LittleEndian(last.value, last.width), fields[k].offset, fields[k].width);
    } else {
      PatchRead(before.bytes, last.offset, LittleEndian(last.value, last.width));
      UnsignedOfLittleEndian(last.value, last.width);
    }
  }

  /** The buffer already holds every field. */
  ghost predicate Stand(b: Bytes, fields: seq<Field>) {
    forall k :: 0 <= k < |fields| ==>
      Fits(b, fields[k].offset, fields[k].width) && ReadAt(b, fields[k].offset, fields[k].width) == fields[k].value
  }

  /** Writing what a buffer already holds succeeds and changes nothing. */
  lemma {:induction false} WriteAgain(b: Bytes, fields: seq<Field>)
    requires Stand(b, fields)
    ensures WriteAll(b, fields) == Written(b, true)
  {
    hide LittleEndian, Patch, Unsigned, ReadAt;
    if fields != [] {
      var rest, last := fields[..|fields| - 1], fields[|fields| - 1];
      assert forall k :: 0 <= k < |rest| ==> rest[k] == fields[k];
      WriteAgain(b, rest);
      PatchAgain(b, last.offset, last.width);
    }
  }

  lemma PatchAgain(b: Bytes, offset: nat, width: nat)
    requires Fits(b, offset, width)
    ensures ReadAt(b, offset, width) < Pow256(width)
    ensures Patch(b, offset, LittleEndian(ReadAt(b, offset, width), width)) == b
  {
    LittleEndianOfUnsigned(Slice(b, offset, width));
  }
}
