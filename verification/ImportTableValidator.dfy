/** Checks that a file's import table can be walked: descriptors, lookup
    entries, names and address slots all lie in sections and are terminated. */
module ImportTableValidator {
  import opened Bytes
  import opened Structs
  import opened PeFormat

  const MAXIMUM_SYMBOLS := 65536

  datatype Descriptor = Descriptor(originalFirstThunk: U32, name: U32, firstThunk: U32)

  function SectionRaw(sections: seq<Section>, rva: U32, size: nat): Option<nat> {
    if sections == [] then None
    else
      var s := sections[0];
      if rva >= s.virtualAddress && size <= s.Extent() && rva - s.virtualAddress <= s.Extent() - size
        then Some(s.rawOffset + (rva - s.virtualAddress))
      else SectionRaw(sections[1..], rva, size)
  }

  function ToRaw(layout: Layout, rva: U32, size: nat): Option<nat> {
    if rva < layout.sizeOfHeaders then Some(rva) else SectionRaw(layout.sections, rva, size)
  }

  predicate InSection(layout: Layout, rva: U32, size: nat) {
    SectionRaw(layout.sections, rva, size).Some?
  }

  /** Some byte at or after `raw` is NUL. */
  predicate Terminated(bytes: Bytes, raw: nat) {
    exists j :: raw <= j < |bytes| && bytes[j] == 0
  }

  predicate StringAt(bytes: Bytes, layout: Layout, rva: U32) {
    var raw := ToRaw(layout, rva, 1);
    raw.Some? && raw.value < |bytes| && Terminated(bytes, raw.value)
  }

  function ReadThunk(image: Bytes, layout: Layout, rva: U32): (thunk: Option<U64>) {
    var size := layout.format.PointerSize();
    var raw := ToRaw(layout, rva, size);
    Powers();
    if raw.None? || !Fits(image, raw.value, size) then None else Some(ReadAt(image, raw.value, size))
  }

  function ReadDescriptor(image: Bytes, layout: Layout, rva: U32): Option<Descriptor> {
    DescriptorSize();
    var raw := ToRaw(layout, rva, DESCRIPTOR_SIZE);
    if raw.None? || !Fits(image, raw.value, DESCRIPTOR_SIZE) then None
    else
      var f := Unpack(DESCRIPTOR_WIDTHS, Slice(image, raw.value, DESCRIPTOR_SIZE));
      PackOfUnpack(DESCRIPTOR_WIDTHS, Slice(image, raw.value, DESCRIPTOR_SIZE));
      Powers();
      Some(Descriptor(f[0], f[3], f[4]))
  }

  /** The lookup entry names something: an ordinal, or a hint and name in a section. */
  predicate ThunkValid(image: Bytes, layout: Layout, thunk: U64) {
    Has(thunk, layout.format.OrdinalFlag())
    || (InSection(layout, Wrap32(thunk), 3) && StringAt(image, layout, Wrap32(Wrap32(thunk) + 2)))
  }

  predicate IndexFits(format: Format, rva: U32, index: nat) {
    index <= (U32_MAX - rva) / format.PointerSize()
  }

  /** The lookup list from `index` on is terminated and every entry is valid. */
  predicate ThunksValid(image: Bytes, layout: Layout, lookup: U32, firstThunk: U32, index: nat)
    decreases MAXIMUM_SYMBOLS - index
  {
    var size := layout.format.PointerSize();
    if index >= MAXIMUM_SYMBOLS || !IndexFits(layout.format, lookup, index) then false
    else
      var thunk := ReadThunk(image, layout, Wrap32(lookup + index * size));
      if thunk.None? then false
      else if thunk.value == 0 then true
      else
        ThunkValid(image, layout, thunk.value) && IndexFits(layout.format, firstThunk, index)
        && InSection(layout, Wrap32(firstThunk + index * size), size)
        && ThunksValid(image, layout, lookup, firstThunk, index + 1)
  }

  function LookupOf(d: Descriptor): U32 {
    if d.originalFirstThunk != 0 then d.originalFirstThunk else d.firstThunk
  }

  predicate DescriptorValid(image: Bytes, layout: Layout, d: Descriptor) {
    var size := layout.format.PointerSize();
    d.name != 0 && InSection(layout, d.name, 1) && StringAt(image, layout, d.name)
    && d.firstThunk != 0 && InSection(layout, d.firstThunk, size) && InSection(layout, LookupOf(d), size)
    && ThunksValid(image, layout, LookupOf(d), d.firstThunk, 0)
  }

  /** The descriptor array from byte `offset` on is terminated and valid. */
  predicate DescriptorsValid(image: Bytes, layout: Layout, directory: Directory, offset: nat)
    decreases directory.size - offset
  {
    if offset + DESCRIPTOR_SIZE > directory.size then false
    else
      var d := ReadDescriptor(image, layout, Wrap32(directory.address + offset));
      if d.None? then false
      else if d.value == Descriptor(0, 0, 0) then true
      else DescriptorValid(image, layout, d.value)
           && DescriptorsValid(image, layout, directory, offset + DESCRIPTOR_SIZE)
  }

  predicate Valid(image: Bytes, layout: Layout) {
    var table, iat := layout.directories[IMPORT_DIRECTORY], layout.directories[IAT_DIRECTORY];
    layout.directories[DELAY_IMPORT_DIRECTORY] == NO_DIRECTORY
    && layout.directories[BOUND_IMPORT_DIRECTORY] == NO_DIRECTORY
    && if table.address == 0 || table.size == 0 then iat == NO_DIRECTORY
       else
         table.size >= DESCRIPTOR_SIZE && InSection(layout, table.address, table.size)
         && DescriptorsValid(image, layout, table, 0)
         && (iat == NO_DIRECTORY || InSection(layout, iat.address, iat.size))
  }

  /** The section search. */
  method FindRaw(sections: seq<Section>, rva: U32, size: nat) returns (raw: Option<nat>)
    ensures raw == SectionRaw(sections, rva, size)
  {
    var index := 0;
    assert sections[0..] == sections;
    while index < |sections|
      invariant 0 <= index <= |sections|
      invariant SectionRaw(sections, rva, size) == SectionRaw(sections[index..], rva, size)
    {
      var s := sections[index];
      var extent := s.Extent();
      if rva >= s.virtualAddress && size <= extent && rva - s.virtualAddress <= extent - size {
        return Some(s.rawOffset + (rva - s.virtualAddress));
      }
      assert sections[index..][1..] == sections[index + 1..];
      index := index + 1;
    }
    return None;
  }

  /** The thunk loop of one descriptor. */
  method ValidateThunks(image: Bytes, layout: Layout, lookup: U32, firstThunk: U32) returns (valid: bool)
    ensures valid == ThunksValid(image, layout, lookup, firstThunk, 0)
  {
    hide ReadThunk, SectionRaw, ThunkValid;
    var size := layout.format.PointerSize();
    var index := 0;
    while index < MAXIMUM_SYMBOLS
      invariant 0 <= index <= MAXIMUM_SYMBOLS
      invariant ThunksValid(image, layout, lookup, firstThunk, 0) == ThunksValid(image, layout, lookup, firstThunk, index)
    {
      if index > (U32_MAX - lookup) / size {
        return false;
      }
      var thunk := ReadThunk(image, layout, Wrap32(lookup + index * size));
      if thunk == None {
        return false;
      }
      if thunk.value == 0 {
        return true;
      }
      if !ThunkValid(image, layout, thunk.value) {
        return false;
      }
      if index > (U32_MAX - firstThunk) / size {
        return false;
      }
      if !InSection(layout, Wrap32(firstThunk + index * size), size) {
        return false;
      }
      index := index + 1;
    }
    return false;
  }

  method Validate(image: Bytes, layout: Layout) returns (valid: bool)
    ensures valid == Valid(image, layout)
  {
    hide ReadDescriptor, SectionRaw, ThunksValid, StringAt;
    var table, iat := layout.directories[IMPORT_DIRECTORY], layout.directories[IAT_DIRECTORY];
    if layout.directories[DELAY_IMPORT_DIRECTORY] != NO_DIRECTORY || layout.directories[BOUND_IMPORT_DIRECTORY] != NO_DIRECTORY {
      return false;
    }
    if table.address == 0 || table.size == 0 {
      return iat.address == 0 && iat.size == 0;
    }
    var found := FindRaw(layout.sections, table.address, table.size);
    if table.size < DESCRIPTOR_SIZE || found == None {
      return false;
    }
    var terminated := false;
    var size := layout.format.PointerSize();
    var offset := 0;
    while offset + DESCRIPTOR_SIZE <= table.size && !terminated
      invariant 0 <= offset <= table.size
      invariant DescriptorsValid(image, layout, table, 0)
                == if terminated then true else DescriptorsValid(image, layout, table, offset)
      decreases table.size - offset, !terminated
    {
      var d := ReadDescriptor(image, layout, Wrap32(table.address + offset));
      if d == None {
        return false;
      }
      var descriptor := d.value;
      if descriptor == Descriptor(0, 0, 0) {
        terminated := true;
      } else {
        if descriptor.name == 0 || !InSection(layout, descriptor.name, 1) || !StringAt(image, layout, descriptor.name) {
          return false;
        }
        if descriptor.firstThunk == 0 || !InSection(layout, descriptor.firstThunk, size) {
          return false;
        }
        var lookup := LookupOf(descriptor);
        if !InSection(layout, lookup, size) {
          return false;
        }
        var thunks := ValidateThunks(image, layout, lookup, descriptor.firstThunk);
        if !thunks {
          return false;
        }
        offset := offset + DESCRIPTOR_SIZE;
      }
    }
    if !terminated {
      return false;
    }
    if iat.address != 0 || iat.size != 0 {
      return InSection(layout, iat.address, iat.size);
    }
    return true;
  }
}
