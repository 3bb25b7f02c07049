/** The final check of a rebuilt file: it parses, its imports can be walked,
    and it is placed or relocatable as intended. */
module RebuiltPeImageValidator {
  import opened Bytes
  import opened PeFormat
  import Parser = PeParser
  import Imports = ImportTableValidator
  import Rebaser = PeFileRebaser

  datatype ValidationError = InvalidImage | InvalidImports | InvalidFixedPlacement | InvalidRelocations

  datatype Request = Request(
    image: Bytes, sourceLayout: Layout, outputBase: U64, relocationValidationBase: U64,
    expectRebuiltRelocations: bool, expectedRelocationCount: Option<nat>)

  predicate PlacedAsSource(parsed: Layout, source: Layout) {
    parsed.preferredImageBase == source.preferredImageBase
    && parsed.directories[BASE_RELOCATION_DIRECTORY] == NO_DIRECTORY
    && Has(parsed.characteristics, RELOCS_STRIPPED)
    && !Has(parsed.dllCharacteristics, DYNAMIC_BASE) && !Has(parsed.dllCharacteristics, HIGH_ENTROPY_VA)
  }

  function Outcome(request: Request): Result<Layout, ValidationError> {
    var parsed := Parser.Outcome(request.image);
    if parsed.Err? || parsed.value.format != request.sourceLayout.format then Err(InvalidImage)
    else if !Imports.Valid(request.image, parsed.value) then Err(InvalidImports)
    else if !request.expectRebuiltRelocations then
      if PlacedAsSource(parsed.value, request.sourceLayout) then Ok(parsed.value) else Err(InvalidFixedPlacement)
    else if parsed.value.preferredImageBase != request.outputBase
            || parsed.value.directories[BASE_RELOCATION_DIRECTORY].address == 0
            || request.expectedRelocationCount.None? then Err(InvalidRelocations)
    else
      var probe := Rebaser.Outcome(request.image, parsed.value, request.relocationValidationBase);
      if probe.Err? || |probe.value.sourceSlots| != request.expectedRelocationCount.value then Err(InvalidRelocations)
      else Ok(parsed.value)
  }
}
