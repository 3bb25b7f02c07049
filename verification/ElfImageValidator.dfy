/** The final check of a rebuilt ELF file. */
module ElfImageValidator {
  import opened Bytes
  import opened ElfFormat
  import Parser = ElfParser
  import Classifier = ElfImageTypeClassifier
  import Analyzer = ElfDynamicMetadataAnalyzer

  datatype Verdict = Valid | HeaderInvalid | SegmentOutOfRange | DynamicInvalid(reason: Analyzer.DynamicError) | SectionsInvalid

  predicate SegmentsInside(headers: seq<ProgramHeader>, size: nat) {
    forall k :: 0 <= k < |headers| && headers[k].kind == PT_LOAD && headers[k].fileSize != 0 ==>
      headers[k].fileOffset + headers[k].fileSize <= size
  }

  predicate SectionsInside(b: Bytes, layout: Layout) {
    var c := layout.imageClass;
    Fits(b, c.SectionCountOffset() + 2, 2) && layout.sectionHeaderEntrySize == c.SectionHeaderSize()
    && layout.sectionHeaderCount != 0 && ReadAt(b, c.SectionCountOffset() + 2, 2) < layout.sectionHeaderCount
    && layout.sectionHeaderOffset + layout.sectionHeaderEntrySize * layout.sectionHeaderCount <= |b|
  }

  function Outcome(b: Bytes): Verdict {
    var parsed := Parser.Outcome(b, Classifier.CompleteFile);
    if parsed.Err? then HeaderInvalid
    else
      var layout := parsed.value;
      if !SegmentsInside(layout.programHeaders, |b|) then SegmentOutOfRange
      else
        var dynamic := Analyzer.Outcome(b, layout.imageClass, layout.programHeaders);
        if dynamic.Err? then DynamicInvalid(dynamic.error)
        else if !SectionsInside(b, layout) then SectionsInvalid
        else Valid
  }

  method Validate(b: Bytes) returns (verdict: Verdict)
    ensures verdict == Outcome(b)
  {
    hide Parser.Outcome, Analyzer.Outcome, SectionsInside;
    var parsed := Parser.Parse(b, Classifier.CompleteFile);
    if parsed.Err? {
      return HeaderInvalid;
    }
    var layout := parsed.value;
    var k := 0;
    while k < |layout.programHeaders|
      invariant 0 <= k <= |layout.programHeaders| && SegmentsInside(layout.programHeaders[..k], |b|)
    {
      var h := layout.programHeaders[k];
      if h.kind == PT_LOAD && h.fileSize != 0 && (h.fileOffset > |b| || h.fileSize > |b| - h.fileOffset) {
        return SegmentOutOfRange;
      }
      assert layout.programHeaders[..k + 1] == layout.programHeaders[..k] + [h];
      k := k + 1;
    }
    assert layout.programHeaders[..k] == layout.programHeaders;
    var dynamic := Analyzer.Analyze(b, layout.imageClass, layout.programHeaders);
    if dynamic.Err? {
      return DynamicInvalid(dynamic.error);
    }
    verdict := if SectionsInside(b, layout) then Valid else SectionsInvalid;
  }
}
