/** What the final check of a rebuilt ELF file demands, at the offsets of the System V gABI. */
module ElfVerdictLaws {
  import opened Bytes
  import opened ElfFormat
  import opened ElfImageValidator
  import Parser = ElfParser
  import Classifier = ElfImageTypeClassifier
  import Analyzer = ElfDynamicMetadataAnalyzer

  /** The file bytes of every PT_LOAD lie in the file. */
  ghost predicate LoadsStand(b: Bytes, headers: seq<ProgramHeader>) {
    forall k :: 0 <= k < |headers| && headers[k].kind == 1 && headers[k].fileSize > 0 ==>
      headers[k].fileOffset + headers[k].fileSize <= |b|
  }

  /** A nonempty section table of entries of the class's size lies in the file, and e_shstrndx,
      which follows e_shnum, is one of its entries. */
  ghost predicate SectionTableStands(b: Bytes, p: Layout) {
    var wide := p.imageClass == Bits64;
    var names, entry := if wide then 62 else 50, if wide then 64 else 40;
    p.sectionHeaderEntrySize == entry && p.sectionHeaderCount > 0
    && names + 2 <= |b| && (b[names] as int) + 256 * (b[names + 1] as int) < p.sectionHeaderCount
    && p.sectionHeaderOffset + entry * p.sectionHeaderCount <= |b|
  }

  lemma TwoBytes(b: Bytes, at: nat)
    requires Fits(b, at, 2)
    ensures ReadAt(b, at, 2) == (b[at] as int) + 256 * (b[at + 1] as int)
  {
    var s := Slice(b, at, 2);
    assert s[1..][1..] == [];
    assert Unsigned(s[1..]) == s[1];
  }

  /** A file is valid exactly when it parses whole, its loads lie in it, its dynamic
      metadata can be analysed and its section table stands; the verdict names the first
      demand that fails. */
  lemma VerdictIsExact(b: Bytes)
    ensures var parsed, verdict := Parser.Outcome(b, Classifier.CompleteFile), Outcome(b);
            (verdict == HeaderInvalid <==> parsed.Err?)
            && (parsed.Ok? ==>
                  var p := parsed.value;
                  var dynamic := Analyzer.Outcome(b, p.imageClass, p.programHeaders);
                  (verdict == SegmentOutOfRange <==> !LoadsStand(b, p.programHeaders))
                  && (verdict.DynamicInvalid? <==> LoadsStand(b, p.programHeaders) && dynamic.Err?)
                  && (verdict.DynamicInvalid? ==> verdict.reason == dynamic.error)
                  && (verdict == SectionsInvalid
                      <==> LoadsStand(b, p.programHeaders) && dynamic.Ok? && !SectionTableStands(b, p))
                  && (verdict == Valid <==> LoadsStand(b, p.programHeaders) && dynamic.Ok? && SectionTableStands(b, p)))
  {
    hide Parser.Outcome, Analyzer.Outcome, ReadAt;
    if Parser.Outcome(b, Classifier.CompleteFile).Ok? {
      var p := Parser.Outcome(b, Classifier.CompleteFile).value;
      var names := if p.imageClass == Bits64 then 62 else 50;
      if Fits(b, names, 2) {
        TwoBytes(b, names);
      }
    }
  }
}
