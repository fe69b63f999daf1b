/** The documented examples and unit tests of the string utilities, stated
    about the model. */
module StringsExamples {
  import opened Utf8
  import opened Strings

  /** "Hello, World!" */
  const Hello: seq<byte> := [0x48, 0x65, 0x6C, 0x6C, 0x6F, 0x2C, 0x20, 0x57, 0x6F, 0x72, 0x6C, 0x64, 0x21]

  /** "👋🌍!": two four-byte chars and an ASCII one. */
  const WaveGlobe: seq<byte> := [0xF0, 0x9F, 0x91, 0x8B, 0xF0, 0x9F, 0x8C, 0x8D, 0x21]

  lemma NextCharBoundaryExamples()
    ensures NextCharBoundary(Hello, 1) == 1
    ensures NextCharBoundary(Hello, 30) == 13
    ensures NextCharBoundary(WaveGlobe, 1) == 4
    ensures NextCharBoundary(WaveGlobe, 7) == 8
  {
  }

  lemma PrevCharBoundaryExamples()
    ensures PrevCharBoundary(Hello, 5) == 5
    ensures PrevCharBoundary(WaveGlobe, 6) == 4
    ensures PrevCharBoundary(WaveGlobe, 8) == 8
  {
  }

  lemma SliceAtCharBoundariesExamples()
    ensures SliceAtCharBoundaries(Hello, 0, 30) == []
    ensures SliceAtCharBoundaries(Hello, 0, 1) == [0x48]
    ensures SliceAtCharBoundaries(WaveGlobe, 0, 2) == WaveGlobe[..4]
    ensures SliceAtCharBoundaries(WaveGlobe, 0, 7) == WaveGlobe[..8]
    ensures SliceAtCharBoundaries(WaveGlobe, 0, 9) == WaveGlobe
  {
  }

  lemma ShrinkWithEllipsisExamples()
    ensures ShrinkWithEllipsis(Hello, 13) == Hello
    ensures ShrinkWithEllipsis(Hello, 6) == [0x48] + Ellipsis + [0x21]
  {
  }

  lemma PreprocessLineOfRepeatedA()
    ensures PreprocessLine(seq(400, _ => 0x61)) == seq(300, _ => 'a')
  {
    var line: seq<byte> := seq(400, _ => 0x61);
    PreprocessPrintableLine(line);
  }

  /** The sixteen C0 controls U+0000-U+000F. */
  const Controls: seq<byte> := seq(16, i requires 0 <= i < 16 => i)

  lemma ProportionOfPrintableAsciiHello()
    ensures ProportionOfPrintableAsciiCharacters(Hello) == Ratio(13, 13)
  {
    assert AllPrintableAscii(Hello);
  }

  lemma ProportionOfPrintableAsciiHelloNul()
    ensures ProportionOfPrintableAsciiCharacters(Hello + [0x00]) == Ratio(13, 14)
    ensures ExceedsPrintableThreshold(ProportionOfPrintableAsciiCharacters(Hello + [0x00]))
  {
    assert AllPrintableAscii(Hello);
    CountPrintableAsciiAppend(Hello, [0x00]);
    assert CountPrintableAscii([0x00]) == 0;
  }

  lemma ProportionOfPrintableAsciiControls()
    ensures ProportionOfPrintableAsciiCharacters(Controls) == Ratio(0, 16)
    ensures !ExceedsPrintableThreshold(ProportionOfPrintableAsciiCharacters(Controls))
  {
    assert forall i :: 0 <= i < |Controls| ==> !IsPrintableAscii(Controls[i]);
  }
}
