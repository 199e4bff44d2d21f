/** One file on which the order of `readMesh`'s checks shows: the
    constructor accepts its header, the header declares no vertex element,
    and the body input would not open. */
module ReadOrder {
  import opened Wrappers
  import opened PlyErrors
  import opened Bytes
  import opened PlyHeader
  import PlyBindings
  import PlyFile
  import AsciiInput
  import Text

  const Ply: string := "ply"
  const Format: string := "format ascii 1.0"
  /** `end_header` after a blank: the constructor's word scanner still sees
      the keyword, but no line is exactly `end_header`. */
  const IndentedEnd: string := " end_header"

  function FileText(): string {
    Text.UnlinesLf([Ply, Format, IndentedEnd])
  }

  /** The file: the US-ASCII bytes of the three lines, each ended by `\n`. */
  function File(): seq<byte>
    ensures DecodeAscii(File()) == FileText()
  {
    TextIsAscii();
    DecodeAsciiBytes(FileText());
    AsciiBytes(FileText())
  }

  lemma TextIsAscii()
    ensures forall i :: 0 <= i < |FileText()| ==> FileText()[i] as int < 128
  {
    var ls := [Ply, Format, IndentedEnd];
    assert ls[1..] == [Format, IndentedEnd];
    assert [Format, IndentedEnd][1..] == [IndentedEnd];
    assert [IndentedEnd][1..] == [];
    assert Text.UnlinesLf([IndentedEnd]) == IndentedEnd + "\n";
    assert Text.UnlinesLf([Format, IndentedEnd]) == Format + "\n" + Text.UnlinesLf([IndentedEnd]);
    assert FileText() == Ply + "\n" + Text.UnlinesLf([Format, IndentedEnd]);
    assert FileText() == "ply\nformat ascii 1.0\n end_header\n";
  }

  lemma FileLines()
    ensures Text.Lines(FileText()) == [Ply, Format, IndentedEnd]
  {
    Text.LinesUnlines([Ply, Format, IndentedEnd]);
  }

  lemma FormatWords()
    ensures Text.Words(Format) == ["format", "ascii", "1.0"]
  {
    Text.WordsUnwords(["format", "ascii", "1.0"]);
    assert Text.Unwords(["format", "ascii", "1.0"]) == Format;
  }

  lemma IndentedEndWords()
    ensures Text.Words(IndentedEnd) == ["end_header"]
  {
    Text.WordsUnwords(["end_header"]);
    assert Text.Words(IndentedEnd) == Text.Words(IndentedEnd[1..]);
    assert IndentedEnd[1..] == Text.Unwords(["end_header"]);
  }

  lemma HeaderWords()
    ensures LineWords([Ply, Format, IndentedEnd])[1..] == [["format", "ascii", "1.0"], ["end_header"]]
  {
    FormatWords();
    IndentedEndWords();
  }

  lemma KeywordsAccepted()
    ensures KeywordLoop(ParseLine, [["format", "ascii", "1.0"], ["end_header"]], Scan(None, []))
            == Ok(Scan(Some(("ascii", "1.0")), []))
  {
  }

  /** The constructor accepts the header: an ASCII file with no elements. */
  lemma HeaderAccepted()
    ensures ParseHeader([Ply, Format, IndentedEnd]) == Ok(Header(Ascii, []))
  {
    HeaderWords();
    KeywordsAccepted();
    assert FinishHeader(Scan(Some(("ascii", "1.0")), [])) == Ok(Header(Ascii, []));
  }

  /** `getInput` alone would fail: no line of the text is `end_header`. */
  lemma InputFails()
    ensures AsciiInput.Open(FileText()) == Err(HeaderNotFound)
  {
    AsciiInput.SkipHeaderSpec(FileText());
    FileLines();
    assert "end_header" !in [Ply, Format, IndentedEnd];
  }

  /** The constructor succeeds, and the header declares no vertices. */
  lemma ReaderWithoutVertices()
    ensures PlyBindings.Open([Ply, Format, IndentedEnd]).Ok?
    ensures !PlyBindings.HasVertices(PlyBindings.Open([Ply, Format, IndentedEnd]).value.binding)
  {
    HeaderAccepted();
    NothingBound();
  }

  lemma NothingBound()
    ensures PlyBindings.Bind(Header(Ascii, [])) == Ok(PlyBindings.Reader(Header(Ascii, []), PlyBindings.Unbound))
  {
  }

  lemma FileHeaderLines()
    ensures PlyFile.HeaderLines(File()) == [Ply, Format, IndentedEnd]
  {
    FileLines();
  }

  lemma FileInputFails()
    ensures PlyFile.GetInput(Header(Ascii, []), File(), 1) == Err(HeaderNotFound)
  {
    InputFails();
  }

  /** The whole reader refuses the file as having no vertices, not as
      missing its `end_header` line: `readMesh` tests `hasVertices` and
      `hasFaces` before it calls `getInput`. */
  lemma NoVerticesBeforeInput()
    ensures PlyBindings.Open(PlyFile.HeaderLines(File())).Ok?
    ensures PlyFile.GetInput(Header(Ascii, []), File(), 1) == Err(HeaderNotFound)
    ensures PlyFile.ReadFile(File(), 1) == Err(NoVertices)
  {
    FileHeaderLines();
    ReaderWithoutVertices();
    FileInputFails();
  }
}
