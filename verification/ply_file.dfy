/** A `PlyReader` over one file, end to end: the constructor parses the
    header lines and binds the elements, `getInput` reopens the file either
    as ASCII tokens or as a byte stream in the byte order the format names,
    and `readMesh` walks the body. */
module PlyFile {
  import opened Wrappers
  import opened PlyErrors
  import opened PlyTypes
  import opened PlyHeader
  import opened BodyInput
  import opened Bytes
  import Text
  import PlyBindings
  import AsciiInput
  import BinaryInput
  import MeshReader
  import Records

  // ---------------------------------------------------------------------
  // The bindings give the body walk what it relies on

  /** A constructed reader meets the walk's requirements: every list has an
      integral count type, each bound slot names a scalar of its own name,
      the index list is an integral list, and the vertex and face elements
      are two different elements. */
  lemma OpenLayout(lines: seq<string>)
    requires PlyBindings.Open(lines).Ok?
    ensures var rd := PlyBindings.Open(lines).value;
            MeshReader.Typed(rd.header.elements) && MeshReader.Layout(rd.header.elements, rd.binding)
  {
    var h := ParseHeader(lines).value;
    ParseHeaderWellTyped(lines);
    PlyBindings.BindSpec(h);
    var rd := PlyBindings.Bind(h).value;
    WellTypedIsTyped(h.elements);
    BoundLayout(h.elements, rd.binding);
  }

  lemma WellTypedIsTyped(es: seq<Element>)
    requires WellTyped(es)
    ensures MeshReader.Typed(es)
  {
    forall i | 0 <= i < |es|
      ensures Records.IntegralCounts(es[i].props)
    {
      assert ElementTyped(es[i]);
    }
  }

  /** What an accepted schema and its binding say about the layout. */
  lemma BoundLayout(es: seq<Element>, b: PlyBindings.Binding)
    requires PlyBindings.SchemaOk(es) && PlyBindings.BindingOf(es, |es|, b) && MeshReader.Typed(es)
    ensures MeshReader.Layout(es, b)
  {
    if b.vertex.Some? {
      var v := b.vertex.value;
      assert PlyBindings.ElementOkAt(es, v);
      SlotsLayout(es[v].props, b.slots);
    }
    if b.face.Some? {
      var f := b.face.value;
      assert es[f].name == "face";
      if b.indices.Some? {
        assert PlyBindings.ElementOkAt(es, f);
        IndexListLayout(es[f].props, b.indices.value);
        assert Records.IntegralCounts(es[f].props);
      }
    }
  }

  /** Slots recorded over acceptable vertex properties are scalars of their
      own names. */
  lemma SlotsLayout(props: seq<Property>, slots: map<string, nat>)
    requires PlyBindings.VertexPropsOk(props) && PlyBindings.SlotsOf(props, |props|, slots)
    ensures MeshReader.SlotLayout(props, slots)
  {
    forall name | name in slots
      ensures slots[name] < |props| && props[slots[name]].Scalar? && props[slots[name]].name == name
    {
      assert PlyBindings.VertexPropOkAt(props, slots[name]);
    }
  }

  /** The recorded `vertex_indices` property of acceptable face properties
      is a list of integral values. */
  lemma IndexListLayout(props: seq<Property>, k: nat)
    requires PlyBindings.FacePropsOk(props) && k < |props| && props[k].name == PlyBindings.IndicesName
    ensures props[k].List? && IsIntegral(props[k].elemType)
  {
    assert PlyBindings.FacePropOkAt(props, k);
  }

  // ---------------------------------------------------------------------
  // Choosing the body input

  /** `fileFormat`: no byte order for ASCII, otherwise the order the
      binary format word spells out. */
  function ByteOrderOf(f: Format): (o: Option<ByteOrder>)
    ensures o.None? <==> FormatName(f) == "ascii"
    ensures o == Some(BigEndian) <==> FormatName(f) == "binary_big_endian"
    ensures o == Some(LittleEndian) <==> FormatName(f) == "binary_little_endian"
  {
    match f
    case Ascii => None
    case BinaryBigEndian => Some(BigEndian)
    case BinaryLittleEndian => Some(LittleEndian)
  }

  /** `getInput`: for an ASCII file, the whitespace-separated tokens after
      the `end_header` line of its US-ASCII text; for a binary file, the
      bytes after that line, read `chunk` bytes at a time and decoded in
      the header's byte order. */
  function GetInput(h: Header, file: seq<byte>, chunk: nat): (r: Result<Source, PlyError>)
    requires chunk > 0
    ensures r.Ok? ==> (r.value.Tokens? <==> h.format == Ascii)
    ensures r.Ok? && r.value.Stream? ==> ByteOrderOf(h.format) == Some(r.value.order)
  {
    match ByteOrderOf(h.format)
    case None => AsciiInput.Open(DecodeAscii(file))
    case Some(order) =>
      var (w, ch) :- BinaryInput.Open(file, chunk);
      Ok(Stream(BinaryInput.Unread(w, ch), order))
  }

  /** A binary file opens exactly to the bytes after its first `end_header`
      line, in the header's byte order; it fails with `HeaderNotFound` only
      when there is no such line. */
  lemma BinaryInputSpec(h: Header, file: seq<byte>, chunk: nat)
    requires chunk > 0 && h.format != Ascii
    ensures var r := GetInput(h, file, chunk);
            r.Ok? ==> exists k :: BinaryInput.IsEndAt(file, k) && BinaryInput.NoEndBefore(file, k)
                                  && r.value == Stream(file[k + 1..], ByteOrderOf(h.format).value)
    ensures GetInput(h, file, chunk) == Err(HeaderNotFound) ==> BinaryInput.NoEndBefore(file, |file|)
  {
    BinaryInput.OpenSpec(file, chunk);
  }

  /** An ASCII file opens exactly when its text has an `end_header` line,
      to tokens that are words. */
  lemma AsciiInputSpec(h: Header, file: seq<byte>, chunk: nat)
    requires chunk > 0 && h.format == Ascii
    ensures GetInput(h, file, chunk).Ok? <==> "end_header" in Text.Lines(DecodeAscii(file))
    ensures GetInput(h, file, chunk).Ok? ==>
              forall i :: 0 <= i < |GetInput(h, file, chunk).value.ts| ==> Text.IsWord(GetInput(h, file, chunk).value.ts[i])
  {
    AsciiInput.SkipHeaderSpec(DecodeAscii(file));
  }

  // ---------------------------------------------------------------------
  // The whole reader

  /** The header lines the constructor's scanner reads from the file. */
  function HeaderLines(file: seq<byte>): seq<string> {
    Text.Lines(DecodeAscii(file))
  }

  /** `new PlyReader(file).readMesh()`: a header error comes first, then a
      missing vertex element, then a missing face element, and only then
      an input error or whatever the walk reports. */
  function ReadFile(file: seq<byte>, chunk: nat): (r: Result<MeshReader.Mesh, PlyError>)
    requires chunk > 0
    ensures PlyBindings.Open(HeaderLines(file)).Err? ==> r == Err(PlyBindings.Open(HeaderLines(file)).error)
    ensures PlyBindings.Open(HeaderLines(file)).Ok? && !PlyBindings.HasVertices(PlyBindings.Open(HeaderLines(file)).value.binding)
            ==> r == Err(NoVertices)
    ensures var o := PlyBindings.Open(HeaderLines(file));
            o.Ok? && PlyBindings.HasVertices(o.value.binding) && !PlyBindings.HasFaces(o.value.header.elements, o.value.binding)
            ==> r == Err(NoFaces)
    ensures r.Ok? ==> var rd := PlyBindings.Open(HeaderLines(file)).value;
                      var n := MeshReader.VertexCount(rd.header.elements, rd.binding);
                      |r.value.positions| == 3 * n && |r.value.colors| == 3 * n && |r.value.normals| == 3 * n
                      && |r.value.indices| % 3 == 0
                      && forall j :: 0 <= j < |r.value.indices| ==> 0 <= r.value.indices[j] < n
  {
    var rd :- PlyBindings.Open(HeaderLines(file));
    if !PlyBindings.HasVertices(rd.binding) then Err(NoVertices)
    else if !PlyBindings.HasFaces(rd.header.elements, rd.binding) then Err(NoFaces)
    else
      OpenLayout(HeaderLines(file));
      var src :- GetInput(rd.header, file, chunk);
      MeshReader.ReadMesh(rd, src)
  }
}
