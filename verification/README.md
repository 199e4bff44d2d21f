# PLY mesh reader and grid mesh generators, modelled in Dafny

This project models three pieces of a small LWJGL terrain demo.

- **`PlyReader`** reads a polygon file in Greg Turk's Stanford PLY format:
  `format ascii 1.0`, `format binary_little_endian 1.0` or
  `format binary_big_endian 1.0`. The model covers four stages:
  - the constructor's header keyword machine;
  - the semantic binding of the `vertex` and `face` elements and their
    `x y z / nx ny nz / red green blue / vertex_indices` properties;
  - `getInput`, which picks the body input by format;
  - `readMesh`, which walks the body in schema order over one of two inputs:
    - the ASCII `Scanner` input;
    - the binary channel input, with its byte window that is compacted and
      refilled.
- **`Utils.listToArr`** flattens a list of triples into an array.
- **The grid generators:**
  - `HeightMap.createMesh` (positions, indices, colours and the
    `calcNormals` output);
  - `WaterModel.generateMesh`;
  - `WaterMesh.generateMesh`, a verbatim copy of the `WaterModel` one.

Every operation is a pure function over immutable data. Loops become methods
whose invariants tie them to a reference definition.

## How the model is organised

**Values and errors**
- `Wrappers`: `Option` and `Result`.
- `PlyErrors`: one constructor per exception the reader throws, in the
  order the source checks them.

**Text and bytes**
- `Text`: how `Scanner` splits ASCII text into lines and words, and
  `nextInt`'s decimal grammar.
- `Bytes`: US-ASCII decoding, and little- or big-endian unsigned integers.

**PLY types and the header**
- `PlyTypes`: the eight type names of `parse(String)`, binary widths
  1/2/4/8, two's-complement decoding in either byte order, and ASCII token
  decoding.
- `PlyHeader`: the header keyword machine, the format/version check, and a
  header printer used for the round-trip property.
- `PlyBindings`: the element and property binding checks and their
  declarative characterisation (`SchemaOk`, `BindingOf`).

**Body inputs**
- `BodyInput`: the abstract body input that `readMesh` sees, either
  `Tokens` (ASCII) or `Stream` (binary, with a byte order).
- `AsciiInput`: the `AsciiInput` class.
- `BinaryInput`: the `BinaryInput` class. It covers the window/channel
  state, the header skip (both as written and corrected), `read` and
  `needEnd`. Each is refined to `BodyInput` over "the bytes not yet
  consumed".

**The body walk**
- `Records`: reading or skipping one record of an element, property by
  property.
- `Faces`: the face branch of `readMesh`, with triangulation and index range
  checks.
- `MeshReader`: vertex slots, the per-element walk, `needEnd`, and
  assembling the output arrays.
- `FloatIndex`: the `Vector3f` float round trip of face indices; see
  Findings.
- `Utils`: `listToArr`.
- `PlyFile`: the whole reader over the file's bytes. It runs the
  constructor, then `readMesh`'s vertex and face checks, then `getInput`,
  then the body walk.
- `ReadOrder`: one file that shows the order of those checks.

**The grid generators**
- `Grid`: the row-major nested loop that all grid generators share.
- `WaterModel`, `WaterMesh`, `HeightMap`: the three generators.

**Floats are opaque.** A float the source computes is represented by what
it is computed from:
- a number read from the file;
- the grid coordinates of a point;
- a colour level before `/ 255f`;
- the draw index of a random brightness.

The model therefore proves sizes, positions, orderings and index ranges,
never float arithmetic.

## Model

| member | source | states |
|---|---|---|
| Text.Words | src/hu/kazocsaba/v3d/mesh/format/ply/PlyReader.java:78-121 | the words a header line is split into by the word scanner are non-empty and whitespace-free |
| Text.WordsUnwords | src/hu/kazocsaba/v3d/mesh/format/ply/PlyReader.java:78-121 | joining whitespace-free words with spaces and splitting again gives back exactly those words |
| Text.Lines | src/hu/kazocsaba/v3d/mesh/format/ply/PlyReader.java:64-77 | the lines `nextLine` returns contain no line terminator |
| Text.LinesUnlines | src/hu/kazocsaba/v3d/mesh/format/ply/PlyReader.java:64-77 | terminating each terminator-free line with a newline and splitting into lines again gives back exactly those lines |
| Text.ParseJavaInt | src/hu/kazocsaba/v3d/mesh/format/ply/PlyReader.java:89 | `nextInt` accepts a word only when its value fits a Java `int` |
| Text.ParseShowInt | src/hu/kazocsaba/v3d/mesh/format/ply/PlyReader.java:89 | the decimal spelling of every integer parses back to that integer |
| Bytes.DecodeAscii | src/hu/kazocsaba/v3d/mesh/format/ply/PlyReader.java:62 | US-ASCII decoding gives one character per byte: a byte below 128 becomes the character with that code, and any other byte becomes U+FFFD |
| Bytes.DecodeAsciiBytes | src/hu/kazocsaba/v3d/mesh/format/ply/PlyReader.java:62 | decoding the ASCII encoding of a 7-bit string gives the string back |
| Bytes.UnsignedEncodeLE | src/hu/kazocsaba/v3d/mesh/format/ply/PlyReader.java:505-510 | reading back the w little-endian bytes of any u below 256^w gives u |
| Bytes.InLittleEndianSwap | src/hu/kazocsaba/v3d/mesh/format/ply/PlyReader.java:131-140 | reading reversed bytes as big-endian gives the same value as reading the bytes as little-endian |
| PlyTypes.ParseType | src/hu/kazocsaba/v3d/mesh/format/ply/PlyReader.java:596-614 | a type name is accepted exactly when it is one of the eight names; the accepted type prints as that name; any other name fails with an unknown-type error |
| PlyTypes.ParseTypeName | src/hu/kazocsaba/v3d/mesh/format/ply/PlyReader.java:596-614 | every type's name parses back to that type |
| PlyTypes.JavaInt | src/hu/kazocsaba/v3d/mesh/format/ply/PlyReader.java:361 | `intValue()` lands in the `int` range, keeps values already in range, and agrees with the value modulo 2^32 |
| PlyTypes.DecodeBinary | src/hu/kazocsaba/v3d/mesh/format/ply/PlyReader.java:552-578 | a value decoded from a type's width of bytes always fits that type's range |
| PlyTypes.DecodeEncodeBinary | src/hu/kazocsaba/v3d/mesh/format/ply/PlyReader.java:552-578 | every in-range integral value encoded in either byte order decodes back to itself |
| PlyTypes.DecodeBinarySwap | src/hu/kazocsaba/v3d/mesh/format/ply/PlyReader.java:131-140 | big-endian decoding of reversed bytes equals little-endian decoding of the bytes, for every type |
| PlyTypes.DecodeToken | src/hu/kazocsaba/v3d/mesh/format/ply/PlyReader.java:482-485 | a token read as a type yields a value in that type's range; the only failure is a malformed value |
| PlyTypes.DecodeTokenShowInt | src/hu/kazocsaba/v3d/mesh/format/ply/PlyReader.java:482-485 | the decimal spelling of every in-range integral value reads back to that value |
| PlyHeader.ParseLine | src/hu/kazocsaba/v3d/mesh/format/ply/PlyReader.java:78-121 | each keyword branch: an empty line fails; an unknown keyword fails; `end_header` and only it ends the header; a later `format` line replaces an earlier one; `comment`/`obj_info` change nothing; a property before any element fails; a negative element count fails; a list with a float count type fails; a scalar property ignores trailing words; well-typed elements stay well typed |
| PlyHeader.FinishHeader | src/hu/kazocsaba/v3d/mesh/format/ply/PlyReader.java:127-140 | no format line fails first, then a version other than "1.0"; success exactly when the version is "1.0" and the format is one of the three names, keeping the elements |
| PlyHeader.ParseHeader | src/hu/kazocsaba/v3d/mesh/format/ply/PlyReader.java:60-141 | no line at all is an end-of-file error; a first line other than `ply` fails before anything else |
| PlyHeader.ParseHeaderWellTyped | src/hu/kazocsaba/v3d/mesh/format/ply/PlyReader.java:96-109 | in an accepted header every element count fits a Java `int` and every list property has an integral count type |
| PlyHeader.ParsePrintHeader | src/hu/kazocsaba/v3d/mesh/format/ply/PlyReader.java:60-141 | printing a header and parsing it back, followed by any body lines, gives the same header |
| PlyBindings.BindVertexPropsSpec | src/hu/kazocsaba/v3d/mesh/format/ply/PlyReader.java:148-214 | the vertex property scan succeeds exactly when none of the nine slot names is a list or repeated, and then records each slot name at its property's position |
| PlyBindings.BindFacePropsSpec | src/hu/kazocsaba/v3d/mesh/format/ply/PlyReader.java:216-231 | the face property scan succeeds exactly when `vertex_indices` is an integral list and not repeated, and then records its position |
| PlyBindings.BindElementsSpec | src/hu/kazocsaba/v3d/mesh/format/ply/PlyReader.java:143-233 | the element scan succeeds exactly when there is at most one `vertex` and one `face` element and each has acceptable properties, and then records them |
| PlyBindings.BindSpec | src/hu/kazocsaba/v3d/mesh/format/ply/PlyReader.java:143-261 | binding succeeds exactly when the schema is acceptable: the element rules, then x/y/z required, normals and colours all-or-nothing, and faces needing vertices and `vertex_indices` |
| PlyBindings.VertexChecks | src/hu/kazocsaba/v3d/mesh/format/ply/PlyReader.java:235-253 | the coordinate, normal and colour checks pass exactly when every vertex element has x/y/z and complete normals and colours; `hasVertices` holds exactly when a vertex element exists |
| PlyBindings.FaceChecks | src/hu/kazocsaba/v3d/mesh/format/ply/PlyReader.java:255-261 | the face checks pass exactly when every face element with instances has `vertex_indices` and a vertex element exists |
| PlyBindings.Open | src/hu/kazocsaba/v3d/mesh/format/ply/PlyReader.java:60-262 | the constructor's header errors come first; a constructed reader holds exactly the header that was parsed |
| BodyInput.ReadValue | src/hu/kazocsaba/v3d/mesh/format/ply/PlyReader.java:482-485 | a read value fits its type and consumes one token or the type's width of bytes; too little input is an end-of-file error; a binary read fails only at end of stream |
| BodyInput.ReadPut | src/hu/kazocsaba/v3d/mesh/format/ply/PlyReader.java:482-485 | reading a value that was just written in front of the input gives the value and the input back |
| BodyInput.NeedEnd | src/hu/kazocsaba/v3d/mesh/format/ply/PlyReader.java:487-492 | `needEnd` passes exactly when no token or byte is left, and otherwise reports trailing data |
| BodyInput.SkipList | src/hu/kazocsaba/v3d/mesh/format/ply/PlyReader.java:360-366 | skipping a list fails only at end of input, on a malformed value, or on a negative count |
| BodyInput.SkipListConsumes | src/hu/kazocsaba/v3d/mesh/format/ply/PlyReader.java:417-423 | a skipped list consumes its count value plus exactly count element values, and its count is non-negative |
| BodyInput.SkipListPut | src/hu/kazocsaba/v3d/mesh/format/ply/PlyReader.java:434-440 | skipping a list written in front of the input leaves exactly the input |
| AsciiInput.SkipHeaderSpec | src/hu/kazocsaba/v3d/mesh/format/ply/PlyReader.java:471-480 | the ASCII header skip succeeds exactly when some line is `end_header`; the rest is the text after the first such line |
| AsciiInput.Open | src/hu/kazocsaba/v3d/mesh/format/ply/PlyReader.java:471-480 | an opened ASCII input is a sequence of words; the only failure is a missing `end_header` line |
| AsciiInput.OpenWritten | src/hu/kazocsaba/v3d/mesh/format/ply/PlyReader.java:471-485 | a header ending in its first `end_header` line, followed by words, opens to exactly those words |
| BinaryInput.Read | src/hu/kazocsaba/v3d/mesh/format/ply/PlyReader.java:553-578 | a successful read keeps the window and channel consistent and the file unchanged |
| BinaryInput.ReadRefines | src/hu/kazocsaba/v3d/mesh/format/ply/PlyReader.java:553-578 | reading through the window, with its refills and compaction, is reading one value from the unconsumed bytes of the file |
| BinaryInput.NeedEndRefines | src/hu/kazocsaba/v3d/mesh/format/ply/PlyReader.java:581-589 | the window's `needEnd` passes exactly when no unconsumed byte is left in the window or the channel |
| BinaryInput.Open | src/hu/kazocsaba/v3d/mesh/format/ply/PlyReader.java:505-550 | the corrected header skip leaves a consistent window and channel |
| BinaryInput.OpenSpec | src/hu/kazocsaba/v3d/mesh/format/ply/PlyReader.java:505-550 | the corrected header skip succeeds with exactly the bytes after the first `end_header` line; it reports a missing header only when the file has no such line, and a too-long line only when one comes before it |
| BinaryInput.ScanPassAsWritten | src/hu/kazocsaba/v3d/mesh/format/ply/PlyReader.java:521-538 | the as-written scan of one read's bytes stops at a newline inside the bytes read, or leaves the line start and position inside the buffer |
| BinaryInput.ShortLineCounterexample | src/hu/kazocsaba/v3d/mesh/format/ply/PlyReader.java:515-527 | with 13-byte reads, `comment xx`, `end_header` fails as written with a missing header, while the corrected skip succeeds with nothing left |
| Records.ReadField | src/hu/kazocsaba/v3d/mesh/format/ply/PlyReader.java:338-370 | a field is one value for a scalar and a list of values for a list, each fitting its declared type |
| Records.ReadRecordShape | src/hu/kazocsaba/v3d/mesh/format/ply/PlyReader.java:338-370 | a record read in schema order has one field per property, shaped as that property |
| Records.SkipRecordsReads | src/hu/kazocsaba/v3d/mesh/format/ply/PlyReader.java:429-445 | skipping an element's records consumes exactly what reading them would and fails exactly when reading them would |
| Records.SkipPropertyConsumes | src/hu/kazocsaba/v3d/mesh/format/ply/PlyReader.java:417-426 | an unbound scalar consumes one value; an unbound list consumes 1 + count values with count non-negative |
| Faces.Triangulate | src/hu/kazocsaba/v3d/mesh/format/ply/PlyReader.java:384-412 | a triangle is kept as read; a quad (v1,v2,v3,v4) becomes (v1,v2,v3) then (v1,v3,v4) |
| Faces.ReadIndexList | src/hu/kazocsaba/v3d/mesh/format/ply/PlyReader.java:378-416 | a count below 3 or above 4 fails; an index error names an index outside [0, vertexCount); an accepted face gives one or two triangles with all corners in range |
| Faces.ReadIndexListPut | src/hu/kazocsaba/v3d/mesh/format/ply/PlyReader.java:378-416 | a face of 3 or 4 in-range indices written in front of the input reads back as its triangulation, leaving the input |
| Faces.ReadIndexListField | src/hu/kazocsaba/v3d/mesh/format/ply/PlyReader.java:378-416 | the face read succeeds exactly when reading the list as a plain field succeeds with a valid face, and then gives that list's triangulation |
| Faces.ReadFaces | src/hu/kazocsaba/v3d/mesh/format/ply/PlyReader.java:373-428 | every triangle read from the face element has its corners in [0, vertexCount) |
| Faces.ReadFacesRecords | src/hu/kazocsaba/v3d/mesh/format/ply/PlyReader.java:373-428 | reading the face element agrees with reading its records as plain fields and triangulating the valid faces |
| FloatIndex.ThroughFloatExact | src/hu/kazocsaba/v3d/mesh/format/ply/PlyReader.java:395 | an index up to 2^24 survives storage in a float unchanged |
| FloatIndex.ThroughFloatCounterexample | src/hu/kazocsaba/v3d/mesh/format/ply/PlyReader.java:455-457 | 2^24 + 1 comes back from a float as 2^24 |
| FloatIndex.IndicesAsWrittenExact | src/hu/kazocsaba/v3d/mesh/format/ply/PlyReader.java:453-458 | while every corner is at most 2^24, the as-written index array equals the triangle corners |
| FloatIndex.IndicesAsWrittenCounterexample | src/hu/kazocsaba/v3d/mesh/format/ply/PlyReader.java:453-458 | the triangle (0, 1, 2^24 + 1) gives the index array (0, 1, 2^24) as written |
| FloatIndex.IndexArrayAsWritten | src/hu/kazocsaba/v3d/mesh/format/ply/PlyReader.java:453-458 | the as-written loop gives three entries per triangle, each corner rounded through a float |
| FloatIndex.Indices | src/hu/kazocsaba/v3d/mesh/format/ply/PlyReader.java:453-458 | the corrected index array has three entries per triangle, its corners in emission order |
| FloatIndex.IndexArray | src/hu/kazocsaba/v3d/mesh/format/ply/PlyReader.java:453-458 | the corrected index loop fills the array with exactly the corrected index list |
| Utils.ListToArr | src/org/lwjglb/game/engine/utils/Utils.java:39-49 | the array has 3n entries; entries 3i, 3i+1 and 3i+2 are the x, y and z of the i-th triple, in list order |
| Utils.UnflattenFlatten | src/org/lwjglb/game/engine/utils/Utils.java:39-49 | regrouping the flat array into triples gives back the list |
| Utils.FlattenUnflatten | src/org/lwjglb/game/engine/utils/Utils.java:39-49 | every array of length 3n is the flattening of its triples |
| MeshReader.SlotAt | src/hu/kazocsaba/v3d/mesh/format/ply/PlyReader.java:338-358 | the vertex property at a position feeds the slot bound to it, or no slot when none is bound there |
| MeshReader.VertexOfSlots | src/hu/kazocsaba/v3d/mesh/format/ply/PlyReader.java:327-358 | position, colour and normal are the fields bound to x/y/z, red/green/blue and nx/ny/nz; colour and normal stay zero when not bound |
| MeshReader.ReadVertices | src/hu/kazocsaba/v3d/mesh/format/ply/PlyReader.java:325-372 | the vertex element gives exactly one vertex per instance |
| MeshReader.ReadVerticesRecords | src/hu/kazocsaba/v3d/mesh/format/ply/PlyReader.java:325-372 | reading the vertex element is reading its records as plain fields and interpreting each through the slots |
| MeshReader.ReadParts | src/hu/kazocsaba/v3d/mesh/format/ply/PlyReader.java:324-447 | the walk yields one part per element, in header order: the vertex element gives one vertex per instance, the face element gives triangles whose corners are all in [0, vertexCount) |
| MeshReader.ReadMesh | src/hu/kazocsaba/v3d/mesh/format/ply/PlyReader.java:311-459 | no vertices fails first, then no faces; a read mesh has 3n position, colour and normal floats for n vertices, and an index array of whole triangles, every index in [0, n) |
| MeshReader.ReadMeshBody | src/hu/kazocsaba/v3d/mesh/format/ply/PlyReader.java:311-459 | reading the mesh succeeds exactly when the body reads as plain records, every face is valid and nothing is left over; the mesh is then the interpreted vertices and the triangulated faces |
| MeshReader.MeshVertex | src/hu/kazocsaba/v3d/mesh/format/ply/PlyReader.java:450-452 | vertex k's position, colour and normal are the floats 3k, 3k+1 and 3k+2 of their arrays |
| MeshReader.IndicesInRange | src/hu/kazocsaba/v3d/mesh/format/ply/PlyReader.java:453-458 | triangles with corners below n give an index array whose entries are all below n |
| PlyFile.OpenLayout | src/hu/kazocsaba/v3d/mesh/format/ply/PlyReader.java:143-261 | a constructed reader gives the body walk what it relies on: integral list counts, bound slots naming scalars of their own names, and an integral index list |
| PlyFile.ByteOrderOf | src/hu/kazocsaba/v3d/mesh/format/ply/PlyReader.java:131-140 | ASCII has no byte order; `binary_big_endian` and `binary_little_endian` map to big- and little-endian, and only they do |
| PlyFile.GetInput | src/hu/kazocsaba/v3d/mesh/format/ply/PlyReader.java:292-298 | the body input is ASCII tokens exactly for the ASCII format, and a binary stream in the byte order the format names otherwise |
| PlyFile.BinaryInputSpec | src/hu/kazocsaba/v3d/mesh/format/ply/PlyReader.java:292-298 | a binary file's body is exactly the bytes after its first `end_header` line, in the format's byte order; a missing header means there is no such line |
| PlyFile.AsciiInputSpec | src/hu/kazocsaba/v3d/mesh/format/ply/PlyReader.java:292-294 | an ASCII file opens exactly when its text has an `end_header` line, and then to a sequence of words |
| PlyFile.ReadFile | src/hu/kazocsaba/v3d/mesh/format/ply/PlyReader.java:60-459 | a header or binding error is reported before anything else, then a missing vertex element, then a missing face element, and only after those an error of the body input; a read mesh has 3n floats per array for the n declared vertices, and whole triangles of indices in [0, n) |
| ReadOrder.NoVerticesBeforeInput | src/hu/kazocsaba/v3d/mesh/format/ply/PlyReader.java:311-322 | a file whose header is accepted but declares no vertex element, and whose body input would fail to open, is refused as having no vertices |
| Grid.RowsLength | src/org/lwjglb/game/HeightMap.java:33-47 | a nested loop of h rows of w steps, each appending k values, appends k·w·h values |
| Grid.AppendRows | src/org/lwjglb/game/HeightMap.java:33-47 | the nested loop appends, row by row and column by column, the values of each step |
| Grid.FillTriples | src/org/lwjglb/game/HeightMap.java:67-73 | a stride-3 fill of a zeroed array writes every entry: entry 3m + c is channel c of triple m |
| WaterModel.GenerateMesh | src/org/lwjglb/game/engine/water/WaterModel.java:23-63 | 3·vertX·vertY vertex floats, 6·(vertX-1)·(vertY-1) indices, and the water colour on every vertex, in channel order |
| WaterModel.VertexLoop | src/org/lwjglb/game/engine/water/WaterModel.java:30-54 | the vertex loop appends each vertex's floats and each cell's indices in loop order |
| WaterModel.VerticesLength | src/org/lwjglb/game/engine/water/WaterModel.java:30-36 | three floats per vertex, so the vertex list has 3·vertX·vertY entries |
| WaterModel.VertexFloats | src/org/lwjglb/game/engine/water/WaterModel.java:30-36 | vertex (x, y) is the triple at 3·(y·vertX + x): its x step, the water height, its z step |
| WaterModel.PointsAreCells | src/org/lwjglb/game/engine/water/WaterModel.java:39-52 | only vertices off the last column and last row start a cell, so the index list is the cells taken row by row |
| WaterModel.IndexCount | src/org/lwjglb/game/engine/water/WaterModel.java:39-52 | 6·(vertX-1)·(vertY-1) indices |
| WaterModel.CellCorners | src/org/lwjglb/game/engine/water/WaterModel.java:40-43 | rt = lt + 1, lb = lt + vertX, rb = lb + 1 |
| WaterModel.Winding | src/org/lwjglb/game/engine/water/WaterModel.java:45-51 | the cell at (x, y) is the block of six at 6·(y·(vertX-1) + x): triangle (lt, lb, rt) then (rt, lb, rb) |
| WaterModel.IndicesInRange | src/org/lwjglb/game/engine/water/WaterModel.java:40-51 | every index lies in [0, vertX·vertY) |
| WaterMesh.GenerateMesh | src/org/lwjglb/game/engine/WaterMesh.java:29-69 | the same vertex list, index list and colours as the water model's generator, with the same sizes |
| HeightMap.CreateMesh | src/org/lwjglb/game/HeightMap.java:33-78 | 6·(2r)² position floats, 6·(2r-1)² indices, a sand colour with the m-th brightness on every triple, and as many normal floats as position floats |
| HeightMap.PositionCount | src/org/lwjglb/game/HeightMap.java:33-47 | the position list holds 6·(2r)² floats |
| HeightMap.PointCopies | src/org/lwjglb/game/HeightMap.java:40-45 | grid point (x, z) is stored twice at 6·(z·2r + x), both copies holding its coordinates |
| HeightMap.IndexCount | src/org/lwjglb/game/HeightMap.java:48-62 | 6·(2r-1)² indices |
| HeightMap.CellCorners | src/org/lwjglb/game/HeightMap.java:50-61 | rt = lt + 1, lb = lt + 2r, rb = lb + 1; the first triangle uses even copies 2k, the second odd copies 2k + 1 |
| HeightMap.Winding | src/org/lwjglb/game/HeightMap.java:48-62 | the cell at (x, z) is the block of six at 6·(z·(2r-1) + x) |
| HeightMap.IndicesInRange | src/org/lwjglb/game/HeightMap.java:43-61 | every index is below 2·(2r)², inside the duplicated vertex list |
| HeightMap.CalcNormals | src/org/lwjglb/game/HeightMap.java:112-170 | the normal loops emit 6·width·height floats, one normal per grid point appended twice |
| HeightMap.NormalCount | src/org/lwjglb/game/HeightMap.java:112-170 | six normal floats per grid point |
| HeightMap.NormalFloats | src/org/lwjglb/game/HeightMap.java:112-168 | both copies of a border point get (0, 1, 0); both copies of an inner point get its surface normal |
| HeightMap.NormalReads | src/org/lwjglb/game/HeightMap.java:114-142 | for an inner point, the five positions `calcNormals` reads lie inside the position array and are the point and its four neighbours |

## Left out

- Float values are opaque. This covers:
  - decoding `float`/`double` tokens and bytes;
  - the `(float)` casts and `/ 255f` of `readMesh`;
  - `HeightMap`'s noise, `createCircle`, step sizes and normal arithmetic;
  - the random brightness, represented by its draw index.

  Coordinates are named by what they are computed from.
- PlyTypes.DecodeToken: an ASCII `float`/`double` token is accepted whatever its text, so a token such as `abc` reads as a value where `Scanner` would fail. Integral tokens follow a plain grammar (an optional sign, then decimal digits, range-checked), not `Scanner`'s full locale grammar.
- Text.ParseJavaInt: the element count of the header uses the same plain grammar, not `Scanner.nextInt`'s locale grammar with group separators and radix.
- I/O is replaced by values:
  - opening the resource or file path (`getResourceAsStream`, `Files.newByteChannel`);
  - the `close()` methods.

  The file is a byte sequence. The binary channel's short reads are modelled by a parameter `chunk`, the largest number of bytes one `channel.read` returns.
- `Scanner` buffering and its exceptions are not modelled. A missing token is `MissingToken`, and end of text is `HeaderEof`.
- Line terminators are `\n` and `\r` only. The Unicode line separators that `Scanner` also accepts cannot occur in US-ASCII text.
- The ASCII header skip looks for a line equal to `end_header`, exactly as the code compares it. A line such as `end_header ` with a trailing space does not end the skip.
- HeightMap.CreateMesh: Java `int` overflow of `radius * 2`, `z * radius * 2` and the list sizes is not modelled. The model assumes that sizes fit.
- WaterModel.GenerateMesh: Java `int` overflow of `y * vertX` and `vertX * vertY` is not modelled.
- WaterMesh.GenerateMesh: the same `int` overflow as `WaterModel.GenerateMesh` is not modelled.
- The `Mesh` constructor calls are not modelled. The model returns the arrays handed to them.
- `hasVertices`, `hasVertexColors` and `hasFaces` are modelled as the predicates `HasVertices`, `HasColors` and `HasFaces`. The getter methods themselves are not modelled.
- A face list of `4 0 1 2 1` with three vertices is accepted. All its indices are below 3, and the code checks only the range, so the model follows the code.
- Memory exhaustion for huge element counts is not modelled. Neither is the `IllegalStateException` type distinction: no vertices or no faces are ordinary errors here.

## Findings

| source | as written | input that shows it | evidently intended | confidence | as-written member | corrected member |
|---|---|---|---|---|---|---|
| src/hu/kazocsaba/v3d/mesh/format/ply/PlyReader.java:455-457 | face indices are stored in `Vector3f` float fields (line 395, and 410-411 for quads) and cast back with `(int)`, so any index above 2^24 is rounded to the nearest float | a face with index 16777217 (2^24 + 1), with more than 16777217 vertices, gives the index 16777216 | the index array holds the indices read | not executed | FloatIndex.IndexArrayAsWritten, FloatIndex.IndicesAsWrittenCounterexample | FloatIndex.IndexArray, MeshReader.ReadMesh |
| src/hu/kazocsaba/v3d/mesh/format/ply/PlyReader.java:525-527 | the binary header skip calls `buffer.get(endTest)` for every line of 10 bytes, which moves the buffer position; the next `channel.read` then writes at that position instead of at `bufferLength`, so bytes land in the wrong place | the header `comment xx\nend_header\n` read 13 bytes at a time ends as "header not found" | the skip finds the first `end_header` line whatever the chunking | not executed | BinaryInput.OpenAsWritten, BinaryInput.ShortLineCounterexample | BinaryInput.Open, BinaryInput.OpenSpec |
