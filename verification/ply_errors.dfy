/** The failures the PLY reader can raise. Each constructor corresponds to one
    `throw` site (or one runtime exception of the Java library) in the reader;
    the reader surfaces them all as an invalid-format or state error. */
module PlyErrors {

  datatype PlyError =
    // header, line level
    | HeaderEof                      // a line was expected but the text ended
    | NotPly                         // the first line is not exactly `ply`
    | MissingToken                   // `Scanner.next()` found no further word on a line
    | NotAnInteger                   // `Scanner.nextInt()` found a word that is not a Java int
    | TrailingTokens                 // words left on a `format`, `element` or list `property` line
    | NegativeElementCount
    | PropertyWithoutElement
    | UnknownType
    | NonIntegralListCount
    | UnrecognizedKeyword
    | MissingFormat
    | UnknownVersion
    | InvalidFormatName
    // semantic bindings
    | MultipleVertexElements
    | MultipleFaceElements
    | ListVertexProperty(name: string)
    | DuplicateVertexProperty(name: string)
    | IndicesNotList
    | NonIntegralIndices
    | DuplicateIndices
    | MissingCoordinate(name: string)
    | IncompleteNormal
    | IncompleteColor
    | FacesWithoutVertices
    | MissingIndices
    // readMesh preconditions (IllegalStateException)
    | NoVertices
    | NoFaces
    // body
    | BadValue                       // a token that does not parse as the requested type
    | UnexpectedEof                  // the body ended inside a value
    | NegativeListCount
    | DegenerateFace
    | FaceTooLarge
    | InvalidVertexIndex(index: int)
    | TrailingData
    // binary header skip
    | HeaderNotFound
    | LineTooLong
    | IndexOutOfRange                // `ByteBuffer.get(int)` past the buffer's limit
}
