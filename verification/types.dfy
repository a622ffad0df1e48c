/** The engine's plain data records (src/core/types.rs, src/storage/segment.rs,
    src/analysis/token.rs) as values. */
module Types {
  import opened Base

  /** `DocId(u64)`. */
  type DocId = U64

  /** `FieldValue`; `Number` is an `f64` in the engine and a real here, `Date` is a
      timestamp. */
  datatype FieldValue = Text(text: string) | Number(number: real) | Date(timestamp: int) | Boolean(flag: bool)

  /** `Document`: an id and its fields by name. */
  datatype Document = Document(id: DocId, fields: map<string, FieldValue>)

  /** `SegmentMetadata`; the creation time is left out. */
  datatype SegmentMetadata = SegmentMetadata(sizeBytes: nat, minDocId: DocId, maxDocId: DocId)

  /** `Segment`; the uuid is an opaque number. */
  datatype Segment = Segment(id: nat, docCount: U32, metadata: SegmentMetadata)

  datatype TokenType = Word | NumberToken | Symbol | Punctuation | Whitespace

  /** `Token` of the analysis pipeline. */
  datatype Token = Token(text: string, position: U32, offset: nat, length: nat, tokenType: TokenType)
}
