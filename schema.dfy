/**
 * The llama_index values that pass between the pieces of the pipeline:
 * documents built from PDF files and the text nodes an index answers with.
 */
module Schema {
  /** A metadata value: the loader stores strings and one integer (the file size). */
  datatype MetaValue = Text(text: string) | Number(number: int)

  type Metadata = map<string, MetaValue>

  /** llama_index Document: the text of one PDF and its metadata. */
  datatype Document = Document(text: string, metadata: Metadata)

  /** A text node (a chunk of a document) with the metadata it carries. */
  datatype Node = Node(content: string, metadata: Metadata)
}
