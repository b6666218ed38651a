/**
 The records that flow through the ingestion and answering pipeline. Python
 keeps them as dictionaries; here each has a fixed shape.
 */
module Records {

  /** Metadata the PDF loader attaches to a page. */
  datatype PageMeta = PageMeta(company: string, document: string, page: nat)

  /** A page as produced by the PDF loader, before section tagging. */
  datatype RawPage = RawPage(text: string, meta: PageMeta)

  /** Metadata of a page once the section parser has added its "item". */
  datatype Metadata = Metadata(company: string, document: string, item: string, page: nat)

  /** A tagged page. */
  datatype Page = Page(text: string, meta: Metadata)

  /** A chunk of page text with a copy of its page's metadata; the vector
      store hands the same shape back on retrieval. */
  datatype Chunk = Chunk(text: string, meta: Metadata)

  /** An extractor's hit: the value and the chunk it was read from. */
  datatype Found = Found(value: string, chunk: Chunk)

  /** What the answering pipeline returns. */
  datatype Answer = Answer(answer: string, sources: seq<string>)
}
