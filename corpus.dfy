/**
 * The corpus records shared by ingestion and serving: a chunk of a document
 * with its provenance, and the per-request copy of a chunk that the reranker
 * annotates with a score.
 */
module Corpus {
  import opened Common

  /**
   * One chunk record as ingestion writes it and the server reads it back:
   * the window of text, its page range (1-based), the file's base name and a
   * short preview of the section the window belongs to.
   */
  datatype Chunk = Chunk(text: string, pageStart: nat, pageEnd: nat, source: string, sectionHint: string)

  /**
   * A per-request copy of a chunk record (`meta[i].copy()`): the chunk's own
   * fields never change, while `rerankScore` starts absent and is filled in
   * by the reranker.
   */
  class Doc {
    const chunk: Chunk
    var rerankScore: Option<real>

    constructor (c: Chunk)
      ensures chunk == c && rerankScore == None
    {
      chunk := c;
      rerankScore := None;
    }
  }
}
