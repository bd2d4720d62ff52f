/** The configuration constants the core reads from `config/settings.py`. */
module Settings {

  /** Default maximum chunk length handed to the text splitter. */
  const ChunkSize: int := 1000

  /** Default overlap between consecutive chunks. */
  const ChunkOverlap: int := 200

  /** Default directory the vector index is saved to and loaded from. */
  const FaissIndexPath: string := "data/faiss_index"

  /** Default number of results a search returns. */
  const TopKResults: int := 3
}
