/** The records the app exchanges with its vector collection: metadata dictionaries and the
    parallel lists handed to `collection.add`. */
module Index {

  /** A metadata value: the ingestion code stores strings; retrieval adds a distance, which is a
      number or Python's `None`. */
  datatype MetaValue = Str(s: string) | Num(r: real) | Null

  /** A metadata dictionary. */
  type Metadata = map<string, MetaValue>

  /** The three parallel lists of one `collection.add(ids=..., documents=..., metadatas=...)`. */
  datatype Batch = Batch(ids: seq<string>, docs: seq<string>, metas: seq<Metadata>)
  {
    /** The lists line up: entry `k` is `(ids[k], docs[k], metas[k])`. */
    predicate Parallel()
    {
      |ids| == |docs| == |metas|
    }
  }

  const EmptyBatch := Batch([], [], [])

  /** Appending one batch's entries after another's. */
  function Append(a: Batch, b: Batch): (r: Batch)
    requires a.Parallel() && b.Parallel()
    ensures r.Parallel() && |r.docs| == |a.docs| + |b.docs|
  {
    Batch(a.ids + b.ids, a.docs + b.docs, a.metas + b.metas)
  }
}
