/**
 * Translation documents and the shallow merge `{...base, ...over}` that
 * merge-namespaces.js folds over them.
 */
module Documents {

  /** A JSON value as JSON.parse returns it; the merge never looks inside one. */
  datatype Json =
    | Null
    | Boolean(b: bool)
    | Number(literal: string)
    | Text(s: string)
    | List(items: seq<Json>)
    | Object(members: map<string, Json>)

  /** A parsed translation file: its top-level keys and their values. */
  type Doc = map<string, Json>

  /**
   * The object spread `{...base, ...over}`: every key of either document,
   * with the value from `over` wherever it has the key. A value is taken
   * whole, so two nested objects under one key are never combined.
   */
  function Merge(base: Doc, over: Doc): (r: Doc)
    ensures r.Keys == base.Keys + over.Keys
    ensures forall k :: k in over ==> r[k] == over[k]
    ensures forall k :: k in base && k !in over ==> r[k] == base[k]
  {
    base + over
  }

  /** What reading and parsing one file gives: existsSync false, a read or JSON.parse error, or a document. */
  datatype Read = Absent | Unreadable | Parsed(doc: Doc)

  /** One step of the merge: a file that was read and parsed is merged in, anything else is skipped. */
  function Contribute(acc: Doc, r: Read): Doc {
    match r
    case Parsed(d) => Merge(acc, d)
    case _ => acc
  }

  /** Merging into an empty accumulator gives the document back. */
  lemma MergeIntoEmpty(d: Doc)
    ensures Merge(map[], d) == d
  {
  }
}
