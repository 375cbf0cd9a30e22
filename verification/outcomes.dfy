/** Failure-carrying values shared by every stage of the pipeline.

  The source signals every failure by raising `ValueError` (or, for a
  malformed backend reply, an `AttributeError`/`TypeError`); here each raise
  site becomes one constructor of `Error`, returned inside `Result`.
 */
module Outcomes {

  datatype Option<+T> = None | Some(value: T) {
    function GetOr(default: T): T {
      match this
      case Some(v) => v
      case None => default
    }
  }

  /** One endpoint of a relationship that names no node of its graph. */
  datatype DanglingEnd = DanglingSource(id: string) | DanglingTarget(id: string)

  datatype Error =
    // graph_merger.merge_graphs on an empty list
    | EmptyGraphList
    // chunker.split_text argument checks, in the order the source makes them
    | ChunkSizeNotPositive
    | OverlapNegative
    | OverlapNotLessThanSize
    // extractor.extract_knowledge_graph's own configuration check
    | OverlapConfig
    // extractor.extract_knowledge_graph when no chunk produced a graph
    | AllChunksFailed(total: nat)
    // validator: a graph without nodes
    | EmptyGraph
    // validator: ids met again after their first occurrence, in order
    | DuplicateNodeIds(ids: seq<string>)
    // validator: every dangling endpoint, in relationship order
    | InvalidReferences(refs: seq<DanglingEnd>)
    // a failure reported by an extraction backend
    | ExtractionFailed(message: string)
    // the backends iterate a JSON value that is not iterable
    | NotIterable(key: string)
    // the backends call `.upper()` on a relation that is not a string
    | RelationNotString
    // `range(0, n, 0)` in the paginated diagram
    | ZeroPageSize

  datatype Result<+T> = Ok(value: T) | Err(error: Error) {
    predicate IsFailure() {
      Err?
    }

    function PropagateFailure<U>(): Result<U>
      requires Err?
    {
      Err(error)
    }

    function Extract(): T
      requires Ok?
    {
      value
    }
  }

  /** A check that passes or reports why it failed. */
  datatype Outcome = Pass | Fail(error: Error)
}
