/** Failure-carrying results for the route-matching pipeline. Every `assert`,
    `KeyError` and `IndexError` through which the Python code aborts becomes an
    `Err` carrying one of the failure kinds below. */
module Results {

  datatype Option<+T> = None | Some(value: T)

  /** Why an operation of the pipeline aborted. */
  datatype Failure =
    | NoMatchFound        // no polyline point lies within the snap distance
    | InvalidTopology     // a component lacks a unique start or end node
    | AmbiguousDirection  // coordinates are not monotone on both axes
    | MissingComponent    // one of the two carriageways was never classified
    | MissingAttribute    // a merged node carries no `osmid_original`
    | KeyNotFound         // a node or a node coordinate is absent (Python KeyError)
    | IndexOutOfRange     // a list index past the end (Python IndexError)
    | ConflictingNodeIds  // connector endpoints with overlapping ids share a coordinate
    | MalformedInput      // an empty polyline, or oracle outputs of the wrong length
    | LabelCollision      // a relabelling would give two nodes the same id
    | Unresolvable        // the moved entries of an id mapping form a cycle (NetworkXUnfeasible)
    | NothingToCompose    // the union of an empty list of graphs (Python ValueError)

  datatype Result<+T> = Ok(value: T) | Err(error: Failure)

  /** The outcome of an operation that returns nothing but may abort. */
  datatype Outcome = Pass | Fail(error: Failure)
}
