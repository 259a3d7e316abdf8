/** Failure-carrying return values shared by every module of the model. */
module Results {

  /** A value that may be absent, as returned by a depth-first lookup. */
  datatype Option<+T> = None | Some(value: T)

  /** The typed failures the scoped-state layer reports to its caller. */
  datatype Error =
    | NotFound              // no manifold with the requested identity in the tree
    | OutOfRange            // a sub-manifold or flat value index past the end
    | TypeMismatch          // comparing states bound to different manifolds
    | InvalidConfiguration  // combining manifolds that share an identity

  datatype Result<+T> = Ok(value: T) | Err(error: Error)
}
