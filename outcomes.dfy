/** Failure values shared by the matrix modules: the Python exceptions the
    wrapper raises or lets through from PETSc and numpy. */
module Outcomes {

  datatype Option<T> = None | Some(value: T)

  /** The exception kinds the wrapper can end in. */
  datatype Error =
    | AttributeError   // an operand without a `.matrix` attribute, or a deleted `matrix`
    | TypeError        // `*` with an operand of unsupported shape
    | ValueError       // numpy refuses the truth value of an array or sort keys of unequal lengths; petsc4py a buffer assignment of the wrong length
    | IndexError       // numpy indexing past the end of an array
    | SizeMismatch     // PETSc refuses operands of nonconforming sizes
    | WrongState       // PETSc refuses to multiply by a matrix that is not assembled

  datatype Result<T> = Ok(value: T) | Err(error: Error)
}
