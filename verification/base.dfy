/** Shared failure-carrying datatypes. Python exceptions raised by the
    application become `Err` values carrying the exception's kind. */
module Base {

  datatype Option<+T> = None | Some(value: T) {
    function GetOr(default: T): T {
      match this
      case Some(v) => v
      case None => default
    }
  }

  /** The exception kinds the modelled code can raise. */
  datatype Error =
    | ValidationError     // django.core.exceptions.ValidationError
    | IntegrityError      // django.db.IntegrityError
    | ValueError          // Python ValueError
    | IndexError          // Python IndexError (`[...][0]` on an empty list)
    | AttributeError      // attribute access on None (a missing parent)
    | DoesNotExist        // a foreign key pointing at a missing row
    | NotFound            // Http404
    | FieldError          // django.core.exceptions.FieldError (unknown lookup)

  datatype Result<+T> = Ok(value: T) | Err(error: Error) {
    predicate IsFailure() {
      Err?
    }

    function PropagateFailure<U>(): Result<U>
      requires Err?
    {
      Err(error)
    }

    function Extract(): T
      requires Ok?
    {
      value
    }
  }
}
