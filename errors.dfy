/** Exceptions of the library (thewired/exceptions.py) and of the Python runtime that the
    modelled code lets escape, plus the failure-compatible wrappers used to return them. */
module Errors {

  /** One constructor per exception class a modelled operation can raise. */
  datatype Error =
    | InvalidNsid                       // InvalidNsidError
    | NamespaceLookup                   // NamespaceLookupError (an AttributeError)
    | NamespaceCollision                // NamespaceCollisionError
    | NamespaceConfigParsing            // NamespaceConfigParsingError
    | NamespaceInternal                 // NamespaceInternalError
    | ProviderFailure                   // ProviderError
    | ProviderMapLookup                 // ProviderMapLookupError (a KeyError)
    | CollectiveEvalDelegateObject      // CollectiveEvalDelegateObjectError
    | KeyErr                            // KeyError
    | ValueErr                          // ValueError
    | TypeErr                           // TypeError
    | AttributeErr                      // AttributeError
    | IndexErr                          // IndexError
    | ImportErr                         // ImportError / ModuleNotFoundError
    | NameErr                           // NameError
    | RecursionErr                      // RecursionError (interpreter recursion limit)

  /** The conventional optional value. */
  datatype Option<+T> = None | Some(value: T)

  /** A value, or the exception raised instead of returning it. */
  datatype Result<+T> = Ok(value: T) | Err(error: Error) {
    predicate IsFailure() { Err? }

    function PropagateFailure<U>(): Result<U>
      requires Err?
    {
      Err(error)
    }

    function Extract(): T
      requires Ok?
    {
      value
    }
  }
}
