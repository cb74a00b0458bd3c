/** Failures of the template engine and the wrappers that carry them.

    Every `TemplateException` the engine throws has its own `Error` kind; one
    further kind stands for an out-of-range vector read, which the C++ code
    performs without a check (see `Evaluator.IsTrue`). */
module Failures {

  /** Why rendering (or building a value or a token) stopped. */
  datatype Error =
    | NotAValue        // Data::getvalue on a list or a map
    | NotAList         // Data::getlist on a string or a map
    | NotADictionary   // Data::getmap on a string or a list
    | NoChildren       // Token::set_children / get_children on a token that has none
    | BadForSyntax     // a for directive that does not split into four pieces
    | EndHasNoText     // rendering an end-of-block token
    | IndexOutOfRange  // an if directive with too few pieces: undefined behaviour in C++

  /** The text of the `TemplateException` thrown for `e`. */
  function Message(e: Error): string
    requires !e.IndexOutOfRange?
  {
    match e
    case NotAValue => "Data item is not a value"
    case NotAList => "Data item is not a list"
    case NotADictionary => "Data item is not a dictionary"
    case NoChildren => "This token type cannot have children"
    case BadForSyntax => "Invalid syntax in for statement"
    case EndHasNoText => "End-of-control statements have no associated text"
  }

  datatype Option<+T> = None | Some(value: T)

  /** A value, or the exception that was thrown instead; usable with `:-`. */
  datatype Result<+T> = Ok(value: T) | Err(error: Error) {
    predicate IsFailure() {
      Err?
    }

    function PropagateFailure<U>(): Result<U>
      requires Err?
    {
      Err(error)
    }

    function Extract(): T
      requires Ok?
    {
      value
    }
  }
}
