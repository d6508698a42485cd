/** Values that stand for Java's null and for Java's exceptions. */
module Outcomes {

  /** A nullable Java reference: None is null. */
  datatype Option<+T> = None | Some(value: T)

  /** How a void Java method completed: normally, or by throwing `error`. */
  datatype Outcome<+E> = Pass | Fail(error: E)
}
