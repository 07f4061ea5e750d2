/** Success/failure values shared by the evaluator and the transcoder.
    The converter never recovers from an error: the first one aborts the
    whole conversion, so a single error kind is carried to the caller. */
module Outcomes {

  datatype Option<T> = None | Some(value: T)

  /** The kinds of failure the converter raises. The source raises
      ValueError with a message for an invalid name or value, a malformed
      expression and an unknown operator; Python itself raises
      AttributeError for a missing text or a missing `value` on an `expr`,
      TypeError for a missing attribute of a `const` or `entry` or for
      arithmetic on a string, and ZeroDivisionError. Only the kind is
      kept here. */
  datatype Error =
    | MissingText                    // `comment` element without text: None.strip()
    | MissingAttribute(attr: string) // attribute absent: re.match on None, or None.strip() for an `expr`
    | InvalidName(name: string)      // name outside [A-Za-z][A-Za-z0-9]*
    | InvalidValue(value: string)    // value outside [0-9]+
    | MalformedExpression            // fewer than three tokens
    | UnknownOperator(op: string)    // operator outside the supported set
    | ZeroDivision                   // `/` or `mod` by zero
    | TypeMismatch                   // arithmetic on an unresolved token

  datatype Result<T> = Ok(value: T) | Err(error: Error)
}
