/**
 * What a command handler's execute(args) hands back to the connection loop.
 *
 * SET, GET and CONFIG return a plain String (which GET may leave null), KEYS, ECHO,
 * PING and INFO return a response value, and INFO and KEYS can throw. A thrown
 * exception is an outcome of its own here.
 */
module Handler {
  import opened Wrappers
  import opened Protocol

  /** The exceptions a handler lets escape. */
  datatype Failure =
    | IllegalArgumentException(message: string)
    | NoSuchElementException

  datatype Reply =
    | Text(text: Option<string>)
    | Value(resp: Resp)
    | Thrown(failure: Failure)
}
