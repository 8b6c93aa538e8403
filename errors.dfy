/**
 * The crate's error type. The errors of the libraries it wraps (the HTTP
 * client, the JSON parser, the operating system, the line editor) carry
 * their own message text here.
 */
module Errors {
  import opened Wrappers
  import Text

  datatype Error =
    | HttpRequest(message: string)
    | InvalidHeader(message: string)
    | InvalidQuery(message: string)
    | InvalidJson(message: string)
    | Io(message: string)
    | Readline(message: string)
    | InvalidCommand(message: string)
    | MissingArgument(message: string)
    | UnsupportedMethod(message: string)

  /** The fixed text the rendering puts before an error's message. */
  function Label(e: Error): string {
    match e
    case HttpRequest(_) => "HTTP request failed: "
    case InvalidHeader(_) => "Invalid header: "
    case InvalidQuery(_) => "Invalid query parameter: "
    case InvalidJson(_) => "Invalid JSON: "
    case Io(_) => "IO error: "
    case Readline(_) => "Readline error: "
    case InvalidCommand(_) => "Invalid command: "
    case MissingArgument(_) => "Missing required argument: "
    case UnsupportedMethod(_) => "Unsupported HTTP method: "
  }

  /** `Display for Error` (`to_string`): the kind's label and then the message, which can be read back from it. */
  function Display(e: Error): (r: string)
    ensures Text.StripPrefix(r, Label(e)) == Some(e.message)
  {
    var r := Label(e) + e.message;
    assert r[..|Label(e)|] == Label(e);
    assert r[|Label(e)|..] == e.message;
    r
  }
}
