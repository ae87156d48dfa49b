/** What a handler answers in the chat. */
module Replies {
  import opened Wrappers

  datatype Reply =
    | Unauthorized                  // UnauthorizedExecution was raised
    | Silent                        // the handler returned without a message
    | ReleaseFirst(register: string)   // an open register blocks the command
    | Usage(text: string)           // malformed arguments
    | NoRegisterToRelease           // `/ni` with nothing open
    | RegisterEmpty(register: string)  // the label is not held
    | Message(text: string)         // a result sent back to the chat
    | Failed                        // an external command failed

  /** The chat text a reply produces. The error callback drops
      UnauthorizedExecution, so an unauthorised caller never sees anything. */
  function Render(r: Reply): (text: Option<string>)
    ensures text.None? <==> r.Unauthorized? || r.Silent?
    ensures r.ReleaseFirst? ==> text == Some("Release register " + r.register + ".")
    ensures r.RegisterEmpty? ==> text == Some("Register " + r.register + " is empty.")
    ensures r.Failed? ==> text == Some("-1")
  {
    match r
    case Unauthorized => None
    case Silent => None
    case ReleaseFirst(name) => Some("Release register " + name + ".")
    case Usage(text) => Some(text)
    case NoRegisterToRelease => Some("No register to release.")
    case RegisterEmpty(name) => Some("Register " + name + " is empty.")
    case Message(text) => Some(text)
    case Failed => Some("-1")
  }
}
