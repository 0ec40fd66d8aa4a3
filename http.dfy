// What a handler sends back to the client.
module Http {

  /** An HTTP response as the handlers build it: the status code, the `status`
      flag of the JSON body and its message text (the handlers name that field
      `message` in some branches and `msg` in others; the model does not keep
      the field name). */
  datatype Response = Response(code: int, status: bool, message: string)

  /** The catch-all branch every handler ends with: 500, the fault's message. */
  function Fault(message: string): Response
  {
    Response(500, false, message)
  }

  /** Evaluating a name that is not bound throws a ReferenceError. */
  function ReferenceError(name: string): Response
  {
    Fault(name + " is not defined")
  }

  /** Calling a property that is not a function throws a TypeError. */
  function NotAFunction(callee: string): Response
  {
    Fault(callee + " is not a function")
  }
}
