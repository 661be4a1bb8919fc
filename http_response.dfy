/** What the two form endpoints hand back: a JSON response with a status and
    either a `message` or an `error` field, together with the one outbound
    request the handler made, if any. */
module HttpResponse {
  import opened SeqUtil

  datatype Body = Message(text: string) | Error(text: string)

  /** `NextResponse.json(body, { status })`; without a status it is 200. */
  datatype Response = Response(status: int, body: Body)

  /** A handler's decision: the response and the request it sent upstream. */
  datatype Handled<C> = Handled(response: Response, call: Option<C>)

  /** `Response.ok`: a status in the range 200-299. */
  predicate IsOk(status: int)
  {
    200 <= status <= 299
  }

  /** JavaScript truthiness of an optional string: present and non-empty. */
  predicate Truthy(v: Option<string>)
  {
    v.Some? && v.value != ""
  }

  /** The generic 500 answer of both handlers' `catch` blocks. */
  const GenericError := "Something went wrong. Please try again."

  const InvalidEmail := "Please provide a valid email address."
}
