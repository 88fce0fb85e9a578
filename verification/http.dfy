/** What the pipeline sees of one request to the repository-hosting API. */
module Http {
  import opened Js

  /** A reply: either a response with its status code and its decoded JSON
      body (`None` when the body is not the expected shape, so that reading
      it throws), or a failure below HTTP (DNS, reset, timeout). */
  datatype Reply<T> = Response(status: int, body: Option<T>) | NetworkError

  /** `response.ok`: the status is in the 2xx range. */
  predicate IsOk(status: int)
  {
    200 <= status <= 299
  }

  /** The body of a reply the pipeline goes on to use, or `None` for every
      path that ends in the `catch` or `!response.ok` branch. */
  function Payload<T>(reply: Reply<T>): (r: Option<T>)
    ensures r.Some? <==> reply.Response? && IsOk(reply.status) && reply.body.Some?
    ensures r.Some? ==> r.value == reply.body.value
  {
    match reply
    case Response(status, body) => if IsOk(status) then body else None
    case NetworkError => None
  }
}
