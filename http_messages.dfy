/**
 * The request and response values that pass between the connection and the
 * router. HttpRequest.h and HttpResponse.h are not part of this model: a
 * request is its URI and its header map, a response the fields its setters
 * fill in.
 */
module HttpMessages {
  import opened Options

  datatype Request = Request(uri: string, headers: map<string, string>)

  /** `HttpRequest req("/")`: the request a parse starts from. */
  const DefaultRequest: Request := Request("/", map[])

  /** HttpRequest::AddHeader, taken as a map update: a repeated header keeps its last value. */
  function AddHeader(req: Request, name: string, value: string): (r: Request)
    ensures r.uri == req.uri
    ensures r.headers.Keys == req.headers.Keys + {name} && r.headers[name] == value
    ensures forall k :: k in req.headers && k != name ==> r.headers[k] == req.headers[k]
  {
    req.(headers := req.headers[name := value])
  }

  /** HttpRequest::GetHeaderValue: the stored value, or the empty string for a name never added. */
  function GetHeaderValue(req: Request, name: string): (v: string)
    ensures name in req.headers ==> v == req.headers[name]
    ensures name !in req.headers ==> v == ""
  {
    if name in req.headers then req.headers[name] else ""
  }

  /**
   * What the handlers set on an HttpResponse: protocol, status code, status
   * message, content type (None while unset) and the body.
   */
  datatype Response = Response(
    protocol: string,
    code: int,
    message: string,
    contentType: Option<string>,
    body: string)
}
