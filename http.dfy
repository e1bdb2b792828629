/**
 * The parts of net/http the middleware reads and writes: the inbound or
 * outbound request, whose fields are updated in place, and a rendered response.
 */
module Http {
  import opened Wrappers
  import opened Aws

  /** A request body as the director finds it. */
  datatype Body =
    | NoBody                                            // req.Body == nil
    | Stream(data: seq<Byte>, readError: Option<string>)  // a reader yielding data, then failing if readError is set
    | Drained                                           // already read to its end and closed

  /** ioutil.ReadAll on a body: its bytes, or the read error. */
  function ReadAll(b: Body): (r: Result<seq<Byte>, string>)
    requires !b.NoBody?
    ensures r.Ok? <==> b.Stream? && b.readError.None?
    ensures r.Ok? ==> r.value == b.data
  {
    match b
    case Stream(data, None) => Ok(data)
    case Stream(_, Some(e)) => Err(e)
    case Drained => Err("http: invalid Read on closed Body")
  }

  class Request {
    var host: string                        // req.Host
    var scheme: string                      // req.URL.Scheme
    var urlHost: string                     // req.URL.Host
    var path: string                        // req.URL.Path
    var header: map<string, seq<string>>    // req.Header, canonical keys
    var body: Body                          // req.Body
    var signature: Option<SignCall>         // the signer's call, once the request is signed

    constructor (host: string, path: string, header: map<string, seq<string>>, body: Body)
      ensures this.host == host && this.path == path && this.header == header && this.body == body
      ensures scheme == "" && urlHost == "" && signature == None
    {
      this.host := host;
      this.scheme := "";
      this.urlHost := "";
      this.path := path;
      this.header := header;
      this.body := body;
      this.signature := None;
    }
  }

  /** A rendered response: status code, Content-Type and body text. */
  datatype Response = Response(status: int, contentType: string, body: string)

  const StatusBadRequest := 400
  const StatusNotFound := 404
  const StatusInternalServerError := 500
  const StatusBadGateway := 502

  /** http.Error: a plain-text response whose body is the message and a newline. */
  function Error(message: string, status: int): (r: Response)
    ensures r.status == status && r.body == message + "\n"
  {
    Response(status, "text/plain; charset=utf-8", message + "\n")
  }
}
