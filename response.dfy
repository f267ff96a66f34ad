/** The immutable response value the client library hands back for a request. */
module Response {
  import opened Outcomes

  /** A response: status code, protocol version (e.g. "HTTP/1.1"), header
      multimap and body bytes. Every field is fixed when the value is built
      and nothing replaces it afterwards, so a datatype value captures it. */
  datatype HttpResponse = HttpResponse(status: int32, version: string, headers: Headers, body: seq<byte>)
  {
    /** The status code (e.g. 200 for OK). */
    function GetStatus(): int32 { status }

    /** The HTTP version string. */
    function GetVersion(): string { version }

    /** The response headers. */
    function GetHeaders(): Headers { headers }

    /** The response body. */
    function GetBody(): seq<byte> { body }
  }

  /** Each getter returns exactly the value given at construction. */
  lemma GettersReturnConstructorArguments(status: int32, version: string, headers: Headers, body: seq<byte>)
    ensures HttpResponse(status, version, headers, body).GetStatus() == status
    ensures HttpResponse(status, version, headers, body).GetVersion() == version
    ensures HttpResponse(status, version, headers, body).GetHeaders() == headers
    ensures HttpResponse(status, version, headers, body).GetBody() == body
  {
  }

  /** The four getters together determine the response: two responses that
      agree on every getter are the same value, and rebuilding a response
      from its getters gives it back. */
  lemma GettersDetermineResponse(a: HttpResponse, b: HttpResponse)
    ensures HttpResponse(a.GetStatus(), a.GetVersion(), a.GetHeaders(), a.GetBody()) == a
    ensures (a.GetStatus() == b.GetStatus() && a.GetVersion() == b.GetVersion() &&
             a.GetHeaders() == b.GetHeaders() && a.GetBody() == b.GetBody()) ==> a == b
  {
  }
}
