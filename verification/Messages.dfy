/** Requests and their header fields (include/carafe/http/request.hpp, src/http/headers.cpp). */
module Messages {
  import opened Ascii

  datatype Method = Get | Head | Post | Put | Delete | Connect | Options | Trace | Patch

  datatype Version = Http10 | Http11

  /** A field as `Headers::add` stores it: the name folded to lowercase. */
  datatype Field = Field(name: string, value: string)

  datatype Request = Request(verb: Method, target: string, version: Version, headers: seq<Field>, body: string)

  /** A value-initialised `Request`: every enumeration at its first value. */
  const BLANK_REQUEST: Request := Request(Get, "", Http10, [], "")

  function AddField(headers: seq<Field>, field: Field): seq<Field>
  {
    headers + [field.(name := LowerText(field.name))]
  }

  /** The values stored under a lowercase name, in order. */
  function Values(headers: seq<Field>, name: string): seq<string>
  {
    if headers == [] then []
    else (if headers[0].name == name then [headers[0].value] else []) + Values(headers[1..], name)
  }

  lemma {:induction false} ValuesAppend(a: seq<Field>, b: seq<Field>, name: string)
    ensures Values(a + b, name) == Values(a, name) + Values(b, name)
    decreases |a|
  {
    if a == [] {
      assert a + b == b;
    } else {
      assert (a + b)[1..] == a[1..] + b;
      ValuesAppend(a[1..], b, name);
    }
  }

  function MethodName(m: Method): string
  {
    match m
    case Get => "GET"
    case Head => "HEAD"
    case Post => "POST"
    case Put => "PUT"
    case Delete => "DELETE"
    case Connect => "CONNECT"
    case Options => "OPTIONS"
    case Trace => "TRACE"
    case Patch => "PATCH"
  }

  function VersionName(v: Version): string
  {
    match v
    case Http10 => "HTTP/1.0"
    case Http11 => "HTTP/1.1"
  }
}
