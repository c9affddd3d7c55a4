/**
 The outgoing HTTP response, reduced to what the rule middleware can change:
 the status code and the header bag. Header names are stored the way Symfony's
 header bag stores them: lower-cased, with `_` turned into `-`. So `Location`
 and `location` are one header, and so are `X_Debug` and `x-debug`.
 */
module Http {
  import opened Wrappers
  import Php

  datatype Response = Response(status: int, headers: map<string, string>)

  const LocationHeader: string := "location"

  /** The key under which a header bag stores `name`: `strtr($name, '_A..Z', '-a..z')`. */
  function HeaderKey(name: string): (k: string)
    ensures |k| == |name|
    ensures forall i :: 0 <= i < |name| ==>
      k[i] == if name[i] == '_' then '-' else if 'A' <= name[i] <= 'Z' then (name[i] as int + 32) as char else name[i]
  {
    Php.LowerAscii(Php.ReplaceChar(name, '_', '-'))
  }

  function HeaderAt(r: Response, key: string): Option<string> {
    if key in r.headers then Some(r.headers[key]) else None
  }

  function Location(r: Response): Option<string> {
    HeaderAt(r, LocationHeader)
  }

  /** `$response->headers->set($name, $value)`: replaces the header, whatever case it was written in. */
  function SetHeader(r: Response, name: string, value: string): (r': Response)
    ensures r'.status == r.status
    ensures HeaderAt(r', HeaderKey(name)) == Some(value)
    ensures forall k :: k != HeaderKey(name) ==> HeaderAt(r', k) == HeaderAt(r, k)
  {
    r.(headers := r.headers[HeaderKey(name) := value])
  }

  /**
   `new RedirectResponse($url, $status)`, reduced to the status and a Location
   header; the library's `Cache-Control`, `Date` and `Content-Type` defaults and
   its HTML body are not modelled.
   */
  function Redirect(url: string, status: int): (r: Response)
    ensures r.status == status
    ensures Location(r) == Some(url)
    ensures forall k :: k != LocationHeader ==> HeaderAt(r, k) == None
  {
    Response(status, map[LocationHeader := url])
  }
}
