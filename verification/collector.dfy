/**
 The response collector: the request-scoped queue of response changes that
 rule actions fill and the middleware drains. Queued headers form a PHP
 array (name => value, last write wins); a queued redirect is a URL and a
 status, and its presence means the response is to be replaced.
 */
module ResponseCollector {
  import opened Wrappers
  import Assoc
  import Http

  /** The queued headers, in the order their names were first queued. */
  type HeaderList = hs: seq<(string, string)> | Assoc.Unique(hs)

  datatype Collector = Collector(headers: HeaderList, redirectUrl: Option<string>, redirectStatus: int)

  const DefaultRedirectStatus: int := 302

  /** A newly constructed collector. */
  function Fresh(): (c: Collector)
    ensures GetHeaders(c) == []
    ensures !HasReplacement(c)
    ensures GetReplacement(c) == None
    ensures c.redirectStatus == 302
  {
    Collector([], None, DefaultRedirectStatus)
  }

  /** `addHeader($name, $value)`. */
  function AddHeader(c: Collector, name: string, value: string): (r: Collector)
    ensures Assoc.Get(r.headers, name) == Some(value)
    ensures forall n :: n != name ==> Assoc.Get(r.headers, n) == Assoc.Get(c.headers, n)
    ensures Assoc.Keys(r.headers) == if name in Assoc.Keys(c.headers) then Assoc.Keys(c.headers) else Assoc.Keys(c.headers) + [name]
    ensures r.redirectUrl == c.redirectUrl && r.redirectStatus == c.redirectStatus
  {
    Assoc.PutUnique(c.headers, name, value);
    c.(headers := Assoc.Put(c.headers, name, value))
  }

  /** `setRedirect($url, $status)`; `SetRedirectDefault` is the call that omits the status. */
  function SetRedirect(c: Collector, url: string, status: int): (r: Collector)
    ensures HasReplacement(r)
    ensures GetReplacement(r) == Some(Http.Redirect(url, status))
    ensures r.headers == c.headers
  {
    c.(redirectUrl := Some(url), redirectStatus := status)
  }

  function SetRedirectDefault(c: Collector, url: string): (r: Collector)
    ensures GetReplacement(r).Some? && GetReplacement(r).value.status == 302
    ensures Http.Location(GetReplacement(r).value) == Some(url)
    ensures r.headers == c.headers
  {
    SetRedirect(c, url, DefaultRedirectStatus)
  }

  predicate HasReplacement(c: Collector) {
    c.redirectUrl.Some?
  }

  /** `getReplacement()`: the redirect response that replaces the original one, or null. */
  function GetReplacement(c: Collector): (r: Option<Http.Response>)
    ensures r.None? <==> !HasReplacement(c)
    ensures r.Some? ==> r.value.status == c.redirectStatus && Http.Location(r.value) == c.redirectUrl
  {
    if c.redirectUrl.None? then None else Some(Http.Redirect(c.redirectUrl.value, c.redirectStatus))
  }

  function GetHeaders(c: Collector): HeaderList {
    c.headers
  }

  /** `clear()`: back to the state of a new collector, whatever came before. */
  function Clear(c: Collector): (r: Collector)
    ensures r == Fresh()
    ensures GetHeaders(r) == [] && !HasReplacement(r) && GetReplacement(r) == None
  {
    Collector([], None, DefaultRedirectStatus)
  }

  /** One call into the collector made by an action during rule execution. */
  datatype Op = AddHeaderOp(name: string, value: string) | SetRedirectOp(url: string, status: int)

  function Step(c: Collector, op: Op): Collector {
    match op
    case AddHeaderOp(n, v) => AddHeader(c, n, v)
    case SetRedirectOp(u, s) => SetRedirect(c, u, s)
  }

  /** The calls `ops`, made in order, starting from `c`. */
  function Replay(c: Collector, ops: seq<Op>): Collector
    decreases |ops|
  {
    if |ops| == 0 then c else Step(Replay(c, ops[..|ops| - 1]), ops[|ops| - 1])
  }

  /** The value of the last header call for `name` among `ops`, if there is one. */
  function LastHeader(ops: seq<Op>, name: string): Option<string>
    decreases |ops|
  {
    if |ops| == 0 then None
    else
      var op := ops[|ops| - 1];
      if op.AddHeaderOp? && op.name == name then Some(op.value) else LastHeader(ops[..|ops| - 1], name)
  }

  /** The last redirect call among `ops`, if there is one. */
  function LastRedirect(ops: seq<Op>): Option<(string, int)>
    decreases |ops|
  {
    if |ops| == 0 then None
    else
      var op := ops[|ops| - 1];
      if op.SetRedirectOp? then Some((op.url, op.status)) else LastRedirect(ops[..|ops| - 1])
  }

  /** Last write wins per header name; redirect calls never disturb queued headers. */
  lemma {:induction false} ReplayHeaders(c: Collector, ops: seq<Op>, name: string)
    ensures Assoc.Get(Replay(c, ops).headers, name) == if LastHeader(ops, name).Some? then LastHeader(ops, name) else Assoc.Get(c.headers, name)
    decreases |ops|
  {
    if |ops| > 0 {
      ReplayHeaders(c, ops[..|ops| - 1], name);
    }
  }

  /** Only the most recent redirect call is visible; header calls never disturb it. */
  lemma {:induction false} ReplayRedirect(c: Collector, ops: seq<Op>)
    ensures LastRedirect(ops).Some? ==>
      GetReplacement(Replay(c, ops)) == Some(Http.Redirect(LastRedirect(ops).value.0, LastRedirect(ops).value.1))
    ensures LastRedirect(ops).None? ==>
      Replay(c, ops).redirectUrl == c.redirectUrl && Replay(c, ops).redirectStatus == c.redirectStatus
    decreases |ops|
  {
    if |ops| > 0 {
      ReplayRedirect(c, ops[..|ops| - 1]);
    }
  }
}
