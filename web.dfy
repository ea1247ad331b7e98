/** The slice of an HTTP request and of Python's dynamic values that the
    authentication classes look at. */
module Web {
  import opened Wrappers

  /** An argument as Python passes it: `None`, a `str`, or any other
      (hashable) object, such as an int. */
  datatype Value = Null | Str(s: string) | NonStr

  /** A request as the strategies see it: its headers and its cookies. */
  datatype Request = Request(headers: map<string, string>, cookies: map<string, string>)

  /** `None` becomes Python's None, `Some(s)` the string `s`. */
  function FromOption(o: Option<string>): (v: Value)
    ensures v.Str? <==> o.Some?
    ensures o.Some? ==> v.s == o.value
  {
    match o
    case None => Null
    case Some(s) => Str(s)
  }

  /** The session cookie of a request: nothing for a missing request,
      otherwise the cookie named `name`, if the request carries one. */
  function SessionCookie(request: Option<Request>, name: string): (r: Option<string>)
    ensures r.Some? <==> request.Some? && name in request.value.cookies
    ensures r.Some? ==> r.value == request.value.cookies[name]
  {
    if request.None? then None
    else if name in request.value.cookies then Some(request.value.cookies[name])
    else None
  }
}
