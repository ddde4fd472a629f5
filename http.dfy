/** What the request handlers hand back to SvelteKit, reduced to a status and an outcome,
    and the one cookie they set: `session_id`. */
module Http {
  import opened Wrappers
  import Auth

  /** `event.locals.user`, as the hook sets it. */
  datatype SessionUser = SessionUser(id: string, username: string)

  /** The parts of the request the handlers read besides its body. */
  datatype RequestInfo = RequestInfo(url: string, forwardedProto: Option<string>)

  datatype CookieOptions = CookieOptions(path: string, httpOnly: bool, sameSite: string, secure: bool, maxAge: int)

  /** What a handler does to the `session_id` cookie. */
  datatype CookieChange =
    | KeepCookie
    | SetSessionCookie(value: string, options: CookieOptions)
    | DeleteSessionCookie(path: string)

  /** `60 * 60 * 24 * 7`: the cookie's lifetime in seconds. */
  const CookieMaxAge: int := 604800

  /** `request.url.startsWith('https') || request.headers.get('x-forwarded-proto') === 'https'`. */
  predicate SecureRequest(req: RequestInfo) {
    "https" <= req.url || req.forwardedProto == Some("https")
  }

  /** The cookie every sign-in path sets: HTTP-only, SameSite lax, site-wide, secure only
      over https, and living exactly as long as the session row. */
  function SessionCookie(sessionId: string, req: RequestInfo): (c: CookieChange)
    ensures c.SetSessionCookie? && c.value == sessionId
    ensures c.options.httpOnly && c.options.sameSite == "lax" && c.options.path == "/"
    ensures c.options.secure <==> SecureRequest(req)
    ensures c.options.maxAge * 1000 == Auth.SessionTtlMs
  {
    SetSessionCookie(sessionId, CookieOptions("/", true, "lax", SecureRequest(req), CookieMaxAge))
  }

  /** A handler's answer. */
  datatype Reply<+T> =
    /** `json(body)` or `json(body, { status })`. */
    | Json(status: int, body: T)
    /** `json({ error }, { status })`. */
    | JsonError(status: int, error: string)
    /** `fail(status, { <field>: message })` from a form action. */
    | Fail(status: int, field: string, message: string)
    /** `throw redirect(status, location)`. */
    | Redirect(status: int, location: string)
    /** The object a form action or `load` returns. */
    | Data(body: T)
    /** An exception nobody catches: SvelteKit answers with its error page. */
    | Thrown(message: string)

  function Status<T>(r: Reply<T>): (status: int)
    ensures r.Data? ==> status == 200
    ensures r.Thrown? ==> status == 500
  {
    match r
    case Json(s, _) => s
    case JsonError(s, _) => s
    case Fail(s, _, _) => s
    case Redirect(s, _) => s
    case Data(_) => 200
    case Thrown(_) => 500
  }
}
