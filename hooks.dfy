/** The server hook that runs before every handler: it resolves the session cookie into
    `locals.user`, and rate-limits registration attempts per client address with a
    sliding window held in the module's `limiter` Map. */
module Hooks {
  import opened Wrappers
  import opened Seqs
  import opened Db
  import opened Http
  import Auth

  /** `15 * 60 * 1000`. */
  const WindowMs: int := 900000
  /** At most this many registration attempts per address inside one window. */
  const MaxRequests: nat := 5

  const TooManyMessage: string := "Too many account creation attempts. Please try again later."

  /** `time => now - time < windowMs`. */
  function InWindow(now: int): int -> bool {
    (t: int) => now - t < WindowMs
  }

  /** `requests.filter(time => now - time < windowMs)`. */
  function Recent(times: seq<int>, now: int): (r: seq<int>)
    ensures |r| <= |times|
    ensures forall t :: t in r <==> t in times && now - t < WindowMs
  {
    Filter(times, InWindow(now))
  }

  /** When every stored time is inside the window, pruning keeps all of them. */
  lemma RecentKeepsAll(times: seq<int>, now: int)
    requires forall t :: t in times ==> now - t < WindowMs
    ensures |Recent(times, now)| == |times|
  {
    var r := Recent(times, now);
    assert multiset(r) == multiset(times) by {
      forall t ensures multiset(r)[t] == multiset(times)[t] {
        if t in times {
          assert InWindow(now)(t);
        } else {
          assert t !in multiset(times);
        }
      }
    }
    assert |multiset(r)| == |multiset(times)|;
  }

  /** The `locals.user` the hook sets: exactly the session's user id and name when the cookie
      names a live session, and nothing otherwise. */
  function ResolveUser(sessions: map<string, SessionRow>, users: seq<UserRow>, cookie: Option<string>, now: int): (u: Option<SessionUser>)
    ensures u.Some? <==> Present(cookie) && Auth.GetSession(sessions, users, cookie.value, now).Some?
    ensures u.Some? ==> var s := Auth.GetSession(sessions, users, cookie.value, now).value;
                        u.value == SessionUser(s.userId, s.username)
                        && cookie.value in sessions && s.userId == sessions[cookie.value].userId
                        && exists row :: row in users && row.id == s.userId && row.username == s.username
  {
    if !Present(cookie) then None
    else match Auth.GetSession(sessions, users, cookie.value, now)
      case None => None
      case Some(s) => Some(SessionUser(s.userId, s.username))
  }

  /** `event.url.pathname === '/register' && event.request.method === 'POST'`. */
  predicate RateLimited(pathname: string, verb: string) {
    pathname == "/register" && verb == "POST"
  }

  /** The list stored for `ip`, `[]` when there is none yet. */
  function Stored(windows: map<string, seq<int>>, ip: string): seq<int> {
    if ip in windows then windows[ip] else []
  }

  class RateLimiter {
    /** `limiter`: per client address, the times of its recent registration attempts. */
    var windows: map<string, seq<int>>

    /** No address ever has more than `MaxRequests` attempts on record. */
    ghost predicate Valid()
      reads this
    {
      forall ip :: ip in windows ==> |windows[ip]| <= MaxRequests
    }

    constructor ()
      ensures Valid() && windows == map[]
    {
      windows := map[];
    }

    /** The limiter for one attempt from `ip` (None when `getClientAddress` threw, which is
        caught and lets the request through). Denied: nothing is recorded. Allowed: the
        pruned list plus `now` is stored, and other addresses are untouched. */
    method Check(ip: Option<string>, now: int) returns (denied: bool)
      requires Valid()
      modifies this
      ensures Valid()
      ensures ip.None? ==> !denied && windows == old(windows)
      ensures ip.Some? ==> (denied <==> |Recent(Stored(old(windows), ip.value), now)| >= MaxRequests)
      ensures denied ==> windows == old(windows)
      ensures ip.Some? && !denied ==> windows == old(windows)[ip.value := Recent(Stored(old(windows), ip.value), now) + [now]]
      ensures ip.Some? && !denied ==>
                |windows[ip.value]| <= MaxRequests && forall t :: t in windows[ip.value] ==> now - t < WindowMs
    {
      if ip.None? {
        return false;
      }
      var address := ip.value;
      if address !in windows {
        windows := windows[address := []];
      }
      var recentRequests := Recent(windows[address], now);
      if |recentRequests| >= MaxRequests {
        return true;
      }
      windows := windows[address := recentRequests + [now]];
      denied := false;
    }
  }

  /** Five attempts inside one window exhaust it: the next one from that address is denied. */
  lemma SixthAttemptDenied(times: seq<int>, now: int)
    requires |times| == MaxRequests
    requires forall t :: t in times ==> now - t < WindowMs
    ensures |Recent(times, now)| >= MaxRequests
  {
    RecentKeepsAll(times, now);
  }

  /** Once every recorded attempt is older than the window, the address is admitted again. */
  lemma WindowSlides(times: seq<int>, now: int)
    requires forall t :: t in times ==> now - t >= WindowMs
    ensures |Recent(times, now)| < MaxRequests
  {
    var r := Recent(times, now);
    if r != [] {
      assert r[0] in r;
    }
  }

  datatype HookOutcome =
    /** The 429 answer; the handler never runs. */
    | TooManyRequests(status: int, message: string)
    /** `resolve(event)` with this `locals.user`. */
    | Resolve(user: Option<SessionUser>)

  method Handle(db: Database, limiter: RateLimiter, cookie: Option<string>, pathname: string, verb: string,
                ip: Option<string>, now: int)
    returns (o: HookOutcome)
    requires limiter.Valid()
    modifies limiter
    ensures limiter.Valid()
    ensures !RateLimited(pathname, verb) ==>
              o == Resolve(ResolveUser(db.sessions, db.users, cookie, now)) && limiter.windows == old(limiter.windows)
    ensures RateLimited(pathname, verb) && o.TooManyRequests? ==>
              o == TooManyRequests(429, TooManyMessage) && limiter.windows == old(limiter.windows)
              && ip.Some? && |Recent(Stored(old(limiter.windows), ip.value), now)| >= MaxRequests
    ensures RateLimited(pathname, verb) && o.Resolve? ==>
              o.user == ResolveUser(db.sessions, db.users, cookie, now)
              && (ip.None? || |Recent(Stored(old(limiter.windows), ip.value), now)| < MaxRequests)
    ensures ip.None? ==> o.Resolve? && limiter.windows == old(limiter.windows)
    ensures RateLimited(pathname, verb) && o.Resolve? && ip.Some? ==>
              limiter.windows == old(limiter.windows)[ip.value := Recent(Stored(old(limiter.windows), ip.value), now) + [now]]
    ensures forall a :: a in old(limiter.windows) && (ip.None? || a != ip.value) ==>
              a in limiter.windows && limiter.windows[a] == old(limiter.windows)[a]
  {
    var user := ResolveUser(db.sessions, db.users, cookie, now);
    if RateLimited(pathname, verb) {
      var denied := limiter.Check(ip, now);
      if denied {
        return TooManyRequests(429, TooManyMessage);
      }
    }
    o := Resolve(user);
  }
}
