/** An in-memory challenge Map with timed deletion. The shared challenge store and each of
    the two passkey registration routes hold one such Map of their own. A `setTimeout`
    callback is a pending timer; letting the clock reach `now` fires the due timers. */
module Challenges {
  import opened Wrappers

  /** `5 * 60 * 1000`: the delay before a stored challenge's timer deletes its key. */
  const ExpiryMs: int := 300000

  /** A scheduled `challenges.delete(key)` that runs at time `fireAt`. */
  datatype Timer = Timer(fireAt: int, key: string)

  /** The keys that some timer due by `now` deletes. */
  function DueKeys(timers: seq<Timer>, now: int): (r: set<string>)
    ensures forall k :: k in r <==> exists t :: t in timers && t.fireAt <= now && t.key == k
  {
    if timers == [] then {}
    else
      var last := timers[|timers| - 1];
      assert timers == timers[..|timers| - 1] + [last];
      DueKeys(timers[..|timers| - 1], now) + (if last.fireAt <= now then {last.key} else {})
  }

  /** The timers still waiting at `now`, in the order they were scheduled. */
  function Pending(timers: seq<Timer>, now: int): (r: seq<Timer>)
    ensures forall t :: t in r <==> t in timers && now < t.fireAt
  {
    if timers == [] then []
    else
      var last := timers[|timers| - 1];
      assert timers == timers[..|timers| - 1] + [last];
      Pending(timers[..|timers| - 1], now) + (if last.fireAt <= now then [] else [last])
  }

  /** A challenge stored again before the first store's timer fires is deleted by that
      earlier timer, while it is younger than five minutes. */
  lemma StaleTimerWipesNewerChallenge(entries: map<string, string>, timers: seq<Timer>, key: string,
                                      first: int, second: int, challenge: string, now: int)
    requires Timer(first + ExpiryMs, key) in timers
    requires first <= second && first + ExpiryMs <= now < second + ExpiryMs
    ensures Timer(second + ExpiryMs, key) in Pending(timers + [Timer(second + ExpiryMs, key)], now)
    ensures key !in entries[key := challenge] - DueKeys(timers + [Timer(second + ExpiryMs, key)], now)
  {
    var all := timers + [Timer(second + ExpiryMs, key)];
    assert Timer(first + ExpiryMs, key) in all;
  }

  /** A key that survives the due timers still has a timer pending. */
  lemma TickKeepsScheduled(entries: map<string, string>, timers: seq<Timer>, now: int)
    requires forall k :: k in entries ==> exists t :: t in timers && t.key == k
    ensures forall k :: k in entries - DueKeys(timers, now) ==> exists t :: t in Pending(timers, now) && t.key == k
  {
    forall k | k in entries - DueKeys(timers, now) ensures exists t :: t in Pending(timers, now) && t.key == k {
      var t :| t in timers && t.key == k;
      assert now < t.fireAt;
    }
  }

  class ChallengeMap {
    var entries: map<string, string>
    /** Timers scheduled and not yet fired, in scheduling order. */
    var timers: seq<Timer>

    /** Every stored challenge still has a deletion scheduled. */
    ghost predicate Valid()
      reads this
    {
      forall k :: k in entries ==> exists t :: t in timers && t.key == k
    }

    /** No timer due by `now` is still waiting: the event loop has run every expired
        deletion before a request handled at `now` reads the Map. */
    ghost predicate Settled(now: int)
      reads this
    {
      forall t :: t in timers ==> now < t.fireAt
    }

    constructor ()
      ensures Valid()
      ensures entries == map[] && timers == []
    {
      entries, timers := map[], [];
    }

    /** `set` overwrites any challenge under `key`; a new timer is scheduled and the
        earlier ones are not cancelled. */
    method Store(key: string, challenge: string, now: int)
      requires Valid()
      modifies this
      ensures Valid()
      ensures entries == old(entries)[key := challenge]
      ensures timers == old(timers) + [Timer(now + ExpiryMs, key)]
    {
      entries := entries[key := challenge];
      timers := timers + [Timer(now + ExpiryMs, key)];
      assert Timer(now + ExpiryMs, key) in timers;
    }

    function Get(key: string): (r: Option<string>)
      reads this
      ensures r.Some? <==> key in entries
      ensures r.Some? ==> r.value == entries[key]
    {
      if key in entries then Some(entries[key]) else None
    }

    /** Removes `key` if present; its timers stay scheduled. */
    method Delete(key: string)
      requires Valid()
      modifies this
      ensures Valid()
      ensures entries == old(entries) - {key}
      ensures timers == old(timers)
    {
      entries := entries - {key};
    }

    /** The clock reaches `now`: every timer due by then has run its delete and left
        the queue; the others wait. */
    method Tick(now: int)
      requires Valid()
      modifies this
      ensures Valid()
      ensures entries == old(entries) - DueKeys(old(timers), now)
      ensures timers == Pending(old(timers), now)
      ensures Settled(now)
    {
      TickKeepsScheduled(entries, timers, now);
      entries, timers := entries - DueKeys(timers, now), Pending(timers, now);
    }
  }
}
