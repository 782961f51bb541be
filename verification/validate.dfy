/** The forward-auth verdict (validate.go): a verified session plus the cached slot state. */
module Validate {
  import opened Wrappers
  import opened GoStrings
  import Session
  import opened SlotCache

  datatype Verdict = Verdict(allow: bool, user: string, denyState: string, clearCookie: bool)

  const REJECTED := Verdict(false, "", "", false)

  /** decideValidate, given the state a lookup for the verified user would return. */
  function DecideValidate(mac: Session.Mac, secret: seq<Byte>, cookie: string, now: int, slotState: string -> string): Verdict {
    match Session.Verify(mac, secret, cookie, now)
    case None => REJECTED
    case Some(user) =>
      var state := slotState(user);
      if Blocked(state) then Verdict(false, "", state, true) else Verdict(true, user, "", false)
  }

  /** verdictHTTP: status and Remote-User. */
  function VerdictHTTP(v: Verdict): (int, string) {
    if v.allow then (200, v.user) else (302, "")
  }

  /** decideValidate against the cache when nothing interleaves; without a good cookie neither the
      cache nor the store is consulted. */
  method Decide(cache: SlotStateCache, mac: Session.Mac, secret: seq<Byte>, cookie: string, nowUnix: int,
                now: int, store: map<string, string>, fetchOk: bool) returns (v: Verdict)
    modifies cache
    ensures v == DecideValidate(mac, secret, cookie, nowUnix,
                                user => LookupResult(old(cache.stateData), cache.stateTTL, user, now, store, fetchOk))
    ensures cache.stateData == match Session.Verify(mac, secret, cookie, nowUnix)
                               case None => old(cache.stateData)
                               case Some(user) => CacheAfter(old(cache.stateData), cache.stateTTL, user, now, store, fetchOk)
  {
    if cookie == "" {
      return REJECTED;
    }
    var user := Session.Verify(mac, secret, cookie, nowUnix);
    if user.None? {
      return REJECTED;
    }
    var state := cache.CachedSlotState(user.value, now, store, fetchOk);
    if Blocked(state) {
      return Verdict(false, "", state, true);
    }
    return Verdict(true, user.value, "", false);
  }

  /** Who gets in: for every cookie the answer is 200 for a user exactly when the cookie is that user's
      and the user's slot is neither suspended nor expired; every other answer is a 302 without a user.
      Only a good cookie of a blocked user is cleared. */
  lemma AdmittedExact(mac: Session.Mac, secret: seq<Byte>, cookie: string, now: int, slotState: string -> string)
    ensures var v := DecideValidate(mac, secret, cookie, now, slotState);
            var who := Session.Verify(mac, secret, cookie, now);
            (forall u :: VerdictHTTP(v) == (200, u) <==>
                         who == Some(u) && slotState(u) != "suspended" && slotState(u) != "expired") &&
            (VerdictHTTP(v).0 == 200 || VerdictHTTP(v) == (302, "")) &&
            (v.clearCookie <==> who.Some? && slotState(who.value) in {"suspended", "expired"}) &&
            v.denyState == if v.clearCookie then slotState(who.value) else ""
  {
  }

  /** A user without a slot, or whose state cannot be fetched, is let in. */
  lemma FailsOpen(mac: Session.Mac, secret: seq<Byte>, cookie: string, nowUnix: int, cache: map<string, Entry>, ttl: int,
                  now: int, store: map<string, string>, fetchOk: bool)
    requires Session.Verify(mac, secret, cookie, nowUnix).Some?
    requires var user := Session.Verify(mac, secret, cookie, nowUnix).value;
             Hit(cache, ttl, user, now).None? && (!fetchOk || user !in store)
    ensures var user := Session.Verify(mac, secret, cookie, nowUnix).value;
            VerdictHTTP(DecideValidate(mac, secret, cookie, nowUnix, u => LookupResult(cache, ttl, u, now, store, fetchOk))) == (200, user)
  {
  }

  /** A blocked slot is shut out within the TTL, across session, cache and store: once a patch
      blocked it and no later patch touched it, a lookup that starts a full TTL later makes the
      verdict for any cookie of that user a denial, unless the store failed in between. */
  lemma BlockedWithinTTL(ttl: int, clock: int, store: map<string, string>, steps: seq<Step>, p: nat, t: int,
                         mac: Session.Mac, secret: seq<Byte>, cookie: string, now: int, slotState: string -> string)
    requires ttl > 0 && p < |steps| && steps[p].Patch? && Blocked(steps[p].state)
    requires forall k :: p < k < |steps| ==> Untouched(steps[k], steps[p].user)
    requires var s := Init(clock, store);
             var lookups := Run(ttl, s, steps).lookups;
             t in lookups && lookups[t].Done? && lookups[t].user == steps[p].user &&
             lookups[t].now >= At(ttl, s, steps, p).clock + ttl && slotState(steps[p].user) == lookups[t].state
    requires Session.Verify(mac, secret, cookie, now).Some? && Session.Verify(mac, secret, cookie, now).value == steps[p].user
    ensures var v := DecideValidate(mac, secret, cookie, now, slotState);
            (VerdictHTTP(v) == (302, "") && v.denyState == steps[p].state && v.clearCookie) ||
            exists i :: p < i < |steps| && FailsAt(ttl, Init(clock, store), steps, steps[p].user, i)
  {
    PatchSeenAfterTTL(ttl, clock, store, steps, p, t);
  }
}
