/** Local monotonic time, as the TTL checks of presence.rs and share_catalog.rs measure it. */
module Clock {

  /** Whether `since` lies at least `ttl` before `now`; a later `since` counts as age zero. */
  predicate Expired(since: int, now: int, ttl: int) {
    (if now > since then now - since else 0) >= ttl
  }
}
