/** The cooldown ledger: per bucket, the epoch second at which each item was
    last selected, keyed by the item's decimal text. */
module Ledger {
  import opened Wrappers
  import opened Ids

  /** One bucket's stamps: `str(item_id)` to epoch seconds. */
  type Stamps = map<string, int>

  /** All buckets' stamps. */
  type Cooldowns = map<string, Stamps>

  /** The bucket's stamps, or none yet (what `_cd_bucket` would create). */
  function StampsOf(cd: Cooldowns, bucket: string): Stamps {
    if bucket in cd then cd[bucket] else map[]
  }

  /** The recorded selection time of `id`, if any. */
  function LastStamp(stamps: Stamps, id: int): Option<int> {
    if IdKey(id) in stamps then Some(stamps[IdKey(id)]) else None
  }

  /** `_cd_bucket`: the ledger with an (empty) entry for `bucket`. */
  function EnsureBucket(cd: Cooldowns, bucket: string): (r: Cooldowns)
    ensures bucket in r && r[bucket] == StampsOf(cd, bucket)
    ensures forall b :: b != bucket ==> (b in r <==> b in cd)
    ensures forall b | b in cd :: b in r && r[b] == cd[b]
  {
    if bucket in cd then cd else cd[bucket := map[]]
  }

  /** May `id` be selected at `now`? Yes when gating is off, when it was never
      selected, or when at least `cooldownSeconds` have passed since. */
  predicate CooledDown(stamps: Stamps, id: int, cooldownSeconds: int, now: int) {
    cooldownSeconds <= 0 || IdKey(id) !in stamps || now - stamps[IdKey(id)] >= cooldownSeconds
  }

  /** `mark_searched`: the bucket's stamps with `id` selected at `now`. */
  function Stamp(stamps: Stamps, id: int, now: int): (r: Stamps)
    ensures LastStamp(r, id) == Some(now)
    ensures r.Keys == stamps.Keys + {IdKey(id)}
    ensures forall k | k in stamps && k != IdKey(id) :: r[k] == stamps[k]
  {
    stamps[IdKey(id) := now]
  }

  /** Stamping one id leaves every other id's stamp as it was. */
  lemma StampOnlyTouchesItsId(stamps: Stamps, id: int, now: int, other: int)
    requires other != id
    ensures LastStamp(Stamp(stamps, id, now), other) == LastStamp(stamps, other)
  {
    IdKeyInjective(id, other);
  }

  /** Right after a committed selection at `t`, the id is gated until
      `cooldownSeconds` have passed, and free again from then on; no other
      id's gating changes. */
  lemma CooldownAfterStamp(stamps: Stamps, id: int, t: int, cooldownSeconds: int, now: int, other: int)
    ensures CooledDown(Stamp(stamps, id, t), id, cooldownSeconds, now) <==>
      (cooldownSeconds <= 0 || now - t >= cooldownSeconds)
    ensures other != id ==>
      (CooledDown(Stamp(stamps, id, t), other, cooldownSeconds, now) <==> CooledDown(stamps, other, cooldownSeconds, now))
  {
    IdKeyInjective(id, other);
  }

  /** Waiting never re-gates an item. */
  lemma CooledDownStaysLater(stamps: Stamps, id: int, cooldownSeconds: int, now: int, later: int)
    requires CooledDown(stamps, id, cooldownSeconds, now) && now <= later
    ensures CooledDown(stamps, id, cooldownSeconds, later)
  {
  }
}
