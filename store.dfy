/** The state store: the cooldown ledger and the shuffle bags, updated in
    place by their operations, with the no-repeat draw proved against the
    step relation of `Cycle` and the run relation of `NoRepeat`. */
module Store {
  import opened Wrappers
  import opened Seqs
  import opened Ids
  import opened Ledger
  import opened Cycle
  import opened NoRepeat
  import Json
  import Persist

  /** The bucket's cycle, or the empty one `_sh_bucket` would create. */
  function BucketOf(sh: map<string, Bucket>, name: string): Bucket {
    if name in sh then sh[name] else Bucket([], [])
  }

  /** Every finite set of ids has an order, so each shuffle has an outcome. */
  lemma {:induction false} AnOrder(s: set<int>) returns (p: seq<int>)
    ensures Shuffled(p, s)
    decreases |s|
  {
    if s == {} {
      p := [];
    } else {
      var x := PickOne(s);
      var q := AnOrder(s - {x});
      p := [x] + q;
      ElemsConcat([x], q);
      assert Elems([x]) == {x};
      NoDupConcat([x], q);
    }
  }

  /** A set without members is empty. */
  lemma NothingIn(s: set<int>)
    requires forall y :: y !in s
    ensures s == {}
  {
    assert forall y :: y in s <==> y in {};
  }

  /** Some element of a non-empty set. */
  lemma PickOne(s: set<int>) returns (x: int)
    requires s != {}
    ensures x in s
  {
    if forall y :: y !in s {
      NothingIn(s);
      assert false;
    }
    x :| x in s;
  }

  /** Updating a key twice keeps only the second value. */
  lemma UpdateTwice<K, V>(m: map<K, V>, k: K, a: V, b: V)
    ensures m[k := a][k := b] == m[k := b]
  {
  }

  /** No other bucket's stamps change, and no bucket other than `bucket` appears. */
  predicate OthersKept(before: Cooldowns, after: Cooldowns, bucket: string) {
    && after.Keys <= before.Keys + {bucket}
    && forall b | b in before && b != bucket :: b in after && after[b] == before[b]
  }

  lemma OthersKeptTrans(c0: Cooldowns, c1: Cooldowns, c2: Cooldowns, bucket: string)
    requires OthersKept(c0, c1, bucket) && OthersKept(c1, c2, bucket)
    ensures OthersKept(c0, c2, bucket)
  {
  }

  class StateStore {
    /** bucket -> decimal item id -> epoch second of the last selection. */
    var cooldowns: Cooldowns
    /** bucket -> the current cycle's bag and seen lists. */
    var shuffle: map<string, Bucket>

    /** `__init__` with `_load`: `doc` is the parsed state file, `None` when
        it does not exist or does not parse. */
    constructor (doc: Option<Json.Json>)
      ensures cooldowns == Persist.LoadState(doc).cooldowns
      ensures shuffle == Persist.LoadState(doc).shuffle
    {
      var st := Persist.LoadState(doc);
      cooldowns := st.cooldowns;
      shuffle := st.shuffle;
    }

    // ---- Cooldown ----

    /** `_cd_bucket`: the bucket's stamps, creating an empty entry if needed. */
    method CdBucket(bucket: string) returns (stamps: Stamps)
      modifies this
      ensures stamps == StampsOf(old(cooldowns), bucket)
      ensures cooldowns == EnsureBucket(old(cooldowns), bucket) && shuffle == old(shuffle)
    {
      if bucket !in cooldowns {
        cooldowns := cooldowns[bucket := map[]];
      }
      stamps := cooldowns[bucket];
    }

    /** `is_cooled_down`, with the clock reading passed as `now`. */
    method IsCooledDown(bucket: string, id: int, cooldownSeconds: int, now: int) returns (ok: bool)
      modifies this
      ensures ok == CooledDown(StampsOf(old(cooldowns), bucket), id, cooldownSeconds, now)
      ensures cooldowns == if cooldownSeconds <= 0 then old(cooldowns) else EnsureBucket(old(cooldowns), bucket)
      ensures shuffle == old(shuffle)
    {
      if cooldownSeconds <= 0 {
        return true;
      }
      var b := CdBucket(bucket);
      var key := IdKey(id);
      if key !in b {
        return true;
      }
      ok := now - b[key] >= cooldownSeconds;
    }

    /** `mark_searched`, with the clock reading passed as `now`. */
    method MarkSearched(bucket: string, id: int, now: int)
      modifies this
      ensures cooldowns == old(cooldowns)[bucket := Stamp(StampsOf(old(cooldowns), bucket), id, now)]
      ensures shuffle == old(shuffle)
    {
      var b := CdBucket(bucket);
      cooldowns := cooldowns[bucket := b[IdKey(id) := now]];
    }

    // ---- Shuffle bag ----

    /** `_sh_bucket`: the bucket's cycle, creating an empty one if needed. */
    method ShBucket(bucket: string) returns (b: Bucket)
      modifies this
      ensures b == BucketOf(old(shuffle), bucket)
      ensures shuffle == old(shuffle)[bucket := b] && cooldowns == old(cooldowns)
    {
      if bucket !in shuffle {
        shuffle := shuffle[bucket := Bucket([], [])];
      }
      b := shuffle[bucket];
    }

    /** `_refresh_bucket`: reconcile the bucket's cycle with the eligible ids;
        each `random.shuffle` may produce any order. */
    method RefreshBucket(bucket: string, eligibleIds: seq<int>)
      modifies this
      ensures bucket in shuffle && shuffle == old(shuffle)[bucket := shuffle[bucket]]
      ensures Refreshed(BucketOf(old(shuffle), bucket), Elems(eligibleIds), shuffle[bucket])
      ensures cooldowns == old(cooldowns)
    {
      var eligible := Elems(eligibleIds);
      var b := ShBucket(bucket);
      var kept := Filter(b.bag, eligible);
      var seen := Filter(b.seen, eligible);
      var newSet := eligible - Elems(kept) - Elems(seen);
      ghost var order := AnOrder(newSet);
      var newIds: seq<int> :| Shuffled(newIds, newSet);
      var bag := kept + newIds;
      if bag == [] {
        order := AnOrder(eligible);
        bag :| Shuffled(bag, eligible);
        seen := [];
        RefreshOutcomes(b, eligible, newIds, bag);
      } else {
        RefreshOutcomes(b, eligible, newIds, []);
      }
      shuffle := shuffle[bucket := Bucket(bag, seen)];
    }

    /** The rotation scan of lines 259-273: rotate gated ids from the head of
        the bag to its tail until the head is admitted or a full pass is done. */
    method Scan(bucket: string, cooldownSeconds: int, now: int) returns (chosen: Option<int>)
      requires bucket in shuffle
      modifies this
      ensures var b := old(shuffle[bucket]);
        var k := FirstCooled(b.bag, Gate(StampsOf(old(cooldowns), bucket), cooldownSeconds, now));
        && chosen == (if k < |b.bag| then Some(b.bag[k]) else None)
        && shuffle == old(shuffle)[bucket := Bucket(Rotate(b.bag, k), b.seen)]
      ensures cooldowns == if cooldownSeconds > 0 && old(shuffle[bucket]).bag != [] then EnsureBucket(old(cooldowns), bucket) else old(cooldowns)
    {
      ghost var b0 := shuffle[bucket];
      ghost var g := Gate(StampsOf(cooldowns, bucket), cooldownSeconds, now);
      ghost var k := FirstCooled(b0.bag, g);
      var attempts := 0;
      var maxAttempts := |shuffle[bucket].bag|;
      chosen := None;
      assert Rotate(b0.bag, 0) == b0.bag;
      while attempts < maxAttempts && shuffle[bucket].bag != []
        invariant 0 <= attempts <= maxAttempts == |b0.bag|
        invariant bucket in shuffle && shuffle == old(shuffle)[bucket := Bucket(Rotate(b0.bag, attempts), b0.seen)]
        invariant forall j | 0 <= j < attempts :: !g(b0.bag[j])
        invariant cooldowns == if cooldownSeconds > 0 && attempts > 0 then EnsureBucket(old(cooldowns), bucket) else old(cooldowns)
        invariant chosen == None
        decreases maxAttempts - attempts
      {
        RotateStep(b0.bag, attempts);
        var candidate := shuffle[bucket].bag[0];
        var ok := IsCooledDown(bucket, candidate, cooldownSeconds, now);
        if ok {
          FirstCooledIs(b0.bag, g, attempts);
          chosen := Some(candidate);
          return;
        }
        ghost var rotated := Bucket(Rotate(b0.bag, attempts + 1), b0.seen);
        UpdateTwice(old(shuffle), bucket, shuffle[bucket], rotated);
        shuffle := shuffle[bucket := Bucket(shuffle[bucket].bag[1..] + [candidate], shuffle[bucket].seen)];
        attempts := attempts + 1;
      }
      RotatePermutes(b0.bag, attempts);
      RotateFull(b0.bag);
      FirstCooledIs(b0.bag, g, |b0.bag|);
    }

    /** Lines 254-255: reconcile the bucket when its bag has run out. */
    method Refill(bucket: string, eligibleIds: seq<int>)
      requires bucket in shuffle
      modifies this
      ensures bucket in shuffle && shuffle == old(shuffle)[bucket := shuffle[bucket]]
      ensures if old(shuffle[bucket]).bag == [] then Refreshed(old(shuffle[bucket]), Elems(eligibleIds), shuffle[bucket])
              else shuffle == old(shuffle)
      ensures cooldowns == old(cooldowns)
    {
      if shuffle[bucket].bag == [] {
        RefreshBucket(bucket, eligibleIds);
      }
    }

    /** Lines 277-282: move the head `id` of the bag into `seen` and stamp it
        when `mark` is set. */
    method Consume(bucket: string, id: int, mark: bool, now: int)
      requires bucket in shuffle && shuffle[bucket].bag != []
      modifies this
      ensures shuffle == old(shuffle)[bucket := Bucket(old(shuffle[bucket]).bag[1..], old(shuffle[bucket]).seen + [id])]
      ensures cooldowns == if mark then old(cooldowns)[bucket := Stamp(StampsOf(old(cooldowns), bucket), id, now)]
                           else old(cooldowns)
    {
      var b := shuffle[bucket];
      shuffle := shuffle[bucket := Bucket(b.bag[1..], b.seen + [id])];
      if mark {
        MarkSearched(bucket, id, now);
      }
    }

    /** One pass of the draw loop body (lines 254-284), proved to be a step of `DrawStep`. */
    method DrawIteration(bucket: string, eligibleIds: seq<int>, cooldownSeconds: int, mark: bool, now: int)
      returns (out: Option<int>, ghost mid: Bucket)
      requires bucket in shuffle
      modifies this
      ensures bucket in shuffle && shuffle == old(shuffle)[bucket := shuffle[bucket]]
      ensures DrawStep(Slot(old(shuffle[bucket]), StampsOf(old(cooldowns), bucket)), Elems(eligibleIds), mid,
                       cooldownSeconds, mark, now, out, Slot(shuffle[bucket], StampsOf(cooldowns, bucket)))
      ensures OthersKept(old(cooldowns), cooldowns, bucket)
    {
      Refill(bucket, eligibleIds);
      mid := shuffle[bucket];
      ghost var stamps := StampsOf(cooldowns, bucket);
      if shuffle[bucket].bag == [] {
        SelectStop(mid, stamps, cooldownSeconds, mark, now);
        return None, mid;
      }
      ghost var k := FirstCooled(mid.bag, Gate(stamps, cooldownSeconds, now));
      var chosen := Scan(bucket, cooldownSeconds, now);
      ghost var scanned := cooldowns;
      UpdateTwice(old(shuffle), bucket, mid, shuffle[bucket]);
      if chosen.None? {
        RotateFull(mid.bag);
        SelectStop(mid, stamps, cooldownSeconds, mark, now);
        return None, mid;
      }
      RotatePermutes(mid.bag, k);
      SelectTake(mid, stamps, cooldownSeconds, mark, now, k);
      ghost var rotated := shuffle[bucket];
      Consume(bucket, chosen.value, mark, now);
      UpdateTwice(old(shuffle), bucket, rotated, shuffle[bucket]);
      OthersKeptTrans(old(cooldowns), scanned, cooldowns, bucket);
      out := chosen;
    }

    /** `draw_no_repeat`: up to `count` ids, proved to be a `Run` of steps from
        the reconciled bucket, ending in a stop step when fewer are drawn. */
    method DrawNoRepeat(bucket: string, eligibleIds: seq<int>, count: int, cooldownSeconds: int, mark: bool, now: int)
      returns (picked: seq<int>, ghost first: Bucket, ghost trace: seq<Slot>, ghost mids: seq<Bucket>,
               ghost stopMid: Bucket, ghost final: Slot)
      modifies this
      ensures count <= 0 || eligibleIds == [] ==>
        picked == [] && cooldowns == old(cooldowns) && shuffle == old(shuffle)
      ensures count > 0 ==> |picked| <= count
      ensures Elems(picked) <= Elems(eligibleIds)
      ensures count > 0 && eligibleIds != [] ==>
        var e := Elems(eligibleIds);
        && Run(trace, mids, picked, e, cooldownSeconds, mark, now)
        && Refreshed(BucketOf(old(shuffle), bucket), e, first)
        && trace[0] == Slot(first, StampsOf(old(cooldowns), bucket))
        && (|picked| == count ==> final == trace[|picked|])
        && (|picked| < count ==> DrawStep(trace[|picked|], e, stopMid, cooldownSeconds, mark, now, None, final))
        && bucket in shuffle && shuffle == old(shuffle)[bucket := final.cycle]
        && StampsOf(cooldowns, bucket) == final.stamps
        && (Tidy(BucketOf(old(shuffle), bucket)) ==> Coherent(final.cycle, e))
      ensures OthersKept(old(cooldowns), cooldowns, bucket)
      ensures !mark ==> StampsOf(cooldowns, bucket) == StampsOf(old(cooldowns), bucket)
    {
      picked := [];
      first, stopMid := Bucket([], []), Bucket([], []);
      trace, mids := [Slot(first, map[])], [];
      final := trace[0];
      if count <= 0 || eligibleIds == [] {
        return;
      }
      ghost var e := Elems(eligibleIds);
      ghost var tidy := Tidy(BucketOf(shuffle, bucket));
      ghost var stamps0 := StampsOf(cooldowns, bucket);
      RefreshBucket(bucket, eligibleIds);
      first := shuffle[bucket];
      RefreshCovers(BucketOf(old(shuffle), bucket), e, first);
      if tidy {
        RefreshCoherent(BucketOf(old(shuffle), bucket), e, first);
      }
      trace := [Slot(first, stamps0)];
      final := trace[0];
      assert Progress(trace, mids, picked, e, cooldownSeconds, mark, now, tidy, stamps0);
      for i := 0 to count
        invariant |picked| == i && Progress(trace, mids, picked, e, cooldownSeconds, mark, now, tidy, stamps0)
        invariant trace[0] == Slot(first, stamps0) && final == trace[i]
        invariant bucket in shuffle && shuffle == old(shuffle)[bucket := final.cycle]
        invariant StampsOf(cooldowns, bucket) == final.stamps
        invariant OthersKept(old(cooldowns), cooldowns, bucket)
      {
        ghost var before := cooldowns;
        var out, mid := DrawIteration(bucket, eligibleIds, cooldownSeconds, mark, now);
        ghost var s' := Slot(shuffle[bucket], StampsOf(cooldowns, bucket));
        OthersKeptTrans(old(cooldowns), before, cooldowns, bucket);
        UpdateTwice(old(shuffle), bucket, final.cycle, s'.cycle);
        if out.None? {
          ProgressStop(trace, mids, picked, e, cooldownSeconds, mark, now, tidy, stamps0, mid, s');
          stopMid, final := mid, s';
          return;
        }
        ProgressExtend(trace, mids, picked, e, cooldownSeconds, mark, now, tidy, stamps0, mid, out.value, s');
        picked, trace, mids, final := picked + [out.value], trace + [s'], mids + [mid], s';
      }
    }
  }
}
