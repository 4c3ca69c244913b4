/** The shuffle bag of one bucket: reconciliation against the eligible set,
    the cooldown-aware pick with rotation, and one iteration of the draw. */
module Cycle {
  import opened Wrappers
  import opened Seqs
  import opened Ledger

  /** One bucket's progress through its current cycle: `bag` holds the ids
      not yet picked this cycle, in draw order; `seen` the ids already picked. */
  datatype Bucket = Bucket(bag: seq<int>, seen: seq<int>)

  /** An order of exactly the ids in `s`, each once: a possible outcome of
      `random.shuffle(list(s))`. */
  predicate Shuffled(p: seq<int>, s: set<int>) {
    NoDup(p) && Elems(p) == s
  }

  /** Neither list repeats an id and no id is in both. */
  predicate Tidy(b: Bucket) {
    NoDup(b.bag) && NoDup(b.seen) && Elems(b.bag) !! Elems(b.seen)
  }

  /** The cycle invariant against the eligible set `e`: tidy, and bag and seen
      together are exactly `e`. */
  predicate Coherent(b: Bucket, e: set<int>) {
    Tidy(b) && Elems(b.bag) + Elems(b.seen) == e
  }

  /** `_refresh_bucket` as a relation: `n` is a possible result of reconciling
      `o` with the eligible set `e`, for some outcome of the two shuffles. */
  predicate Refreshed(o: Bucket, e: set<int>, n: Bucket) {
    var bag := Filter(o.bag, e);
    var seen := Filter(o.seen, e);
    var newIds := e - Elems(bag) - Elems(seen);
    if bag == [] && newIds == {} then
      n.seen == [] && Shuffled(n.bag, e)
    else
      n.seen == seen && bag <= n.bag && Shuffled(n.bag[|bag|..], newIds)
  }

  /** Reconciliation starts a new cycle exactly when no eligible id is left
      in the bag and every eligible id has been seen. */
  predicate StartsNewCycle(o: Bucket, e: set<int>) {
    Filter(o.bag, e) == [] && e <= Elems(o.seen)
  }

  // ---- Reconciliation ----

  /** The two outcomes of `_refresh_bucket` for given shuffles: the retained
      bag extended by the new ids, or, when that is empty, a new cycle. */
  lemma RefreshOutcomes(o: Bucket, e: set<int>, newIds: seq<int>, full: seq<int>)
    requires Shuffled(newIds, e - Elems(Filter(o.bag, e)) - Elems(Filter(o.seen, e)))
    ensures Filter(o.bag, e) + newIds != [] ==>
      Refreshed(o, e, Bucket(Filter(o.bag, e) + newIds, Filter(o.seen, e)))
    ensures Filter(o.bag, e) + newIds == [] && Shuffled(full, e) ==> Refreshed(o, e, Bucket(full, []))
  {
    var kept := Filter(o.bag, e);
    EmptyElems(newIds);
    assert (kept + newIds)[|kept|..] == newIds;
  }

  /** After reconciliation bag and seen hold only eligible ids, and together all of them. */
  lemma RefreshCovers(o: Bucket, e: set<int>, n: Bucket)
    requires Refreshed(o, e, n)
    ensures Elems(n.bag) <= e && Elems(n.seen) <= e
    ensures Elems(n.bag) + Elems(n.seen) == e
  {
    var bag := Filter(o.bag, e);
    if !(bag == [] && e - Elems(bag) - Elems(Filter(o.seen, e)) == {}) {
      assert n.bag == bag + n.bag[|bag|..];
      ElemsConcat(bag, n.bag[|bag|..]);
    }
  }

  /** Reconciling a tidy bucket yields a coherent one. */
  lemma RefreshCoherent(o: Bucket, e: set<int>, n: Bucket)
    requires Refreshed(o, e, n) && Tidy(o)
    ensures Coherent(n, e)
  {
    RefreshCovers(o, e, n);
    var bag := Filter(o.bag, e);
    var seen := Filter(o.seen, e);
    FilterElems(o.bag, e);
    FilterElems(o.seen, e);
    FilterNoDup(o.bag, e);
    FilterNoDup(o.seen, e);
    if !(bag == [] && e - Elems(bag) - Elems(seen) == {}) {
      var tail := n.bag[|bag|..];
      assert n.bag == bag + tail;
      ElemsConcat(bag, tail);
      NoDupConcat(bag, tail);
    }
  }

  /** The bag is empty afterwards exactly when nothing is eligible. */
  lemma RefreshBagEmpty(o: Bucket, e: set<int>, n: Bucket)
    requires Refreshed(o, e, n)
    ensures n.bag == [] <==> e == {}
  {
    RefreshCovers(o, e, n);
    EmptyElems(n.bag);
    EmptyElems(n.seen);
    var bag := Filter(o.bag, e);
    var seen := Filter(o.seen, e);
    if !(bag == [] && e - Elems(bag) - Elems(seen) == {}) {
      EmptyElems(bag);
      EmptyElems(n.bag[|bag|..]);
    }
  }

  /** Retained bag ids keep their order at the front; when no new cycle
      starts, what follows them is exactly the newly eligible ids and `seen`
      only loses ineligible ids. */
  lemma RefreshOrder(o: Bucket, e: set<int>, n: Bucket)
    requires Refreshed(o, e, n)
    ensures Filter(o.bag, e) <= n.bag
    ensures !StartsNewCycle(o, e) ==>
      && n.seen == Filter(o.seen, e)
      &&
      Elems(n.bag[|Filter(o.bag, e)|..]) == e - Elems(o.bag) - Elems(o.seen)
  {
    var bag := Filter(o.bag, e);
    var seen := Filter(o.seen, e);
    FilterElems(o.bag, e);
    FilterElems(o.seen, e);
    assert e - Elems(bag) - Elems(seen) == e - Elems(o.bag) - Elems(o.seen);
    RefreshSeen(o, e, n);
  }

  /** `seen` is cleared only when a new cycle starts, and a new cycle starts
      only once every eligible id has been seen. */
  lemma RefreshSeen(o: Bucket, e: set<int>, n: Bucket)
    requires Refreshed(o, e, n)
    ensures StartsNewCycle(o, e) <==> (Filter(o.bag, e) == [] && e - Elems(Filter(o.bag, e)) - Elems(Filter(o.seen, e)) == {})
    ensures StartsNewCycle(o, e) ==> n.seen == [] && Shuffled(n.bag, e)
    ensures !StartsNewCycle(o, e) ==> n.seen == Filter(o.seen, e)
  {
    var seen := Filter(o.seen, e);
    FilterElems(o.seen, e);
    EmptyElems(Filter(o.bag, e));
    if e <= Elems(o.seen) {
      assert e - Elems(seen) == {};
    }
    if e - Elems(seen) == {} {
      forall x | x in e ensures x in Elems(o.seen) { assert x !in e - Elems(seen); }
    }
  }

  /** A bucket whose lists already cover `e` exactly and whose bag is not
      empty is left as it is. */
  lemma RefreshStable(c: Bucket, e: set<int>, n: Bucket)
    requires Elems(c.bag) + Elems(c.seen) == e && c.bag != []
    requires Refreshed(c, e, n)
    ensures n == c
  {
    FilterAll(c.bag, e);
    FilterAll(c.seen, e);
    EmptyElems(n.bag[|c.bag|..]);
    assert n.bag == c.bag + n.bag[|c.bag|..];
  }

  /** Reconciling twice against the same eligible set is reconciling once. */
  lemma RefreshIdempotent(o: Bucket, e: set<int>, n1: Bucket, n2: Bucket)
    requires Refreshed(o, e, n1) && Refreshed(n1, e, n2)
    ensures n2 == n1
  {
    RefreshCovers(o, e, n1);
    RefreshBagEmpty(o, e, n1);
    if e == {} {
      EmptyElems(n1.seen);
      RefreshCovers(n1, e, n2);
      EmptyElems(n2.bag);
      EmptyElems(n2.seen);
    } else {
      RefreshStable(n1, e, n2);
    }
  }

  // ---- Pick ----

  /** The index of the first id in `bag` that `cooled` admits, or `|bag|` if none does. */
  function FirstCooled(bag: seq<int>, cooled: int -> bool): (k: nat)
    ensures k <= |bag|
    ensures k < |bag| ==> cooled(bag[k])
    ensures forall j | 0 <= j < k :: !cooled(bag[j])
  {
    if bag == [] then 0
    else if cooled(bag[0]) then 0
    else 1 + FirstCooled(bag[1..], cooled)
  }

  /** `FirstCooled` is the first admitted index, or the length when none is admitted. */
  lemma FirstCooledIs(bag: seq<int>, cooled: int -> bool, a: nat)
    requires a <= |bag| && (a < |bag| ==> cooled(bag[a]))
    requires forall j | 0 <= j < a :: !cooled(bag[j])
    ensures FirstCooled(bag, cooled) == a
  {
  }

  /** The pick of lines 259-279: rotate ids that are still gated to the tail,
      one by one, until the head is admitted, then take the head into `seen`;
      after a full unsuccessful pass the bag is as it was. */
  function Pick(b: Bucket, cooled: int -> bool): (Option<int>, Bucket) {
    var k := FirstCooled(b.bag, cooled);
    if k == |b.bag| then (None, b)
    else
      var rotated := Rotate(b.bag, k);
      (Some(rotated[0]), Bucket(rotated[1..], b.seen + [rotated[0]]))
  }

  /** Nothing is picked exactly when no id in the bag is admitted; then nothing changes. */
  lemma PickNone(b: Bucket, cooled: int -> bool)
    ensures Pick(b, cooled).0.None? <==> forall j | 0 <= j < |b.bag| :: !cooled(b.bag[j])
    ensures Pick(b, cooled).0.None? ==> Pick(b, cooled).1 == b
  {
  }

  /** A picked id is the first admitted id of the bag; every id before it
      has moved, in order, behind the rest of the bag; the id is appended to `seen`. */
  lemma PickSome(b: Bucket, cooled: int -> bool)
    requires Pick(b, cooled).0.Some?
    ensures var x := Pick(b, cooled).0.value; var k := FirstCooled(b.bag, cooled);
      && k < |b.bag| && x == b.bag[k] && cooled(x)
      && (forall j | 0 <= j < k :: !cooled(b.bag[j]))
      && Pick(b, cooled).1 == Bucket(b.bag[k + 1..] + b.bag[..k], b.seen + [x])
  {
    var k := FirstCooled(b.bag, cooled);
    assert Rotate(b.bag, k)[1..] == b.bag[k + 1..] + b.bag[..k];
  }

  /** The scan only permutes the bag: bag and seen keep their elements between them. */
  lemma PickPermutes(b: Bucket, cooled: int -> bool)
    ensures var (x, n) := Pick(b, cooled);
      x.Some? ==> multiset(n.bag) + multiset{x.value} == multiset(b.bag) && multiset(n.seen) == multiset(b.seen) + multiset{x.value}
  {
    var k := FirstCooled(b.bag, cooled);
    if k < |b.bag| {
      var rotated := Rotate(b.bag, k);
      RotatePermutes(b.bag, k);
      assert rotated == [rotated[0]] + rotated[1..];
    }
  }

  /** A pick keeps the cycle invariant, and the picked id was in the bag, not in `seen`. */
  lemma PickCoherent(b: Bucket, cooled: int -> bool, e: set<int>)
    requires Coherent(b, e)
    ensures Coherent(Pick(b, cooled).1, e)
    ensures Pick(b, cooled).0.Some? ==> Pick(b, cooled).0.value in b.bag && Pick(b, cooled).0.value !in b.seen
  {
    var k := FirstCooled(b.bag, cooled);
    if k < |b.bag| {
      var rotated := Rotate(b.bag, k);
      var x := rotated[0];
      RotateElems(b.bag, k);
      assert rotated == [x] + rotated[1..];
      NoDupSplit([x], rotated[1..]);
      ElemsConcat([x], rotated[1..]);
      ElemsConcat(b.seen, [x]);
      assert x in Elems(b.bag);
      NoDupConcat(b.seen, [x]);
    }
  }

  // ---- One iteration of the draw ----

  /** A bucket's cycle together with its cooldown stamps. */
  datatype Slot = Slot(cycle: Bucket, stamps: Stamps)

  /** The gate `is_cooled_down` applies at `now`. */
  function Gate(stamps: Stamps, cooldownSeconds: int, now: int): int -> bool {
    x => CooledDown(stamps, x, cooldownSeconds, now)
  }

  /** Lines 256-284 after any refill: stop on an empty bag, else pick, and
      stamp the picked id when `mark` is set. */
  function Select(mid: Bucket, stamps: Stamps, cooldownSeconds: int, mark: bool, now: int): (Option<int>, Slot) {
    if mid.bag == [] then (None, Slot(mid, stamps))
    else
      var (out, next) := Pick(mid, Gate(stamps, cooldownSeconds, now));
      (out, Slot(next, if out.Some? && mark then Stamp(stamps, out.value, now) else stamps))
  }

  /** Selection stops on an empty bag and after a full unsuccessful pass. */
  lemma SelectStop(mid: Bucket, stamps: Stamps, cooldownSeconds: int, mark: bool, now: int)
    requires mid.bag == [] || FirstCooled(mid.bag, Gate(stamps, cooldownSeconds, now)) == |mid.bag|
    ensures Select(mid, stamps, cooldownSeconds, mark, now) == (None, Slot(mid, stamps))
  {
  }

  /** Selection takes the first admitted id `mid.bag[k]` out of the rotated bag. */
  lemma SelectTake(mid: Bucket, stamps: Stamps, cooldownSeconds: int, mark: bool, now: int, k: nat)
    requires k == FirstCooled(mid.bag, Gate(stamps, cooldownSeconds, now)) && k < |mid.bag|
    ensures Rotate(mid.bag, k)[0] == mid.bag[k]
    ensures Select(mid, stamps, cooldownSeconds, mark, now) ==
      (Some(mid.bag[k]),
       Slot(Bucket(Rotate(mid.bag, k)[1..], mid.seen + [mid.bag[k]]),
            if mark then Stamp(stamps, mid.bag[k], now) else stamps))
  {
    RotateStep(mid.bag, k);
  }

  /** One iteration of the draw loop (lines 254-284): refill an empty bag by
      reconciliation (giving `mid`), then select. `out` is `None` when the
      loop stops. */
  predicate DrawStep(s: Slot, e: set<int>, mid: Bucket, cooldownSeconds: int, mark: bool, now: int,
                     out: Option<int>, s': Slot)
  {
    && (if s.cycle.bag == [] then Refreshed(s.cycle, e, mid) else mid == s.cycle)
    && Select(mid, s.stamps, cooldownSeconds, mark, now) == (out, s')
  }

  /** A step keeps the cycle invariant. */
  lemma StepCoherent(s: Slot, e: set<int>, mid: Bucket, cooldownSeconds: int, mark: bool, now: int,
                     out: Option<int>, s': Slot)
    requires DrawStep(s, e, mid, cooldownSeconds, mark, now, out, s') && Coherent(s.cycle, e)
    ensures Coherent(mid, e) && Coherent(s'.cycle, e)
  {
    if s.cycle.bag == [] { RefreshCoherent(s.cycle, e, mid); }
    PickCoherent(mid, Gate(s.stamps, cooldownSeconds, now), e);
  }

  /** What a successful step did: the id was admitted by its cooldown at `now`,
      came out of the bag and not out of `seen`, was appended to `seen`, and is
      stamped exactly when `mark` is set. */
  lemma StepPicked(s: Slot, e: set<int>, mid: Bucket, cooldownSeconds: int, mark: bool, now: int,
                   x: int, s': Slot)
    requires DrawStep(s, e, mid, cooldownSeconds, mark, now, Some(x), s') && Coherent(s.cycle, e)
    ensures CooledDown(s.stamps, x, cooldownSeconds, now)
    ensures x in mid.bag && x !in mid.seen && x in e
    ensures s'.cycle.seen == mid.seen + [x] && |s'.cycle.bag| == |mid.bag| - 1
    ensures s'.stamps == if mark then Stamp(s.stamps, x, now) else s.stamps
  {
    StepCoherent(s, e, mid, cooldownSeconds, mark, now, Some(x), s');
    var g := Gate(s.stamps, cooldownSeconds, now);
    PickSome(mid, g);
    PickCoherent(mid, g, e);
    assert x in Elems(mid.bag);
  }

  /** A step that stops found no admitted id after a full pass and changed
      neither the cycle (beyond any refill) nor the stamps. */
  lemma StepStopped(s: Slot, e: set<int>, mid: Bucket, cooldownSeconds: int, mark: bool, now: int, s': Slot)
    requires DrawStep(s, e, mid, cooldownSeconds, mark, now, None, s')
    ensures s' == Slot(mid, s.stamps)
    ensures forall j | 0 <= j < |mid.bag| :: !CooledDown(s.stamps, mid.bag[j], cooldownSeconds, now)
  {
    if mid.bag != [] {
      PickNone(mid, Gate(s.stamps, cooldownSeconds, now));
    }
  }

  /** A dry-run step (`mark` false) never touches a stamp. */
  lemma StepDryRun(s: Slot, e: set<int>, mid: Bucket, cooldownSeconds: int, now: int,
                   out: Option<int>, s': Slot)
    requires DrawStep(s, e, mid, cooldownSeconds, false, now, out, s')
    ensures s'.stamps == s.stamps
  {
  }

  /** A step draws only eligible ids and keeps the bag within the eligible set. */
  lemma StepStaysEligible(s: Slot, e: set<int>, mid: Bucket, cooldownSeconds: int, mark: bool, now: int,
                          out: Option<int>, s': Slot)
    requires DrawStep(s, e, mid, cooldownSeconds, mark, now, out, s') && Elems(s.cycle.bag) <= e
    ensures Elems(mid.bag) <= e && Elems(s'.cycle.bag) <= e
    ensures out.Some? ==> out.value in e
  {
    if s.cycle.bag == [] { RefreshCovers(s.cycle, e, mid); }
    if mid.bag != [] {
      var g := Gate(s.stamps, cooldownSeconds, now);
      PickPermutes(mid, g);
      if out.Some? {
        forall y | y in Elems(s'.cycle.bag) ensures y in Elems(mid.bag) {
          assert y in multiset(s'.cycle.bag);
          assert y in multiset(mid.bag);
        }
        assert out.value in multiset(mid.bag);
        assert out.value in Elems(mid.bag);
      }
    }
  }
}
