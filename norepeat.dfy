/** Properties of successive draw-loop iterations and successive draws:
    no repeat within a cycle, a full cycle visits every eligible id once,
    and what happens at a cycle boundary. */
module NoRepeat {
  import opened Wrappers
  import opened Seqs
  import opened Ledger
  import opened Cycle

  /** `trace` is a run of successful draw-loop iterations against the eligible
      set `e`, picking `outs` in order. */
  predicate Run(trace: seq<Slot>, mids: seq<Bucket>, outs: seq<int>, e: set<int>,
                cooldownSeconds: int, mark: bool, now: int)
  {
    && |trace| == |outs| + 1 && |mids| == |outs|
    && forall i | 0 <= i < |outs| ::
         DrawStep(trace[i], e, mids[i], cooldownSeconds, mark, now, Some(outs[i]), trace[i + 1])
  }

  /** A run extended by one more successful step. */
  lemma RunExtend(trace: seq<Slot>, mids: seq<Bucket>, outs: seq<int>, e: set<int>,
                  cooldownSeconds: int, mark: bool, now: int, mid: Bucket, x: int, s': Slot)
    requires Run(trace, mids, outs, e, cooldownSeconds, mark, now)
    requires DrawStep(trace[|outs|], e, mid, cooldownSeconds, mark, now, Some(x), s')
    ensures Run(trace + [s'], mids + [mid], outs + [x], e, cooldownSeconds, mark, now)
  {
    var trace', mids', outs' := trace + [s'], mids + [mid], outs + [x];
    forall i | 0 <= i < |outs'|
      ensures DrawStep(trace'[i], e, mids'[i], cooldownSeconds, mark, now, Some(outs'[i]), trace'[i + 1])
    {
      if i < |outs| {
        assert trace'[i] == trace[i] && trace'[i + 1] == trace[i + 1] && mids'[i] == mids[i] && outs'[i] == outs[i];
      }
    }
  }

  /** What the draw loop keeps while it runs: a run from a first slot with
      stamps `stamps0`, drawing only eligible ids, keeping the bag eligible,
      coherent when the bucket started `tidy`, and leaving the stamps alone
      unless `mark` is set. */
  predicate Progress(trace: seq<Slot>, mids: seq<Bucket>, outs: seq<int>, e: set<int>,
                     cooldownSeconds: int, mark: bool, now: int, tidy: bool, stamps0: Stamps)
  {
    && Run(trace, mids, outs, e, cooldownSeconds, mark, now)
    && trace[0].stamps == stamps0
    && Elems(outs) <= e && Elems(trace[|outs|].cycle.bag) <= e
    && (tidy ==> Coherent(trace[|outs|].cycle, e))
    && (!mark ==> trace[|outs|].stamps == stamps0)
  }

  /** A successful step extends the progress. */
  lemma ProgressExtend(trace: seq<Slot>, mids: seq<Bucket>, outs: seq<int>, e: set<int>,
                       cooldownSeconds: int, mark: bool, now: int, tidy: bool, stamps0: Stamps,
                       mid: Bucket, x: int, s': Slot)
    requires Progress(trace, mids, outs, e, cooldownSeconds, mark, now, tidy, stamps0)
    requires DrawStep(trace[|outs|], e, mid, cooldownSeconds, mark, now, Some(x), s')
    ensures Progress(trace + [s'], mids + [mid], outs + [x], e, cooldownSeconds, mark, now, tidy, stamps0)
    ensures (trace + [s'])[0] == trace[0] && (trace + [s'])[|outs + [x]|] == s'
  {
    var s := trace[|outs|];
    RunExtend(trace, mids, outs, e, cooldownSeconds, mark, now, mid, x, s');
    StepStaysEligible(s, e, mid, cooldownSeconds, mark, now, Some(x), s');
    if tidy {
      StepCoherent(s, e, mid, cooldownSeconds, mark, now, Some(x), s');
    }
    ElemsConcat(outs, [x]);
    assert Elems([x]) == {x};
  }

  /** A stopping step leaves the progress in force for its outcome. */
  lemma ProgressStop(trace: seq<Slot>, mids: seq<Bucket>, outs: seq<int>, e: set<int>,
                     cooldownSeconds: int, mark: bool, now: int, tidy: bool, stamps0: Stamps,
                     mid: Bucket, s': Slot)
    requires Progress(trace, mids, outs, e, cooldownSeconds, mark, now, tidy, stamps0)
    requires DrawStep(trace[|outs|], e, mid, cooldownSeconds, mark, now, None, s')
    ensures s' == Slot(mid, trace[|outs|].stamps)
    ensures tidy ==> Coherent(s'.cycle, e)
    ensures !mark ==> s'.stamps == stamps0
  {
    var s := trace[|outs|];
    StepStopped(s, e, mid, cooldownSeconds, mark, now, s');
    if tidy {
      StepCoherent(s, e, mid, cooldownSeconds, mark, now, None, s');
    }
  }

  /** While a run stays within the current cycle (it picks no more ids than
      the bag held), it never repeats an id, picks only from the bag, and
      `seen` grows by exactly the picks. */
  lemma {:induction false} RunWithinCycle(trace: seq<Slot>, mids: seq<Bucket>, outs: seq<int>, e: set<int>,
                                          cooldownSeconds: int, mark: bool, now: int)
    requires Run(trace, mids, outs, e, cooldownSeconds, mark, now)
    requires Coherent(trace[0].cycle, e) && |outs| <= |trace[0].cycle.bag|
    ensures NoDup(outs) && Elems(outs) <= Elems(trace[0].cycle.bag)
    ensures trace[|outs|].cycle.seen == trace[0].cycle.seen + outs
    ensures |trace[|outs|].cycle.bag| == |trace[0].cycle.bag| - |outs|
    ensures Coherent(trace[|outs|].cycle, e)
  {
    var n := |outs|;
    if n > 0 {
      var b0 := trace[0].cycle;
      assert Run(trace[..n], mids[..n - 1], outs[..n - 1], e, cooldownSeconds, mark, now);
      RunWithinCycle(trace[..n], mids[..n - 1], outs[..n - 1], e, cooldownSeconds, mark, now);
      var prev := trace[n - 1];
      var x := outs[n - 1];
      assert prev.cycle.bag != [];
      StepPicked(prev, e, mids[n - 1], cooldownSeconds, mark, now, x, trace[n]);
      StepCoherent(prev, e, mids[n - 1], cooldownSeconds, mark, now, Some(x), trace[n]);
      assert mids[n - 1] == prev.cycle;
      assert outs == outs[..n - 1] + [x];
      ElemsConcat(b0.seen, outs[..n - 1]);
      assert x !in Elems(outs[..n - 1]);
      NoDupConcat(outs[..n - 1], [x]);
      ElemsConcat(outs[..n - 1], [x]);
      assert x in Elems(b0.bag) by {
        assert x in Elems(prev.cycle.bag);
        assert x !in Elems(b0.seen);
      }
    }
  }

  /** With cooldown gating off, a run within the cycle takes the bag in order. */
  lemma {:induction false} RunWithoutCooldown(trace: seq<Slot>, mids: seq<Bucket>, outs: seq<int>, e: set<int>,
                                              cooldownSeconds: int, mark: bool, now: int)
    requires Run(trace, mids, outs, e, cooldownSeconds, mark, now)
    requires cooldownSeconds <= 0 && |outs| <= |trace[0].cycle.bag|
    ensures outs == trace[0].cycle.bag[..|outs|]
    ensures trace[|outs|].cycle.bag == trace[0].cycle.bag[|outs|..]
  {
    var n := |outs|;
    if n > 0 {
      assert Run(trace[..n], mids[..n - 1], outs[..n - 1], e, cooldownSeconds, mark, now);
      RunWithoutCooldown(trace[..n], mids[..n - 1], outs[..n - 1], e, cooldownSeconds, mark, now);
      var prev := trace[n - 1];
      var bag := trace[0].cycle.bag;
      assert trace[..n][n - 1] == prev && trace[..n][0] == trace[0];
      assert DrawStep(prev, e, mids[n - 1], cooldownSeconds, mark, now, Some(outs[n - 1]), trace[n]);
      assert prev.cycle.bag == bag[n - 1..] && prev.cycle.bag != [];
      assert mids[n - 1] == prev.cycle;
      var g := Gate(prev.stamps, cooldownSeconds, now);
      assert g(prev.cycle.bag[0]);
      assert FirstCooled(prev.cycle.bag, g) == 0;
      assert outs[n - 1] == bag[n - 1];
      assert outs == outs[..n - 1] + [outs[n - 1]];
      assert bag[..n] == bag[..n - 1] + [bag[n - 1]];
      assert trace[n].cycle.bag == prev.cycle.bag[1..];
    }
  }

  /** A draw of count 1 (lines 242-286): reconcile, then one loop iteration. */
  predicate DrawOne(prev: Slot, e: set<int>, refreshed: Bucket, mid: Bucket,
                    cooldownSeconds: int, mark: bool, now: int, out: Option<int>, next: Slot)
  {
    Refreshed(prev.cycle, e, refreshed)
    && DrawStep(Slot(refreshed, prev.stamps), e, mid, cooldownSeconds, mark, now, out, next)
  }

  /** `slots` are the states around successive draws of count 1 with the same
      eligible set and no cooldown, returning `outs`. */
  predicate Draws(slots: seq<Slot>, refreshed: seq<Bucket>, mids: seq<Bucket>, outs: seq<Option<int>>,
                  e: set<int>, cooldownSeconds: int, mark: bool, now: int)
  {
    && |slots| == |outs| + 1 && |refreshed| == |outs| && |mids| == |outs|
    && forall i | 0 <= i < |outs| ::
         DrawOne(slots[i], e, refreshed[i], mids[i], cooldownSeconds, mark, now, outs[i], slots[i + 1])
  }

  /** No repeat until the cycle completes: starting from a bucket with no
      history, successive draws of one id each with cooldown off return the
      first draw's shuffle of the eligible set in order, so the first |e| of
      them return every eligible id exactly once. */
  lemma {:induction false} FreshBucketVisitsEveryIdOnce(slots: seq<Slot>, refreshed: seq<Bucket>, mids: seq<Bucket>,
                                                        outs: seq<Option<int>>, e: set<int>,
                                                        cooldownSeconds: int, mark: bool, now: int)
    requires Draws(slots, refreshed, mids, outs, e, cooldownSeconds, mark, now)
    requires slots[0].cycle == Bucket([], []) && e != {} && cooldownSeconds <= 0
    requires |outs| <= |e|
    ensures |outs| > 0 ==> Shuffled(refreshed[0].bag, e) && |refreshed[0].bag| == |e|
    ensures forall i | 0 <= i < |outs| :: outs[i] == Some(refreshed[0].bag[i])
    ensures |outs| > 0 ==> slots[|outs|].cycle == Bucket(refreshed[0].bag[|outs|..], refreshed[0].bag[..|outs|])
  {
    var n := |outs|;
    if n > 0 {
      assert Draws(slots[..n], refreshed[..n - 1], mids[..n - 1], outs[..n - 1], e, cooldownSeconds, mark, now);
      FreshBucketVisitsEveryIdOnce(slots[..n], refreshed[..n - 1], mids[..n - 1], outs[..n - 1], e, cooldownSeconds, mark, now);
      var prev := slots[n - 1];
      var r := refreshed[n - 1];
      assert DrawOne(prev, e, r, mids[n - 1], cooldownSeconds, mark, now, outs[n - 1], slots[n]);
      assert slots[..n][n - 1] == prev && slots[..n][0] == slots[0];
      if n == 1 {
        FirstRefill(prev.cycle, e, r);
        assert r.bag[0..] == r.bag && r.bag[..0] == [];
      } else {
        assert refreshed[..n - 1][0] == refreshed[0];
        var p := refreshed[0].bag;
        assert prev.cycle == Bucket(p[n - 1..], p[..n - 1]);
        MidCycleRefillKeeps(p, n - 1, e, r);
      }
      var p := refreshed[0].bag;
      TakeHead(p, n - 1, prev.stamps, e, mids[n - 1], cooldownSeconds, mark, now, outs[n - 1], slots[n]);
      forall i | 0 <= i < n ensures outs[i] == Some(p[i]) {
        if i < n - 1 { assert outs[..n - 1][i] == outs[i]; }
      }
    }
  }

  /** The first reconciliation of a bucket with no history shuffles all of `e` into the bag. */
  lemma FirstRefill(b: Bucket, e: set<int>, r: Bucket)
    requires b == Bucket([], []) && Refreshed(b, e, r)
    ensures r.seen == [] && Shuffled(r.bag, e) && |r.bag| == |e|
  {
    assert Filter(b.bag, e) == [] && Filter(b.seen, e) == [];
    NoDupCard(r.bag);
  }

  /** Part way through a cycle over a shuffle `p` of `e`, reconciliation changes nothing. */
  lemma MidCycleRefillKeeps(p: seq<int>, k: nat, e: set<int>, r: Bucket)
    requires Shuffled(p, e) && k < |p| && Refreshed(Bucket(p[k..], p[..k]), e, r)
    ensures r == Bucket(p[k..], p[..k])
  {
    assert p == p[..k] + p[k..];
    ElemsConcat(p[..k], p[k..]);
    RefreshStable(Bucket(p[k..], p[..k]), e, r);
  }

  /** With cooldown off, a step from position `k` of the cycle over `p` takes `p[k]`. */
  lemma TakeHead(p: seq<int>, k: nat, stamps: Stamps, e: set<int>, mid: Bucket, cooldownSeconds: int,
                 mark: bool, now: int, out: Option<int>, next: Slot)
    requires k < |p| && cooldownSeconds <= 0
    requires DrawStep(Slot(Bucket(p[k..], p[..k]), stamps), e, mid, cooldownSeconds, mark, now, out, next)
    ensures out == Some(p[k]) && next.cycle == Bucket(p[k + 1..], p[..k + 1])
  {
    var g := Gate(stamps, cooldownSeconds, now);
    assert g(p[k]);
    assert FirstCooled(p[k..], g) == 0;
    assert p[..k + 1] == p[..k] + [p[k]];
  }

  /** Once the bag is exhausted, the next reconciliation with the same
      eligible set starts a new cycle: `seen` is cleared and all of `e` is
      back in the bag. */
  lemma CycleRestarts(b: Bucket, e: set<int>, n: Bucket)
    requires Coherent(b, e) && b.bag == [] && Refreshed(b, e, n)
    ensures n.seen == [] && Shuffled(n.bag, e)
  {
    FilterAll(b.seen, e);
    RefreshSeen(b, e, n);
  }

  /** A draw with a larger count than the bag holds may return an id twice:
      the bag is refilled mid-draw, as the source allows. */
  lemma OversizedDrawMayRepeat()
    ensures var s0 := Slot(Bucket([7], []), map[]);
            var s1 := Slot(Bucket([], [7]), map[]);
            Run([s0, s1, s1], [Bucket([7], []), Bucket([7], [])], [7, 7], {7}, 0, false, 0)
  {
    var e: set<int> := {7};
    var s0 := Slot(Bucket([7], []), map[]);
    var s1 := Slot(Bucket([], [7]), map[]);
    var g := Gate(map[], 0, 0);
    assert g(7);
    assert FirstCooled([7], g) == 0;
    assert Rotate([7], 0) == [7];
    PickSome(Bucket([7], []), g);
    assert [7][1..] + [7][..0] == [] && [] + [7] == [7];
    assert Pick(Bucket([7], []), g) == (Some(7), Bucket([], [7]));
    assert Select(Bucket([7], []), map[], 0, false, 0) == (Some(7), s1);
    assert Filter([7], e) == [7];
    assert Elems([7]) == {7};
    assert Refreshed(s1.cycle, e, Bucket([7], []));
    assert DrawStep(s0, e, Bucket([7], []), 0, false, 0, Some(7), s1);
    assert DrawStep(s1, e, Bucket([7], []), 0, false, 0, Some(7), s1);
  }

  /** Cooldown gating: when the only id left in the bag was selected at `t`
      and fewer than `cooldownSeconds` have passed, the step returns nothing;
      once they have passed, it returns that id. */
  lemma LoneIdGatedUntilCooled(s: Slot, e: set<int>, mid: Bucket, cooldownSeconds: int, mark: bool, now: int,
                               out: Option<int>, s': Slot, x: int, t: int)
    requires DrawStep(s, e, mid, cooldownSeconds, mark, now, out, s')
    requires mid.bag == [x] && LastStamp(s.stamps, x) == Some(t)
    ensures out == (if cooldownSeconds <= 0 || now - t >= cooldownSeconds then Some(x) else None)
  {
    var g := Gate(s.stamps, cooldownSeconds, now);
    assert g(x) <==> (cooldownSeconds <= 0 || now - t >= cooldownSeconds);
  }
}
