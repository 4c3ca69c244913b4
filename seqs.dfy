/** Sequence vocabulary used by the cycle bag and the state decoder:
    element sets, duplicate-freedom, order-preserving filtering,
    first-occurrence de-duplication and rotation. */
module Seqs {

  /** The set of elements of a sequence (Python `set(xs)`). */
  function Elems<T(==)>(s: seq<T>): set<T> {
    set x | x in s
  }

  /** No element occurs twice. */
  predicate NoDup<T(==)>(s: seq<T>) {
    forall i, j | 0 <= i < j < |s| :: s[i] != s[j]
  }

  /** Python `[x for x in s if x in keep]`. */
  function Filter<T(==,!new)>(s: seq<T>, keep: set<T>): (r: seq<T>)
    ensures |r| <= |s|
    ensures forall x :: x in r <==> x in s && x in keep
  {
    if s == [] then [] else (if s[0] in keep then [s[0]] else []) + Filter(s[1..], keep)
  }

  /** The index at which `x` first occurs in `s`. */
  function FirstIndex<T(==)>(s: seq<T>, x: T): (k: nat)
    requires x in s
    ensures k < |s| && s[k] == x && x !in s[..k]
  {
    if s[0] == x then 0 else 1 + FirstIndex(s[1..], x)
  }

  /** The distinct elements of `s`, each kept at its first occurrence.
      Defined from the back: the last element is kept only when it does
      not occur earlier. */
  function FirstOccurrences<T(==)>(s: seq<T>): (r: seq<T>)
    ensures NoDup(r)
    ensures Elems(r) == Elems(s)
  {
    if s == [] then []
    else
      var p := s[..|s| - 1];
      var rest := FirstOccurrences(p);
      assert Elems(s) == Elems(p) + {s[|s| - 1]} by { assert s == p + [s[|s| - 1]]; }
      rest + (if s[|s| - 1] in p then [] else [s[|s| - 1]])
  }

  /** The sequence after moving its first `k` elements, in order, to the tail. */
  function Rotate<T>(s: seq<T>, k: nat): (r: seq<T>)
    requires k <= |s|
  {
    s[k..] + s[..k]
  }

  // ---- Elements and duplicates ----

  lemma ElemsConcat<T>(a: seq<T>, b: seq<T>)
    ensures Elems(a + b) == Elems(a) + Elems(b)
  {
    forall x | x in Elems(a + b) ensures x in Elems(a) + Elems(b) {
      var k :| 0 <= k < |a + b| && (a + b)[k] == x;
      if k < |a| { assert a[k] == x; } else { assert b[k - |a|] == x; }
    }
    forall x | x in Elems(a) + Elems(b) ensures x in Elems(a + b) {
      if x in Elems(a) { var k :| 0 <= k < |a| && a[k] == x; assert (a + b)[k] == x; }
      else { var k :| 0 <= k < |b| && b[k] == x; assert (a + b)[|a| + k] == x; }
    }
  }

  /** Two duplicate-free sequences with no common element concatenate to a duplicate-free one. */
  lemma NoDupConcat<T>(a: seq<T>, b: seq<T>)
    requires NoDup(a) && NoDup(b) && Elems(a) !! Elems(b)
    ensures NoDup(a + b)
  {
    forall i, j | 0 <= i < j < |a + b| ensures (a + b)[i] != (a + b)[j] {
      if i < |a| && j >= |a| {
        assert (a + b)[i] == a[i] && a[i] in Elems(a);
        assert (a + b)[j] == b[j - |a|] && b[j - |a|] in Elems(b);
      } else if i >= |a| {
        assert (a + b)[i] == b[i - |a|] && (a + b)[j] == b[j - |a|];
      }
    }
  }

  /** The parts of a duplicate-free sequence are duplicate-free and share no element. */
  lemma NoDupSplit<T>(a: seq<T>, b: seq<T>)
    requires NoDup(a + b)
    ensures NoDup(a) && NoDup(b) && Elems(a) !! Elems(b)
  {
    assert forall i | 0 <= i < |a| :: (a + b)[i] == a[i];
    assert forall i | 0 <= i < |b| :: (a + b)[|a| + i] == b[i];
  }

  /** Only the empty sequence has no elements. */
  lemma EmptyElems<T>(s: seq<T>)
    ensures Elems(s) == {} <==> s == []
  {
    if s != [] { assert s[0] in Elems(s); }
  }

  /** In a duplicate-free sequence an element has one index. */
  lemma NoDupIndex<T>(s: seq<T>, a: nat, b: nat)
    requires NoDup(s) && a < |s| && b < |s| && s[a] == s[b]
    ensures a == b
  {
  }

  /** A duplicate-free sequence has as many entries as elements. */
  lemma {:induction false} NoDupCard<T>(s: seq<T>)
    requires NoDup(s)
    ensures |Elems(s)| == |s|
  {
    if s != [] {
      var t := s[1..];
      assert NoDup(t) by {
        forall i, j | 0 <= i < j < |t| ensures t[i] != t[j] { assert t[i] == s[i + 1] && t[j] == s[j + 1]; }
      }
      NoDupCard(t);
      assert s == [s[0]] + t;
      ElemsConcat([s[0]], t);
      assert Elems([s[0]]) == {s[0]};
      assert s[0] !in Elems(t) by {
        forall j | 0 <= j < |t| ensures t[j] != s[0] { assert t[j] == s[j + 1]; }
      }
      assert Elems(s) == Elems(t) + {s[0]};
    }
  }

  // ---- Filter ----

  lemma FilterElems<T(!new)>(s: seq<T>, keep: set<T>)
    ensures Elems(Filter(s, keep)) == Elems(s) * keep
  {
  }

  lemma {:induction false} FilterNoDup<T(!new)>(s: seq<T>, keep: set<T>)
    requires NoDup(s)
    ensures NoDup(Filter(s, keep))
  {
    if s != [] {
      FilterNoDup(s[1..], keep);
      assert s[0] !in s[1..] by {
        forall j | 0 <= j < |s[1..]| ensures s[1..][j] != s[0] { assert s[1..][j] == s[j + 1]; }
      }
      var rest := Filter(s[1..], keep);
      if s[0] in keep {
        var r := [s[0]] + rest;
        forall i, j | 0 <= i < j < |r| ensures r[i] != r[j] {
          if i == 0 { assert r[j] == rest[j - 1] && rest[j - 1] in rest; }
          else { assert r[i] == rest[i - 1] && r[j] == rest[j - 1]; }
        }
      }
    }
  }

  /** Filtering by a superset of the elements changes nothing. */
  lemma {:induction false} FilterAll<T(!new)>(s: seq<T>, keep: set<T>)
    requires Elems(s) <= keep
    ensures Filter(s, keep) == s
  {
    if s != [] {
      assert s[0] in Elems(s);
      assert Elems(s[1..]) <= Elems(s) by {
        forall x | x in Elems(s[1..]) ensures x in Elems(s) { var j :| 0 <= j < |s[1..]| && s[1..][j] == x; assert s[j + 1] == x; }
      }
      FilterAll(s[1..], keep);
      assert s == [s[0]] + s[1..];
    }
  }

  /** A single entry is kept exactly when it is in `keep`. */
  lemma FilterOne<T(!new)>(x: T, keep: set<T>)
    ensures Filter([x], keep) == if x in keep then [x] else []
  {
    assert [x][1..] == [];
  }

  /** Filtering works piece by piece: the kept entries of each part stay in
      order, one per occurrence. With `FilterOne` this fixes the result. */
  lemma {:induction false} FilterConcat<T(!new)>(a: seq<T>, b: seq<T>, keep: set<T>)
    ensures Filter(a + b, keep) == Filter(a, keep) + Filter(b, keep)
  {
    if a == [] {
      assert a + b == b;
    } else {
      assert (a + b)[0] == a[0];
      assert (a + b)[1..] == a[1..] + b;
      FilterConcat(a[1..], b, keep);
    }
  }

  // ---- FirstOccurrences ----

  lemma FirstIndexPrefix<T>(p: seq<T>, y: T, x: T)
    requires x in p
    ensures x in p + [y] && FirstIndex(p + [y], x) == FirstIndex(p, x)
  {
    var k := FirstIndex(p, x);
    var k' := FirstIndex(p + [y], x);
    assert (p + [y])[k] == x;
  }

  /** The kept elements appear ordered by their first index in `s`; with
      duplicate-freedom and equal element sets this pins the result down. */
  lemma {:induction false} FirstOccurrencesOrder<T>(s: seq<T>, i: nat, j: nat)
    requires i < j < |FirstOccurrences(s)|
    ensures FirstOccurrences(s)[i] in s && FirstOccurrences(s)[j] in s
    ensures FirstIndex(s, FirstOccurrences(s)[i]) < FirstIndex(s, FirstOccurrences(s)[j])
  {
    var r := FirstOccurrences(s);
    assert r[i] in Elems(r) && r[j] in Elems(r);
    var p := s[..|s| - 1];
    var y := s[|s| - 1];
    var rp := FirstOccurrences(p);
    assert s == p + [y];
    if j < |rp| {
      FirstOccurrencesOrder(p, i, j);
      assert r[i] == rp[i] && r[j] == rp[j];
      FirstIndexPrefix(p, y, rp[i]);
      assert rp[j] in Elems(rp);
      FirstIndexPrefix(p, y, rp[j]);
    } else {
      assert r[j] == y && y !in p;
      assert r[i] == rp[i] && rp[i] in Elems(rp);
      FirstIndexPrefix(p, y, rp[i]);
    }
  }

  /** A duplicate-free sequence is its own de-duplication. */
  lemma {:induction false} FirstOccurrencesOfNoDup<T>(s: seq<T>)
    requires NoDup(s)
    ensures FirstOccurrences(s) == s
  {
    if s != [] {
      var p := s[..|s| - 1];
      assert NoDup(p);
      FirstOccurrencesOfNoDup(p);
      assert s == p + [s[|s| - 1]];
    }
  }

  /** De-duplicating twice is de-duplicating once. */
  lemma FirstOccurrencesIdempotent<T>(s: seq<T>)
    ensures FirstOccurrences(FirstOccurrences(s)) == FirstOccurrences(s)
  {
    FirstOccurrencesOfNoDup(FirstOccurrences(s));
  }

  // ---- Rotate ----

  /** Rotation only permutes. */
  lemma RotatePermutes<T>(s: seq<T>, k: nat)
    requires k <= |s|
    ensures multiset(Rotate(s, k)) == multiset(s) && |Rotate(s, k)| == |s|
  {
    assert s == s[..k] + s[k..];
  }

  /** One more rotation step moves the next element to the tail. */
  lemma RotateStep<T>(s: seq<T>, k: nat)
    requires k < |s|
    ensures Rotate(s, k)[0] == s[k]
    ensures Rotate(s, k)[1..] + [Rotate(s, k)[0]] == Rotate(s, k + 1)
  {
    assert s[..k + 1] == s[..k] + [s[k]];
  }

  /** Rotation keeps the elements and duplicate-freedom. */
  lemma RotateElems<T>(s: seq<T>, k: nat)
    requires k <= |s|
    ensures Elems(Rotate(s, k)) == Elems(s)
    ensures NoDup(s) ==> NoDup(Rotate(s, k))
  {
    assert s == s[..k] + s[k..];
    ElemsConcat(s[..k], s[k..]);
    ElemsConcat(s[k..], s[..k]);
    if NoDup(s) {
      NoDupSplit(s[..k], s[k..]);
      NoDupConcat(s[k..], s[..k]);
    }
  }

  /** A full pass of rotations restores the sequence. */
  lemma RotateFull<T>(s: seq<T>)
    ensures Rotate(s, |s|) == s
  {
  }
}
