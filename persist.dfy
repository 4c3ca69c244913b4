/** Loading the state file (app/main.py:109-152): the decoded JSON document
    is normalised into cooldown stamps and per-bucket shuffle bags. Both the
    canonical `{"cooldowns": …, "shuffle": …}` shape and the legacy flat
    `{bucket: {id: ts}}` shape are accepted; any exception discards the
    whole document. Each dict comprehension walks the dict's keys in
    insertion order and stops at the first exception. */
module Persist {
  import opened Wrappers
  import opened Seqs
  import opened Ids
  import opened Json
  import opened Ledger
  import opened Cycle

  /** The two fields of `StateStore` that are persisted. */
  datatype State = State(cooldowns: Cooldowns, shuffle: map<string, Bucket>)

  const EmptyState := State(map[], map[])

  /** Python `v or {}`. */
  function OrEmpty(v: Json): Json {
    if Falsy(v) then JObj([]) else v
  }

  // ---- Cooldowns ----

  /** `{str(i): int(ts) for i, ts in m.items()}` over the keys `ks` of the dict `m`. */
  function StampsFrom(es: seq<(string, Json)>, ks: seq<string>): (r: Result<Stamps>)
    requires forall k | k in ks :: k in KeyList(es)
    ensures r.Success? ==> r.value.Keys == Elems(ks)
  {
    if ks == [] then Success(map[])
    else
      var t := PyInt(Get(es, ks[0]));
      var rest := StampsFrom(es, ks[1..]);
      ElemsCons(ks);
      if t.Failure? then Failure(t.error)
      else if rest.Failure? then rest
      else Success(rest.value[ks[0] := t.value])
  }

  /** The stamps of one cooldown bucket, a dict. */
  function NormStamps(es: seq<(string, Json)>): (r: Result<Stamps>)
    ensures r.Success? ==> r.value.Keys == Elems(KeyList(es))
  {
    StampsFrom(es, DictKeys(es))
  }

  /** The cooldown normalisation (lines 123-127) over the keys `ks`: a
      bucket whose value is not a dict is dropped. */
  function CooldownsFrom(es: seq<(string, Json)>, ks: seq<string>): (r: Result<Cooldowns>)
    requires forall k | k in ks :: k in KeyList(es)
    ensures r.Success? ==> forall k :: k in r.value <==> k in ks && Get(es, k).JObj?
  {
    if ks == [] then Success(map[])
    else
      var v := Get(es, ks[0]);
      var rest := CooldownsFrom(es, ks[1..]);
      if !v.JObj? then rest
      else
        var m := NormStamps(v.entries);
        if m.Failure? then Failure(m.error)
        else if rest.Failure? then rest
        else Success(rest.value[ks[0] := m.value])
  }

  /** The cooldown normalisation of a whole value: anything but a dict gives no buckets. */
  function NormCooldowns(j: Json): Result<Cooldowns> {
    if !j.JObj? then Success(map[]) else CooldownsFrom(j.entries, DictKeys(j.entries))
  }

  // ---- Shuffle bags ----

  /** One entry of `[int(x) for x in xs if str(x).lstrip("-").isdigit()]`:
      nothing, its value, or the exception of `int()`. */
  function IdOf(x: Json): Result<seq<int>> {
    if !PassesIdFilter(x) then Success([])
    else match PyInt(x)
      case Failure(e) => Failure(e)
      case Success(v) => Success([v])
  }

  /** Two parts of a comprehension evaluated in order: the first failure wins. */
  function Join(a: Result<seq<int>>, b: Result<seq<int>>): Result<seq<int>> {
    if a.Failure? then a else if b.Failure? then b else Success(a.value + b.value)
  }

  /** The comprehension over all of `xs`. */
  function ConvertIds(xs: seq<Json>): (r: Result<seq<int>>)
    ensures r.Success? ==> |r.value| <= |xs|
  {
    if xs == [] then Success([]) else Join(IdOf(xs[0]), ConvertIds(xs[1..]))
  }

  /** The id list of one bag field: iterate the value, then convert. */
  function NormIds(v: Json): Result<seq<int>> {
    match Iterate(v)
    case Failure(e) => Failure(e)
    case Success(xs) => ConvertIds(xs)
  }

  /** `norm_bucket` (lines 129-147): a value that is not a dict gives an
      empty bag and seen; otherwise both lists are converted and
      de-duplicated, keeping first occurrences. */
  function NormBucket(v: Json): (r: Result<Bucket>)
    ensures !v.JObj? ==> r == Success(Bucket([], []))
    ensures r.Success? ==> NoDup(r.value.bag) && NoDup(r.value.seen)
  {
    if !v.JObj? then Success(Bucket([], []))
    else
      var bag := NormIds(GetOr(v.entries, "bag", JArr([])));
      var seen := NormIds(GetOr(v.entries, "seen", JArr([])));
      if bag.Failure? then Failure(bag.error)
      else if seen.Failure? then Failure(seen.error)
      else Success(Bucket(FirstOccurrences(bag.value), FirstOccurrences(seen.value)))
  }

  /** The shuffle normalisation (lines 149-152) over the keys `ks`. */
  function ShuffleFrom(es: seq<(string, Json)>, ks: seq<string>): (r: Result<map<string, Bucket>>)
    requires forall k | k in ks :: k in KeyList(es)
    ensures r.Success? ==> r.value.Keys == Elems(ks)
    ensures r.Success? ==> forall k | k in r.value :: NoDup(r.value[k].bag) && NoDup(r.value[k].seen)
  {
    if ks == [] then Success(map[])
    else
      var b := NormBucket(Get(es, ks[0]));
      var rest := ShuffleFrom(es, ks[1..]);
      ElemsCons(ks);
      if b.Failure? then Failure(b.error)
      else if rest.Failure? then rest
      else Success(rest.value[ks[0] := b.value])
  }

  /** The shuffle normalisation of a whole value: anything but a dict gives no buckets. */
  function NormShuffle(j: Json): (r: Result<map<string, Bucket>>)
    ensures r.Success? ==> forall k | k in r.value :: NoDup(r.value[k].bag) && NoDup(r.value[k].seen)
  {
    if !j.JObj? then Success(map[]) else ShuffleFrom(j.entries, DictKeys(j.entries))
  }

  // ---- The document ----

  /** Lines 110-152 on the value `json.load` returned: pick the canonical or
      the legacy reading, then normalise. On the legacy path the comprehension
      already has the normalised shape, which the normalisation pass leaves
      as it is. */
  function DecodeDocument(doc: Json): Result<State> {
    var data := OrEmpty(doc);
    var hasCooldowns := Contains(data, "cooldowns");
    var hasShuffle := Contains(data, "shuffle");
    if hasCooldowns.Failure? then Failure(hasCooldowns.error)
    else if hasCooldowns.value || hasShuffle.value then
      if !data.JObj? then Failure(AttributeError)
      else
        var cd := NormCooldowns(OrEmpty(GetOr(data.entries, "cooldowns", JObj([]))));
        var sh := NormShuffle(OrEmpty(GetOr(data.entries, "shuffle", JObj([]))));
        if cd.Failure? then Failure(cd.error)
        else if sh.Failure? then Failure(sh.error)
        else Success(State(cd.value, sh.value))
    else
      var cd := NormCooldowns(data);
      if cd.Failure? then Failure(cd.error) else Success(State(cd.value, map[]))
  }

  /** `_load`: no document (a missing or unreadable file) or a document that
      raises while being normalised gives the empty state. */
  function LoadState(doc: Option<Json>): State {
    if doc.None? then EmptyState
    else match DecodeDocument(doc.value)
      case Success(st) => st
      case Failure(_) => EmptyState
  }

  /** `uniq` (lines 138-145): keep each id at its first occurrence. */
  method Uniq(s: seq<int>) returns (out: seq<int>)
    ensures out == FirstOccurrences(s)
  {
    var seen: set<int> := {};
    out := [];
    for i := 0 to |s|
      invariant out == FirstOccurrences(s[..i])
      invariant seen == Elems(out)
    {
      assert s[..i + 1][..i] == s[..i];
      if s[i] !in seen {
        seen := seen + {s[i]};
        ElemsConcat(out, [s[i]]);
        out := out + [s[i]];
      }
    }
    assert s[..|s|] == s;
  }

  // ---- What the loader keeps ----

  lemma ElemsCons<T>(s: seq<T>)
    requires s != []
    ensures Elems(s) == {s[0]} + Elems(s[1..])
  {
    assert s == [s[0]] + s[1..];
    ElemsConcat([s[0]], s[1..]);
  }

  lemma ConvertSingle(x: Json)
    ensures ConvertIds([x]) == IdOf(x)
  {
    assert [x][1..] == [];
    var r := IdOf(x);
    if r.Success? { assert r.value + [] == r.value; }
  }

  /** An entry whose text is not minus signs then digits is dropped. */
  lemma ConvertDropped(x: Json)
    requires !PassesIdFilter(x)
    ensures ConvertIds([x]) == Success([])
  {
    ConvertSingle(x);
  }

  /** An int entry is kept as it is. */
  lemma ConvertInt(n: int)
    ensures ConvertIds([JInt(n)]) == Success([n])
  {
    ConvertSingle(JInt(n));
    IntsPassIdFilter(n);
  }

  /** A string entry that passes the filter is kept as its value when it has
      at most one leading minus sign; with more, `int()` raises ValueError. */
  lemma ConvertText(s: string)
    requires PassesIdFilter(JStr(s))
    ensures var digits := LStripMinus(s);
      var minus := |s| - |digits|;
      ConvertIds([JStr(s)]) ==
        if minus == 0 then Success([DigitsValue(digits) as int])
        else if minus == 1 then Success([-(DigitsValue(digits) as int)])
        else Failure(ValueError)
  {
    ConvertSingle(JStr(s));
    PyIntOfFiltered(s);
  }

  lemma PyIntOfFiltered(s: string)
    requires PassesIdFilter(JStr(s))
    ensures var digits := LStripMinus(s);
      var minus := |s| - |digits|;
      PyInt(JStr(s)) ==
        if minus == 0 then Success(DigitsValue(digits) as int)
        else if minus == 1 then Success(-(DigitsValue(digits) as int))
        else Failure(ValueError)
  {
    ParseFilteredLiteral(s);
  }

  /** A list converts entry by entry: it fails exactly when a part fails, and
      otherwise gives the parts' ids in order. */
  lemma {:induction false} ConvertIdsConcat(a: seq<Json>, b: seq<Json>)
    ensures ConvertIds(a + b).Success? <==> ConvertIds(a).Success? && ConvertIds(b).Success?
    ensures ConvertIds(a + b).Success? ==> ConvertIds(a + b).value == ConvertIds(a).value + ConvertIds(b).value
  {
    if a != [] {
      assert (a + b)[1..] == a[1..] + b;
      assert (a + b)[0] == a[0];
      ConvertIdsConcat(a[1..], b);
      JoinAssoc(IdOf(a[0]), ConvertIds(a[1..]), ConvertIds(b));
    } else {
      assert a + b == b;
    }
  }

  lemma JoinAssoc(x: Result<seq<int>>, y: Result<seq<int>>, z: Result<seq<int>>)
    ensures Join(x, Join(y, z)).Success? <==> x.Success? && y.Success? && z.Success?
    ensures Join(x, Join(y, z)).Success? ==> Join(x, Join(y, z)).value == Join(x, y).value + z.value
  {
    if x.Success? && y.Success? && z.Success? {
      assert x.value + (y.value + z.value) == (x.value + y.value) + z.value;
    }
  }

  /** The JSON list `json.dump` writes for a list of ids. */
  function Ints(ids: seq<int>): (r: seq<Json>)
    ensures |r| == |ids| && forall i | 0 <= i < |ids| :: r[i] == JInt(ids[i])
  {
    if ids == [] then [] else [JInt(ids[0])] + Ints(ids[1..])
  }

  /** A saved id list reads back as itself. */
  lemma {:induction false} ConvertIdsOfInts(ids: seq<int>)
    ensures ConvertIds(Ints(ids)) == Success(ids)
  {
    if ids != [] {
      var xs := Ints(ids);
      assert xs[1..] == Ints(ids[1..]);
      ConvertIdsOfInts(ids[1..]);
      IntsPassIdFilter(ids[0]);
      assert IdOf(xs[0]) == Success([ids[0]]);
      assert ids == [ids[0]] + ids[1..];
    }
  }

  /** Whatever document is loaded, every bag and seen list is duplicate-free. */
  lemma LoadedListsDistinct(doc: Option<Json>)
    ensures forall k | k in LoadState(doc).shuffle ::
      NoDup(LoadState(doc).shuffle[k].bag) && NoDup(LoadState(doc).shuffle[k].seen)
  {
  }

  /** A document with neither a "cooldowns" nor a "shuffle" key is read as
      legacy cooldowns and yields no shuffle bags. */
  lemma LegacyHasNoShuffle(doc: Json)
    requires doc.JObj? && "cooldowns" !in KeyList(doc.entries) && "shuffle" !in KeyList(doc.entries)
    ensures LoadState(Some(doc)).shuffle == map[]
    ensures DecodeDocument(doc).Success? <==> NormCooldowns(doc).Success?
    ensures DecodeDocument(doc) ==
      if NormCooldowns(doc).Success? then Success(State(NormCooldowns(doc).value, map[]))
      else Failure(NormCooldowns(doc).error)
  {
    if doc.entries != [] {
      assert Contains(doc, "cooldowns") == Success(false);
      assert Contains(doc, "shuffle") == Success(false);
    }
  }

  /** A bag entry "--5" passes the text filter but `int("--5")` raises, so
      the whole document is discarded. */
  lemma DoubleMinusDiscardsDocument()
    ensures var doc := JObj([("shuffle", JObj([("radarr_missing", JObj([("bag", JArr([JStr("--5")]))]))]))]);
      LoadState(Some(doc)) == EmptyState
  {
    var sh := JObj([("radarr_missing", JObj([("bag", JArr([JStr("--5")]))]))]);
    DoubleMinusShuffle("radarr_missing");
    ShuffleFailureDiscards(sh);
  }

  lemma DoubleMinusShuffle(name: string)
    ensures NormShuffle(JObj([(name, JObj([("bag", JArr([JStr("--5")]))]))])).Failure?
  {
    var bucket := JObj([("bag", JArr([JStr("--5")]))]);
    DoubleMinusBucket(bucket);
    SingleMemberDict(name, bucket);
  }

  /** A canonical document whose shuffle part raises is discarded whole. */
  lemma ShuffleFailureDiscards(sh: Json)
    requires NormShuffle(sh).Failure?
    ensures LoadState(Some(JObj([("shuffle", sh)]))) == EmptyState
  {
    var doc := JObj([("shuffle", sh)]);
    SingleMemberDict("shuffle", sh);
    assert Contains(doc, "cooldowns") == Success(false);
    assert Contains(doc, "shuffle") == Success(true);
  }

  /** A canonical document whose cooldown part raises is discarded whole. */
  lemma CooldownFailureDiscards(cd: Json)
    requires NormCooldowns(cd).Failure?
    ensures LoadState(Some(JObj([("cooldowns", cd)]))) == EmptyState
  {
    var doc := JObj([("cooldowns", cd)]);
    SingleMemberDict("cooldowns", cd);
    assert Contains(doc, "cooldowns") == Success(true);
    assert OrEmpty(cd) == cd;
  }

  /** A cooldown stamp that `int()` cannot convert (null, a list, a dict, a
      malformed string) makes the whole document load as the empty state. */
  lemma BadStampDiscards(bucket: string, key: string, v: Json)
    requires PyInt(v).Failure?
    ensures LoadState(Some(JObj([("cooldowns", JObj([(bucket, JObj([(key, v)]))]))]))) == EmptyState
  {
    BadStampFails(bucket, key, v);
    CooldownFailureDiscards(JObj([(bucket, JObj([(key, v)]))]));
  }

  lemma BadStampFails(bucket: string, key: string, v: Json)
    requires PyInt(v).Failure?
    ensures NormCooldowns(JObj([(bucket, JObj([(key, v)]))])).Failure?
  {
    SingleMemberDict(key, v);
    SingleMemberDict(bucket, JObj([(key, v)]));
    assert NormStamps([(key, v)]).Failure?;
  }

  lemma DoubleMinusBucket(bucket: Json)
    requires bucket == JObj([("bag", JArr([JStr("--5")]))])
    ensures NormBucket(bucket).Failure?
  {
    DoubleMinusIds();
    SingleMemberDict("bag", JArr([JStr("--5")]));
    BagFailure(bucket);
  }

  lemma DoubleMinusIds()
    ensures NormIds(JArr([JStr("--5")])).Failure?
  {
    DoubleMinusText("5");
    assert "--" + "5" == "--5";
  }

  /** Two minus signs before digits pass the filter but not `int()`. */
  lemma DoubleMinusText(d: string)
    requires IsDigitString(d)
    ensures ConvertIds([JStr("--" + d)]) == Failure(ValueError)
  {
    var s := "--" + d;
    assert s[0] == '-' && s[1..] == "-" + d;
    assert ("-" + d)[0] == '-' && ("-" + d)[1..] == d;
    assert d[0] != '-';
    assert LStripMinus(d) == d;
    assert LStripMinus("-" + d) == d;
    assert LStripMinus(s) == d;
    ConvertText(s);
  }

  lemma BagFailure(v: Json)
    requires v.JObj? && NormIds(GetOr(v.entries, "bag", JArr([]))).Failure?
    ensures NormBucket(v).Failure?
  {
  }

  lemma SingleMemberDict(k: string, v: Json)
    ensures KeyList([(k, v)]) == [k] && DictKeys([(k, v)]) == [k]
    ensures Get([(k, v)], k) == v && GetOr([(k, v)], k, JObj([])) == v && GetOr([(k, v)], k, JArr([])) == v
  {
    assert KeyList([(k, v)]) == [k];
    assert [k][..0] == [];
    assert FirstOccurrences([k]) == [k];
  }

  // ---- Save then load ----

  /** `stamps` as `json.dump` writes it: one member per key, in any order. */
  predicate EncodesStamps(stamps: Stamps, j: Json) {
    && j.JObj? && NoDup(KeyList(j.entries)) && Elems(KeyList(j.entries)) == stamps.Keys
    && forall i | 0 <= i < |j.entries| :: j.entries[i].0 in stamps && j.entries[i].1 == JInt(stamps[j.entries[i].0])
  }

  predicate EncodesCooldowns(cd: Cooldowns, j: Json) {
    && j.JObj? && NoDup(KeyList(j.entries)) && Elems(KeyList(j.entries)) == cd.Keys
    && forall i | 0 <= i < |j.entries| :: j.entries[i].0 in cd && EncodesStamps(cd[j.entries[i].0], j.entries[i].1)
  }

  /** A bucket as `json.dump(..., sort_keys=True)` writes it. */
  function BucketJson(b: Bucket): Json {
    JObj([("bag", JArr(Ints(b.bag))), ("seen", JArr(Ints(b.seen)))])
  }

  predicate EncodesShuffle(sh: map<string, Bucket>, j: Json) {
    && j.JObj? && NoDup(KeyList(j.entries)) && Elems(KeyList(j.entries)) == sh.Keys
    && forall i | 0 <= i < |j.entries| :: j.entries[i].0 in sh && j.entries[i].1 == BucketJson(sh[j.entries[i].0])
  }

  /** The document `save` writes for `st` (line 162), keys sorted. */
  predicate EncodesState(st: State, doc: Json) {
    && doc.JObj? && |doc.entries| == 2
    && doc.entries[0].0 == "cooldowns" && doc.entries[1].0 == "shuffle"
    && EncodesCooldowns(st.cooldowns, doc.entries[0].1)
    && EncodesShuffle(st.shuffle, doc.entries[1].1)
  }

  /** `m` cut down to the keys in `ks`. */
  function Restrict<V>(m: map<string, V>, ks: set<string>): map<string, V>
    requires ks <= m.Keys
  {
    map k | k in ks :: m[k]
  }

  lemma RestrictInsert<V>(m: map<string, V>, ks: set<string>, k0: string)
    requires ks <= m.Keys && k0 in m
    ensures Restrict(m, ks)[k0 := m[k0]] == Restrict(m, {k0} + ks)
  {
  }

  lemma RestrictAll<V>(m: map<string, V>, ks: set<string>)
    requires ks == m.Keys
    ensures Restrict(m, ks) == m
  {
  }

  /** A member of an encoded dict: its key's value is the member's value. */
  lemma EncodedMember(es: seq<(string, Json)>, k: string) returns (i: nat)
    requires NoDup(KeyList(es)) && k in KeyList(es)
    ensures i < |es| && es[i].0 == k && Get(es, k) == es[i].1
  {
    var ks := KeyList(es);
    i :| 0 <= i < |ks| && ks[i] == k;
    LookupDistinct(es, i);
  }

  /** An encoded stamp reads back through `int()`. */
  lemma StampMember(stamps: Stamps, j: Json, k: string)
    requires EncodesStamps(stamps, j) && k in KeyList(j.entries)
    ensures k in stamps && PyInt(Get(j.entries, k)) == Success(stamps[k])
  {
    assert k in Elems(KeyList(j.entries));
    var i := EncodedMember(j.entries, k);
  }

  lemma {:induction false} StampsFromRoundTrip(stamps: Stamps, j: Json, ks: seq<string>)
    requires EncodesStamps(stamps, j)
    requires forall k | k in ks :: k in KeyList(j.entries)
    ensures Elems(ks) <= stamps.Keys
    ensures StampsFrom(j.entries, ks) == Success(Restrict(stamps, Elems(ks)))
  {
    if ks != [] {
      StampsFromRoundTrip(stamps, j, ks[1..]);
      StampMember(stamps, j, ks[0]);
      ElemsCons(ks);
      RestrictInsert(stamps, Elems(ks[1..]), ks[0]);
    }
  }

  lemma StampsRoundTrip(stamps: Stamps, j: Json)
    requires EncodesStamps(stamps, j)
    ensures NormStamps(j.entries) == Success(stamps)
  {
    StampsFromRoundTrip(stamps, j, DictKeys(j.entries));
    RestrictAll(stamps, Elems(DictKeys(j.entries)));
  }

  /** An encoded cooldown bucket is a dict and reads back as its stamps. */
  lemma CooldownMember(cd: Cooldowns, j: Json, k: string)
    requires EncodesCooldowns(cd, j) && k in KeyList(j.entries)
    ensures k in cd && Get(j.entries, k).JObj? && NormStamps(Get(j.entries, k).entries) == Success(cd[k])
  {
    assert k in Elems(KeyList(j.entries));
    var i := EncodedMember(j.entries, k);
    StampsRoundTrip(cd[k], j.entries[i].1);
  }

  lemma {:induction false} CooldownsFromRoundTrip(cd: Cooldowns, j: Json, ks: seq<string>)
    requires EncodesCooldowns(cd, j)
    requires forall k | k in ks :: k in KeyList(j.entries)
    ensures Elems(ks) <= cd.Keys
    ensures CooldownsFrom(j.entries, ks) == Success(Restrict(cd, Elems(ks)))
  {
    if ks != [] {
      CooldownsFromRoundTrip(cd, j, ks[1..]);
      CooldownMember(cd, j, ks[0]);
      ElemsCons(ks);
      RestrictInsert(cd, Elems(ks[1..]), ks[0]);
    }
  }

  lemma CooldownsRoundTrip(cd: Cooldowns, j: Json)
    requires EncodesCooldowns(cd, j)
    ensures NormCooldowns(j) == Success(cd)
  {
    CooldownsFromRoundTrip(cd, j, DictKeys(j.entries));
    RestrictAll(cd, Elems(DictKeys(j.entries)));
  }

  lemma BucketRoundTrip(b: Bucket)
    requires NoDup(b.bag) && NoDup(b.seen)
    ensures NormBucket(BucketJson(b)) == Success(b)
  {
    var es := BucketJson(b).entries;
    assert KeyList(es) == ["bag", "seen"];
    assert GetOr(es, "bag", JArr([])) == JArr(Ints(b.bag));
    assert GetOr(es, "seen", JArr([])) == JArr(Ints(b.seen));
    ConvertIdsOfInts(b.bag);
    ConvertIdsOfInts(b.seen);
    FirstOccurrencesOfNoDup(b.bag);
    FirstOccurrencesOfNoDup(b.seen);
  }

  /** An encoded bucket reads back as itself. */
  lemma ShuffleMember(sh: map<string, Bucket>, j: Json, k: string)
    requires EncodesShuffle(sh, j) && k in KeyList(j.entries)
    requires forall k | k in sh :: NoDup(sh[k].bag) && NoDup(sh[k].seen)
    ensures k in sh && NormBucket(Get(j.entries, k)) == Success(sh[k])
  {
    assert k in Elems(KeyList(j.entries));
    var i := EncodedMember(j.entries, k);
    BucketRoundTrip(sh[k]);
  }

  lemma {:induction false} ShuffleFromRoundTrip(sh: map<string, Bucket>, j: Json, ks: seq<string>)
    requires EncodesShuffle(sh, j)
    requires forall k | k in sh :: NoDup(sh[k].bag) && NoDup(sh[k].seen)
    requires forall k | k in ks :: k in KeyList(j.entries)
    ensures Elems(ks) <= sh.Keys
    ensures ShuffleFrom(j.entries, ks) == Success(Restrict(sh, Elems(ks)))
  {
    if ks != [] {
      ShuffleFromRoundTrip(sh, j, ks[1..]);
      ShuffleMember(sh, j, ks[0]);
      ElemsCons(ks);
      RestrictInsert(sh, Elems(ks[1..]), ks[0]);
    }
  }

  lemma ShuffleRoundTrip(sh: map<string, Bucket>, j: Json)
    requires EncodesShuffle(sh, j)
    requires forall k | k in sh :: NoDup(sh[k].bag) && NoDup(sh[k].seen)
    ensures NormShuffle(j) == Success(sh)
  {
    ShuffleFromRoundTrip(sh, j, DictKeys(j.entries));
    RestrictAll(sh, Elems(DictKeys(j.entries)));
  }

  /** `d or {}` leaves a dict as it is: an empty dict is replaced by an empty dict. */
  lemma OrEmptyObject(j: Json)
    requires j.JObj?
    ensures OrEmpty(j) == j
  {
  }

  /** Saving a state whose bag and seen lists are duplicate-free and loading
      the file again gives back the same state. */
  lemma SaveLoadRoundTrip(st: State, doc: Json)
    requires EncodesState(st, doc)
    requires forall k | k in st.shuffle :: NoDup(st.shuffle[k].bag) && NoDup(st.shuffle[k].seen)
    ensures DecodeDocument(doc) == Success(st)
    ensures LoadState(Some(doc)) == st
  {
    var es := doc.entries;
    assert KeyList(es) == ["cooldowns", "shuffle"];
    assert Contains(doc, "cooldowns") == Success(true);
    assert GetOr(es, "cooldowns", JObj([])) == es[0].1;
    assert GetOr(es, "shuffle", JObj([])) == es[1].1;
    CooldownsRoundTrip(st.cooldowns, es[0].1);
    ShuffleRoundTrip(st.shuffle, es[1].1);
    OrEmptyObject(es[0].1);
    OrEmptyObject(es[1].1);
  }

  /** A legacy file of flat cooldown buckets reads back as those cooldowns,
      with no shuffle bags. */
  lemma LegacyRoundTrip(cd: Cooldowns, doc: Json)
    requires EncodesCooldowns(cd, doc) && "cooldowns" !in cd && "shuffle" !in cd
    ensures DecodeDocument(doc) == Success(State(cd, map[]))
  {
    CooldownsRoundTrip(cd, doc);
    OrEmptyObject(doc);
    assert "cooldowns" !in Elems(KeyList(doc.entries));
    assert "shuffle" !in Elems(KeyList(doc.entries));
    LegacyHasNoShuffle(doc);
  }
}
