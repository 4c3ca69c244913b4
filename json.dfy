/** The value `json.load` returns for the state file, and the few Python
    operations the loader applies to such values: dict lookup, truthiness,
    the `in` operator, iteration, `str(x)`-based filtering and `int(x)`. */
module Json {
  import opened Wrappers
  import opened Seqs
  import Ids

  /** A decoded JSON document. An object keeps its members in document
      order, duplicates included; `Lookup` and `DictKeys` give the dict
      Python builds from them. Floats are finite. */
  datatype Json =
    | JNull
    | JBool(b: bool)
    | JInt(i: int)
    | JFloat(r: real)
    | JStr(s: string)
    | JArr(items: seq<Json>)
    | JObj(entries: seq<(string, Json)>)

  /** The member names of an object, in document order, duplicates included. */
  function KeyList(es: seq<(string, Json)>): (ks: seq<string>)
    ensures |ks| == |es|
    ensures forall i | 0 <= i < |es| :: ks[i] == es[i].0
  {
    if es == [] then [] else [es[0].0] + KeyList(es[1..])
  }

  /** The keys of the dict built from the members, in insertion order: each
      name once, where it first occurs. */
  function DictKeys(es: seq<(string, Json)>): (ks: seq<string>)
    ensures NoDup(ks) && Elems(ks) == Elems(KeyList(es))
    ensures forall k | k in ks :: k in KeyList(es)
  {
    var ks := FirstOccurrences(KeyList(es));
    assert forall k | k in ks :: k in KeyList(es) by {
      forall k | k in ks ensures k in KeyList(es) {
        assert k in Elems(ks);
      }
    }
    ks
  }

  /** The index of the last member named `k`. */
  function LastIndex(es: seq<(string, Json)>, k: string): (i: nat)
    requires k in KeyList(es)
    ensures i < |es| && es[i].0 == k
    ensures forall j | i < j < |es| :: es[j].0 != k
  {
    if es[|es| - 1].0 == k then |es| - 1
    else
      var p := es[..|es| - 1];
      assert k in KeyList(p) by {
        var j :| 0 <= j < |es| && KeyList(es)[j] == k;
        assert KeyList(p)[j] == k;
      }
      LastIndex(p, k)
  }

  /** `d.get(k)` on the dict built from the members: the value of the last
      member named `k`, or `None`. */
  function Lookup(es: seq<(string, Json)>, k: string): (r: Option<Json>)
    ensures r.None? <==> k !in KeyList(es)
  {
    if k in KeyList(es) then Some(es[LastIndex(es, k)].1) else None
  }

  /** The value of key `k`, which the dict has. */
  function Get(es: seq<(string, Json)>, k: string): (v: Json)
    requires k in KeyList(es)
    ensures Lookup(es, k) == Some(v)
  {
    Lookup(es, k).value
  }

  /** `d.get(k, default)`. */
  function GetOr(es: seq<(string, Json)>, k: string, default: Json): (v: Json)
    ensures k in KeyList(es) ==> v == Get(es, k)
    ensures k !in KeyList(es) ==> v == default
  {
    match Lookup(es, k)
    case None => default
    case Some(v) => v
  }

  /** In a dict whose members have distinct names, a member's name looks up its value. */
  lemma LookupDistinct(es: seq<(string, Json)>, i: nat)
    requires NoDup(KeyList(es)) && i < |es|
    ensures Lookup(es, es[i].0) == Some(es[i].1)
  {
    LastIndexDistinct(es, i);
  }

  lemma LastIndexDistinct(es: seq<(string, Json)>, i: nat)
    requires NoDup(KeyList(es)) && i < |es|
    ensures es[i].0 in KeyList(es) && LastIndex(es, es[i].0) == i
  {
    KeyListHas(es, i);
    SameKeySameIndex(es, i, LastIndex(es, es[i].0));
  }

  lemma KeyListHas(es: seq<(string, Json)>, i: nat)
    requires i < |es|
    ensures es[i].0 in KeyList(es)
  {
    assert KeyList(es)[i] == es[i].0;
  }

  lemma SameKeySameIndex(es: seq<(string, Json)>, i: nat, l: nat)
    requires NoDup(KeyList(es)) && i < |es| && l < |es| && es[l].0 == es[i].0
    ensures l == i
  {
    var ks := KeyList(es);
    assert ks[i] == es[i].0 && ks[l] == es[l].0;
    NoDupIndex(ks, i, l);
  }

  /** Python truthiness: `None`, `False`, zero, and empty strings, lists and dicts are false. */
  predicate Falsy(j: Json) {
    match j
    case JNull => true
    case JBool(b) => !b
    case JInt(i) => i == 0
    case JFloat(r) => r == 0.0
    case JStr(s) => s == []
    case JArr(items) => items == []
    case JObj(entries) => entries == []
  }

  /** `needle` occurs in `hay` as a contiguous piece. */
  predicate Occurs(needle: string, hay: string) {
    |needle| <= |hay| && (hay[..|needle|] == needle || (hay != [] && Occurs(needle, hay[1..])))
  }

  /** Python `key in container` for a str `key`: a dict key, a list element,
      a substring; any other container raises TypeError. */
  function Contains(container: Json, key: string): (r: Result<bool>)
    ensures r.Failure? <==> !(container.JObj? || container.JArr? || container.JStr?)
    ensures container.JObj? ==> r == Success(key in KeyList(container.entries))
    ensures container.JArr? ==> r == Success(JStr(key) in container.items)
  {
    match container
    case JObj(es) => Success(key in KeyList(es))
    case JArr(items) => Success(JStr(key) in items)
    case JStr(s) => Success(Occurs(key, s))
    case _ => Failure(TypeError)
  }

  function AsStrs(ks: seq<string>): (r: seq<Json>)
    ensures |r| == |ks| && forall i | 0 <= i < |ks| :: r[i] == JStr(ks[i])
  {
    if ks == [] then [] else [JStr(ks[0])] + AsStrs(ks[1..])
  }

  function Chars(s: string): (r: seq<Json>)
    ensures |r| == |s| && forall i | 0 <= i < |s| :: r[i] == JStr([s[i]])
  {
    if s == [] then [] else [JStr([s[0]])] + Chars(s[1..])
  }

  /** `for x in v`: a list gives its items, a dict its keys, a str its
      characters; anything else raises TypeError. */
  function Iterate(v: Json): (r: Result<seq<Json>>)
    ensures r.Failure? <==> !(v.JObj? || v.JArr? || v.JStr?)
    ensures v.JArr? ==> r == Success(v.items)
  {
    match v
    case JArr(items) => Success(items)
    case JObj(es) => Success(AsStrs(DictKeys(es)))
    case JStr(s) => Success(Chars(s))
    case _ => Failure(TypeError)
  }

  /** `str(x).lstrip("-").isdigit()`, over ASCII digits. Only ints and
      strings can pass: the text of null, a bool, a float, a list or a dict
      always holds a character that is neither a digit nor a minus sign. */
  predicate PassesIdFilter(x: Json) {
    match x
    case JInt(n) => Ids.IsDigitString(Ids.LStripMinus(Ids.IdKey(n)))
    case JStr(s) => Ids.IsDigitString(Ids.LStripMinus(s))
    case _ => false
  }

  /** Every int passes the filter: its text is at most one minus sign, then digits. */
  lemma IntsPassIdFilter(n: int)
    ensures PassesIdFilter(JInt(n))
  {
    var s := Ids.IdKey(n);
    if n < 0 {
      assert s[0] == '-' && s[1..] == Ids.NatToDigits(-n);
      assert Ids.LStripMinus(s) == Ids.LStripMinus(s[1..]);
    }
  }

  /** `int()` of a float: the fraction is dropped, toward zero. */
  function Truncate(f: real): (n: int)
    ensures f >= 0.0 ==> n as real <= f < n as real + 1.0
    ensures f < 0.0 ==> n as real - 1.0 < f <= n as real
  {
    if f >= 0.0 then f.Floor else -((-f).Floor)
  }

  /** Python `int(x)`: ints as they are, bools as 0 or 1, floats truncated,
      strs through `int()`'s literal syntax (ValueError when that fails);
      `None`, lists and dicts raise TypeError. */
  function PyInt(x: Json): Result<int> {
    match x
    case JInt(n) => Success(n)
    case JBool(b) => Success(if b then 1 else 0)
    case JFloat(f) => Success(Truncate(f))
    case JStr(s) =>
      (match Ids.ParseIntLiteral(s)
       case Some(n) => Success(n)
       case None => Failure(ValueError))
    case _ => Failure(TypeError)
  }
}
