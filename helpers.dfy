/** Two small pure helpers of the service: the base-URL normaliser and the
    id extractor for API records. */
module Helpers {
  import opened Wrappers
  import opened Json
  import Text
  import Ids

  /** `normalize_base_url` (lines 52-56): surrounding whitespace removed,
      then a single trailing slash dropped. */
  function NormalizeBaseUrl(url: string): (r: string)
    ensures var t := Text.Strip(url);
      && (r == t || r + "/" == t)
      && (r + "/" == t <==> (t != [] && t[|t| - 1] == '/'))
  {
    var t := Text.Strip(url);
    if t != [] && t[|t| - 1] == '/' then
      assert t[..|t| - 1] + "/" == t;
      t[..|t| - 1]
    else t
  }

  /** Only one slash is dropped: the result still ends in a slash exactly
      when the trimmed URL ended in two. */
  lemma NormalizeBaseUrlDropsOneSlash(url: string)
    ensures var t := Text.Strip(url); var r := NormalizeBaseUrl(url);
      (r != [] && r[|r| - 1] == '/') <==> (|t| >= 2 && t[|t| - 1] == '/' && t[|t| - 2] == '/')
  {
    var t := Text.Strip(url);
    var r := NormalizeBaseUrl(url);
    if t != [] && t[|t| - 1] == '/' {
      assert r == t[..|t| - 1];
    }
  }

  /** A URL that is already trimmed and has no trailing slash is left as it is. */
  lemma NormalizeBaseUrlKeepsClean(url: string)
    requires url != [] && !Text.IsSpace(url[0]) && !Text.IsSpace(url[|url| - 1]) && url[|url| - 1] != '/'
    ensures NormalizeBaseUrl(url) == url
  {
    assert Text.LStrip(url) == url;
    assert Text.RStrip(url) == url;
  }

  // ---- extract_id (lines 430-443) ----

  /** `isinstance(v, int)`: a bool counts, as in Python; the id is its int value. */
  function IntValue(v: Option<Json>): Option<int> {
    match v
    case Some(JInt(n)) => Some(n)
    case Some(JBool(b)) => Some(if b then 1 else 0)
    case _ => None
  }

  /** An id given directly as a field value: an int, or a str of digits. */
  function DirectId(v: Option<Json>): Option<int> {
    match v
    case Some(JStr(s)) => if Ids.IsDigitString(s) then Some(Ids.DigitsValue(s)) else None
    case _ => IntValue(v)
  }

  /** An id given by a nested record: a dict whose "id" is an int. */
  function NestedId(v: Option<Json>): Option<int> {
    match v
    case Some(JObj(es)) => IntValue(Lookup(es, "id"))
    case _ => None
  }

  /** The first pass: the direct id of the first key that has one. */
  function FirstDirect(record: seq<(string, Json)>, keys: seq<string>): Option<int> {
    if keys == [] then None
    else
      var d := DirectId(Lookup(record, keys[0]));
      if d.Some? then d else FirstDirect(record, keys[1..])
  }

  /** The second pass: the nested id of the first key that has one. */
  function FirstNested(record: seq<(string, Json)>, keys: seq<string>): Option<int> {
    if keys == [] then None
    else
      var d := NestedId(Lookup(record, keys[0]));
      if d.Some? then d else FirstNested(record, keys[1..])
  }

  /** `extract_id(record, *keys)`. */
  function ExtractId(record: seq<(string, Json)>, keys: seq<string>): Option<int> {
    var d := FirstDirect(record, keys);
    if d.Some? then d else FirstNested(record, keys)
  }

  /** The direct id of the first key that has one wins, whatever nested ids
      any key holds. */
  lemma {:induction false} ExtractIdPrefersDirect(record: seq<(string, Json)>, keys: seq<string>, i: nat)
    requires i < |keys| && DirectId(Lookup(record, keys[i])).Some?
    requires forall j | 0 <= j < i :: DirectId(Lookup(record, keys[j])).None?
    ensures ExtractId(record, keys) == DirectId(Lookup(record, keys[i]))
  {
    FirstDirectAt(record, keys, i);
  }

  lemma {:induction false} FirstDirectAt(record: seq<(string, Json)>, keys: seq<string>, i: nat)
    requires i < |keys| && DirectId(Lookup(record, keys[i])).Some?
    requires forall j | 0 <= j < i :: DirectId(Lookup(record, keys[j])).None?
    ensures FirstDirect(record, keys) == DirectId(Lookup(record, keys[i]))
  {
    if i > 0 {
      assert DirectId(Lookup(record, keys[0])).None?;
      forall j | 0 <= j < i - 1 ensures DirectId(Lookup(record, keys[1..][j])).None? {
        assert keys[1..][j] == keys[j + 1];
      }
      FirstDirectAt(record, keys[1..], i - 1);
    }
  }

  /** Only when no key holds a direct id does a nested `{"id": …}` count:
      then the first key with one gives it. */
  lemma {:induction false} ExtractIdFallsBackToNested(record: seq<(string, Json)>, keys: seq<string>, i: nat)
    requires forall j | 0 <= j < |keys| :: DirectId(Lookup(record, keys[j])).None?
    requires i < |keys| && NestedId(Lookup(record, keys[i])).Some?
    requires forall j | 0 <= j < i :: NestedId(Lookup(record, keys[j])).None?
    ensures ExtractId(record, keys) == NestedId(Lookup(record, keys[i]))
  {
    NoDirect(record, keys);
    FirstNestedAt(record, keys, i);
  }

  lemma {:induction false} NoDirect(record: seq<(string, Json)>, keys: seq<string>)
    ensures FirstDirect(record, keys).None? <==> forall j | 0 <= j < |keys| :: DirectId(Lookup(record, keys[j])).None?
  {
    if keys != [] {
      NoDirect(record, keys[1..]);
      assert forall j | 0 <= j < |keys| - 1 :: keys[1..][j] == keys[j + 1];
      if FirstDirect(record, keys).None? {
        forall j | 0 <= j < |keys| ensures DirectId(Lookup(record, keys[j])).None? {
          if j > 0 { assert keys[j] == keys[1..][j - 1]; }
        }
      }
    }
  }

  lemma {:induction false} NoNested(record: seq<(string, Json)>, keys: seq<string>)
    ensures FirstNested(record, keys).None? <==> forall j | 0 <= j < |keys| :: NestedId(Lookup(record, keys[j])).None?
  {
    if keys != [] {
      NoNested(record, keys[1..]);
      assert forall j | 0 <= j < |keys| - 1 :: keys[1..][j] == keys[j + 1];
      if FirstNested(record, keys).None? {
        forall j | 0 <= j < |keys| ensures NestedId(Lookup(record, keys[j])).None? {
          if j > 0 { assert keys[j] == keys[1..][j - 1]; }
        }
      }
    }
  }

  lemma {:induction false} FirstNestedAt(record: seq<(string, Json)>, keys: seq<string>, i: nat)
    requires i < |keys| && NestedId(Lookup(record, keys[i])).Some?
    requires forall j | 0 <= j < i :: NestedId(Lookup(record, keys[j])).None?
    ensures FirstNested(record, keys) == NestedId(Lookup(record, keys[i]))
  {
    if i > 0 {
      assert NestedId(Lookup(record, keys[0])).None?;
      forall j | 0 <= j < i - 1 ensures NestedId(Lookup(record, keys[1..][j])).None? {
        assert keys[1..][j] == keys[j + 1];
      }
      FirstNestedAt(record, keys[1..], i - 1);
    }
  }

  /** No id is found exactly when no key holds a direct or a nested one. */
  lemma ExtractIdNone(record: seq<(string, Json)>, keys: seq<string>)
    ensures ExtractId(record, keys).None? <==>
      forall j | 0 <= j < |keys| :: DirectId(Lookup(record, keys[j])).None? && NestedId(Lookup(record, keys[j])).None?
  {
    NoDirect(record, keys);
    NoNested(record, keys);
  }
}
