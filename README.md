# Cooldown ledger and shuffle-bag picker, in Dafny

The service asks Sonarr, Radarr and Lidarr to search for missing or
upgradeable items a few at a time. It lives in one file, `app/main.py`. This
project models its state store, which does two jobs:

- a **cooldown ledger** records, per bucket (`sonarr_missing`,
  `radarr_upgrades`, …), the epoch second at which each item id was last
  selected. An item is eligible again only once `cooldown_seconds` have
  passed.
- a **shuffle bag** per bucket holds a `bag` of ids not yet drawn in the
  current cycle and the `seen` ids already drawn. While the eligible set stays the
  same, every eligible id is drawn once before any repeats. Ids that are still cooling down are rotated to the
  back of the bag.

The model also covers loading the state file, which normalises both the
current `{"cooldowns": …, "shuffle": …}` shape and the legacy flat shape. It
covers two small pure helpers as well: `normalize_base_url` and `extract_id`.

Layout, one module per file:

- `wrappers.dfy`: `Option` and `Result`. `Result` carries the Python
  exception kind.
- `seqs.dfy`: element sets, duplicate-freedom, filtering, first-occurrence
  de-duplication, rotation.
- `text.dfy`: Python whitespace and `str.strip()`.
- `ids.dfy`: `str(n)` for ints (the cooldown key) and `int(s)` for strings.
- `json.dfy`: the JSON value `json.load` returns, plus the Python operations
  the loader applies to it (`d.get`, `in`, iteration, truthiness, `int()`).
- `ledger.dfy`: cooldown stamps as pure functions.
- `cycle.dfy`: the bag reconciliation as a relation (`Refreshed`), the
  rotation pick, and one iteration of the draw loop (`DrawStep`).
- `norepeat.dfy`: properties of runs of draw steps and of successive
  draws.
- `persist.dfy`: the load normalisation, `uniq`, and the save/load round
  trip.
- `helpers.dfy`: `normalize_base_url` and `extract_id`.
- `store.dfy`: the `StateStore` class. Its `cooldowns` and `shuffle` fields
  are updated in place. Each method is proved against the functions and
  relations above.

`random.shuffle` is modelled as "any order of exactly these ids", so
`_refresh_bucket` and the draw are specified as relations and not as
functions. The clock is a parameter `now`, read once per draw.

One behaviour is modelled as the code has it. A bag entry such as `"--5"`
passes the `str(x).lstrip("-").isdigit()` filter, but `int("--5")` then
raises. The exception discards the whole state file, not just that entry
(`Persist.DoubleMinusDiscardsDocument`).

The no-repeat promise holds within one cycle. A draw whose `count` exceeds
what is left in the bag refills the bag part way through, and may then
return an id a second time (`NoRepeat.OversizedDrawMayRepeat`). The model
promises no distinctness across such a refill.

## Model

| member | source | states |
|---|---|---|
| Store.StateStore.constructor | app/main.py:96-157 | the store starts with exactly the cooldowns and bags that loading the given document yields (empty when there is no document) |
| Store.StateStore.CdBucket | app/main.py:167-170 | returns the bucket's stamps, or an empty map; afterwards the ledger has the bucket and nothing else changed |
| Store.StateStore.IsCooledDown | app/main.py:172-179 | true exactly when gating is off, the id was never stamped, or at least `cooldown_seconds` passed since its stamp; the bucket entry is created only when gating is on |
| Store.StateStore.MarkSearched | app/main.py:181-182 | the bucket's stamp for the id becomes `now`; every other stamp and the bags are unchanged |
| Store.StateStore.ShBucket | app/main.py:185-193 | returns the bucket's cycle, or an empty one that is then stored; nothing else changes |
| Store.StateStore.RefreshBucket | app/main.py:195-223 | the bucket's new cycle is a possible reconciliation of its old one with the eligible ids; no other bucket and no stamp changes |
| Store.StateStore.Scan | app/main.py:259-273 | the ids before the first cooled-down one are rotated, in order, to the tail; that id is returned, or none after a full pass, with the bag back as it was |
| Store.StateStore.Refill | app/main.py:254-255 | an empty bag is reconciled; a non-empty one is left alone |
| Store.StateStore.Consume | app/main.py:277-282 | the head of the bag moves to the end of `seen`; it is stamped exactly when `mark` is set |
| Store.StateStore.DrawIteration | app/main.py:254-284 | one loop pass is a step of the `DrawStep` relation; other buckets' stamps are untouched |
| Store.StateStore.DrawNoRepeat | app/main.py:225-286 | nothing happens for `count <= 0` or no eligible ids; otherwise at most `count` eligible ids are picked, by a run of steps from the reconciled bucket that ends in a stop step when fewer are drawn; a tidy bucket stays coherent; a dry run stamps nothing |
| Store.AnOrder | app/main.py:212-219 | every finite set of ids has an order, so every `random.shuffle` here has an outcome |
| Ledger.EnsureBucket | app/main.py:167-170 | the ledger gains the bucket with its old stamps, or with none; other buckets are unchanged |
| Ledger.CooledDown | app/main.py:172-179 | defined by its body: gating off, never stamped, or at least `cooldown_seconds` since the stamp; see `Store.StateStore.IsCooledDown`, `CooldownAfterStamp`, `CooledDownStaysLater` |
| Ledger.Stamp | app/main.py:181-182 | the id's last stamp becomes `now`, the key set grows by exactly the id's key, and every other key keeps its value |
| Ledger.StampOnlyTouchesItsId | app/main.py:181-182 | stamping one id leaves every other id's stamp as it was |
| Ledger.CooldownAfterStamp | app/main.py:172-182 | after a stamp at `t` the id is gated exactly until `cooldown_seconds` have passed; other ids' gating is unchanged |
| Ledger.CooledDownStaysLater | app/main.py:179 | an id that is free at `now` is still free at any later time |
| Ids.IdKey | app/main.py:176-182 | `str(item_id)`: non-empty, and starting with a minus sign exactly when the id is negative; see `IdKeyRoundTrip`, `IdKeyInjective` |
| Ids.IdKeyRoundTrip | app/main.py:176-182 | the decimal key `str(item_id)` reads back as the id |
| Ids.IdKeyInjective | app/main.py:176-182 | two ids share a cooldown key exactly when they are equal |
| Ids.ParseIntLiteral | app/main.py:134 | defined by its body: `int()` on a str, surrounding whitespace stripped, one optional sign, digits with single underscores; see `ParseFilteredLiteral` |
| Ids.ParseFilteredLiteral | app/main.py:134-135 | text that passes the id filter parses under `int()` exactly when it has at most one leading minus sign, to the signed value of its digits |
| Text.Strip | app/main.py:53 | the result is the slice of the input left after removing whitespace at both ends: every removed character is whitespace, and neither end of the result is |
| Json.LookupDistinct | app/main.py:111-112 | in a dict whose members have distinct names, a member's name looks up its own value |
| Json.Lookup | app/main.py:111-112 | `d.get(k)` is absent exactly when no member is named `k` |
| Json.GetOr | app/main.py:132-133 | `d.get(k, default)` is the key's value when present, else the default |
| Json.DictKeys | app/main.py:123-125 | the keys a dict iterates are each member name once, no others |
| Json.Contains | app/main.py:110 | `key in data` is dict-key membership for a dict and element membership for a list; any value other than a dict, list or str raises |
| Json.Iterate | app/main.py:134-135 | iterating a list gives its items; values other than a list, dict or str raise |
| Json.IntsPassIdFilter | app/main.py:134-135 | every int passes the `str(x).lstrip("-").isdigit()` filter |
| Json.Truncate | app/main.py:124 | `int()` of a float drops the fraction toward zero |
| Json.PyInt | app/main.py:124 | defined by its body: `int()` on a JSON value (ints as they are, bools as 0/1, floats truncated, strs parsed, others raise TypeError); see `Json.Truncate`, `Persist.ConvertInt`, `Persist.ConvertText`, `Persist.BadStampDiscards` |
| Json.PassesIdFilter | app/main.py:134 | defined by its body: the text of an int or a str is minus signs then digits, and no other value passes; see `IntsPassIdFilter`, `Persist.ConvertDropped`, `Ids.ParseFilteredLiteral` |
| Seqs.Filter | app/main.py:205-206 | the filtered list keeps exactly the entries in the eligible set, and is no longer |
| Seqs.FilterConcat | app/main.py:205-206 | filtering works piece by piece, so the kept entries stay in input order, one per occurrence |
| Seqs.FilterOne | app/main.py:205-206 | a single entry is kept exactly when it is eligible |
| Seqs.FirstOccurrences | app/main.py:138-145 | the de-duplicated list has no repeats and the same elements |
| Seqs.FirstOccurrencesOrder | app/main.py:138-145 | the kept elements appear in the order of their first occurrence in the input |
| Seqs.FirstOccurrencesOfNoDup | app/main.py:138-145 | a list without repeats is its own de-duplication |
| Seqs.FirstOccurrencesIdempotent | app/main.py:138-145 | de-duplicating twice is de-duplicating once |
| Seqs.RotatePermutes | app/main.py:271 | rotation keeps the bag's multiset of ids and its length |
| Persist.Uniq | app/main.py:138-145 | the loop's output is the first-occurrence de-duplication of its input |
| Persist.OrEmpty | app/main.py:107-112 | defined by its body: a falsy value becomes `{}`; see `OrEmptyObject` |
| Persist.NormCooldowns | app/main.py:123-127 | defined by its body: a non-dict gives no buckets, a dict goes through `CooldownsFrom`; see `CooldownsRoundTrip`, `LegacyHasNoShuffle` |
| Persist.IdOf | app/main.py:134-135 | defined by its body: nothing for an entry the filter rejects, else `int()` of it; see `ConvertDropped`, `ConvertInt`, `ConvertText` |
| Persist.NormIds | app/main.py:134-135 | defined by its body: iterate the value, then convert each entry in order; see `ConvertIdsConcat`, `ConvertIdsOfInts`, `DoubleMinusText` |
| Persist.DecodeDocument | app/main.py:109-152 | defined by its body: the canonical or the legacy reading, then normalisation, failing on the first exception; see `SaveLoadRoundTrip`, `LegacyHasNoShuffle`, `LegacyRoundTrip` |
| Persist.LoadState | app/main.py:103-157 | defined by its body: no document or a raising one gives the empty state; see `LoadedListsDistinct`, `CooldownFailureDiscards`, `BadStampDiscards`, `ShuffleFailureDiscards`, `DoubleMinusDiscardsDocument`, `SaveLoadRoundTrip` |
| Persist.StampsFrom | app/main.py:124 | on success the stamps have exactly the walked keys |
| Persist.NormStamps | app/main.py:124 | on success a bucket's stamps have exactly the dict's keys |
| Persist.CooldownsFrom | app/main.py:123-127 | on success exactly the dict-valued buckets are kept |
| Persist.ConvertIds | app/main.py:134-135 | on success the id list is no longer than the raw list |
| Persist.NormBucket | app/main.py:129-147 | a non-dict bucket becomes an empty bag and seen; on success both lists are free of repeats |
| Persist.ShuffleFrom | app/main.py:149-152 | on success there is one bucket per walked key, each free of repeats |
| Persist.NormShuffle | app/main.py:149-152 | on success every bucket's bag and seen are free of repeats |
| Persist.ConvertDropped | app/main.py:134-135 | an entry that fails the filter is dropped |
| Persist.ConvertInt | app/main.py:134-135 | an int entry is kept as it is |
| Persist.ConvertText | app/main.py:134-135 | a filtered string entry becomes its value with at most one minus sign, and raises ValueError with more |
| Persist.DoubleMinusText | app/main.py:134-135 | `"--" + digits` passes the filter and then raises ValueError |
| Persist.ConvertIdsConcat | app/main.py:134-135 | a list converts part by part: it fails exactly when a part fails, and otherwise gives the parts' ids in order |
| Persist.ConvertIdsOfInts | app/main.py:134-135 | a saved list of ints reads back as itself |
| Persist.LoadedListsDistinct | app/main.py:137-152 | whatever document is loaded, no bag or seen list repeats an id |
| Persist.LegacyHasNoShuffle | app/main.py:113-120 | a document with neither top-level key loads as its legacy cooldown normalisation with no bags, and raises exactly when that normalisation does |
| Persist.CooldownFailureDiscards | app/main.py:122-127 | a canonical document whose cooldown part raises loads as the empty state |
| Persist.BadStampDiscards | app/main.py:124 | one stamp that `int()` cannot convert, such as null, makes the whole document load as the empty state |
| Persist.ShuffleFailureDiscards | app/main.py:154-157 | a canonical document whose shuffle part raises loads as the empty state |
| Persist.DoubleMinusDiscardsDocument | app/main.py:134-157 | a bag entry `"--5"` makes the whole document load as the empty state |
| Persist.StampsRoundTrip | app/main.py:124 | a saved stamp dict reads back as the same stamps |
| Persist.CooldownsRoundTrip | app/main.py:123-127 | a saved ledger reads back as the same ledger |
| Persist.BucketRoundTrip | app/main.py:129-147 | a saved bucket without repeats reads back as itself |
| Persist.ShuffleRoundTrip | app/main.py:149-152 | saved bags without repeats read back as themselves |
| Persist.SaveLoadRoundTrip | app/main.py:103-162 | the document `save` writes for a state without repeated ids loads back as that state |
| Persist.LegacyRoundTrip | app/main.py:113-127 | a legacy flat file reads back as its cooldowns with no bags |
| Cycle.Refreshed | app/main.py:202-223 | defined by its body: the relation between a bucket and its possible reconciliations; see `RefreshOutcomes`, `RefreshCovers`, `RefreshCoherent`, `RefreshOrder`, `RefreshSeen`, `RefreshIdempotent`, `Store.StateStore.RefreshBucket` |
| Cycle.RefreshOutcomes | app/main.py:202-223 | the filtered bag extended by a shuffle of the new ids, or else a shuffle of all eligible ids with `seen` cleared, is a possible reconciliation |
| Cycle.RefreshCovers | app/main.py:202-223 | after reconciliation bag and seen hold only eligible ids, and together all of them |
| Cycle.RefreshCoherent | app/main.py:195-223 | reconciling a bucket without repeats gives a cycle whose bag and seen partition the eligible set |
| Cycle.RefreshBagEmpty | app/main.py:216-220 | the bag is empty afterwards exactly when nothing is eligible |
| Cycle.RefreshOrder | app/main.py:205-214 | retained bag ids keep their order at the front; without a new cycle, exactly the newly eligible ids follow them and `seen` loses only ineligible ids |
| Cycle.RefreshSeen | app/main.py:216-220 | `seen` is cleared exactly when a new cycle starts, and a new cycle starts only when no eligible id is left in the bag and all have been seen |
| Cycle.RefreshStable | app/main.py:205-214 | a bucket that already covers the eligible set, with a non-empty bag, is left as it is |
| Cycle.RefreshIdempotent | app/main.py:195-223 | reconciling twice with the same eligible set is reconciling once |
| Cycle.FirstCooled | app/main.py:263-268 | the index of the first id the gate admits (all before it are gated), or the bag's length |
| Cycle.Pick | app/main.py:259-279 | defined by its body: rotate to the first admitted id and take it into `seen`, or change nothing; see `PickNone`, `PickSome`, `PickPermutes`, `PickCoherent` |
| Cycle.PickNone | app/main.py:259-275 | nothing is picked exactly when every id in the bag is gated, and then the bag is unchanged |
| Cycle.PickSome | app/main.py:259-279 | the pick is the first admitted id; the ids before it move, in order, behind the rest; it is appended to `seen` |
| Cycle.PickPermutes | app/main.py:270-279 | a pick only moves one id from the bag to `seen` |
| Cycle.PickCoherent | app/main.py:259-279 | a pick keeps the cycle invariant, and the picked id was in the bag and not in `seen` |
| Cycle.Select | app/main.py:256-284 | defined by its body: stop on an empty bag, else pick and stamp the pick when `mark` is set; see `SelectStop`, `SelectTake` |
| Cycle.SelectStop | app/main.py:256-257 | selection stops, changing nothing, on an empty bag or when every id is gated |
| Cycle.SelectTake | app/main.py:263-282 | selection takes the first admitted id out of the rotated bag, and stamps it exactly when `mark` is set |
| Cycle.DrawStep | app/main.py:254-284 | defined by its body: refill an empty bag by reconciliation, then select; see `StepCoherent`, `StepPicked`, `StepStopped`, `StepDryRun`, `StepStaysEligible`, `Store.StateStore.DrawIteration` |
| Cycle.StepCoherent | app/main.py:254-284 | a loop step keeps the cycle invariant, after the refill too |
| Cycle.StepPicked | app/main.py:254-284 | a picked id was cooled down at `now`, came from the bag and not from `seen`, was appended to `seen`, and was stamped exactly when `mark` is set |
| Cycle.StepStopped | app/main.py:254-275 | a stopping step changes nothing beyond the refill, and every id in the bag was gated |
| Cycle.StepDryRun | app/main.py:281-282 | with `mark` off a step never changes a stamp |
| Cycle.StepStaysEligible | app/main.py:254-284 | a step draws only eligible ids and keeps the bag within the eligible set |
| NoRepeat.RunWithinCycle | app/main.py:233-284 | while a draw stays within the current cycle it never repeats an id and picks only from the bag; `seen` grows by exactly the picks, and the invariant holds |
| NoRepeat.RunWithoutCooldown | app/main.py:263-279 | with gating off a draw takes the bag in order |
| NoRepeat.FreshBucketVisitsEveryIdOnce | app/main.py:195-286 | from a bucket with no history and with gating off, successive one-id draws follow the first shuffle of the eligible set, so the first `|e|` draws return every eligible id exactly once |
| NoRepeat.FirstRefill | app/main.py:216-220 | the first reconciliation of an empty bucket shuffles every eligible id into the bag |
| NoRepeat.MidCycleRefillKeeps | app/main.py:205-214 | part way through a cycle, reconciliation with the same eligible set changes nothing |
| NoRepeat.TakeHead | app/main.py:263-279 | with gating off, a step at position `k` of the cycle takes the `k`-th id of its shuffle |
| NoRepeat.CycleRestarts | app/main.py:216-220 | once the bag is used up, the next reconciliation clears `seen` and shuffles all of the eligible set back in |
| NoRepeat.OversizedDrawMayRepeat | app/main.py:253-257 | a draw of 2 from a one-id bucket can return that id twice, because the bag is refilled part way through |
| NoRepeat.LoneIdGatedUntilCooled | app/main.py:172-179 | a lone id stamped at `t` is returned exactly once `cooldown_seconds` have passed, and nothing is returned before |
| Helpers.NormalizeBaseUrl | app/main.py:52-56 | the result is the stripped URL, less one trailing slash exactly when it ends in one |
| Helpers.NormalizeBaseUrlDropsOneSlash | app/main.py:52-56 | the result still ends in a slash exactly when the stripped URL ended in two |
| Helpers.NormalizeBaseUrlKeepsClean | app/main.py:52-56 | a trimmed URL without a trailing slash is returned unchanged |
| Helpers.ExtractId | app/main.py:430-443 | defined by its body: the direct pass over the keys, then the nested pass; see `ExtractIdPrefersDirect`, `ExtractIdFallsBackToNested`, `ExtractIdNone` |
| Helpers.ExtractIdPrefersDirect | app/main.py:430-436 | the first key holding an int or a digit string gives the id, whatever nested ids any key holds |
| Helpers.ExtractIdFallsBackToNested | app/main.py:437-442 | only when no key holds a direct id does a nested `{"id": int}` count, and then the first key with one gives it |
| Helpers.ExtractIdNone | app/main.py:430-443 | no id is found exactly when no key holds a direct or a nested one |

## Left out

- Reading and writing the state file, and `ensure_dir`, are not modelled. `StateStore.save` and `atomic_write_json` are not part of this model. The file is the optional parsed document `doc`, and `None` stands for a missing or unparseable file. `SaveLoadRoundTrip` describes the written document as a value.
- The logged warning on a failed load is left out. Only its effect is modelled: the empty state.
- `random.shuffle`'s distribution is left out. A shuffle is any order of the given ids.
- The clock is the parameter `now`. One value serves a whole draw, so a draw that spans a clock tick is not modelled.
- `str.isdigit` and `int()` accept ASCII digits only. Python's `int()` also accepts other Unicode decimal digits. Python's `isdigit()` accepts still more, such as superscript "²", which `int()` rejects. The model drops a bag entry like "²" at the filter. Python passes it to `int()` at line 134, which raises and discards the whole document. `extract_id` differs in the same way (`Helpers.DirectId`). For a field such as "²", Python's `int()` at line 436 raises ValueError, and for a field of other Unicode decimal digits Python returns its value. The model treats both as "no direct id" and goes on to the next key.
- JSON floats are finite reals. `Infinity` and `NaN`, Python's float text, and `int()`'s digit-count limit for huge strings are left out.
- Exception kinds (TypeError, ValueError, AttributeError) are indicative. Only "some exception" matters to `_load`, because any exception discards the document.
- On the legacy path (lines 115-119), one comprehension is modelled. The second normalisation pass (lines 123-127) returns that result unchanged.
- `_sh_bucket`'s repair of a missing or non-list `bag`/`seen` (lines 189-192) is absent, because in the model a bucket always has two lists. Loading produces that shape already.
- `_refresh_bucket`'s and `draw_no_repeat`'s `int(x)` over `eligible_ids` is left out: the ids are ints already.
- Aliasing between the dict `b` and `self.shuffle[bucket]` in `draw_no_repeat` is left out. The model reads and writes the store's field directly, which has the same effect.
- `state_path` and `log` in the constructor are left out, since they serve only the file I/O and logging above.
- The rest of the repository is not part of this model: environment parsing, the HTTP clients for Sonarr, Radarr and Lidarr, tag handling, scheduling and `main`.
