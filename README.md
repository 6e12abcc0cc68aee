# Pokémon TCG Pocket collection simulator — a Dafny model of its core

The simulator estimates how many booster packs a player must open to
complete an expansion, or a mission (a chosen subset of cards, in chosen
numbers of copies). It has three parts, and this project models each one:

* **The offering** (`expansion.py`, module `Offering` in `offering.dfy`).
  A *rarity* is a tier of cards. Its cards are split into a bucket shared by
  every variant (the `ANY` tag) and one exclusive bucket per variant. All of
  them are laid out as one flat index range (`_offsets`). The model covers:
  * `count` and `pick`;
  * the rare-booster card lists;
  * the per-slot cumulative rate tables and the choice of a rarity from a
    uniform draw;
  * regular packs (five slots) and rare packs (five cards drawn, with
    replacement, from the variant's rare pool);
  * `from_json`'s sort of the rarities by descending cost (module `Sorting`,
    a stable sort by key).

  Every random draw is a parameter.
* **The tracker** (`collection.py`).
  * `Bookkeeping` (`bookkeeping.dfy`) states one rarity's collection as a
    value, the `Tracker`: its variant buckets, the mission goal if any, the
    cards bought and the `completed_at` latch.
  * `Tracking` (`collection.dfy`) holds the classes `Variant`,
    `RarityCollection` (with `MissionRarityCollection` as the variant that
    has a goal) and `Collection`. They are updated in place as in the
    source, and each method is proved to move its abstract state exactly as
    the value-level function says.
* **The simulation loop** (`simulation.py`).
  * `Policy` (`policy.dfy`) holds the read-only helpers:
    * `required_pack_points` and the `completed_*` tests;
    * `pick_from_remaining` with its two sort keys;
    * `buy_remaining` as a function.
  * `Simulation` (`simulation.dfy`) holds:
    * the round-robin `VariantIterator` class;
    * `buy_remaining` as a loop over the mutable `Collection`;
    * one iteration of `simulate` (open a pack, auto-buy, buy at the
      2500-point cap, latch `all_common_at`, termination checks);
    * the whole loop over a supplied sequence of packs.

Python exceptions are values of the `Error` datatype (`KeyError`,
`IndexError`, `ValueError`, `AttributeError`, `TypeError`,
`ZeroDivisionError`, `StopIteration`, `RuntimeError`). An operation that can
raise returns a `Result` or a `Status`. Where the source leaves partial
effects behind before it raises, so does the model. `buy_remaining`, for
example, keeps the purchases made before it ran out of points, and
`pack_points` is not reassigned.

Quirks of the code that the model reproduces, and that its lemmas state:

* `Rarity.count(ANY)` adds the shared bucket twice, for every rarity
  (`Offering.CountAnyDoubles`), where `tests/test_expansion.py:26-38`
  expects it once (see Findings). So a plain collection never reaches
  `remaining(ANY) == 0` (`Bookkeeping.RemainingAnyNeverZero`), and `ANY` is
  never retired from the rotation (`Simulation.AnyOnlyNeverRetired`).
* `Rarity.pick` returns a flat index into the rarity's whole set. The tests
  at `tests/test_expansion.py:42-57` unpack a (variant, index) pair from it;
  the model follows the code. `iter_variant_cards(ANY)` yields nothing.
* `Variant.add(i, 0)` on a card that is not held still raises `unique`
  (`Bookkeeping.AddZeroBreaksUnique`, see Findings). `total` rises by one
  whatever the count.
* The crown-card remap in `RarityCollection.add` (`Bookkeeping.AddCrown`).
* `pick_from_remaining` returns `None` when nothing remains. `Collection.buy`
  then fails to unpack it (`TypeError`).
* `next` on an emptied variant deque raises `IndexError`.
* At the points cap, `rarest(v)` keys each collection by its highest
  offering rate over its card count for `v`, and the ascending sort buys
  from the collection with the least key: the card least likely to be
  pulled, as the comment at `simulation.py:29` says
  (`Policy.RarestPicksLeastRate`).
* A pack is rare or regular, and every pack adds 5 points.
* The checks at the end of an iteration are, in order:
  1. everything complete;
  2. retire the variant;
  3. `max_opened`.

  There is no separate stop at common completion.

## Model

| member | source | states |
|---|---|---|
| Common.IndexOf | src/pokemon_tcg_simulate/collection.py:70 | `list.index`: the position of the first occurrence, and nothing exactly when the element is absent |
| Common.Lookup | src/pokemon_tcg_simulate/collection.py:134 | a dict lookup finds a value exactly when the key is present, and the value is stored under that key |
| Sorting.SortByOrdersAndPermutes | src/pokemon_tcg_simulate/expansion.py:115 | `sorted(..., key=)` returns a permutation of its input in non-decreasing key order |
| Sorting.SortByIsStable | src/pokemon_tcg_simulate/expansion.py:115 | `sorted` keeps elements with equal keys in input order |
| Offering.ComputeOffsets | src/pokemon_tcg_simulate/expansion.py:71-81 | the `_offsets` loop with its running offset computes `Offsets`, the running sum of the exclusive counts before each key |
| Offering.OffsetsAt | src/pokemon_tcg_simulate/expansion.py:71-81 | `_offsets` has exactly the non-`ANY` keys, and each one's offset is the sum of the exclusive counts before it |
| Offering.SumIsAnyPlusExclusive | src/pokemon_tcg_simulate/expansion.py:59-62 | the total count is the `ANY` count plus the exclusive counts |
| Offering.OffsetBlockWithin | src/pokemon_tcg_simulate/expansion.py:71-81 | each exclusive block lies within the exclusive range |
| Offering.OffsetBlocksDisjoint | src/pokemon_tcg_simulate/expansion.py:71-81 | the blocks of two different variants do not overlap |
| Offering.OffsetsCover | src/pokemon_tcg_simulate/expansion.py:71-81 | every exclusive offset belongs to some variant's block |
| Offering.ExclusiveWithin | src/pokemon_tcg_simulate/expansion.py:59-62 | a variant's exclusive count, and its block, stay within the exclusive total |
| Offering.CountVariantWithinTotal | src/pokemon_tcg_simulate/expansion.py:59-62 | `count(v)` for a variant is at most `count()`, and `count()` is the shared cards plus the exclusive blocks |
| Offering.CountAnyDoubles | src/pokemon_tcg_simulate/expansion.py:59-62 | for every rarity, `count(ANY)` is twice the shared bucket |
| Offering.CountExample | src/pokemon_tcg_simulate/expansion.py:59-62 | on the rarity of the tests, `count(ANY)` is 6 with 3 shared cards, while the intended count gives 3; `count()` is 15, `count("Pikachu")` 8 and `count("Charizard")` 10 |
| Offering.IntendedCountPicks | src/pokemon_tcg_simulate/expansion.py:59-68 | with `count(ANY)` as the shared cards alone, every draw `pick` can receive gives a card index without raising, and under `ANY` the draw itself |
| Offering.PickMapping | src/pokemon_tcg_simulate/expansion.py:64-68 | a draw in the shared range is returned as is; a larger one lands in the variant's block past the shared cards; every result indexes the whole set; it fails exactly for an empty range or a draw past the shared cards under `ANY` |
| Offering.IterRareCardsOk | src/pokemon_tcg_simulate/expansion.py:35-48 | a non-rare rarity yields no rare cards; `rare_counts` defaults to `counts`; a rare one fails exactly for `ANY` or an unlisted variant |
| Offering.IterRareCardsShape | src/pokemon_tcg_simulate/expansion.py:40-48 | the rare cards of a variant are the shared ones then the variant's block, strictly increasing, all within the rare set |
| Offering.IterVariantCardsWithin | src/pokemon_tcg_simulate/expansion.py:50-57 | a variant's cards lie past the shared cards and within the whole set |
| Offering.IterVariantCardsDisjoint | src/pokemon_tcg_simulate/expansion.py:50-57 | two different variants share no card index |
| Offering.Accumulate | src/pokemon_tcg_simulate/expansion.py:93 | `accumulate`: entry `i` is the sum of the first `i + 1` rates |
| Offering.AccumulateNonDecreasing | src/pokemon_tcg_simulate/expansion.py:92-95 | running sums of non-negative rates never decrease |
| Offering.SelectFrom | src/pokemon_tcg_simulate/expansion.py:125-128 | the loop of `_pick` stops at the first table entry at or above the draw; no stop means every entry is below it |
| Offering.SelectInterval | src/pokemon_tcg_simulate/expansion.py:122-128 | on a non-decreasing table, rarity `i` is chosen exactly when the draw lies in `(cum[i-1], cum[i]]` |
| Offering.RarePool | src/pokemon_tcg_simulate/expansion.py:98-107 | a variant's rare pool is built exactly when every rare rarity's card list is |
| Offering.RarityPullsCards | src/pokemon_tcg_simulate/expansion.py:100-104 | one rarity contributes exactly its rare cards under its name, and nothing when it is not rare |
| Offering.RarePoolFlat | src/pokemon_tcg_simulate/expansion.py:100-104 | the pool is the rarities' contributions joined in rarity order |
| Offering.RarePoolSound | src/pokemon_tcg_simulate/expansion.py:98-107 | every card of the pool is a rare card of a rare rarity |
| Offering.RarePoolComplete | src/pokemon_tcg_simulate/expansion.py:98-107 | every rare card of every rare rarity is in the pool |
| Offering.RarePools | src/pokemon_tcg_simulate/expansion.py:98-107 | `_rare_cards` has exactly the expansion's variants as keys, each mapped to its pool |
| Offering.BuiltPools | src/pokemon_tcg_simulate/expansion.py:90-107 | a constructed expansion has a pool for exactly its variants |
| Offering.BuiltTables | src/pokemon_tcg_simulate/expansion.py:92-95 | five slot tables, each with one running sum per rarity in rarity order |
| Offering.PickSlot | src/pokemon_tcg_simulate/expansion.py:122-134 | `_pick`: nothing (a retry) exactly when the draw is above every entry; otherwise the selected rarity's name with its `pick`, or `pick`'s exception |
| Offering.OpenRegularSlots | src/pokemon_tcg_simulate/expansion.py:136-137 | a regular pack that opens has five pulls, pull `i` from slot `i`; a retry is caused by some slot's miss |
| Offering.OpenRareCards | src/pokemon_tcg_simulate/expansion.py:119-120 | a rare pack holds five rare cards of the variant; it fails exactly for an unlisted variant or an empty pool |
| Offering.FromJsonOrder | src/pokemon_tcg_simulate/expansion.py:109-117 | rarities are ordered by non-increasing cost, none lost, equal costs in input order |
| Bookkeeping.NewBucket | src/pokemon_tcg_simulate/collection.py:20-21 | a new bucket holds no copy of any of its cards |
| Bookkeeping.AddCounters | src/pokemon_tcg_simulate/collection.py:36-40 | `add(i, c)` adds `c` copies of card `i` only; `unique` rises exactly when the card was not held; `total` rises by one |
| Bookkeeping.AddKeepsConsistent | src/pokemon_tcg_simulate/collection.py:36-40 | adding at least one copy keeps `unique` equal to the number of cards held |
| Bookkeeping.AddZeroBreaksUnique | src/pokemon_tcg_simulate/collection.py:36-40 | from accurate counters, adding zero copies of a card not held leaves the copies as they were but `unique` no longer the number of cards held |
| Bookkeeping.AddHeldKeepsConsistent | src/pokemon_tcg_simulate/collection.py:36-40 | an add that raises `unique` only when the card becomes held keeps the counters accurate for every count, and agrees with `add` for counts of at least one |
| Bookkeeping.CompletedIsAllHeld | src/pokemon_tcg_simulate/collection.py:23-28 | with accurate counters, `len` is at most the size, and `completed` holds exactly when every card is held |
| Bookkeeping.Needs | src/pokemon_tcg_simulate/collection.py:129-130 | an int goal `n` becomes `n` ones; a list stays as it is |
| Bookkeeping.NormaliseGoal | src/pokemon_tcg_simulate/collection.py:125-130 | a bare goal goes under `ANY`; each entry keeps its tag and gets its list of needs |
| Bookkeeping.NormaliseIdempotent | src/pokemon_tcg_simulate/collection.py:125-130 | rewriting an already rewritten mission changes nothing |
| Bookkeeping.NewTracker | src/pokemon_tcg_simulate/collection.py:57-62 | a new collection has one empty bucket per count entry, in order, nothing bought and no latch |
| Bookkeeping.ZerosExact | src/pokemon_tcg_simulate/collection.py:90-94 | one bucket's missing cards are exactly its cards not held, each once, in increasing order |
| Bookkeeping.PlainMissingExact | src/pokemon_tcg_simulate/collection.py:90-94 | `iter_missing()` yields exactly the cards not held in their bucket |
| Bookkeeping.PlainRemainingIsMissing | src/pokemon_tcg_simulate/collection.py:90-97 | on a plain collection, `remaining()` is the number of cards `iter_missing()` yields |
| Bookkeeping.RemainingAnyNeverZero | src/pokemon_tcg_simulate/collection.py:82-97 | with shared cards, a plain `remaining(ANY)` is at least the shared count, never 0 |
| Bookkeeping.QuotaMissingFails | src/pokemon_tcg_simulate/collection.py:140-144 | a goal entry fails exactly when its bucket is absent or shorter than the goal |
| Bookkeeping.QuotaMissingCounts | src/pokemon_tcg_simulate/collection.py:140-144 | a goal entry yields each card exactly as many times as it is short of its need |
| Bookkeeping.GoalMissingCounts | src/pokemon_tcg_simulate/collection.py:140-144 | with each tag named once in the goal, a mission's `iter_missing()` yields each goal card exactly as many times as it is short of its need |
| Bookkeeping.GoalMissingMet | src/pokemon_tcg_simulate/collection.py:140-144 | a goal whose cards are all held at least as often as needed yields nothing |
| Bookkeeping.AddLatch | src/pokemon_tcg_simulate/collection.py:64-76 | `completed_at` is set once, by the first successful add that leaves nothing remaining, to that add's `opened`; purchases, rarity and goal are untouched |
| Bookkeeping.AddStores | src/pokemon_tcg_simulate/collection.py:64-76 | a card with a bucket adds exactly one copy there and nothing else |
| Bookkeeping.AddCrown | src/pokemon_tcg_simulate/collection.py:67-71 | in an `ANY`-only rarity, an unknown tag adds a copy to `ANY` at the tag's rank among the rare-count keys |
| Bookkeeping.BuyRecords | src/pokemon_tcg_simulate/collection.py:78-80 | `buy` is `add` followed by recording the item, and only when the add did not raise |
| Bookkeeping.AddOnesEffect | src/pokemon_tcg_simulate/collection.py:107-109 | an int state adds one copy of each of the first `n` cards, failing exactly when `n` is past the bucket |
| Bookkeeping.AddNumsEffect | src/pokemon_tcg_simulate/collection.py:110-112 | a list state adds `nums[i]` copies of card `i`, failing exactly when the list is longer than the bucket |
| Bookkeeping.StoreShape | src/pokemon_tcg_simulate/collection.py:73 | storing a card keeps every bucket's tag and size and the accuracy of the counters |
| Bookkeeping.PlainMissingTail | src/pokemon_tcg_simulate/collection.py:90-94 | storing the first missing card leaves exactly the rest of the missing list |
| Bookkeeping.BuyFirstMissing | src/pokemon_tcg_simulate/collection.py:78-94 | buying the first missing card succeeds, records it and leaves the tail of the list as what is missing |
| Bookkeeping.BuyFits | src/pokemon_tcg_simulate/collection.py:64-80 | a mission collection buying a card that has a bucket: the purchase goes through and is recorded, adds one copy of that card and nothing else, keeps the shape, and latches `completed_at` once, when nothing is left missing |
| Bookkeeping.ZeroLoadedLatchesEarly | src/pokemon_tcg_simulate/collection.py:102-115 | a state listing 0 copies of the only card of a one-card rarity loads without error and latches `completed_at` at 0 while that card is still missing |
| Tracking.Variant.constructor | src/pokemon_tcg_simulate/collection.py:20-21 | a new `Variant` is an empty bucket of the given size |
| Tracking.Variant.Completed | src/pokemon_tcg_simulate/collection.py:23-25 | with accurate counters, `completed` holds exactly when every card is held |
| Tracking.Variant.Contains | src/pokemon_tcg_simulate/collection.py:30-31 | `in` fails exactly past the bucket; a card not held means the bucket is incomplete |
| Tracking.Variant.Add | src/pokemon_tcg_simulate/collection.py:36-40 | updates the array and counters as `add` does; an index past the end raises `IndexError` and changes nothing |
| Tracking.NormaliseMission | src/pokemon_tcg_simulate/collection.py:125-130 | the rewriting loop computes `NormaliseGoal` |
| Tracking.RarityCollection.constructor | src/pokemon_tcg_simulate/collection.py:57-62 | builds one fresh `Variant` per count entry, plus the goal, as `NewTracker` |
| Tracking.RarityCollection.Add | src/pokemon_tcg_simulate/collection.py:64-76 | the in-place `add` moves the state exactly as `AddSpec` |
| Tracking.RarityCollection.AddRemapped | src/pokemon_tcg_simulate/collection.py:73-76 | store then latch, testing the latch before evaluating `remaining()` |
| Tracking.RarityCollection.StoreCard | src/pokemon_tcg_simulate/collection.py:73 | the lookup raises `KeyError` for a missing bucket, the bucket `IndexError` past its end, with no change |
| Tracking.RarityCollection.Buy | src/pokemon_tcg_simulate/collection.py:78-80 | the in-place `buy` moves the state exactly as `BuySpec` |
| Tracking.RarityCollection.LoadInto | src/pokemon_tcg_simulate/collection.py:107-112 | the per-card loops of one entry on one bucket |
| Tracking.RarityCollection.LoadOneEntry | src/pokemon_tcg_simulate/collection.py:106-112 | one entry of the state, the bucket looked up only when a card is added |
| Tracking.RarityCollection.LoadInitialState | src/pokemon_tcg_simulate/collection.py:102-115 | the in-place load moves the state exactly as `LoadSpec`, latching `completed_at` at 0 when nothing remains |
| Tracking.Collection.constructor | src/pokemon_tcg_simulate/collection.py:150-162 | a new `Collection` has opened 0, points 0 and no `all_common_at` |
| Tracking.Collection.Add | src/pokemon_tcg_simulate/collection.py:164-167 | each pull goes to its tracked rarity in order, untracked ones skipped, as `BookAdd` |
| Tracking.Collection.Buy | src/pokemon_tcg_simulate/collection.py:169-172 | the rarity's `buy`, then its cost off the points, as `BookBuy` |
| Tracking.Collection.LoadInitialState | src/pokemon_tcg_simulate/collection.py:174-177 | points first (0 when absent), then each named rarity, as `SeedSpec` |
| Tracking.FreshBookPlain | src/pokemon_tcg_simulate/collection.py:187-190 | without a mission, every rarity gets an empty plain collection under its name, in order |
| Tracking.FreshBookMission | src/pokemon_tcg_simulate/collection.py:181-186 | with a mission, exactly the rarities it names get a collection, each with a goal and empty |
| Tracking.BookAddKeeps | src/pokemon_tcg_simulate/collection.py:164-167 | `add` records no purchase and never unsets a latch; pulls of untracked rarities change nothing |
| Tracking.BookBuyPays | src/pokemon_tcg_simulate/collection.py:169-172 | `None` raises `TypeError` and an untracked rarity `KeyError`, with no change; a purchase that goes through records the card and pays that rarity's cost |
| Tracking.LoadKeeps | src/pokemon_tcg_simulate/collection.py:102-115 | loading changes only buckets and the latch |
| Tracking.SeedLoads | src/pokemon_tcg_simulate/collection.py:174-177 | the points are set even when loading then raises; a missing `"collected"` raises `KeyError` with no change; no purchase is recorded |
| Policy.RequiredIsMissingCost | src/pokemon_tcg_simulate/simulation.py:50-51 | on plain collections with accurate counters and on mission collections, the points needed are the price of the cards `iter_missing()` yields |
| Policy.AnyNonZeroIff | src/pokemon_tcg_simulate/simulation.py:65 | `any` is false exactly when all values are 0, and true exactly at a first non-zero value with none raising before it |
| Policy.VariantRemaining | src/pokemon_tcg_simulate/simulation.py:65 | the generator of `remaining(variant)` values, one per collection |
| Policy.CompletedVariantIff | src/pokemon_tcg_simulate/simulation.py:64-65 | a variant is complete exactly when every collection has nothing remaining for it, both directions |
| Policy.AnyNeverCompleted | src/pokemon_tcg_simulate/simulation.py:64-65 | with a plain collection holding shared cards, `ANY` is never complete |
| Policy.MaxRate | src/pokemon_tcg_simulate/simulation.py:31 | `max` returns an element no smaller than any other |
| Policy.KeysFailNone | src/pokemon_tcg_simulate/simulation.py:19 | the sort raises nothing exactly when every key can be computed |
| Policy.FirstRemainingAt | src/pokemon_tcg_simulate/simulation.py:19-21 | the loop stops at the first collection with something remaining and returns its first missing card |
| Policy.FirstRemainingNone | src/pokemon_tcg_simulate/simulation.py:19-21 | the loop finds nothing exactly when nothing remains anywhere |
| Policy.PickLeastKey | src/pokemon_tcg_simulate/simulation.py:18-21 | the pick is the first missing card of a collection with something remaining whose key is least among them |
| Policy.PickNothing | src/pokemon_tcg_simulate/simulation.py:18-21 | `None` exactly when every key computes and nothing remains |
| Policy.MostExpensivePicksHighestCost | src/pokemon_tcg_simulate/simulation.py:18-25 | the `most_expensive` key picks a collection of highest cost among those with something remaining |
| Policy.RarestPicksLeastRate | src/pokemon_tcg_simulate/simulation.py:18-35 | the `rarest(v)` key picks a collection with the least ratio of highest rate to card count for `v` |
| Policy.BuyFirst | src/pokemon_tcg_simulate/simulation.py:40-46 | the first purchase on a plain collection succeeds and shortens the missing list by its head |
| Policy.BuyAllStep | src/pokemon_tcg_simulate/simulation.py:40-46 | a paid, successful purchase continues with the rest at the lower balance |
| Policy.BuyAllPlain | src/pokemon_tcg_simulate/simulation.py:40-46 | with points for all of them, every missing card is bought in order and exactly their price is spent |
| Policy.BuyAllShort | src/pokemon_tcg_simulate/simulation.py:40-46 | short of points, the affordable prefix is bought, then `RuntimeError` with less than a card's cost left |
| Policy.AllBuyPaid | src/pokemon_tcg_simulate/simulation.py:40-46 | with points for all of them, purchases that each go through are all made, in order, and exactly their price is spent |
| Policy.AllBuyShort | src/pokemon_tcg_simulate/simulation.py:40-46 | with purchases that each go through but points (not in debt) for fewer than all of them, the loop raises `RuntimeError` |
| Policy.GoalBuys | src/pokemon_tcg_simulate/collection.py:64-80 | buying, in turn, cards that have buckets from a mission collection: every purchase goes through, each card gains exactly the copies bought, they are recorded in order, and `completed_at` is set at most once |
| Policy.BuyAllGoalOut | src/pokemon_tcg_simulate/simulation.py:40-46 | with points for all of them, the inner loop buys every copy a mission collection is missing, in `iter_missing` order, spends exactly their price and leaves nothing missing |
| Policy.BuyOut | src/pokemon_tcg_simulate/simulation.py:40-46 | for a plain or a mission collection with points for what it is missing: every missing card is bought, exactly their price is spent and nothing remains |
| Policy.BuyShort | src/pokemon_tcg_simulate/simulation.py:40-46 | for a plain or a mission collection, short of the price of what it is missing and not in debt, the inner loop raises `RuntimeError` |
| Policy.BuyRemainingOut | src/pokemon_tcg_simulate/simulation.py:38-47 | with points for every collection, each one from the start position on is cleared out in order, those before it are untouched, and exactly the total price is spent |
| Policy.BuyRemainingPaysExactly | src/pokemon_tcg_simulate/simulation.py:38-51 | on plain and mission collections, given at least `required_pack_points`, it does not raise, returns the points less them and leaves nothing remaining |
| Policy.BuyRemainingShort | src/pokemon_tcg_simulate/simulation.py:38-47 | short of the total price and not in debt, it raises `RuntimeError` |
| Policy.BuyRemainingRaises | src/pokemon_tcg_simulate/simulation.py:38-51 | on plain and mission collections, given fewer than `required_pack_points` and not in debt, it raises `RuntimeError` |
| Policy.ZeroLoadedBuyRemainingRaises | src/pokemon_tcg_simulate/simulation.py:38-51 | a plain collection loaded with 0 copies of its first card: `required_pack_points` asks for one card's price while two cards are missing, and `buy_remaining` given exactly that raises `RuntimeError` |
| Simulation.Without | src/pokemon_tcg_simulate/simulation.py:73 | the filtered deque drops every `ANY` and keeps every other variant as often as listed |
| Simulation.InitialVariants | src/pokemon_tcg_simulate/simulation.py:69-73 | `[ANY]` is kept as is; otherwise `ANY` is dropped and the rest kept, unchanged when `ANY` is absent |
| Simulation.RotateKeeps | src/pokemon_tcg_simulate/simulation.py:79 | `rotate(-1)` keeps every variant and moves the front one last |
| Simulation.TurnsRounds | src/pokemon_tcg_simulate/simulation.py:78-80 | whole rounds of `next` bring the deque back to where it was |
| Simulation.TurnsCycle | src/pokemon_tcg_simulate/simulation.py:78-80 | after `q` rounds and `r` more calls the deque starts at position `r`: round-robin |
| Simulation.RemoveFirst | src/pokemon_tcg_simulate/simulation.py:82-84 | `remove` behind `if v in`: no change when absent, else one occurrence fewer |
| Simulation.RemoveFirstKeepsOrder | src/pokemon_tcg_simulate/simulation.py:82-84 | exactly the first occurrence is deleted, the rest stay in order |
| Simulation.VariantIterator.constructor | src/pokemon_tcg_simulate/simulation.py:69-73 | the filtering loop builds the deque `Initial` describes |
| Simulation.VariantIterator.Next | src/pokemon_tcg_simulate/simulation.py:78-80 | returns the former front and rotates; an empty deque raises `IndexError` |
| Simulation.VariantIterator.Remove | src/pokemon_tcg_simulate/simulation.py:82-84 | the search loop removes the first occurrence as `RemoveFirst` |
| Simulation.BuyRemaining | src/pokemon_tcg_simulate/simulation.py:38-47 | the nested loop over the mutable collection computes `BuyRemainingFrom` |
| Simulation.BuyEach | src/pokemon_tcg_simulate/simulation.py:40-46 | the inner loop on one collection computes `BuyAll` and changes only that collection |
| Simulation.AutoBuy | src/pokemon_tcg_simulate/simulation.py:105-108 | points are assigned only when `buy_remaining` returns |
| Simulation.CapBuy | src/pokemon_tcg_simulate/simulation.py:110-114 | the cap purchase as `CapBuySpec` |
| Simulation.Purchase | src/pokemon_tcg_simulate/simulation.py:104-114 | the `buy_cards` block as `PurchaseSpec` |
| Simulation.OpenPack | src/pokemon_tcg_simulate/simulation.py:99-102 | one more opened, five more points, pulls added with the new `opened` |
| Simulation.Latch | src/pokemon_tcg_simulate/simulation.py:116-117 | the `all_common_at` latch as `LatchSpec` |
| Simulation.Checks | src/pokemon_tcg_simulate/simulation.py:119-126 | the termination checks and variant retirement as `ChecksSpec` |
| Simulation.Step | src/pokemon_tcg_simulate/simulation.py:93-126 | one iteration over the mutable collection and iterator as `StepSpec` |
| Simulation.Simulate | src/pokemon_tcg_simulate/simulation.py:87-128 | the loop over the supplied packs as `SimulateSpec` |
| Simulation.PurchaseKeeps | src/pokemon_tcg_simulate/simulation.py:104-114 | purchases leave `opened` and `all_common_at` alone |
| Simulation.StepOpensOne | src/pokemon_tcg_simulate/simulation.py:93-99 | an iteration opens exactly one pack; with no variant it raises `IndexError` first |
| Simulation.StepPoints | src/pokemon_tcg_simulate/simulation.py:99-106 | without buying, points rise by exactly 5; with buying, purchases start from points plus 5 |
| Simulation.AutoBuyClears | src/pokemon_tcg_simulate/simulation.py:105-108 | when points cover what is needed, every plain or mission collection is cleared out and exactly the needed points are spent |
| Simulation.AutoBuyOnlyWhenCovered | src/pokemon_tcg_simulate/simulation.py:104-114 | short of the needed points, the only purchase is the one at the cap, and only at exactly 2500 with something incomplete |
| Simulation.CapBuysOne | src/pokemon_tcg_simulate/simulation.py:110-114 | a cap purchase that goes through buys exactly the picked card and pays its cost |
| Simulation.CapBuysRarest | src/pokemon_tcg_simulate/simulation.py:110-114 | the card bought at the cap comes from a collection with the least rate-per-card ratio for the variant |
| Simulation.StepLatch | src/pokemon_tcg_simulate/simulation.py:116-117 | `all_common_at` is latched once, to the new `opened`, when every common rarity is complete |
| Simulation.StepStops | src/pokemon_tcg_simulate/simulation.py:119-126 | an iteration breaks exactly when everything is complete or `max_opened` is reached |
| Simulation.StepRetires | src/pokemon_tcg_simulate/simulation.py:122-123 | the variant is retired exactly when complete; the rest keep turn order |
| Simulation.ChecksKeepAny | src/pokemon_tcg_simulate/simulation.py:122-123 | `ANY` as the only variant is never retired while a plain collection has shared cards |
| Simulation.AnyOnlyNeverRetired | src/pokemon_tcg_simulate/simulation.py:122-123 | the same across a whole iteration |
| Simulation.SimulateBounded | src/pokemon_tcg_simulate/simulation.py:93-126 | one pack per iteration, all of them when the loop does not break, never past `max_opened` |
| Simulation.SimulateKeepsLatch | src/pokemon_tcg_simulate/simulation.py:116-117 | a latched `all_common_at` never changes; one latched on the way is at most the final `opened` |

## Left out

- Randomness: `random.random`, `randint`, `choices` and `rare_booster` become parameters (the draws). Each iteration of `simulate` receives its pack's pulls instead of opening one.
- The packs `simulate` receives are already (rarity, (variant, index)) pulls, the form `Collection.add` unpacks. The expansion's openers produce (rarity, flat index) pairs, which `RarityCollection.add` cannot unpack; the model does not connect the two.
- `simulate` with `max_opened=None` may loop forever. The model's loop is bounded by the supplied packs, and running out of them reports `Continue`.
- Floating point: rates and ratios are exact reals, so the model has no rounding. `_pick`'s retry after a draw above every table entry is returned as "nothing" for the caller to redraw, not as the unbounded recursion.
- Integer `counts` for a rarity (the `isinstance(counts, int)` branch of `RarityCollection.__post_init__`): rarity counts are always a dict here.
- `buy_remaining` reads each collection's `iter_missing()` lazily. The model takes the list when that collection's turn comes, which is the same for plain collections (`Bookkeeping.PlainMissingTail`). A mission whose goal names a tag without a bucket raises `KeyError` before that collection's first purchase here, rather than after.
- `Collection.from_json` with two rarities of the same name: the dict keeps the last one at the first one's position. The model keeps both entries.
- Policy.BuyRemainingRaises: stated for a non-negative balance. In debt with nothing missing, `buy_remaining` buys nothing and does not raise.
- Policy.BuyRemainingPaysExactly: stated for accurate `unique` counters on plain collections. A state loaded with a 0 in a per-card list breaks them; then the points are not enough (see Findings, `Policy.ZeroLoadedBuyRemainingRaises`).
- Policy.RequiredIsMissingCost: stated for accurate `unique` counters on plain collections, for the same reason.
- Simulation.AutoBuyClears: stated for accurate `unique` counters on plain collections, for the same reason.
- Bookkeeping.PlainRemainingIsMissing: stated for accurate `unique` counters. With a 0 loaded, `remaining()` is lower than the number of missing cards (see Findings).
- Bookkeeping.RemainingAnyNeverZero: stated for accurate `unique` counters, for the same reason.
- Policy.AnyNeverCompleted: stated for accurate `unique` counters, for the same reason.
- Simulation.ChecksKeepAny: stated for accurate `unique` counters, for the same reason.
- Simulation.AnyOnlyNeverRetired: stated for accurate `unique` counters, for the same reason.
- Mission goals are a list of (tag, needs) entries here, where the source has a dict. The purchase lemmas for mission collections assume each tag appears once, as in a dict.
- `main.py`, `output.py`, `models.py`, the top-level scripts and the tests are not part of this model.

## Findings

The model keeps `add` and `count` as written, so that it follows the code. The lemmas that need the intended behaviour state it as a requirement: accurate `unique` counters (`Bookkeeping.AllConsistent`), which the corrected add keeps.

| source | as written | input that shows it | evidently intended | confidence | as-written member | corrected member |
|---|---|---|---|---|---|---|
| src/pokemon_tcg_simulate/collection.py:36-40 | `add(i, count)` raises `unique` whenever card `i` was not held, even when `count` is 0 | `Variant(1)`, then `add(0, 0)`: `unique` is 1 while no card is held | `unique` counts the cards held, so it rises only when a card becomes held | high, not executed | Bookkeeping.AddZeroBreaksUnique | Bookkeeping.AddHeldKeepsConsistent |
| src/pokemon_tcg_simulate/collection.py:102-115 | `load_initial_state` adds every listed count, 0 included, then latches `completed_at = 0` when `remaining()` is 0 | rarity `{ANY: 1}`, state `[0]`: `completed_at` is 0 while the card is missing | the latch is set only when every card is held | high, not executed | Bookkeeping.ZeroLoadedLatchesEarly | Bookkeeping.PlainRemainingIsMissing |
| src/pokemon_tcg_simulate/simulation.py:38-51 | `required_pack_points` counts from `unique` while `buy_remaining` buys every card `iter_missing()` yields | cost 70, rarity `{ANY: 2}`, state `[0]`, 70 points: `required_pack_points` is 70 and `buy_remaining` raises `RuntimeError` | given `required_pack_points`, `buy_remaining` buys everything missing | high, not executed | Policy.ZeroLoadedBuyRemainingRaises | Policy.BuyRemainingPaysExactly |
| src/pokemon_tcg_simulate/expansion.py:59-62 | `count(ANY)` adds the shared cards to themselves | rarity `{ANY: 3, "Pikachu": 5, "Charizard": 7}`: `count(ANY)` is 6, and `pick(ANY)` raises `KeyError` for draws 3 to 5 | `count(ANY)` is 3, as `tests/test_expansion.py:33-38` expects | high, not executed | Offering.CountExample | Offering.IntendedCountPicks |
