/** The offering model of `expansion.py`: rarities, the flat index layout of
    their cards, the per-slot cumulative rate tables and the rare-booster
    pools. Every random draw is a parameter. */
module Offering {
  import opened Common
  import Sorting

  /** One tier of cards. `counts` maps a variant tag to the number of cards
      exclusive to it; the `ANY` entry counts the cards every variant offers. */
  datatype Rarity = Rarity(
    name: string,
    cost: nat,
    offeringRate: seq<real>,
    counts: Counts,
    rare: bool,
    rareCounts: Option<Counts>)

  /** `rare_counts` after construction: a rare rarity without its own
      rare-booster counts uses its regular counts. */
  function RareCounts(r: Rarity): Option<Counts> {
    if r.rare && r.rareCounts.None? then Some(r.counts) else r.rareCounts
  }

  /** A Python dict has distinct keys. */
  predicate WellKeyed(c: Counts) {
    Distinct(Keys(c))
  }

  function AnyCount(c: Counts): nat {
    Get(c, ANY, 0)
  }

  /** The count an entry contributes to the exclusive blocks. */
  function Exclusive(e: (Tag, nat)): nat {
    if e.0 == ANY then 0 else e.1
  }

  /** Sum of the counts of the variant-exclusive entries of `c`. */
  function ExclusiveSum(c: Counts): nat {
    if c == [] then 0 else ExclusiveSum(c[..|c| - 1]) + Exclusive(c[|c| - 1])
  }

  /** `_offsets`: each exclusive key starts where the exclusive keys before
      it end; `ANY` has no entry. */
  function Offsets(c: Counts): map<Tag, nat> {
    if c == [] then map[]
    else
      var init := c[..|c| - 1];
      if c[|c| - 1].0 == ANY then Offsets(init)
      else Offsets(init)[c[|c| - 1].0 := ExclusiveSum(init)]
  }

  /** `_offsets`, the loop with a running offset. */
  method ComputeOffsets(counts: Counts) returns (offsets: map<Tag, nat>)
    ensures offsets == Offsets(counts)
  {
    offsets := map[];
    var offset := 0;
    for i := 0 to |counts|
      invariant offsets == Offsets(counts[..i])
      invariant offset == ExclusiveSum(counts[..i])
    {
      assert counts[..i + 1][..i] == counts[..i];
      var (k, v) := counts[i];
      if k == ANY {
        continue;
      }
      offsets := offsets[k := offset];
      offset := offset + v;
    }
    assert counts[..|counts|] == counts;
  }

  // ---------------------------------------------------------------------
  // Facts about the layout

  lemma {:induction false} GetLast(c: Counts, k: Tag)
    requires c != [] && WellKeyed(c)
    ensures Get(c, k, 0) == if c[|c| - 1].0 == k then c[|c| - 1].1 else Get(c[..|c| - 1], k, 0)
    ensures WellKeyed(c[..|c| - 1])
  {
    var n := |c|;
    InitKeys(c);
    if n > 1 {
      assert c[1..][..n - 2] == c[..n - 1][1..];
      GetLast(c[1..], k);
      TailKeys(c);
    }
  }

  lemma {:induction false} GetAbsent(c: Counts, k: Tag)
    requires k !in Keys(c)
    ensures Get(c, k, 0) == 0
  {
  }

  lemma {:induction false} SumValuesLast(c: Counts)
    requires c != []
    ensures SumValues(c) == SumValues(c[..|c| - 1]) + c[|c| - 1].1
  {
    if |c| > 1 {
      SumValuesLast(c[1..]);
      assert c[1..][..|c| - 2] == c[..|c| - 1][1..];
    }
  }

  /** A dict's total splits into its `ANY` entry and its exclusive entries. */
  lemma {:induction false} SumIsAnyPlusExclusive(c: Counts)
    requires WellKeyed(c)
    ensures SumValues(c) == AnyCount(c) + ExclusiveSum(c)
  {
    if c != [] {
      GetLast(c, ANY);
      SumValuesLast(c);
      SumIsAnyPlusExclusive(c[..|c| - 1]);
      if c[|c| - 1].0 == ANY {
        InitKeys(c);
        assert ANY !in Keys(c[..|c| - 1]);
        GetAbsent(c[..|c| - 1], ANY);
      }
    }
  }

  lemma {:induction false} ExclusiveSumMonotone(c: Counts, i: nat, j: nat)
    requires i <= j <= |c|
    ensures ExclusiveSum(c[..i]) <= ExclusiveSum(c[..j])
    decreases j - i
  {
    if i < j {
      ExclusiveSumMonotone(c, i, j - 1);
      assert c[..j][..j - 1] == c[..j - 1];
    }
  }

  /** `_offsets` has exactly the exclusive keys. */
  lemma {:induction false} OffsetsKeys(c: Counts)
    ensures forall k :: k in Offsets(c) <==> k in Keys(c) && k != ANY
  {
    if c != [] {
      var n := |c|;
      OffsetsKeys(c[..n - 1]);
      assert Keys(c) == Keys(c[..n - 1]) + [c[n - 1].0];
    }
  }

  /** `_offsets` gives the key at position `i` the sum of the exclusive
      counts before it. */
  lemma {:induction false} OffsetAt(c: Counts, i: nat)
    requires WellKeyed(c) && i < |c| && c[i].0 != ANY
    ensures c[i].0 in Offsets(c) && Offsets(c)[c[i].0] == ExclusiveSum(c[..i])
  {
    var n := |c|;
    var init := c[..n - 1];
    if i < n - 1 {
      InitKeys(c);
      assert init[i] == c[i] && init[..i] == c[..i];
      OffsetAt(init, i);
      assert c[i].0 != c[n - 1].0 by { assert Keys(c)[i] != Keys(c)[n - 1]; }
    } else {
      assert init == c[..i];
    }
  }

  /** Both facts about `_offsets`, for every position. */
  lemma OffsetsAt(c: Counts)
    requires WellKeyed(c)
    ensures forall k :: k in Offsets(c) <==> k in Keys(c) && k != ANY
    ensures forall i :: 0 <= i < |c| && c[i].0 != ANY ==>
      c[i].0 in Offsets(c) && Offsets(c)[c[i].0] == ExclusiveSum(c[..i])
  {
    OffsetsKeys(c);
    forall i | 0 <= i < |c| && c[i].0 != ANY
      ensures c[i].0 in Offsets(c) && Offsets(c)[c[i].0] == ExclusiveSum(c[..i])
    {
      OffsetAt(c, i);
    }
  }

  /** Consecutive exclusive blocks follow each other and stay below the total. */
  lemma BlocksOrdered(c: Counts, i: nat, j: nat)
    requires i < j <= |c|
    ensures ExclusiveSum(c[..i]) + Exclusive(c[i]) <= ExclusiveSum(c[..j])
  {
    assert c[..i + 1][..i] == c[..i];
    ExclusiveSumMonotone(c, i + 1, j);
  }

  /** Every offset below the exclusive total falls in some exclusive block. */
  lemma {:induction false} BlocksCover(c: Counts, x: nat)
    requires x < ExclusiveSum(c)
    ensures exists i :: (0 <= i < |c| && c[i].0 != ANY &&
      ExclusiveSum(c[..i]) <= x < ExclusiveSum(c[..i]) + c[i].1)
  {
    var n := |c|;
    var init := c[..n - 1];
    if x < ExclusiveSum(init) {
      BlocksCover(init, x);
      var i :| 0 <= i < |init| && init[i].0 != ANY &&
        ExclusiveSum(init[..i]) <= x < ExclusiveSum(init[..i]) + init[i].1;
      assert init[..i] == c[..i] && init[i] == c[i];
    } else {
      assert c[..n - 1] == init;
    }
  }

  /** The block `[offsets[k], offsets[k] + counts[k])` of an exclusive key
      lies within `[0, sum of exclusive counts)` ... */
  lemma OffsetBlockWithin(c: Counts, k: Tag)
    requires WellKeyed(c) && k in Offsets(c)
    ensures Offsets(c)[k] + Get(c, k, 0) <= ExclusiveSum(c)
  {
    OffsetsKeys(c);
    var i :| 0 <= i < |c| && c[i].0 == k;
    OffsetAt(c, i);
    GetAt(c, i);
    BlocksOrdered(c, i, |c|);
    assert c[..|c|] == c;
  }

  /** ... the blocks of two different keys do not overlap ... */
  lemma OffsetBlocksDisjoint(c: Counts, k: Tag, l: Tag)
    requires WellKeyed(c) && k in Offsets(c) && l in Offsets(c) && k != l
    ensures Offsets(c)[k] + Get(c, k, 0) <= Offsets(c)[l] || Offsets(c)[l] + Get(c, l, 0) <= Offsets(c)[k]
  {
    OffsetsKeys(c);
    var i :| 0 <= i < |c| && c[i].0 == k;
    var j :| 0 <= j < |c| && c[j].0 == l;
    OffsetAt(c, i);
    OffsetAt(c, j);
    GetAt(c, i);
    GetAt(c, j);
    if i < j { BlocksOrdered(c, i, j); } else { BlocksOrdered(c, j, i); }
  }

  /** ... and every exclusive offset lies in the block of some key. */
  lemma OffsetsCover(c: Counts, x: nat)
    requires WellKeyed(c) && x < ExclusiveSum(c)
    ensures exists k :: k in Offsets(c) && Offsets(c)[k] <= x < Offsets(c)[k] + Get(c, k, 0)
  {
    OffsetsAt(c);
    BlocksCover(c, x);
    var i :| 0 <= i < |c| && c[i].0 != ANY &&
      ExclusiveSum(c[..i]) <= x < ExclusiveSum(c[..i]) + c[i].1;
    GetAt(c, i);
    assert Offsets(c)[c[i].0] <= x < Offsets(c)[c[i].0] + Get(c, c[i].0, 0);
  }

  lemma {:induction false} GetAt(c: Counts, i: nat)
    requires WellKeyed(c) && i < |c|
    ensures Get(c, c[i].0, 0) == c[i].1
  {
    if i > 0 {
      TailKeys(c);
      assert c[1..][i - 1] == c[i];
      GetAt(c[1..], i - 1);
      assert c[0].0 != c[i].0 by { assert Keys(c)[0] != Keys(c)[i]; }
    }
  }

  /** An exclusive entry never exceeds the exclusive total. */
  lemma ExclusiveWithin(c: Counts, v: Tag)
    requires WellKeyed(c) && v != ANY
    ensures Get(c, v, 0) <= ExclusiveSum(c)
    ensures v in Offsets(c) ==> Offsets(c)[v] + Get(c, v, 0) <= ExclusiveSum(c)
  {
    OffsetsKeys(c);
    if v !in Keys(c) { GetAbsent(c, v); } else { OffsetBlockWithin(c, v); }
  }

  // ---------------------------------------------------------------------
  // Rarity queries

  /** `count(variant)`: with a variant, the `ANY` cards plus that variant's
      entry (so `count(ANY)` adds the `ANY` entry twice); without one, the
      sum of all entries. */
  function Count(r: Rarity, v: Option<Tag>): nat {
    if v.Some? then AnyCount(r.counts) + Get(r.counts, v.value, 0)
    else SumValues(r.counts)
  }

  /** The cards available under one exclusive variant are never more than
      the rarity's whole set, and the whole set is the `ANY` cards plus the
      exclusive blocks. */
  lemma CountVariantWithinTotal(r: Rarity, v: Tag)
    requires WellKeyed(r.counts) && v != ANY
    ensures Count(r, Some(v)) <= Count(r, None)
    ensures Count(r, None) == AnyCount(r.counts) + ExclusiveSum(r.counts)
  {
    SumIsAnyPlusExclusive(r.counts);
    ExclusiveWithin(r.counts, v);
  }

  /** `count(ANY)` adds the shared cards to themselves: for every rarity it
      is twice the number of shared cards (`count()` has them once, see
      `CountVariantWithinTotal`). */
  lemma CountAnyDoubles(r: Rarity)
    ensures Count(r, Some(ANY)) == 2 * AnyCount(r.counts)
  {
  }

  /** For the rarity `{ANY: 3, "Pikachu": 5, "Charizard": 7}` of
      `tests/test_expansion.py`, `count(ANY)` is 6 where the shared pool has
      3 cards and the test expects 3; the intended count gives 3, and both
      agree with the test's other expectations. */
  lemma CountExample(r: Rarity)
    requires r.counts == [(ANY, 3), ("Pikachu", 5), ("Charizard", 7)]
    ensures Count(r, Some(ANY)) == 6 && AnyCount(r.counts) == 3 && IntendedCount(r, Some(ANY)) == 3
    ensures Count(r, None) == 15 && Count(r, Some("Pikachu")) == 8 && Count(r, Some("Charizard")) == 10
    ensures IntendedCount(r, None) == 15 && IntendedCount(r, Some("Pikachu")) == 8
  {
    var c := r.counts;
    assert Lookup(c, ANY) == Some(3);
    assert c[1..] == [("Pikachu", 5), ("Charizard", 7)];
    assert c[1..][1..] == [("Charizard", 7)];
    assert Lookup(c, "Pikachu") == Some(5);
    assert Lookup(c[1..][1..], "Charizard") == Some(7);
    assert Lookup(c, "Charizard") == Some(7);
    assert SumValues(c[1..][1..]) == 7;
    assert SumValues(c[1..]) == 12;
  }

  /** `count` as its callers intend it: under `ANY`, the shared cards once. */
  function IntendedCount(r: Rarity, v: Option<Tag>): nat {
    if v == Some(ANY) then AnyCount(r.counts) else Count(r, v)
  }

  /** With the intended count as the range of the draw, `pick` never fails
      on a non-empty range: under `ANY` every draw is a shared card as it
      is, and under a variant the draw is one `count` allows. */
  lemma IntendedCountPicks(r: Rarity, v: Tag, p: nat)
    requires WellKeyed(r.counts) && p < IntendedCount(r, Some(v))
    ensures IntendedCount(r, Some(v)) <= Count(r, Some(v))
    ensures Pick(r, v, p).Ok? && Pick(r, v, p).value < Count(r, None)
    ensures v == ANY ==> Pick(r, v, p) == Ok(p)
  {
    PickMapping(r, v, p);
  }

  /** `pick(variant)` with the draw `p` of `randint(0, count(variant) - 1)`:
      a draw in the shared range stays, a larger one is shifted by the
      variant's offset; the result is a flat index, not a (tag, index) pair. */
  function Pick(r: Rarity, v: Tag, p: nat): Result<nat>
    requires Count(r, Some(v)) > 0 ==> p < Count(r, Some(v))
  {
    if Count(r, Some(v)) == 0 then Err(ValueError)
    else if p >= AnyCount(r.counts) then
      var offsets := Offsets(r.counts);
      if v in offsets then Ok(p + offsets[v]) else Err(KeyError)
    else Ok(p)
  }

  /** The index mapping of `pick`: shared draws are returned unchanged, an
      exclusive draw lands in the variant's block shifted past the shared
      cards, and every result indexes the rarity's whole set. The only
      failures are an empty range and a draw past the shared cards under
      `ANY`, whose offset does not exist. */
  lemma PickMapping(r: Rarity, v: Tag, p: nat)
    requires WellKeyed(r.counts)
    requires Count(r, Some(v)) > 0 ==> p < Count(r, Some(v))
    ensures Pick(r, v, p).Err? <==> Count(r, Some(v)) == 0 || (v == ANY && p >= AnyCount(r.counts))
    ensures p < AnyCount(r.counts) ==> Pick(r, v, p) == Ok(p)
    ensures Pick(r, v, p).Ok? && p >= AnyCount(r.counts) ==>
      v in Offsets(r.counts) &&
      AnyCount(r.counts) + Offsets(r.counts)[v] <= Pick(r, v, p).value
        < AnyCount(r.counts) + Offsets(r.counts)[v] + Get(r.counts, v, 0)
    ensures Pick(r, v, p).Ok? ==> Pick(r, v, p).value < Count(r, None)
  {
    var c := r.counts;
    OffsetsAt(c);
    SumIsAnyPlusExclusive(c);
    if Count(r, Some(v)) > 0 && p >= AnyCount(c) && v != ANY {
      assert Get(c, v, 0) > 0;
      if v !in Keys(c) { GetAbsent(c, v); }
      ExclusiveWithin(c, v);
    }
  }

  /** `range(start, start + n)` */
  function Block(start: nat, n: nat): (r: seq<nat>)
    ensures |r| == n && forall j :: 0 <= j < n ==> r[j] == start + j
  {
    seq(n, j => start + j)
  }

  /** `iter_rare_cards(variant)`: nothing for a rarity outside rare boosters;
      otherwise the shared rare cards, then the variant's exclusive rare
      block. Looking up the variant's offset fails for `ANY` and for tags
      without an exclusive rare entry. */
  function IterRareCards(r: Rarity, v: Tag): Result<seq<nat>> {
    if !r.rare then Ok([])
    else
      var rc := RareCounts(r).value;
      var any := AnyCount(rc);
      var offsets := Offsets(rc);
      if v !in offsets then Err(KeyError)
      else Ok(Range(any) + Block(any + offsets[v], Get(rc, v, 0)))
  }

  /** A rarity that is not rare has no rare-booster cards; a rare one uses
      its own rare-booster counts or else its regular counts, and fails
      only for `ANY` or a variant it does not list. */
  lemma IterRareCardsOk(r: Rarity, v: Tag)
    ensures !r.rare ==> IterRareCards(r, v) == Ok([])
    ensures r.rare ==> RareCounts(r) == (if r.rareCounts.Some? then r.rareCounts else Some(r.counts))
    ensures r.rare ==> (IterRareCards(r, v).Ok? <==> v != ANY && v in Keys(RareCounts(r).value))
  {
    if r.rare {
      OffsetsKeys(RareCounts(r).value);
    }
  }

  /** The rare-booster cards of a variant are the shared rare cards followed
      by the variant's block, in increasing order, all within the rare set. */
  lemma IterRareCardsShape(r: Rarity, v: Tag)
    requires r.rare && WellKeyed(RareCounts(r).value) && IterRareCards(r, v).Ok?
    ensures var rc := RareCounts(r).value;
      var cards := IterRareCards(r, v).value;
      |cards| == AnyCount(rc) + Get(rc, v, 0) &&
      (forall i :: 0 <= i < AnyCount(rc) ==> cards[i] == i) &&
      (forall i, j :: 0 <= i < j < |cards| ==> cards[i] < cards[j]) &&
      (forall i :: 0 <= i < |cards| ==> cards[i] < SumValues(rc))
  {
    var rc := RareCounts(r).value;
    SumIsAnyPlusExclusive(rc);
    OffsetBlockWithin(rc, v);
    RangeThenBlock(AnyCount(rc), Offsets(rc)[v], Get(rc, v, 0));
  }

  /** `0 .. any - 1` followed by `any + off .. any + off + n - 1` is
      increasing and stays below `any + off + n`. */
  lemma RangeThenBlock(any: nat, off: nat, n: nat)
    ensures var cards := Range(any) + Block(any + off, n);
      |cards| == any + n &&
      (forall i :: 0 <= i < any ==> cards[i] == i) &&
      (forall i, j :: 0 <= i < j < |cards| ==> cards[i] < cards[j]) &&
      (forall i :: 0 <= i < |cards| ==> cards[i] < any + off + n)
  {
    var cards := Range(any) + Block(any + off, n);
    assert forall i :: 0 <= i < |cards| ==> cards[i] == if i < any then i else i + off;
  }

  /** `iter_variant_cards(variant)`: the flat indices of the variant's
      exclusive block. For `ANY` the generator returns before yielding, so
      it yields nothing. */
  function IterVariantCards(r: Rarity, v: Tag): Result<seq<nat>> {
    if v == ANY then Ok([])
    else
      var offsets := Offsets(r.counts);
      if v !in offsets then Err(KeyError)
      else Ok(Block(AnyCount(r.counts) + offsets[v], Get(r.counts, v, 0)))
  }

  /** Each exclusive block lies past the shared cards and within the
      rarity's whole set ... */
  lemma IterVariantCardsWithin(r: Rarity, v: Tag)
    requires WellKeyed(r.counts) && IterVariantCards(r, v).Ok?
    ensures forall a :: 0 <= a < |IterVariantCards(r, v).value| ==>
      AnyCount(r.counts) <= IterVariantCards(r, v).value[a] < Count(r, None)
  {
    SumIsAnyPlusExclusive(r.counts);
    if v != ANY { OffsetBlockWithin(r.counts, v); }
  }

  /** ... and the blocks of two different variants share no index. */
  lemma IterVariantCardsDisjoint(r: Rarity, v: Tag, w: Tag)
    requires WellKeyed(r.counts) && v != w
    requires IterVariantCards(r, v).Ok? && IterVariantCards(r, w).Ok?
    ensures forall a, b :: 0 <= a < |IterVariantCards(r, v).value| && 0 <= b < |IterVariantCards(r, w).value| ==>
      IterVariantCards(r, v).value[a] != IterVariantCards(r, w).value[b]
  {
    if v != ANY && w != ANY { OffsetBlocksDisjoint(r.counts, v, w); }
  }

  // ---------------------------------------------------------------------
  // Cumulative rate tables and rarity selection

  function SumReal(xs: seq<real>): real {
    if xs == [] then 0.0 else SumReal(xs[..|xs| - 1]) + xs[|xs| - 1]
  }

  lemma {:induction false} SumRealFront(x: real, xs: seq<real>)
    ensures SumReal([x] + xs) == x + SumReal(xs)
  {
    if xs != [] {
      var n := |xs|;
      assert ([x] + xs)[..n] == [x] + xs[..n - 1];
      SumRealFront(x, xs[..n - 1]);
    }
  }

  /** `itertools.accumulate` started from `acc`: entry `i` is `acc` plus
      the sum of the first `i + 1` inputs. */
  function Accumulate(xs: seq<real>, acc: real): (r: seq<real>)
    ensures |r| == |xs|
    ensures forall i :: 0 <= i < |xs| ==> r[i] == acc + SumReal(xs[..i + 1])
  {
    if xs == [] then []
    else
      var rest := Accumulate(xs[1..], acc + xs[0]);
      var r := [acc + xs[0]] + rest;
      assert forall i :: 0 < i < |xs| ==> r[i] == acc + SumReal(xs[..i + 1]) by {
        forall i | 0 < i < |xs| ensures r[i] == acc + SumReal(xs[..i + 1]) {
          assert xs[..i + 1] == [xs[0]] + xs[1..][..i];
          SumRealFront(xs[0], xs[1..][..i]);
        }
      }
      assert xs[..1] == [] + [xs[0]];
      r
  }

  /** The rates of every rarity at one slot position. */
  function SlotRates(rs: seq<Rarity>, pos: nat): (r: seq<real>)
    requires forall x :: x in rs ==> pos < |x.offeringRate|
  {
    seq(|rs|, i requires 0 <= i < |rs| => rs[i].offeringRate[pos])
  }

  /** `_cum_prob`: for each of the 5 slots the running sum of the rarities'
      rates at that slot; a rate tuple shorter than 5 raises IndexError. */
  function CumTable(rs: seq<Rarity>): Result<seq<seq<real>>> {
    if forall x :: x in rs ==> 5 <= |x.offeringRate| then
      Ok(seq(5, p requires 0 <= p < 5 => Accumulate(SlotRates(rs, p), 0.0)))
    else Err(IndexError)
  }

  /** The loop of `_pick` from position `i`: the first table entry at or
      above the draw. */
  function SelectFrom(cum: seq<real>, draw: real, i: nat): (res: Option<nat>)
    requires i <= |cum|
    ensures res.Some? ==> (i <= res.value < |cum| && draw <= cum[res.value] &&
      forall j :: i <= j < res.value ==> cum[j] < draw)
    ensures res.None? ==> forall j :: i <= j < |cum| ==> cum[j] < draw
    decreases |cum| - i
  {
    if i == |cum| then None
    else if draw <= cum[i] then Some(i)
    else SelectFrom(cum, draw, i + 1)
  }

  /** Index of the rarity `_pick` chooses for the draw, or nothing when the
      draw is above every entry (the rounding case `_pick` retries). */
  function SelectRarity(cum: seq<real>, draw: real): Option<nat> {
    SelectFrom(cum, draw, 0)
  }

  predicate NonDecreasing(cum: seq<real>) {
    forall i, j :: 0 <= i <= j < |cum| ==> cum[i] <= cum[j]
  }

  /** Running sums of non-negative rates never decrease and never fall
      below the starting total. */
  lemma {:induction false} AccumulateNonDecreasing(xs: seq<real>, acc: real)
    requires forall i :: 0 <= i < |xs| ==> 0.0 <= xs[i]
    ensures NonDecreasing(Accumulate(xs, acc))
    ensures forall i :: 0 <= i < |xs| ==> acc <= Accumulate(xs, acc)[i]
  {
    if xs != [] {
      var rest := Accumulate(xs[1..], acc + xs[0]);
      AccumulateNonDecreasing(xs[1..], acc + xs[0]);
      var r := [acc + xs[0]] + rest;
      assert Accumulate(xs, acc) == r;
      forall i, j | 0 <= i <= j < |r| ensures r[i] <= r[j] {
        if j > 0 {
          assert r[j] == rest[j - 1];
        }
        if i > 0 {
          assert r[i] == rest[i - 1];
        }
      }
      forall i | 0 <= i < |r| ensures acc <= r[i] {
        if i > 0 {
          assert r[i] == rest[i - 1];
        }
      }
    }
  }

  lemma {:induction false} SelectFromFinds(cum: seq<real>, draw: real, k: nat, i: nat)
    requires k <= i < |cum| && draw <= cum[i]
    requires forall j :: k <= j < i ==> cum[j] < draw
    ensures SelectFrom(cum, draw, k) == Some(i)
    decreases i - k
  {
    if k < i {
      SelectFromFinds(cum, draw, k + 1, i);
    }
  }

  /** On a non-decreasing table, rarity `i` is chosen exactly when the draw
      lies in `(cum[i - 1], cum[i]]`, an interval as wide as its rate. */
  lemma SelectInterval(cum: seq<real>, draw: real, i: nat)
    requires NonDecreasing(cum)
    ensures SelectRarity(cum, draw) == Some(i) <==>
      i < |cum| && draw <= cum[i] && (i == 0 || cum[i - 1] < draw)
  {
    if i < |cum| && draw <= cum[i] && (i == 0 || cum[i - 1] < draw) {
      forall j | 0 <= j < i ensures cum[j] < draw {
        assert cum[j] <= cum[i - 1];
      }
      SelectFromFinds(cum, draw, 0, i);
    }
  }

  // ---------------------------------------------------------------------
  // Expansion

  /** A pull as `expansion.py` produces it: the rarity name and a flat index. */
  type FlatPull = (string, nat)

  /** The expansion with the tables its construction derives. */
  datatype Expansion = Expansion(
    name: string,
    variants: seq<Tag>,
    rarities: seq<Rarity>,
    cumProb: seq<seq<real>>,
    rareCards: map<Tag, seq<FlatPull>>)

  /** `(x.name, i) for i in iter_rare_cards(v)` for one rarity, or nothing
      when it is not a rare rarity. */
  function RarityPulls(x: Rarity, v: Tag): Result<seq<FlatPull>> {
    if !x.rare then Ok([])
    else match IterRareCards(x, v)
      case Err(e) => Err(e)
      case Ok(cards) => Ok(seq(|cards|, i requires 0 <= i < |cards| => (x.name, cards[i])))
  }

  /** The rare pool of a variant: the pulls of the rare rarities, in order. */
  function RarePool(rs: seq<Rarity>, v: Tag): (res: Result<seq<FlatPull>>)
    ensures res.Ok? <==> forall j :: 0 <= j < |rs| ==> RarityPulls(rs[j], v).Ok?
  {
    if rs == [] then Ok([])
    else
      var head :- RarityPulls(rs[0], v);
      var tail := RarePool(rs[1..], v);
      assert forall j :: 1 <= j < |rs| ==> rs[j] == rs[1..][j - 1];
      if tail.Err? then Err(tail.error) else Ok(head + tail.value)
  }

  /** The pulls of one rarity are its rare-booster cards under its name,
      and there are none when it is not rare. */
  lemma RarityPullsCards(x: Rarity, v: Tag)
    ensures RarityPulls(x, v).Ok? <==> !x.rare || IterRareCards(x, v).Ok?
    ensures RarityPulls(x, v).Ok? ==> forall p: FlatPull :: p in RarityPulls(x, v).value <==>
      x.rare && p.0 == x.name && p.1 in IterRareCards(x, v).value
  {
    if x.rare && IterRareCards(x, v).Ok? {
      var cards := IterRareCards(x, v).value;
      var ps := RarityPulls(x, v).value;
      assert |ps| == |cards| && forall k :: 0 <= k < |ps| ==> ps[k] == (x.name, cards[k]);
      forall p: FlatPull | p.0 == x.name && p.1 in cards ensures p in ps {
        var k :| 0 <= k < |cards| && cards[k] == p.1;
        assert ps[k] == p;
      }
    }
  }

  /** The pool of a non-empty list of rarities: the first rarity's pulls,
      then the pool of the rest. */
  lemma RarePoolCons(rs: seq<Rarity>, v: Tag)
    requires rs != [] && RarePool(rs, v).Ok?
    ensures RarityPulls(rs[0], v).Ok? && RarePool(rs[1..], v).Ok?
    ensures RarePool(rs, v).value == RarityPulls(rs[0], v).value + RarePool(rs[1..], v).value
  {
  }

  lemma InEitherPart<T>(a: seq<T>, b: seq<T>, x: T)
    ensures x in a + b <==> x in a || x in b
  {
  }

  /** `x` is a rare-booster card, under `v`, of one of the rare rarities. */
  predicate RareCardOf(rs: seq<Rarity>, v: Tag, x: FlatPull) {
    exists j :: 0 <= j < |rs| && rs[j].rare && rs[j].name == x.0 &&
      IterRareCards(rs[j], v).Ok? && x.1 in IterRareCards(rs[j], v).value
  }

  /** The pulls of each rarity, in order. */
  function PullLists(rs: seq<Rarity>, v: Tag): (ls: seq<seq<FlatPull>>)
    requires RarePool(rs, v).Ok?
    ensures |ls| == |rs| && forall j :: 0 <= j < |rs| ==> RarityPulls(rs[j], v) == Ok(ls[j])
  {
    seq(|rs|, j requires 0 <= j < |rs| => RarityPulls(rs[j], v).value)
  }

  /** The pool is the pulls of each rarity, concatenated in order. */
  lemma {:induction false} RarePoolFlat(rs: seq<Rarity>, v: Tag)
    requires RarePool(rs, v).Ok?
    ensures RarePool(rs, v).value == Flatten(PullLists(rs, v))
  {
    if rs != [] {
      RarePoolCons(rs, v);
      RarePoolFlat(rs[1..], v);
      var ls, tl := PullLists(rs, v), PullLists(rs[1..], v);
      assert ls[1..] == tl by {
        forall j | 0 <= j < |tl| ensures ls[1..][j] == tl[j] {
          assert rs[1..][j] == rs[j + 1];
        }
      }
    }
  }

  /** Every card of the pool is a rare-booster card of a rare rarity ... */
  lemma RarePoolSound(rs: seq<Rarity>, v: Tag, k: nat)
    requires RarePool(rs, v).Ok? && k < |RarePool(rs, v).value|
    ensures RareCardOf(rs, v, RarePool(rs, v).value[k])
  {
    RarePoolFlat(rs, v);
    var j, m := FlattenAt(PullLists(rs, v), k);
    RarityPullsCards(rs[j], v);
  }

  /** ... and every rare-booster card of every rare rarity is in the pool. */
  lemma RarePoolComplete(rs: seq<Rarity>, v: Tag, j: nat, i: nat)
    requires RarePool(rs, v).Ok? && j < |rs| && rs[j].rare
    requires IterRareCards(rs[j], v).Ok? && i in IterRareCards(rs[j], v).value
    ensures (rs[j].name, i) in RarePool(rs, v).value
  {
    RarityPullsCards(rs[j], v);
    RarePoolFlat(rs, v);
    FlattenHas(PullLists(rs, v), j, (rs[j].name, i));
  }

  /** The parts of a list of lists, joined in order. */
  function Flatten<T>(parts: seq<seq<T>>): seq<T> {
    if parts == [] then [] else parts[0] + Flatten(parts[1..])
  }

  /** Element `k` of the joined list is element `m` of part `j`. */
  lemma {:induction false} FlattenAt<T>(parts: seq<seq<T>>, k: nat) returns (j: nat, m: nat)
    requires k < |Flatten(parts)|
    ensures j < |parts| && m < |parts[j]| && Flatten(parts)[k] == parts[j][m]
  {
    var head, tail := parts[0], Flatten(parts[1..]);
    assert Flatten(parts) == head + tail;
    if k < |head| {
      j, m := 0, k;
    } else {
      var i;
      i, m := FlattenAt(parts[1..], k - |head|);
      j := i + 1;
    }
  }

  /** Every element of every part is in the joined list. */
  lemma {:induction false} FlattenHas<T>(parts: seq<seq<T>>, j: nat, x: T)
    requires j < |parts| && x in parts[j]
    ensures x in Flatten(parts)
  {
    InEitherPart(parts[0], Flatten(parts[1..]), x);
    if j > 0 {
      FlattenHas(parts[1..], j - 1, x);
    }
  }

  /** `_rare_cards`: the rare-booster pool of every listed variant. */
  function RarePools(rs: seq<Rarity>, vs: seq<Tag>): (res: Result<map<Tag, seq<FlatPull>>>)
    ensures res.Ok? ==> res.value.Keys == set v | v in vs
    ensures res.Ok? ==> forall v :: v in vs ==> RarePool(rs, v) == Ok(res.value[v])
    ensures res.Ok? <==> forall v :: v in vs ==> RarePool(rs, v).Ok?
  {
    if vs == [] then Ok(map[])
    else
      var rest := RarePools(rs, vs[1..]);
      assert forall v :: v in vs <==> v == vs[0] || v in vs[1..];
      match RarePool(rs, vs[0])
      case Err(e) => Err(e)
      case Ok(pool) =>
        match rest
        case Err(e) => Err(e)
        case Ok(m) => Ok(m[vs[0] := pool])
  }

  /** `Expansion.__post_init__`: derives the tables, raising what their
      construction raises. */
  function NewExpansion(name: string, variants: seq<Tag>, rarities: seq<Rarity>): Result<Expansion> {
    var cum :- CumTable(rarities);
    var pools :- RarePools(rarities, variants);
    Ok(Expansion(name, variants, rarities, cum, pools))
  }

  /** An expansion whose tables are the ones its construction derives. */
  predicate Built(e: Expansion) {
    NewExpansion(e.name, e.variants, e.rarities) == Ok(e)
  }

  /** The rare pools are listed for exactly the expansion's variants. */
  lemma BuiltPools(e: Expansion)
    requires Built(e)
    ensures forall v :: v in e.rareCards <==> v in e.variants
    ensures forall v :: v in e.variants ==> RarePool(e.rarities, v) == Ok(e.rareCards[v])
  {
    var pools := RarePools(e.rarities, e.variants);
    assert pools == Ok(e.rareCards);
  }

  /** Each slot table has one running-sum entry per rarity, in rarity order. */
  lemma BuiltTables(e: Expansion, pos: nat)
    requires Built(e) && pos < 5
    ensures |e.cumProb| == 5 && |e.cumProb[pos]| == |e.rarities|
    ensures forall i :: 0 <= i < |e.rarities| ==>
      e.cumProb[pos][i] == SumReal(SlotRates(e.rarities, pos)[..i + 1])
  {
  }

  /** The shape of the slot tables: five, one entry per rarity each. */
  predicate Tabled(e: Expansion) {
    |e.cumProb| == 5 && forall pos :: 0 <= pos < 5 ==> |e.cumProb[pos]| == |e.rarities|
  }

  lemma BuiltIsTabled(e: Expansion)
    requires Built(e)
    ensures Tabled(e)
  {
  }

  /** The draws of one slot fit: `p` lies in the range of the rarity the
      draw `r` selects (when that range is not empty). */
  predicate SlotDrawFits(e: Expansion, pos: nat, v: Tag, r: real, p: nat)
    requires Tabled(e) && pos < 5
  {
    match SelectRarity(e.cumProb[pos], r)
    case None => true
    case Some(i) => Count(e.rarities[i], Some(v)) > 0 ==> p < Count(e.rarities[i], Some(v))
  }

  /** `_pick(pos, variant)` for the draws `r` (in [0, 100)) and `p`: the
      chosen rarity's name with its picked index; nothing when `r` is above
      every table entry, which `_pick` retries with a fresh draw. */
  function PickSlot(e: Expansion, pos: nat, v: Tag, r: real, p: nat): (res: Option<Result<FlatPull>>)
    requires Tabled(e) && pos < 5 && SlotDrawFits(e, pos, v, r, p)
    ensures res.None? <==> SelectRarity(e.cumProb[pos], r).None?
    ensures res.Some? ==> var i := SelectRarity(e.cumProb[pos], r).value;
      i < |e.rarities| && r <= e.cumProb[pos][i] &&
      match Pick(e.rarities[i], v, p)
      case Ok(c) => res.value == Ok((e.rarities[i].name, c))
      case Err(er) => res.value == Err(er)
  {
    match SelectRarity(e.cumProb[pos], r)
    case None => None
    case Some(i) =>
      var x := e.rarities[i];
      match Pick(x, v, p)
      case Ok(c) => Some(Ok((x.name, c)))
      case Err(er) => Some(Err(er))
  }

  /** Five pairs of draws, each fitting its slot. */
  predicate Drawable(e: Expansion, v: Tag, draws: seq<(real, nat)>) {
    Tabled(e) && |draws| == 5 && forall i :: 0 <= i < 5 ==> SlotDrawFits(e, i, v, draws[i].0, draws[i].1)
  }

  /** `open_regular(variant)`: five slots, slot `i` drawn from table `i` with
      the `i`-th pair of draws; the first slot that fails ends the pack. */
  function OpenRegular(e: Expansion, v: Tag, draws: seq<(real, nat)>): (res: Option<Result<seq<FlatPull>>>)
    requires Drawable(e, v, draws)
  {
    Combine(Slots(e, v, draws), 0)
  }

  /** What each of the five slots picks with its draws. */
  function Slots(e: Expansion, v: Tag, draws: seq<(real, nat)>): (ss: seq<Option<Result<FlatPull>>>)
    requires Drawable(e, v, draws)
    ensures |ss| == 5 && forall i :: 0 <= i < 5 ==> ss[i] == PickSlot(e, i, v, draws[i].0, draws[i].1)
  {
    seq(5, i requires 0 <= i < 5 && Drawable(e, v, draws) =>
      PickSlot(e, i, v, draws[i].0, draws[i].1))
  }

  /** The slots from `i` on, in order, stopping at the first that fails. */
  function Combine<T>(ss: seq<Option<Result<T>>>, i: nat): (res: Option<Result<seq<T>>>)
    requires i <= |ss|
    decreases |ss| - i
  {
    if i == |ss| then Some(Ok([]))
    else
      match ss[i]
      case None => None
      case Some(Err(er)) => Some(Err(er))
      case Some(Ok(x)) =>
        match Combine(ss, i + 1)
        case None => None
        case Some(Err(er)) => Some(Err(er))
        case Some(Ok(rest)) => Some(Ok([x] + rest))
  }

  lemma {:induction false} CombineOk<T>(ss: seq<Option<Result<T>>>, i: nat)
    requires i <= |ss| && Combine(ss, i).Some? && Combine(ss, i).value.Ok?
    ensures var xs := Combine(ss, i).value.value;
      |xs| == |ss| - i && forall j :: i <= j < |ss| ==> ss[j] == Some(Ok(xs[j - i]))
    decreases |ss| - i
  {
    if i < |ss| {
      CombineOk(ss, i + 1);
      var rest := Combine(ss, i + 1).value.value;
      var xs := [ss[i].value.value] + rest;
      assert Combine(ss, i).value.value == xs;
      forall j | i < j < |ss| ensures ss[j] == Some(Ok(xs[j - i])) {
        assert xs[j - i] == rest[j - (i + 1)];
      }
    }
  }

  /** All slots combined: a full list of their values, or a retry caused by
      one of them. */
  lemma CombineFacts<T>(ss: seq<Option<Result<T>>>)
    ensures Combine(ss, 0).Some? && Combine(ss, 0).value.Ok? ==>
      var xs := Combine(ss, 0).value.value;
      |xs| == |ss| && forall i :: 0 <= i < |ss| ==> ss[i] == Some(Ok(xs[i]))
    ensures Combine(ss, 0).None? ==> exists i :: 0 <= i < |ss| && ss[i].None?
  {
    if Combine(ss, 0).None? {
      CombineRetry(ss, 0);
    } else if Combine(ss, 0).value.Ok? {
      CombineOk(ss, 0);
    }
  }

  lemma {:induction false} CombineRetry<T>(ss: seq<Option<Result<T>>>, i: nat)
    requires i <= |ss| && Combine(ss, i).None?
    ensures exists j :: i <= j < |ss| && ss[j].None?
    decreases |ss| - i
  {
    if ss[i].Some? {
      CombineRetry(ss, i + 1);
    }
  }

  /** A regular pack that opens has five pulls, pull `i` being what slot
      `i` picks; a pack is only retried when some slot's draw misses every
      table entry. */
  lemma OpenRegularSlots(e: Expansion, v: Tag, draws: seq<(real, nat)>)
    requires Drawable(e, v, draws)
    ensures OpenRegular(e, v, draws).Some? && OpenRegular(e, v, draws).value.Ok? ==>
      var pulls := OpenRegular(e, v, draws).value.value;
      |pulls| == 5 && forall i :: 0 <= i < 5 ==> Slots(e, v, draws)[i] == Some(Ok(pulls[i]))
    ensures OpenRegular(e, v, draws).None? ==> exists i :: 0 <= i < 5 && Slots(e, v, draws)[i].None?
  {
    CombineFacts(Slots(e, v, draws));
  }

  /** `open_rare(variant)`: five cards chosen, with replacement, from the
      variant's rare pool by the indices `choices`. */
  function OpenRare(e: Expansion, v: Tag, choices: seq<nat>): Result<seq<FlatPull>>
    requires Built(e) && |choices| == 5
    requires v in e.rareCards ==> forall k :: 0 <= k < 5 ==>
      (|e.rareCards[v]| > 0 ==> choices[k] < |e.rareCards[v]|)
  {
    if v !in e.rareCards then Err(KeyError)
    else
      var pool := e.rareCards[v];
      if pool == [] then Err(IndexError)
      else Ok(seq(5, k requires 0 <= k < 5 => pool[choices[k]]))
  }

  /** A rare booster holds five cards, each a rare-booster card of a rare
      rarity under the variant; it fails only for an unlisted variant or an
      empty pool. */
  lemma OpenRareCards(e: Expansion, v: Tag, choices: seq<nat>)
    requires Built(e) && |choices| == 5
    requires v in e.rareCards ==> forall k :: 0 <= k < 5 ==>
      (|e.rareCards[v]| > 0 ==> choices[k] < |e.rareCards[v]|)
    ensures OpenRare(e, v, choices).Err? <==> v !in e.variants || RarePool(e.rarities, v) == Ok([])
    ensures OpenRare(e, v, choices).Ok? ==> var pulls := OpenRare(e, v, choices).value;
      |pulls| == 5 && forall k :: 0 <= k < 5 ==> RareCardOf(e.rarities, v, pulls[k])
  {
    BuiltPools(e);
    if v in e.rareCards {
      var pool := e.rareCards[v];
      assert RarePool(e.rarities, v) == Ok(pool);
      if pool != [] {
        var pulls := OpenRare(e, v, choices).value;
        forall k | 0 <= k < 5 ensures RareCardOf(e.rarities, v, pulls[k]) {
          assert pulls[k] == RarePool(e.rarities, v).value[choices[k]];
          RarePoolSound(e.rarities, v, choices[k]);
        }
      }
    }
  }

  /** `from_json`'s sort key: `-cost`. */
  function NegCost(x: Rarity): real {
    -(x.cost as real)
  }

  /** `Expansion.from_json`: the rarities sorted by descending cost. */
  function FromJson(name: string, variants: seq<Tag>, rarities: seq<Rarity>): Result<Expansion> {
    NewExpansion(name, variants, Sorting.SortBy(rarities, NegCost))
  }

  /** `from_json` orders rarities by non-increasing cost, keeps every one of
      them, and keeps input order among rarities of equal cost. */
  lemma FromJsonOrder(name: string, variants: seq<Tag>, rarities: seq<Rarity>)
    requires FromJson(name, variants, rarities).Ok?
    ensures var rs := FromJson(name, variants, rarities).value.rarities;
      (forall i, j :: 0 <= i < j < |rs| ==> rs[i].cost >= rs[j].cost) &&
      multiset(rs) == multiset(rarities) &&
      forall c: real :: Sorting.WithKey(rs, NegCost, c) == Sorting.WithKey(rarities, NegCost, c)
  {
    Sorting.SortByOrdersAndPermutes(rarities, NegCost);
    forall c: real ensures Sorting.WithKey(Sorting.SortBy(rarities, NegCost), NegCost, c)
      == Sorting.WithKey(rarities, NegCost, c)
    {
      Sorting.SortByIsStable(rarities, NegCost, c);
    }
  }
}
