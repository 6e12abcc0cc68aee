/** The bookkeeping of `collection.py` as values: a variant bucket, the
    goal of a mission, and the state of one rarity's collection, with the
    queries and updates the classes in `Tracking` are proved against. */
module Bookkeeping {
  import opened Common
  import Offering

  /** A card as `collection.py` names it: a variant tag and an index into
      that variant's bucket. */
  type Pull = (Tag, nat)

  // ---------------------------------------------------------------------
  // Variant

  /** The state of a `Variant`: copies held per card, the `unique` and
      `total` counters. */
  datatype Bucket = Bucket(cells: seq<nat>, unique: nat, total: nat)

  function NewBucket(size: nat): (b: Bucket)
    ensures |b.cells| == size && b.unique == 0 && b.total == 0
    ensures forall i :: 0 <= i < size ==> b.cells[i] == 0
  {
    Bucket(seq(size, _ => 0), 0, 0)
  }

  /** `Variant.add(i, c)`. */
  function BucketAdd(b: Bucket, i: nat, c: nat): Bucket
    requires i < |b.cells|
  {
    Bucket(b.cells[i := b.cells[i] + c],
           if b.cells[i] == 0 then b.unique + 1 else b.unique,
           b.total + 1)
  }

  /** Number of cards held at least once. */
  function CountPositive(cells: seq<nat>): (n: nat)
    ensures n <= |cells|
  {
    if cells == [] then 0
    else (if cells[0] > 0 then 1 else 0) + CountPositive(cells[1..])
  }

  /** `unique` counts exactly the cards held. */
  predicate Consistent(b: Bucket) {
    b.unique == CountPositive(b.cells)
  }

  /** `Variant.add(i, c)` adds `c` copies of card `i` and leaves the other
      cards alone; `unique` rises by one exactly when card `i` was not held,
      and `total` rises by one whatever `c` is. */
  lemma AddCounters(b: Bucket, i: nat, c: nat)
    requires i < |b.cells|
    ensures var r := BucketAdd(b, i, c);
      |r.cells| == |b.cells| && r.cells[i] == b.cells[i] + c &&
      (forall j :: 0 <= j < |b.cells| && j != i ==> r.cells[j] == b.cells[j]) &&
      (r.unique == b.unique + 1 <==> b.cells[i] == 0) &&
      (r.unique == b.unique <==> b.cells[i] > 0) &&
      r.total == b.total + 1
  {
  }

  lemma {:induction false} CountPositiveUpdate(cells: seq<nat>, i: nat, x: nat)
    requires i < |cells|
    ensures CountPositive(cells[i := x]) + (if cells[i] > 0 then 1 else 0)
      == CountPositive(cells) + (if x > 0 then 1 else 0)
  {
    if i > 0 {
      CountPositiveUpdate(cells[1..], i - 1, x);
      assert cells[i := x][1..] == cells[1..][i - 1 := x];
    } else {
      assert cells[i := x][1..] == cells[1..];
    }
  }

  /** Adding at least one copy keeps `unique` equal to the number of cards
      held. */
  lemma AddKeepsConsistent(b: Bucket, i: nat, c: nat)
    requires i < |b.cells| && Consistent(b) && c >= 1
    ensures Consistent(BucketAdd(b, i, c))
  {
    CountPositiveUpdate(b.cells, i, b.cells[i] + c);
  }

  /** Adding zero copies of a card not held raises `unique` although the
      card is still not held: from accurate counters, `unique` no longer
      counts the cards held. */
  lemma AddZeroBreaksUnique(b: Bucket, i: nat)
    requires i < |b.cells| && Consistent(b) && b.cells[i] == 0
    ensures BucketAdd(b, i, 0).cells == b.cells
    ensures !Consistent(BucketAdd(b, i, 0))
  {
  }

  /** `Variant.add(i, c)` as its counters mean it: `unique` rises only when
      the card goes from not held to held. */
  function BucketAddHeld(b: Bucket, i: nat, c: nat): Bucket
    requires i < |b.cells|
  {
    Bucket(b.cells[i := b.cells[i] + c],
           if b.cells[i] == 0 && c > 0 then b.unique + 1 else b.unique,
           b.total + 1)
  }

  /** The corrected add keeps `unique` equal to the number of cards held
      whatever the count, and agrees with `add` for a count of at least one. */
  lemma AddHeldKeepsConsistent(b: Bucket, i: nat, c: nat)
    requires i < |b.cells| && Consistent(b)
    ensures Consistent(BucketAddHeld(b, i, c))
    ensures c >= 1 ==> BucketAddHeld(b, i, c) == BucketAdd(b, i, c)
  {
    CountPositiveUpdate(b.cells, i, b.cells[i] + c);
  }

  lemma {:induction false} NoneHeld(cells: seq<nat>)
    requires forall i :: 0 <= i < |cells| ==> cells[i] == 0
    ensures CountPositive(cells) == 0
  {
    if cells != [] {
      NoneHeld(cells[1..]);
    }
  }

  lemma {:induction false} CountPositiveAll(cells: seq<nat>)
    ensures CountPositive(cells) == |cells| <==> forall i :: 0 <= i < |cells| ==> cells[i] > 0
  {
    if cells != [] {
      CountPositiveAll(cells[1..]);
      if forall i :: 0 <= i < |cells| - 1 ==> cells[1..][i] > 0 {
        assert forall i :: 1 <= i < |cells| ==> cells[i] == cells[1..][i - 1];
      }
    }
  }

  /** With `unique` consistent, `len(v)` is at most the size and `completed`
      holds exactly when every card is held. */
  lemma CompletedIsAllHeld(b: Bucket)
    requires Consistent(b)
    ensures b.unique <= |b.cells|
    ensures b.unique == |b.cells| <==> forall i :: 0 <= i < |b.cells| ==> b.cells[i] > 0
  {
    CountPositiveAll(b.cells);
  }

  // ---------------------------------------------------------------------
  // Amounts, goals and initial states

  /** A per-tag amount: an int `n`, or a list with one entry per card. */
  datatype Amount = Copies(n: nat) | PerCard(nums: seq<nat>)

  /** A mission or initial state: a bare amount (meaning `{ANY: amount}`)
      or a dict from tag to amount. */
  datatype Layout = Flat(amount: Amount) | ByTag(amounts: Dict<Amount>)

  /** `{ANY: x}` for a bare amount. */
  function Spread(l: Layout): Dict<Amount> {
    match l
    case Flat(a) => [(ANY, a)]
    case ByTag(d) => d
  }

  /** A mission goal: the copies needed of each card, per tag. */
  type Goal = Dict<seq<nat>>

  function Needs(a: Amount): (r: seq<nat>)
    ensures a.Copies? ==> |r| == a.n && forall i :: 0 <= i < a.n ==> r[i] == 1
    ensures a.PerCard? ==> r == a.nums
  {
    match a
    case Copies(n) => seq(n, _ => 1)
    case PerCard(nums) => nums
  }

  /** `MissionRarityCollection.__post_init__`'s rewriting of the mission:
      a bare amount goes under `ANY`, an int `n` becomes `n` ones. */
  function NormaliseGoal(l: Layout): (g: Goal)
    ensures Keys(g) == Keys(Spread(l))
    ensures forall i :: 0 <= i < |g| ==> g[i].1 == Needs(Spread(l)[i].1)
  {
    var d := Spread(l);
    seq(|d|, i requires 0 <= i < |d| => (d[i].0, Needs(d[i].1)))
  }

  function AsAmounts(g: Goal): Dict<Amount> {
    seq(|g|, i requires 0 <= i < |g| => (g[i].0, PerCard(g[i].1)))
  }

  /** The rewriting is done in place on the caller's mission dict, so a
      second collection built from the same mission sees the rewritten
      goal; rewriting it again changes nothing. */
  lemma NormaliseIdempotent(l: Layout)
    ensures NormaliseGoal(ByTag(AsAmounts(NormaliseGoal(l)))) == NormaliseGoal(l)
  {
    var g := NormaliseGoal(l);
    var g2 := NormaliseGoal(ByTag(AsAmounts(g)));
    assert |g2| == |g|;
    forall i | 0 <= i < |g| ensures g2[i] == g[i] {
      assert Keys(g2)[i] == Keys(AsAmounts(g))[i];
    }
  }

  // ---------------------------------------------------------------------
  // One rarity's collection

  /** The state of a `RarityCollection` (with `goal` set, of a
      `MissionRarityCollection`): its buckets in the order of
      `rarity.counts`, the cards bought and the completion latch. */
  datatype Tracker = Tracker(
    rarity: Offering.Rarity,
    goal: Option<Goal>,
    buckets: Dict<Bucket>,
    bought: seq<Pull>,
    completedAt: Option<nat>)

  /** One bucket per count entry, in the same order, sized by its count. */
  predicate Shaped(t: Tracker) {
    Offering.WellKeyed(t.rarity.counts) &&
    |t.buckets| == |t.rarity.counts| &&
    forall i :: 0 <= i < |t.buckets| ==>
      t.buckets[i].0 == t.rarity.counts[i].0 && |t.buckets[i].1.cells| == t.rarity.counts[i].1
  }

  predicate AllConsistent(d: Dict<Bucket>) {
    forall i :: 0 <= i < |d| ==> Consistent(d[i].1)
  }

  /** A new collection: an empty bucket per count entry and, for a mission,
      the rewritten goal. */
  function NewTracker(rarity: Offering.Rarity, mission: Option<Layout>): (t: Tracker)
    requires Offering.WellKeyed(rarity.counts)
    ensures Shaped(t) && AllConsistent(t.buckets)
    ensures t.bought == [] && t.completedAt.None?
    ensures |t.buckets| == |rarity.counts|
    ensures forall i :: 0 <= i < |rarity.counts| ==> t.buckets[i].1 == NewBucket(rarity.counts[i].1)
  {
    var c := rarity.counts;
    forall i | 0 <= i < |c| ensures Consistent(NewBucket(c[i].1)) {
      NoneHeld(NewBucket(c[i].1).cells);
    }
    var goal := match mission case None => None case Some(l) => Some(NormaliseGoal(l));
    Tracker(rarity, goal, seq(|c|, i requires 0 <= i < |c| => (c[i].0, NewBucket(c[i].1))), [], None)
  }

  // ---------------------------------------------------------------------
  // Counting

  /** `len(self.collected.get(k, []))` */
  function UniqueOf(d: Dict<Bucket>, k: Tag): nat {
    match Lookup(d, k)
    case Some(b) => b.unique
    case None => 0
  }

  function SumUnique(d: Dict<Bucket>): nat {
    if d == [] then 0 else d[0].1.unique + SumUnique(d[1..])
  }

  /** `RarityCollection.count(variant)`: the `ANY` bucket's `unique` for
      `ANY`, that plus the variant's for another non-empty tag, and the sum
      over all buckets without a tag. The variant is tested for truth, so
      the empty tag counts like no tag. */
  function Count(t: Tracker, v: Option<Tag>): nat {
    if v == Some(ANY) then UniqueOf(t.buckets, ANY)
    else if v.Some? && v.value != "" then UniqueOf(t.buckets, ANY) + UniqueOf(t.buckets, v.value)
    else SumUnique(t.buckets)
  }

  /** `(k, base + i)` for each card `i` not held, in increasing order. */
  function Zeros(k: Tag, cells: seq<nat>, base: nat): seq<Pull> {
    if cells == [] then []
    else (if cells[0] == 0 then [(k, base)] else []) + Zeros(k, cells[1..], base + 1)
  }

  /** `RarityCollection.iter_missing()`: the cards not held, bucket by bucket
      in count order. */
  function PlainMissing(d: Dict<Bucket>): seq<Pull> {
    if d == [] then [] else Zeros(d[0].0, d[0].1.cells, 0) + PlainMissing(d[1..])
  }

  lemma {:induction false} ZerosSize(k: Tag, cells: seq<nat>, base: nat)
    ensures |Zeros(k, cells, base)| + CountPositive(cells) == |cells|
  {
    if cells != [] {
      ZerosSize(k, cells[1..], base + 1);
    }
  }

  /** A bucket's missing cards are exactly its cards not held, each once, in
      increasing order. */
  lemma {:induction false} ZerosExact(k: Tag, cells: seq<nat>, base: nat)
    ensures forall m :: m in Zeros(k, cells, base) <==>
      m.0 == k && base <= m.1 < base + |cells| && cells[m.1 - base] == 0
    ensures forall i, j :: 0 <= i < j < |Zeros(k, cells, base)| ==>
      Zeros(k, cells, base)[i].1 < Zeros(k, cells, base)[j].1
  {
    if cells != [] {
      ZerosExact(k, cells[1..], base + 1);
      var z := Zeros(k, cells, base);
      var rest := Zeros(k, cells[1..], base + 1);
      assert forall m :: m in rest ==> base < m.1;
      forall m ensures m in z <==> m.0 == k && base <= m.1 < base + |cells| && cells[m.1 - base] == 0 {
        if m.0 == k && base < m.1 < base + |cells| {
          assert cells[m.1 - base] == cells[1..][m.1 - (base + 1)];
        }
      }
      forall i, j | 0 <= i < j < |z| ensures z[i].1 < z[j].1 {
        if cells[0] == 0 && i == 0 {
          assert z[j] in rest;
        }
      }
    }
  }

  /** `remaining(variant)`: the rarity's count less the collection's for a
      plain collection; the number of missing goal copies for a mission. */
  function Remaining(t: Tracker, v: Option<Tag>): Result<int> {
    match t.goal
    case None => Ok(Offering.Count(t.rarity, v) - Count(t, v))
    case Some(g) =>
      var missing :- GoalMissing(t.buckets, MissionEntries(g, v));
      Ok(|missing|)
  }

  /** `remaining_cost(variant)` */
  function RemainingCost(t: Tracker, v: Option<Tag>): Result<int> {
    var r :- Remaining(t, v);
    Ok(t.rarity.cost * r)
  }

  /** `iter_missing()` with no variant, whichever the class. */
  function Missing(t: Tracker): Result<seq<Pull>> {
    match t.goal
    case None => Ok(PlainMissing(t.buckets))
    case Some(g) => GoalMissing(t.buckets, g)
  }

  lemma {:induction false} SumsAligned(c: Counts, d: Dict<Bucket>)
    requires |c| == |d| && AllConsistent(d)
    requires forall i :: 0 <= i < |d| ==> |d[i].1.cells| == c[i].1
    ensures SumValues(c) == SumUnique(d) + |PlainMissing(d)|
  {
    if c != [] {
      SumsAligned(c[1..], d[1..]);
      ZerosSize(d[0].0, d[0].1.cells, 0);
    }
  }

  /** For a plain collection whose buckets are consistent, `remaining()` is
      the number of cards `iter_missing()` yields. */
  lemma PlainRemainingIsMissing(t: Tracker)
    requires t.goal.None? && Shaped(t) && AllConsistent(t.buckets)
    ensures Remaining(t, None) == Ok(|PlainMissing(t.buckets)|)
  {
    SumsAligned(t.rarity.counts, t.buckets);
  }

  /** `iter_missing()` yields exactly the `(tag, i)` whose card `i` is not
      held in the tag's bucket. */
  lemma {:induction false} PlainMissingExact(d: Dict<Bucket>, m: Pull)
    ensures m in PlainMissing(d) <==>
      exists j :: 0 <= j < |d| && d[j].0 == m.0 && m.1 < |d[j].1.cells| && d[j].1.cells[m.1] == 0
  {
    if d != [] {
      PlainMissingExact(d[1..], m);
      ZerosExact(d[0].0, d[0].1.cells, 0);
      if exists j :: 0 <= j < |d| && d[j].0 == m.0 && m.1 < |d[j].1.cells| && d[j].1.cells[m.1] == 0 {
        var j :| 0 <= j < |d| && d[j].0 == m.0 && m.1 < |d[j].1.cells| && d[j].1.cells[m.1] == 0;
        if j > 0 {
          assert d[1..][j - 1] == d[j];
        }
      }
      if m in PlainMissing(d[1..]) {
        var j :| 0 <= j < |d[1..]| && d[1..][j].0 == m.0 && m.1 < |d[1..][j].1.cells| && d[1..][j].1.cells[m.1] == 0;
        assert d[j + 1] == d[1..][j];
      }
    }
  }

  /** Under `ANY` the rarity counts its shared cards twice but the
      collection once, so a plain collection of a rarity with shared cards
      never reaches `remaining(ANY) == 0`. */
  lemma RemainingAnyNeverZero(t: Tracker)
    requires t.goal.None? && Shaped(t) && AllConsistent(t.buckets)
    requires Offering.AnyCount(t.rarity.counts) > 0
    ensures Remaining(t, Some(ANY)).Ok?
    ensures Remaining(t, Some(ANY)).value >= Offering.AnyCount(t.rarity.counts)
  {
    var c := t.rarity.counts;
    var k := IndexOf(Keys(c), ANY);
    assert Get(c, ANY, 0) > 0;
    assert ANY in Keys(c);
    var j := k.value;
    assert Lookup(c, ANY) == Some(c[j].1) by { LookupFirst(c, ANY); }
    assert Lookup(t.buckets, ANY) == Some(t.buckets[j].1) by {
      assert Keys(t.buckets) == Keys(c);
      LookupFirst(t.buckets, ANY);
    }
    CompletedIsAllHeld(t.buckets[j].1);
  }

  /** `Lookup` finds the entry at the first position of the key. */
  lemma {:induction false} LookupFirst<V>(d: Dict<V>, k: Tag)
    requires k in Keys(d)
    ensures IndexOf(Keys(d), k).Some?
    ensures Lookup(d, k) == Some(d[IndexOf(Keys(d), k).value].1)
  {
    if d[0].0 != k {
      TailKeys(d);
      LookupFirst(d[1..], k);
    }
  }

  // ---------------------------------------------------------------------
  // Missions

  function Repeat(p: Pull, n: nat): (r: seq<Pull>)
    ensures |r| == n && forall i :: 0 <= i < n ==> r[i] == p
  {
    seq(n, _ => p)
  }

  /** What one goal entry still needs from index `inx` on: `need - have`
      copies of each card short of its need. Reading `have` looks the bucket
      up (KeyError) and indexes it (IndexError), once per goal index. */
  function QuotaMissing(b: Option<Bucket>, k: Tag, needs: seq<nat>, inx: nat): Result<seq<Pull>>
    decreases |needs| - inx
  {
    if inx >= |needs| then Ok([])
    else if b.None? then Err(KeyError)
    else if inx >= |b.value.cells| then Err(IndexError)
    else
      var have := b.value.cells[inx];
      var here := if needs[inx] > have then Repeat((k, inx), needs[inx] - have) else [];
      var rest :- QuotaMissing(b, k, needs, inx + 1);
      Ok(here + rest)
  }

  /** The missing copies of a list of goal entries, entry by entry. */
  function GoalMissing(d: Dict<Bucket>, entries: Goal): Result<seq<Pull>> {
    if entries == [] then Ok([])
    else
      var first :- QuotaMissing(Lookup(d, entries[0].0), entries[0].0, entries[0].1, 0);
      var rest :- GoalMissing(d, entries[1..]);
      Ok(first + rest)
  }

  /** The goal entries `MissionRarityCollection.iter_missing(variant)`
      walks: all of them without a variant; with one, that variant's entry
      (empty when the goal has none), then the `ANY` entry when the variant
      is another tag and the goal has one. */
  function MissionEntries(g: Goal, v: Option<Tag>): Goal {
    if v.None? then g
    else
      var own := match Lookup(g, v.value) case Some(l) => l case None => [];
      [(v.value, own)] +
        (if v.value != ANY && ANY in Keys(g) then [(ANY, Lookup(g, ANY).value)] else [])
  }

  /** What a card is short of its need. */
  function Shortfall(need: nat, have: nat): nat {
    if need > have then need - have else 0
  }

  /** One goal entry fails only when some goal index has no bucket or lies
      past the bucket's end ... */
  lemma {:induction false} QuotaMissingFails(b: Option<Bucket>, k: Tag, needs: seq<nat>, inx: nat)
    ensures QuotaMissing(b, k, needs, inx).Ok? <==>
      inx >= |needs| || (b.Some? && |needs| <= |b.value.cells|)
    decreases |needs| - inx
  {
    if inx < |needs| && b.Some? && inx < |b.value.cells| {
      QuotaMissingFails(b, k, needs, inx + 1);
    }
  }

  /** ... and otherwise yields, for each goal index, as many copies as the
      card is short, and nothing else. */
  lemma {:induction false} QuotaMissingCounts(b: Option<Bucket>, k: Tag, needs: seq<nat>, inx: nat)
    requires QuotaMissing(b, k, needs, inx).Ok? && b.Some? && |needs| <= |b.value.cells|
    ensures var r := QuotaMissing(b, k, needs, inx).value;
      (forall m :: m in r ==> m.0 == k && inx <= m.1 < |needs|) &&
      forall j :: inx <= j < |needs| ==> multiset(r)[(k, j)] == Shortfall(needs[j], b.value.cells[j])
    decreases |needs| - inx
  {
    if inx < |needs| {
      QuotaMissingCounts(b, k, needs, inx + 1);
      var have := b.value.cells[inx];
      var here := if needs[inx] > have then Repeat((k, inx), needs[inx] - have) else [];
      var rest := QuotaMissing(b, k, needs, inx + 1).value;
      assert QuotaMissing(b, k, needs, inx).value == here + rest;
      assert multiset(here)[(k, inx)] == Shortfall(needs[inx], have) by {
        if needs[inx] > have {
          RepeatCount((k, inx), needs[inx] - have);
        }
      }
      assert forall m :: m in here ==> m == (k, inx);
      assert (k, inx) !in rest;
    }
  }

  lemma {:induction false} RepeatCount(p: Pull, n: nat)
    ensures multiset(Repeat(p, n))[p] == n
  {
    if n > 0 {
      assert Repeat(p, n) == Repeat(p, n - 1) + [p];
      RepeatCount(p, n - 1);
    }
  }

  // ---------------------------------------------------------------------
  // Adding, buying, loading

  /** The crown-card rule of `add`: a tag without a bucket, in a rarity
      whose counts hold only `ANY`, goes to the `ANY` bucket at the tag's
      position among the rare-booster count keys; the incoming index is
      dropped. */
  function Remap(t: Tracker, item: Pull): Result<Pull> {
    if item.0 !in Keys(t.buckets) && Keys(t.rarity.counts) == [ANY] then
      match Offering.RareCounts(t.rarity)
      case None => Err(AttributeError)
      case Some(rc) =>
        match IndexOf(Keys(rc), item.0)
        case None => Err(ValueError)
        case Some(j) => Ok((ANY, j))
    else Ok(item)
  }

  /** `self.collected[variant].add(card)`: one copy into the named bucket. */
  function Store(d: Dict<Bucket>, p: Pull): Result<Dict<Bucket>> {
    match IndexOf(Keys(d), p.0)
    case None => Err(KeyError)
    case Some(j) =>
      if p.1 < |d[j].1.cells| then Ok(d[j := (p.0, BucketAdd(d[j].1, p.1, 1))])
      else Err(IndexError)
  }

  /** `RarityCollection.add(item, packsOpened)`: store the card, then latch
      `completed_at` at `opened` if it is unset and nothing remains. */
  function AddSpec(t: Tracker, item: Pull, packsOpened: nat): (Status, Tracker) {
    match Remap(t, item)
    case Err(e) => (Raised(e), t)
    case Ok(p) => StoreAndLatch(t, p, packsOpened)
  }

  /** The part of `add` after the crown-card rule has chosen the bucket. */
  function StoreAndLatch(t: Tracker, p: Pull, packsOpened: nat): (Status, Tracker) {
    match Store(t.buckets, p)
    case Err(e) => (Raised(e), t)
    case Ok(d) =>
      var t1 := t.(buckets := d);
      if t1.completedAt.Some? then (Done, t1)
      else
        match Remaining(t1, None)
        case Err(e) => (Raised(e), t1)
        case Ok(r) => if r == 0 then (Done, t1.(completedAt := Some(packsOpened))) else (Done, t1)
  }

  /** `RarityCollection.buy(item, packsOpened)`: `add`, then record the item. */
  function BuySpec(t: Tracker, item: Pull, packsOpened: nat): (Status, Tracker) {
    var (s, t1) := AddSpec(t, item, packsOpened);
    if s.Done? then (Done, t1.(bought := t1.bought + [item])) else (s, t1)
  }

  /** `completed_at` is set by the first successful `add` after which nothing
      remains, to that add's `opened`, and is never changed afterwards. */
  lemma AddLatch(t: Tracker, item: Pull, packsOpened: nat)
    ensures var (s, t1) := AddSpec(t, item, packsOpened);
      (t.completedAt.Some? ==> t1.completedAt == t.completedAt) &&
      (t.completedAt.None? && s.Done? ==>
        (t1.completedAt == Some(packsOpened) <==> Remaining(t1, None) == Ok(0))) &&
      (t.completedAt.None? && t1.completedAt.Some? ==> t1.completedAt == Some(packsOpened)) &&
      t1.bought == t.bought && t1.rarity == t.rarity && t1.goal == t.goal
  {
  }

  /** A card that has a bucket is stored there: one more copy at its index,
      every other bucket and card as before. */
  lemma AddStores(t: Tracker, item: Pull, packsOpened: nat)
    requires Offering.WellKeyed(t.rarity.counts) && Shaped(t)
    requires item.0 in Keys(t.buckets) && item.1 < Get(t.rarity.counts, item.0, 0)
    ensures var (s, t1) := AddSpec(t, item, packsOpened);
      var j := IndexOf(Keys(t.buckets), item.0).value;
      (t.goal.None? || t.completedAt.Some? ==> s.Done?) &&
      item.1 < |t.buckets[j].1.cells| &&
      t1.buckets == t.buckets[j := (item.0, BucketAdd(t.buckets[j].1, item.1, 1))]
  {
    CardFits(t, item);
    var j := IndexOf(Keys(t.buckets), item.0).value;
    assert Remap(t, item) == Ok(item);
    var d := t.buckets[j := (item.0, BucketAdd(t.buckets[j].1, item.1, 1))];
    StoreAt(t.buckets, item, j);
    AddStored(t, item, packsOpened, d);
  }

  lemma CardFits(t: Tracker, item: Pull)
    requires Shaped(t) && item.0 in Keys(t.buckets) && item.1 < Get(t.rarity.counts, item.0, 0)
    ensures IndexOf(Keys(t.buckets), item.0).Some?
    ensures item.1 < |t.buckets[IndexOf(Keys(t.buckets), item.0).value].1.cells|
  {
    var c := t.rarity.counts;
    assert Keys(t.buckets) == Keys(c);
    var j := IndexOf(Keys(t.buckets), item.0).value;
    assert c[j].0 == item.0;
    Offering.GetAt(c, j);
  }

  /** A card that needs no remap and stores cleanly leaves the stored
      buckets; only a mission's `remaining()` can still raise. */
  lemma AddStored(t: Tracker, item: Pull, packsOpened: nat, d: Dict<Bucket>)
    requires Remap(t, item) == Ok(item) && Store(t.buckets, item) == Ok(d)
    ensures var (s, t1) := AddSpec(t, item, packsOpened);
      (t.goal.None? || t.completedAt.Some? ==> s.Done?) && t1.buckets == d
  {
    var t1 := t.(buckets := d);
    if t.goal.None? {
      assert Remaining(t1, None).Ok?;
    }
  }

  /** The crown rule: a tag without a bucket in an `ANY`-only rarity adds a
      copy to the `ANY` bucket at the tag's position among the rare-booster
      count keys, whatever index came with it. */
  lemma AddCrown(t: Tracker, item: Pull, packsOpened: nat, j: nat)
    requires Shaped(t) && Keys(t.rarity.counts) == [ANY] && item.0 != ANY
    requires Offering.RareCounts(t.rarity).Some?
    requires IndexOf(Keys(Offering.RareCounts(t.rarity).value), item.0) == Some(j)
    requires j < t.rarity.counts[0].1
    ensures var t1 := AddSpec(t, item, packsOpened).1;
      t1.buckets == [(ANY, BucketAdd(t.buckets[0].1, j, 1))]
  {
    assert Keys(t.buckets) == Keys(t.rarity.counts);
  }

  /** `buy` is `add` followed by appending the item to `bought`, and only
      when the add did not raise. */
  lemma BuyRecords(t: Tracker, item: Pull, packsOpened: nat)
    ensures var (s, t1) := BuySpec(t, item, packsOpened);
      s == AddSpec(t, item, packsOpened).0 &&
      t1.buckets == AddSpec(t, item, packsOpened).1.buckets &&
      t1.completedAt == AddSpec(t, item, packsOpened).1.completedAt &&
      t1.bought == (if s.Done? then t.bought + [item] else t.bought)
  {
  }

  /** `add(i)` for `i` from `i` up to `n`, stopping at the first index past
      the bucket. */
  function AddOnes(b: Bucket, i: nat, n: nat): (Status, Bucket)
    decreases n - i
  {
    if i >= n then (Done, b)
    else if i >= |b.cells| then (Raised(IndexError), b)
    else AddOnes(BucketAdd(b, i, 1), i + 1, n)
  }

  /** `add(i, nums[i])` for each index from `i` on. */
  function AddNums(b: Bucket, nums: seq<nat>, i: nat): (Status, Bucket)
    decreases |nums| - i
  {
    if i >= |nums| then (Done, b)
    else if i >= |b.cells| then (Raised(IndexError), b)
    else AddNums(BucketAdd(b, i, nums[i]), nums, i + 1)
  }

  function LoadAmount(b: Bucket, a: Amount): (Status, Bucket) {
    match a
    case Copies(n) => AddOnes(b, 0, n)
    case PerCard(nums) => AddNums(b, nums, 0)
  }

  /** Whether loading the amount touches its bucket at all. */
  predicate Touches(a: Amount) {
    match a
    case Copies(n) => n > 0
    case PerCard(nums) => nums != []
  }

  /** One entry of `load_initial_state`'s loop: the bucket is looked up only
      when the amount adds a card. */
  function LoadOne(t: Tracker, e: (Tag, Amount)): (Status, Tracker) {
    if !Touches(e.1) then (Done, t)
    else
      match IndexOf(Keys(t.buckets), e.0)
      case None => (Raised(KeyError), t)
      case Some(j) =>
        var (s, b) := LoadAmount(t.buckets[j].1, e.1);
        (s, t.(buckets := t.buckets[j := (e.0, b)]))
  }

  /** The loop of `load_initial_state` over the entries of the state. */
  function LoadEntries(t: Tracker, d: Dict<Amount>): (Status, Tracker)
    decreases |d|
  {
    if d == [] then (Done, t)
    else
      var (s, t1) := LoadOne(t, d[0]);
      if s.Raised? then (s, t1) else LoadEntries(t1, d[1..])
  }

  /** `RarityCollection.load_initial_state(state)`: load every entry, then
      set `completed_at` to 0 if nothing remains. */
  function LoadSpec(t: Tracker, l: Layout): (Status, Tracker) {
    var (s, t1) := LoadEntries(t, Spread(l));
    if s.Raised? then (s, t1)
    else
      match Remaining(t1, None)
      case Err(e) => (Raised(e), t1)
      case Ok(r) => if r == 0 then (Done, t1.(completedAt := Some(0))) else (Done, t1)
  }

  /** An int `n` adds one copy of each card below `n` (from `i` on), and
      fails exactly when `n` is past the bucket's end. */
  lemma {:induction false} AddOnesEffect(b: Bucket, i: nat, n: nat)
    requires i <= |b.cells|
    ensures var (s, r) := AddOnes(b, i, n);
      (s.Done? <==> n <= |b.cells|) && (s.Raised? ==> s.error == IndexError) &&
      |r.cells| == |b.cells| &&
      forall j :: 0 <= j < |b.cells| ==>
        r.cells[j] == b.cells[j] + (if i <= j < n then 1 else 0)
    ensures Consistent(b) ==> Consistent(AddOnes(b, i, n).1)
    decreases n - i
  {
    if i < n && i < |b.cells| {
      AddOnesEffect(BucketAdd(b, i, 1), i + 1, n);
      if Consistent(b) { AddKeepsConsistent(b, i, 1); }
    }
  }

  /** A list adds `nums[i]` copies of card `i` (from `i` on), and fails
      exactly when the list is longer than the bucket. */
  lemma {:induction false} AddNumsEffect(b: Bucket, nums: seq<nat>, i: nat)
    requires i <= |b.cells|
    ensures var (s, r) := AddNums(b, nums, i);
      (s.Done? <==> i >= |nums| || |nums| <= |b.cells|) && (s.Raised? ==> s.error == IndexError) &&
      |r.cells| == |b.cells| &&
      forall j :: 0 <= j < |b.cells| ==>
        r.cells[j] == b.cells[j] + (if i <= j < |nums| then nums[j] else 0)
    ensures Consistent(b) && (forall j :: i <= j < |nums| ==> nums[j] >= 1) ==>
      Consistent(AddNums(b, nums, i).1)
    decreases |nums| - i
  {
    if i < |nums| && i < |b.cells| {
      AddNumsEffect(BucketAdd(b, i, nums[i]), nums, i + 1);
      if Consistent(b) && nums[i] >= 1 { AddKeepsConsistent(b, i, nums[i]); }
    }
  }

  /** A state listing 0 copies of the only card of a one-card rarity
      latches `completed_at` at 0 although the card is not held: the add of
      zero copies counted it. */
  lemma ZeroLoadedLatchesEarly(r: Offering.Rarity)
    requires r.counts == [(ANY, 1)]
    ensures var (s, t) := LoadSpec(NewTracker(r, None), Flat(PerCard([0])));
      s == Done && t.completedAt == Some(0) && PlainMissing(t.buckets) == [(ANY, 0)] &&
      !AllConsistent(t.buckets)
  {
    var t0 := NewTracker(r, None);
    assert Keys(t0.buckets) == [ANY];
    var b := BucketAdd(NewBucket(1), 0, 0);
    assert b == Bucket([0], 1, 1);
    assert LoadAmount(NewBucket(1), PerCard([0])) == (Done, b);
    var t1 := t0.(buckets := [(ANY, b)]);
    assert IndexOf(Keys(t0.buckets), ANY) == Some(0);
    assert t0.buckets[0 := (ANY, b)] == [(ANY, b)];
    assert LoadOne(t0, (ANY, PerCard([0]))) == (Done, t1);
    assert [(ANY, PerCard([0]))][1..] == [];
    assert LoadEntries(t0, [(ANY, PerCard([0]))]) == (Done, t1);
    assert SumUnique(t1.buckets) == 1 by {
      assert t1.buckets[1..] == [];
    }
    assert Count(t1, None) == 1;
    assert SumValues(r.counts) == 1;
    assert Remaining(t1, None) == Ok(0);
    assert Zeros(ANY, [0], 0) == [(ANY, 0)];
  }

  // ---------------------------------------------------------------------
  // Buying what is missing, one card at a time

  /** Storing a card keeps every bucket's tag and size, and keeps the
      buckets consistent. */
  lemma StoreShape(d: Dict<Bucket>, p: Pull)
    requires Store(d, p).Ok?
    ensures var e := Store(d, p).value;
      |e| == |d| && Keys(e) == Keys(d) &&
      (forall i :: 0 <= i < |d| ==> e[i].0 == d[i].0 && |e[i].1.cells| == |d[i].1.cells|) &&
      (AllConsistent(d) ==> AllConsistent(e))
  {
    var j := IndexOf(Keys(d), p.0).value;
    if AllConsistent(d) {
      AddKeepsConsistent(d[j].1, p.1, 1);
    }
  }

  /** Marking the first card not held as held removes exactly that card from
      the front of the bucket's missing cards. */
  lemma {:induction false} ZerosFirst(k: Tag, cells: seq<nat>, base: nat, c: nat)
    requires Zeros(k, cells, base) != [] && c > 0
    ensures var m := Zeros(k, cells, base)[0];
      m.0 == k && base <= m.1 < base + |cells| && cells[m.1 - base] == 0 &&
      Zeros(k, cells[m.1 - base := c], base) == Zeros(k, cells, base)[1..]
  {
    if cells[0] == 0 {
      assert cells[0 := c][1..] == cells[1..];
    } else {
      ZerosFirst(k, cells[1..], base + 1, c);
      var m := Zeros(k, cells, base)[0];
      assert cells[m.1 - base := c][1..] == cells[1..][m.1 - (base + 1) := c];
    }
  }

  /** When the first bucket has a card not held, the first missing card is
      its first such card and storing it shortens the first bucket's list. */
  lemma TailInFirstBucket(d: Dict<Bucket>)
    requires d != [] && Zeros(d[0].0, d[0].1.cells, 0) != []
    ensures Store(d, PlainMissing(d)[0]).Ok?
    ensures PlainMissing(Store(d, PlainMissing(d)[0]).value) == PlainMissing(d)[1..]
  {
    var z := Zeros(d[0].0, d[0].1.cells, 0);
    var x := StoreInFirst(d);
    var e := [x] + d[1..];
    ConsParts(x, d[1..]);
    assert PlainMissing(e) == z[1..] + PlainMissing(d[1..]);
    TailOfAppend(z, PlainMissing(d[1..]));
  }

  /** Storing the first bucket's first card not held replaces that bucket by
      one whose list of missing cards is the old one's tail. */
  lemma StoreInFirst(d: Dict<Bucket>) returns (x: (Tag, Bucket))
    requires d != [] && Zeros(d[0].0, d[0].1.cells, 0) != []
    ensures var z := Zeros(d[0].0, d[0].1.cells, 0);
      PlainMissing(d)[0] == z[0] && Store(d, z[0]) == Ok([x] + d[1..]) &&
      x.0 == d[0].0 && Zeros(x.0, x.1.cells, 0) == z[1..]
  {
    var z := Zeros(d[0].0, d[0].1.cells, 0);
    var m := z[0];
    ZerosFirst(d[0].0, d[0].1.cells, 0, 1);
    x := (m.0, BucketAdd(d[0].1, m.1, 1));
    assert IndexOf(Keys(d), m.0) == Some(0);
    StoreAt(d, m, 0);
    UpdateFirst(d, x);
    assert d[0].1.cells[m.1 := d[0].1.cells[m.1] + 1] == d[0].1.cells[m.1 := 1];
  }

  lemma IndexOfPastFirst(d: Dict<Bucket>, k: Tag)
    requires d != [] && d[0].0 != k && k in Keys(d[1..])
    ensures IndexOf(Keys(d), k) == Some(IndexOf(Keys(d[1..]), k).value + 1)
  {
    TailKeys(d);
  }

  lemma StoreAt(d: Dict<Bucket>, p: Pull, j: nat)
    requires IndexOf(Keys(d), p.0) == Some(j) && j < |d| && p.1 < |d[j].1.cells|
    ensures Store(d, p) == Ok(d[j := (p.0, BucketAdd(d[j].1, p.1, 1))])
  {
  }

  /** Storing a card of a later bucket leaves the first bucket alone. */
  lemma StoreLater(d: Dict<Bucket>, m: Pull)
    requires d != [] && d[0].0 != m.0 && m.0 in Keys(d[1..]) && Store(d[1..], m).Ok?
    ensures Store(d, m) == Ok([d[0]] + Store(d[1..], m).value)
  {
    var i := IndexOf(Keys(d[1..]), m.0).value;
    IndexOfPastFirst(d, m.0);
    var x := (m.0, BucketAdd(d[i + 1].1, m.1, 1));
    assert d[1..][i] == d[i + 1];
    StoreAt(d[1..], m, i);
    StoreAt(d, m, i + 1);
    UpdateShift(d, i, x);
  }

  lemma UpdateShift<T>(d: seq<T>, i: nat, x: T)
    requires i + 1 < |d|
    ensures d[i + 1 := x] == [d[0]] + d[1..][i := x]
  {
  }

  lemma ConsParts<T>(x: T, r: seq<T>)
    ensures ([x] + r)[0] == x && ([x] + r)[1..] == r && [x] + r != []
  {
  }

  lemma TailOfAppend<T>(a: seq<T>, b: seq<T>)
    requires a != []
    ensures (a + b)[1..] == a[1..] + b
  {
  }

  lemma UpdateFirst<T>(d: seq<T>, x: T)
    requires d != []
    ensures d[0 := x] == [x] + d[1..]
  {
  }

  /** Storing the first missing card leaves exactly the rest of the missing
      cards: what the lazy `iter_missing` would still yield after buying its
      first card is the tail of the list it would have yielded before. */
  lemma {:induction false} PlainMissingTail(d: Dict<Bucket>)
    requires Distinct(Keys(d)) && PlainMissing(d) != []
    ensures Store(d, PlainMissing(d)[0]).Ok?
    ensures PlainMissing(Store(d, PlainMissing(d)[0]).value) == PlainMissing(d)[1..]
  {
    if Zeros(d[0].0, d[0].1.cells, 0) != [] {
      TailInFirstBucket(d);
    } else {
      var m := PlainMissing(d)[0];
      MissingInLater(d);
      PlainMissingTail(d[1..]);
      StoreLater(d, m);
      var e := Store(d[1..], m).value;
      ConsParts(d[0], e);
    }
  }

  /** When the first bucket holds every card, the first missing card is the
      first missing card of the later buckets, under a tag the first bucket
      does not have. */
  lemma MissingInLater(d: Dict<Bucket>)
    requires Distinct(Keys(d)) && PlainMissing(d) != [] && Zeros(d[0].0, d[0].1.cells, 0) == []
    ensures var m := PlainMissing(d)[0];
      PlainMissing(d) == PlainMissing(d[1..]) && m.0 != d[0].0 && m.0 in Keys(d[1..]) &&
      Distinct(Keys(d[1..]))
  {
    var rest := PlainMissing(d[1..]);
    assert PlainMissing(d) == [] + rest;
    var m := rest[0];
    PlainMissingExact(d[1..], m);
    var j :| 0 <= j < |d[1..]| && d[1..][j].0 == m.0 && m.1 < |d[1..][j].1.cells| && d[1..][j].1.cells[m.1] == 0;
    KeyOfLater(d, j);
  }

  /** In a dict with distinct keys, a later entry's key is a key of the
      tail and differs from the first key; the tail's keys are distinct. */
  lemma KeyOfLater<V>(d: Dict<V>, j: nat)
    requires Distinct(Keys(d)) && j + 1 < |d|
    ensures d[1..][j].0 != d[0].0 && d[1..][j].0 in Keys(d[1..]) && Distinct(Keys(d[1..]))
  {
    var ks := Keys(d);
    assert ks[0] != ks[j + 1];
    TailKeys(d);
  }

  /** Buying the first card `iter_missing()` yields on a plain collection
      with consistent buckets succeeds, records it, keeps the shape and the
      consistency, and leaves the rest of the list as the missing cards. */
  lemma BuyFirstMissing(t: Tracker, packsOpened: nat)
    requires t.goal.None? && Shaped(t) && AllConsistent(t.buckets) && PlainMissing(t.buckets) != []
    ensures var m := PlainMissing(t.buckets)[0];
      var (s, t1) := BuySpec(t, m, packsOpened);
      s == Done && Shaped(t1) && AllConsistent(t1.buckets) &&
      PlainMissing(t1.buckets) == PlainMissing(t.buckets)[1..] &&
      t1.bought == t.bought + [m] && t1.rarity == t.rarity && t1.goal.None?
  {
    var m := PlainMissing(t.buckets)[0];
    assert Keys(t.buckets) == Keys(t.rarity.counts);
    PlainMissingTail(t.buckets);
    PlainMissingExact(t.buckets, m);
    assert m.0 in Keys(t.buckets);
    assert Remap(t, m) == Ok(m);
    var e := Store(t.buckets, m).value;
    StoreShape(t.buckets, m);
    AddStored(t, m, packsOpened, e);
    AddLatch(t, m, packsOpened);
    var a := AddSpec(t, m, packsOpened);
    assert a.0 == Done && a.1.buckets == e;
    assert Shaped(a.1);
  }

  // ---------------------------------------------------------------------
  // Buying what a mission is missing

  /** Copies held of card `i` under tag `k`, as `self.collected[k][i]`
      reads them (0 where there is no such card). */
  function Held(d: Dict<Bucket>, k: Tag, i: nat): nat {
    match Lookup(d, k)
    case Some(b) => if i < |b.cells| then b.cells[i] else 0
    case None => 0
  }

  /** A card of a bucket the dict has, within that bucket. */
  predicate Fits(d: Dict<Bucket>, m: Pull) {
    Lookup(d, m.0).Some? && m.1 < |Lookup(d, m.0).value.cells|
  }

  /** The same tags in the same order, with buckets of the same sizes. */
  predicate SameShape(d: Dict<Bucket>, e: Dict<Bucket>) {
    |e| == |d| && forall i :: 0 <= i < |d| ==> e[i].0 == d[i].0 && |e[i].1.cells| == |d[i].1.cells|
  }

  lemma {:induction false} SameShapeTrans(a: Dict<Bucket>, b: Dict<Bucket>, c: Dict<Bucket>)
    requires SameShape(a, b) && SameShape(b, c)
    ensures SameShape(a, c)
  {
  }

  lemma {:induction false} SameShapeLookup(d: Dict<Bucket>, e: Dict<Bucket>, k: Tag)
    requires SameShape(d, e)
    ensures Lookup(e, k).Some? <==> Lookup(d, k).Some?
    ensures Lookup(e, k).Some? ==> |Lookup(e, k).value.cells| == |Lookup(d, k).value.cells|
  {
    assert Keys(e) == Keys(d);
    if k in Keys(d) {
      LookupFirst(d, k);
      LookupFirst(e, k);
    }
  }

  /** Whether a goal's missing copies can be listed depends only on the
      buckets' tags and sizes. */
  lemma {:induction false} GoalMissingShape(d: Dict<Bucket>, e: Dict<Bucket>, g: Goal)
    requires SameShape(d, e)
    ensures GoalMissing(e, g).Ok? <==> GoalMissing(d, g).Ok?
  {
    if g != [] {
      var k := g[0].0;
      SameShapeLookup(d, e, k);
      QuotaMissingFails(Lookup(d, k), k, g[0].1, 0);
      QuotaMissingFails(Lookup(e, k), k, g[0].1, 0);
      GoalMissingShape(d, e, g[1..]);
    }
  }

  /** Storing a card adds one copy of it, and changes no other card, tag or
      size. */
  lemma {:induction false} StoreHeld(d: Dict<Bucket>, p: Pull, k: Tag, i: nat)
    requires Store(d, p).Ok?
    ensures SameShape(d, Store(d, p).value)
    ensures Held(Store(d, p).value, k, i) == Held(d, k, i) + (if (k, i) == p then 1 else 0)
  {
    var e := Store(d, p).value;
    var j := IndexOf(Keys(d), p.0).value;
    assert Keys(e) == Keys(d);
    if k in Keys(d) {
      LookupFirst(d, k);
      LookupFirst(e, k);
      if k != p.0 {
        assert IndexOf(Keys(d), k).value != j;
      }
    }
  }

  /** Every copy one goal entry lists is a card of its own tag, within the
      goal and the bucket. */
  lemma {:induction false} QuotaMissingTags(b: Option<Bucket>, k: Tag, needs: seq<nat>, inx: nat)
    requires QuotaMissing(b, k, needs, inx).Ok?
    ensures forall m :: m in QuotaMissing(b, k, needs, inx).value ==>
      m.0 == k && m.1 < |needs| && b.Some? && m.1 < |b.value.cells|
    decreases |needs| - inx
  {
    if inx < |needs| {
      QuotaMissingTags(b, k, needs, inx + 1);
    }
  }

  /** A goal entry whose cards are all held at least as often as needed
      lists nothing. */
  lemma {:induction false} QuotaMissingMet(b: Option<Bucket>, k: Tag, needs: seq<nat>, inx: nat)
    requires QuotaMissing(b, k, needs, inx).Ok?
    requires forall j :: inx <= j < |needs| && b.Some? && j < |b.value.cells| ==> needs[j] <= b.value.cells[j]
    ensures QuotaMissing(b, k, needs, inx) == Ok([])
    decreases |needs| - inx
  {
    if inx < |needs| {
      QuotaMissingFails(b, k, needs, inx);
      QuotaMissingMet(b, k, needs, inx + 1);
      assert needs[inx] <= b.value.cells[inx];
      var none: seq<Pull> := [];
      assert none + none == none;
    }
  }

  /** Every copy the goal lists is of a tag the goal names, and fits its
      bucket. */
  lemma {:induction false} GoalMissingTags(d: Dict<Bucket>, g: Goal)
    requires GoalMissing(d, g).Ok?
    ensures forall m :: m in GoalMissing(d, g).value ==> m.0 in Keys(g) && Fits(d, m)
  {
    if g != [] {
      var k := g[0].0;
      QuotaMissingTags(Lookup(d, k), k, g[0].1, 0);
      GoalMissingTags(d, g[1..]);
      TailKeys(g);
    }
  }

  /** A goal whose cards are all held at least as often as needed lists
      nothing. */
  lemma {:induction false} GoalMissingMet(d: Dict<Bucket>, g: Goal)
    requires GoalMissing(d, g).Ok?
    requires forall n, j :: 0 <= n < |g| && 0 <= j < |g[n].1| ==> g[n].1[j] <= Held(d, g[n].0, j)
    ensures GoalMissing(d, g) == Ok([])
  {
    if g != [] {
      var k := g[0].0;
      var b := Lookup(d, k);
      QuotaMissingFails(b, k, g[0].1, 0);
      forall j | 0 <= j < |g[0].1| && b.Some? && j < |b.value.cells| ensures g[0].1[j] <= b.value.cells[j] {
        assert g[0].1[j] <= Held(d, k, j);
      }
      QuotaMissingMet(b, k, g[0].1, 0);
      forall n, j | 0 <= n < |g| - 1 && 0 <= j < |g[1..][n].1|
        ensures g[1..][n].1[j] <= Held(d, g[1..][n].0, j)
      {
        assert g[1..][n] == g[n + 1];
      }
      GoalMissingMet(d, g[1..]);
      var none: seq<Pull> := [];
      assert none + none == none;
    }
  }

  /** With each tag in the goal once, the missing list holds each goal card
      exactly as many times as it is short of its need. */
  lemma {:induction false} GoalMissingCounts(d: Dict<Bucket>, g: Goal, n: nat, j: nat)
    requires GoalMissing(d, g).Ok? && Distinct(Keys(g)) && n < |g| && j < |g[n].1|
    ensures multiset(GoalMissing(d, g).value)[(g[n].0, j)] == Shortfall(g[n].1[j], Held(d, g[n].0, j))
  {
    var k := g[0].0;
    var b := Lookup(d, k);
    var first := QuotaMissing(b, k, g[0].1, 0).value;
    var rest := GoalMissing(d, g[1..]).value;
    assert GoalMissing(d, g).value == first + rest;
    TailKeys(g);
    if n == 0 {
      QuotaMissingFails(b, k, g[0].1, 0);
      QuotaMissingCounts(b, k, g[0].1, 0);
      GoalMissingTags(d, g[1..]);
      assert k !in Keys(g[1..]) by {
        assert forall x :: 0 <= x < |g| - 1 ==> Keys(g[1..])[x] == Keys(g)[x + 1];
      }
      assert (k, j) !in rest;
    } else {
      QuotaMissingTags(b, k, g[0].1, 0);
      assert Keys(g)[n] != Keys(g)[0];
      assert (g[n].0, j) !in first;
      assert g[1..][n - 1] == g[n];
      GoalMissingCounts(d, g[1..], n - 1, j);
    }
  }

  /** `after` keeps the goal, the rarity, the tags and sizes of `t`, and
      its missing copies can still be listed. */
  predicate Kept(t: Tracker, after: Tracker) {
    after.goal == t.goal && after.rarity == t.rarity && Shaped(after) && Missing(after).Ok? &&
    SameShape(t.buckets, after.buckets)
  }

  /** Each card of `e` is held once more than in `d` for each time `ms`
      lists it. */
  ghost predicate HeldMore(d: Dict<Bucket>, e: Dict<Bucket>, ms: seq<Pull>) {
    forall k: Tag, i: nat {:trigger Held(e, k, i)} :: Held(e, k, i) == Held(d, k, i) + multiset(ms)[(k, i)]
  }

  /** `completed_at` after buying `ms` at `packsOpened`: kept when set, and
      otherwise latched by a purchase that left nothing missing. */
  predicate LatchAfter(t: Tracker, ms: seq<Pull>, after: Tracker, packsOpened: nat) {
    (t.completedAt.Some? ==> after.completedAt == t.completedAt) &&
    (after.completedAt.Some? ==> after.completedAt == t.completedAt || after.completedAt == Some(packsOpened)) &&
    (ms != [] && Missing(after) == Ok([]) ==> after.completedAt.Some?)
  }

  /** `after` is the mission collection `t` after buying the cards `ms` at
      `packsOpened`, with `ms` recorded. */
  ghost predicate GoalAfter(t: Tracker, ms: seq<Pull>, after: Tracker, packsOpened: nat) {
    (ms == [] ==> after.buckets == t.buckets && after.completedAt == t.completedAt) && Kept(t, after) && after.bought == t.bought + ms &&
    HeldMore(t.buckets, after.buckets, ms) && LatchAfter(t, ms, after, packsOpened)
  }

  lemma {:induction false} KeptTrans(t: Tracker, t1: Tracker, a: Tracker)
    requires Kept(t, t1) && Kept(t1, a)
    ensures Kept(t, a)
  {
    SameShapeTrans(t.buckets, t1.buckets, a.buckets);
  }

  lemma {:induction false} HeldMoreCompose(d: Dict<Bucket>, e: Dict<Bucket>, f: Dict<Bucket>, m: Pull, rest: seq<Pull>)
    requires HeldMore(d, e, [m]) && HeldMore(e, f, rest)
    ensures HeldMore(d, f, [m] + rest)
  {
    assert multiset([m] + rest) == multiset([m]) + multiset(rest);
    forall k: Tag, i: nat ensures Held(f, k, i) == Held(d, k, i) + multiset([m] + rest)[(k, i)] {
      assert Held(f, k, i) == Held(e, k, i) + multiset(rest)[(k, i)];
      assert Held(e, k, i) == Held(d, k, i) + multiset([m])[(k, i)];
    }
  }

  lemma {:induction false} LatchCompose(t: Tracker, m: Pull, t1: Tracker, rest: seq<Pull>, a: Tracker, packsOpened: nat)
    requires LatchAfter(t, [m], t1, packsOpened) && LatchAfter(t1, rest, a, packsOpened)
    requires rest == [] ==> a.buckets == t1.buckets && a.completedAt == t1.completedAt && a.goal == t1.goal
    ensures LatchAfter(t, [m] + rest, a, packsOpened)
  {
  }

  /** Buying one card, then a list, is buying the card followed by the
      list. */
  lemma {:induction false} GoalAfterCompose(t: Tracker, m: Pull, t1: Tracker, rest: seq<Pull>, a: Tracker, packsOpened: nat)
    requires GoalAfter(t, [m], t1, packsOpened) && GoalAfter(t1, rest, a, packsOpened)
    ensures GoalAfter(t, [m] + rest, a, packsOpened)
  {
    KeptTrans(t, t1, a);
    HeldMoreCompose(t.buckets, t1.buckets, a.buckets, m, rest);
    LatchCompose(t, m, t1, rest, a, packsOpened);
    assert t.bought + ([m] + rest) == t.bought + [m] + rest;
  }

  /** A mission collection whose missing copies can be listed buys a card
      that fits: the purchase goes through and is recorded, adds one copy of
      that card and nothing else, keeps the shape, and latches
      `completed_at` once nothing is left missing. */
  lemma {:induction false} BuyFits(t: Tracker, m: Pull, packsOpened: nat) returns (t1: Tracker)
    requires t.goal.Some? && Shaped(t) && Missing(t).Ok? && Fits(t.buckets, m)
    ensures BuySpec(t, m, packsOpened) == (Done, t1)
    ensures GoalAfter(t, [m], t1, packsOpened)
  {
    var d := t.buckets;
    LookupFirst(d, m.0);
    var j := IndexOf(Keys(d), m.0).value;
    assert Remap(t, m) == Ok(m);
    StoreAt(d, m, j);
    var e := Store(d, m).value;
    GoalMissingShape(d, e, t.goal.value);
    t1 := BuySpec(t, m, packsOpened).1;
    assert t1.buckets == e;
    forall k: Tag, i: nat ensures Held(e, k, i) == Held(d, k, i) + multiset([m])[(k, i)] {
      StoreHeld(d, m, k, i);
    }
  }
}
