/** The read-only helpers of `simulation.py`, over the rarity collections as
    values: the pack points still needed, the completion tests, the two
    purchase keys and the choice they drive, and what `buy_remaining` does
    to the collections. */
module Policy {
  import opened Common
  import Offering
  import Sorting
  import opened Bookkeeping
  import opened Tracking

  /** The most pack points that can be held at a time. */
  const MAX_PACK_POINTS: int := 2500

  // ---------------------------------------------------------------------
  // Points still needed

  /** `required_pack_points`: the cost of what remains, summed over the
      collections in order; the first `remaining()` that raises stops the
      sum. */
  function RequiredPackPoints(book: Book): Result<int> {
    if book == [] then Ok(0)
    else
      var c :- RemainingCost(book[0].1, None);
      var rest :- RequiredPackPoints(book[1..]);
      Ok(c + rest)
  }

  /** A plain (non-mission) collection whose buckets follow its rarity and
      whose `unique` counters are accurate. */
  predicate Plain(t: Tracker) {
    t.goal.None? && Shaped(t) && AllConsistent(t.buckets)
  }

  /** A mission collection whose goal names each tag once, as a dict does,
      whose buckets follow its rarity and whose missing copies can be
      listed. */
  predicate Goaled(t: Tracker) {
    t.goal.Some? && Shaped(t) && Distinct(Keys(t.goal.value)) && Missing(t).Ok?
  }

  /** A collection whose purchases `buy_remaining` pays for exactly. */
  predicate Buyable(t: Tracker) {
    Plain(t) || Goaled(t)
  }

  predicate BuyableBook(book: Book) {
    forall i :: 0 <= i < |book| ==> Buyable(book[i].1)
  }

  /** How many cards `iter_missing()` yields (none when it raises). */
  function MissingCount(t: Tracker): nat {
    match Missing(t)
    case Ok(ms) => |ms|
    case Err(_) => 0
  }

  /** What buying every card `iter_missing()` yields costs, collection by
      collection. */
  function MissingCost(book: Book): nat {
    if book == [] then 0
    else book[0].1.rarity.cost * MissingCount(book[0].1) + MissingCost(book[1..])
  }

  /** `remaining()` of a buyable collection is the number of cards
      `iter_missing()` yields. */
  lemma RemainingIsMissingCount(t: Tracker)
    requires Buyable(t)
    ensures Missing(t).Ok? && Remaining(t, None) == Ok(MissingCount(t))
  {
    if Plain(t) {
      PlainRemainingIsMissing(t);
    }
  }

  /** On buyable collections the points still needed are the price of the
      cards `iter_missing()` yields. */
  lemma {:induction false} RequiredIsMissingCost(book: Book)
    requires BuyableBook(book)
    ensures RequiredPackPoints(book) == Ok(MissingCost(book))
  {
    if book != [] {
      RemainingIsMissingCount(book[0].1);
      assert BuyableBook(book[1..]) by {
        forall i | 0 <= i < |book| - 1 ensures Buyable(book[1..][i].1) {
          assert book[1..][i] == book[i + 1];
        }
      }
      RequiredIsMissingCost(book[1..]);
    }
  }

  // ---------------------------------------------------------------------
  // Completion

  /** `completed_all`: every collection has latched `completed_at`. */
  predicate CompletedAll(book: Book) {
    forall i :: 0 <= i < |book| ==> book[i].1.completedAt.Some?
  }

  /** `completed_common`: every collection of a non-rare rarity has latched
      `completed_at`. */
  predicate CompletedCommon(book: Book) {
    forall i :: 0 <= i < |book| && !book[i].1.rarity.rare ==> book[i].1.completedAt.Some?
  }

  /** Python's `any` over values that may raise: true at the first
      non-zero value, raising at the first raise before it. */
  function AnyNonZero(rs: seq<Result<int>>): Result<bool> {
    if rs == [] then Ok(false)
    else
      match rs[0]
      case Err(e) => Err(e)
      case Ok(r) => if r != 0 then Ok(true) else AnyNonZero(rs[1..])
  }

  /** Value `i` is the first non-zero one, and none before it raises. */
  predicate FirstNonZero(rs: seq<Result<int>>, i: nat) {
    i < |rs| && rs[i].Ok? && rs[i].value != 0 && forall j :: 0 <= j < i ==> rs[j] == Ok(0)
  }

  /** `any` is false exactly when every value is zero, and true exactly
      when some value is non-zero and none before it raises. */
  lemma {:induction false} AnyNonZeroIff(rs: seq<Result<int>>)
    ensures AnyNonZero(rs) == Ok(false) <==> forall i :: 0 <= i < |rs| ==> rs[i] == Ok(0)
    ensures AnyNonZero(rs) == Ok(true) <==> exists i :: FirstNonZero(rs, i)
  {
    if rs != [] {
      var rest := rs[1..];
      AnyNonZeroIff(rest);
      assert forall i :: 0 < i < |rs| ==> rs[i] == rest[i - 1];
      if rs[0] == Ok(0) {
        if AnyNonZero(rs) == Ok(true) {
          var i: nat :| FirstNonZero(rest, i);
          assert FirstNonZero(rs, i + 1);
        }
        if exists i :: FirstNonZero(rs, i) {
          var i: nat :| FirstNonZero(rs, i);
          assert i != 0;
          assert FirstNonZero(rest, i - 1);
        }
      } else if rs[0].Ok? {
        assert FirstNonZero(rs, 0);
      }
    }
  }

  /** `v.remaining(variant) for v in collection.values()` */
  function VariantRemaining(book: Book, v: Tag): (rs: seq<Result<int>>)
    ensures |rs| == |book| && forall i :: 0 <= i < |book| ==> rs[i] == Remaining(book[i].1, Some(v))
  {
    seq(|book|, i requires 0 <= i < |book| => Remaining(book[i].1, Some(v)))
  }

  /** `completed_variant(variant)`: no collection has anything remaining
      for the variant. */
  function CompletedVariant(book: Book, v: Tag): Result<bool> {
    var found :- AnyNonZero(VariantRemaining(book, v));
    Ok(!found)
  }

  /** The variant is complete exactly when every collection has nothing
      remaining for it, and incomplete exactly when some collection has
      something remaining and none before it raises. */
  lemma CompletedVariantIff(book: Book, v: Tag)
    ensures CompletedVariant(book, v) == Ok(true) <==>
      forall i :: 0 <= i < |book| ==> Remaining(book[i].1, Some(v)) == Ok(0)
    ensures CompletedVariant(book, v) == Ok(false) <==> exists i :: FirstNonZero(VariantRemaining(book, v), i)
  {
    AnyNonZeroIff(VariantRemaining(book, v));
  }

  /** Under `ANY` a plain collection with shared cards always has something
      remaining, so `ANY` is never a completed variant. */
  lemma AnyNeverCompleted(book: Book, k: nat)
    requires k < |book| && Plain(book[k].1) && Offering.AnyCount(book[k].1.rarity.counts) > 0
    ensures CompletedVariant(book, ANY) != Ok(true)
  {
    RemainingAnyNeverZero(book[k].1);
    CompletedVariantIff(book, ANY);
  }

  // ---------------------------------------------------------------------
  // Purchase keys

  /** The two sort keys given to `pick_from_remaining`. */
  datatype Key = MostExpensive | Rarest(variant: Tag)

  /** `max` of a non-empty list of rates. */
  function MaxRate(xs: seq<real>): (m: real)
    requires xs != []
    ensures m in xs && forall x :: x in xs ==> x <= m
  {
    if |xs| == 1 then xs[0]
    else
      var rest := MaxRate(xs[1..]);
      assert forall x :: x in xs ==> x == xs[0] || x in xs[1..];
      if xs[0] >= rest then xs[0] else rest
  }

  /** A key's value for one collection: `most_expensive` negates the cost;
      `rarest(v)` divides the highest offering rate by the number of cards
      the variant can pull, raising when there are no rates (`max`) or no
      such cards (the division). */
  function KeyOf(key: Key, t: Tracker): Result<real> {
    match key
    case MostExpensive => Ok(-(t.rarity.cost as real))
    case Rarest(v) =>
      if t.rarity.offeringRate == [] then Err(ValueError)
      else
        var n := Offering.Count(t.rarity, Some(v));
        if n == 0 then Err(ZeroDivisionError) else Ok(MaxRate(t.rarity.offeringRate) / n as real)
  }

  /** `sorted` computes every key before it compares any, in order, so the
      first key that raises is what the call raises. */
  function KeysFail(book: Book, key: Key): Option<Error> {
    if book == [] then None
    else
      match KeyOf(key, book[0].1)
      case Err(e) => Some(e)
      case Ok(_) => KeysFail(book[1..], key)
  }

  lemma {:induction false} KeysFailNone(book: Book, key: Key)
    ensures KeysFail(book, key).None? <==> forall i :: 0 <= i < |book| ==> KeyOf(key, book[i].1).Ok?
  {
    if book != [] {
      KeysFailNone(book[1..], key);
      assert forall i :: 0 < i < |book| ==> book[i] == book[1..][i - 1];
    }
  }

  /** The key the sort compares once every key has been computed. */
  function SortKey(key: Key): ((Tag, Tracker)) -> real {
    (e: (Tag, Tracker)) => match KeyOf(key, e.1) case Ok(x) => x case Err(_) => 0.0
  }

  // ---------------------------------------------------------------------
  // Picking one card

  predicate HasRemaining(t: Tracker) {
    Remaining(t, None).Ok? && Remaining(t, None).value > 0
  }

  predicate NoneRemaining(t: Tracker) {
    Remaining(t, None).Ok? && Remaining(t, None).value <= 0
  }

  /** The loop of `pick_from_remaining` over the sorted collections: the
      first with something remaining gives its name and the first card its
      `iter_missing()` yields (`next` on nothing raises). */
  function FirstRemaining(s: Book): Result<Option<RarityPull>> {
    if s == [] then Ok(None)
    else
      var r :- Remaining(s[0].1, None);
      if r > 0 then
        var ms :- Missing(s[0].1);
        if ms == [] then Err(StopIteration) else Ok(Some((s[0].0, ms[0])))
      else FirstRemaining(s[1..])
  }

  /** `pick_from_remaining(collection, key)` */
  function PickFromRemaining(book: Book, key: Key): Result<Option<RarityPull>> {
    match KeysFail(book, key)
    case Some(e) => Err(e)
    case None => FirstRemaining(Sorting.SortBy(book, SortKey(key)))
  }

  /** The collection the loop stops at is the first with something
      remaining, and the card is the first one it is missing. */
  lemma {:induction false} FirstRemainingAt(s: Book) returns (i: nat)
    requires FirstRemaining(s).Ok? && FirstRemaining(s).value.Some?
    ensures i < |s| && HasRemaining(s[i].1) && forall j :: 0 <= j < i ==> NoneRemaining(s[j].1)
    ensures Missing(s[i].1).Ok? && Missing(s[i].1).value != []
    ensures FirstRemaining(s).value.value == (s[i].0, Missing(s[i].1).value[0])
  {
    if HasRemaining(s[0].1) {
      i := 0;
    } else {
      var k := FirstRemainingAt(s[1..]);
      i := k + 1;
      assert s[i] == s[1..][k];
      forall j | 0 < j < i ensures NoneRemaining(s[j].1) {
        assert s[j] == s[1..][j - 1];
      }
    }
  }

  /** The loop finds nothing exactly when no collection has anything
      remaining and none raises. */
  lemma {:induction false} FirstRemainingNone(s: Book)
    ensures FirstRemaining(s) == Ok(None) <==> forall j :: 0 <= j < |s| ==> NoneRemaining(s[j].1)
  {
    if s != [] {
      FirstRemainingNone(s[1..]);
      assert forall j :: 0 < j < |s| ==> s[j] == s[1..][j - 1];
    }
  }

  /** `pick_from_remaining` returns the first missing card of a collection
      with something remaining whose key is the least among all such
      collections. */
  lemma PickLeastKey(book: Book, key: Key) returns (i: nat)
    requires PickFromRemaining(book, key).Ok? && PickFromRemaining(book, key).value.Some?
    ensures i < |book| && HasRemaining(book[i].1) && KeyOf(key, book[i].1).Ok?
    ensures Missing(book[i].1).Ok? && Missing(book[i].1).value != []
    ensures PickFromRemaining(book, key).value.value == (book[i].0, Missing(book[i].1).value[0])
    ensures forall j :: 0 <= j < |book| && HasRemaining(book[j].1) ==>
      KeyOf(key, book[j].1).Ok? && KeyOf(key, book[i].1).value <= KeyOf(key, book[j].1).value
  {
    KeysFailNone(book, key);
    var f := SortKey(key);
    var s := Sorting.SortBy(book, f);
    Sorting.SortByOrdersAndPermutes(book, f);
    var k := FirstRemainingAt(s);
    assert s[k] in multiset(book);
    i :| 0 <= i < |book| && book[i] == s[k];
    forall j | 0 <= j < |book| && HasRemaining(book[j].1)
      ensures KeyOf(key, book[i].1).value <= KeyOf(key, book[j].1).value
    {
      assert book[j] in multiset(s);
      FirstLeast(s, f, k, book[j]);
    }
  }

  /** In a list ordered by `f`, the first entry with something remaining
      has a key no greater than any entry with something remaining. */
  lemma FirstLeast(s: Book, f: ((Tag, Tracker)) -> real, k: nat, x: (Tag, Tracker))
    requires Sorting.SortedBy(s, f) && k < |s|
    requires forall j :: 0 <= j < k ==> NoneRemaining(s[j].1)
    requires x in multiset(s) && HasRemaining(x.1)
    ensures f(s[k]) <= f(x)
  {
    var m :| 0 <= m < |s| && s[m] == x;
    assert !NoneRemaining(s[m].1);
    assert k <= m;
  }

  /** `pick_from_remaining` finds nothing exactly when every key can be
      computed and no collection has anything remaining. */
  lemma PickNothing(book: Book, key: Key)
    ensures PickFromRemaining(book, key) == Ok(None) <==>
      KeysFail(book, key).None? && forall j :: 0 <= j < |book| ==> NoneRemaining(book[j].1)
  {
    var s := Sorting.SortBy(book, SortKey(key));
    Sorting.SortByOrdersAndPermutes(book, SortKey(key));
    FirstRemainingNone(s);
    if forall j :: 0 <= j < |s| ==> NoneRemaining(s[j].1) {
      forall j | 0 <= j < |book| ensures NoneRemaining(book[j].1) {
        assert book[j] in multiset(s);
      }
    }
    if forall j :: 0 <= j < |book| ==> NoneRemaining(book[j].1) {
      forall j | 0 <= j < |s| ensures NoneRemaining(s[j].1) {
        assert s[j] in multiset(book);
      }
    }
  }

  /** The `most_expensive` key picks from a collection of the highest cost
      among those with something remaining. */
  lemma MostExpensivePicksHighestCost(book: Book) returns (i: nat)
    requires PickFromRemaining(book, MostExpensive).Ok? && PickFromRemaining(book, MostExpensive).value.Some?
    ensures i < |book| && HasRemaining(book[i].1)
    ensures PickFromRemaining(book, MostExpensive).value.value.0 == book[i].0
    ensures forall j :: 0 <= j < |book| && HasRemaining(book[j].1) ==>
      book[j].1.rarity.cost <= book[i].1.rarity.cost
  {
    i := PickLeastKey(book, MostExpensive);
  }

  /** The `rarest(v)` key picks from a collection whose highest offering
      rate per card of `v` is the smallest among those with something
      remaining. */
  lemma RarestPicksLeastRate(book: Book, v: Tag) returns (i: nat)
    requires PickFromRemaining(book, Rarest(v)).Ok? && PickFromRemaining(book, Rarest(v)).value.Some?
    ensures i < |book| && HasRemaining(book[i].1)
    ensures PickFromRemaining(book, Rarest(v)).value.value.0 == book[i].0
    ensures book[i].1.rarity.offeringRate != [] && Offering.Count(book[i].1.rarity, Some(v)) > 0
    ensures forall j :: 0 <= j < |book| && HasRemaining(book[j].1) ==>
      book[j].1.rarity.offeringRate != [] && Offering.Count(book[j].1.rarity, Some(v)) > 0 &&
      MaxRate(book[i].1.rarity.offeringRate) / Offering.Count(book[i].1.rarity, Some(v)) as real <=
      MaxRate(book[j].1.rarity.offeringRate) / Offering.Count(book[j].1.rarity, Some(v)) as real
  {
    i := PickLeastKey(book, Rarest(v));
  }

  // ---------------------------------------------------------------------
  // buy_remaining

  /** The inner loop of `buy_remaining` on one collection: each card in
      turn is bought and paid for, and a card the points left cannot pay
      for raises `RuntimeError`. */
  function BuyAll(t: Tracker, ms: seq<Pull>, points: int, packsOpened: nat): (Status, Tracker, int)
    decreases |ms|, 1
  {
    if ms == [] then (Done, t, points)
    else if points < t.rarity.cost then (Raised(RuntimeError), t, points)
    else BuyNext(t, ms, points, packsOpened)
  }

  /** A turn of the inner loop that can pay: buy the first card, then go on
      with the rest. */
  function BuyNext(t: Tracker, ms: seq<Pull>, points: int, packsOpened: nat): (Status, Tracker, int)
    requires ms != []
    decreases |ms|, 0
  {
    var (s, t1) := BuySpec(t, ms[0], packsOpened);
    if s.Raised? then (s, t1, points) else BuyAll(t1, ms[1..], points - t.rarity.cost, packsOpened)
  }

  /** `buy_remaining(collection, pack_points, opened)` from the collection at
      `i` on, each collection's missing cards taken when its turn comes. */
  function BuyRemainingFrom(book: Book, i: nat, points: int, packsOpened: nat): (Status, Book, int)
    decreases |book| - i
  {
    if i >= |book| then (Done, book, points)
    else
      match Missing(book[i].1)
      case Err(e) => (Raised(e), book, points)
      case Ok(ms) =>
        var (s, t, p1) := BuyAll(book[i].1, ms, points, packsOpened);
        var book1 := book[i := (book[i].0, t)];
        if s.Raised? then (s, book1, p1) else BuyRemainingFrom(book1, i + 1, p1, packsOpened)
  }

  /** What `buy_remaining` leaves of a plain collection it can pay for:
      still plain, nothing missing, every card that was missing bought in
      `iter_missing` order, and `completed_at` as it was or, when it was
      unset and something was bought, latched by the last purchase. */
  predicate BoughtOut(before: Tracker, after: Tracker, packsOpened: nat) {
    Plain(after) && after.rarity == before.rarity &&
    PlainMissing(after.buckets) == [] &&
    after.bought == before.bought + PlainMissing(before.buckets) &&
    (before.completedAt.Some? ==> after.completedAt == before.completedAt) &&
    (before.completedAt.None? && PlainMissing(before.buckets) != [] ==> after.completedAt == Some(packsOpened))
  }

  /** `t1` is `t` after buying its first missing card at `packsOpened`. */
  predicate FirstBought(t: Tracker, t1: Tracker, packsOpened: nat)
    requires PlainMissing(t.buckets) != []
  {
    var ms := PlainMissing(t.buckets);
    Plain(t1) && t1.rarity == t.rarity &&
    PlainMissing(t1.buckets) == ms[1..] && t1.bought == t.bought + [ms[0]] &&
    (t.completedAt.Some? ==> t1.completedAt == t.completedAt) &&
    (t.completedAt.None? ==>
      (t1.completedAt == Some(packsOpened) <==> ms[1..] == []) &&
      (t1.completedAt.Some? ==> t1.completedAt == Some(packsOpened)))
  }

  /** The first purchase of the inner loop on a plain collection succeeds
      and takes the card off the missing list; the latch is set by the
      purchase that leaves nothing missing. */
  lemma BuyFirst(t: Tracker, packsOpened: nat) returns (t1: Tracker)
    requires Plain(t) && PlainMissing(t.buckets) != []
    ensures BuySpec(t, PlainMissing(t.buckets)[0], packsOpened) == (Done, t1)
    ensures FirstBought(t, t1, packsOpened)
  {
    var m := PlainMissing(t.buckets)[0];
    BuyFirstMissing(t, packsOpened);
    AddLatch(t, m, packsOpened);
    t1 := BuySpec(t, m, packsOpened).1;
    PlainRemainingIsMissing(t1);
    assert Remaining(t1, None) == Remaining(AddSpec(t, m, packsOpened).1, None);
  }

  /** Buying out what is left after the first purchase buys out the whole
      collection. */
  lemma BoughtOutStep(t: Tracker, t1: Tracker, after: Tracker, packsOpened: nat)
    requires PlainMissing(t.buckets) != [] && FirstBought(t, t1, packsOpened)
    requires BoughtOut(t1, after, packsOpened)
    ensures BoughtOut(t, after, packsOpened)
  {
    var ms := PlainMissing(t.buckets);
    assert t.bought + ms == t.bought + [ms[0]] + ms[1..];
  }

  lemma MulSucc(c: int, n: int)
    ensures c * (n + 1) == c + c * n
  {
  }

  lemma MulPred(c: int, n: int)
    ensures c * n == c + c * (n - 1)
  {
  }

  lemma MulNonNegative(c: nat, n: nat)
    ensures c * n >= 0
  {
  }

  /** A turn of the inner loop that can pay and whose purchase succeeds
      goes on with the rest of the cards. */
  lemma {:induction false} BuyAllStep(t: Tracker, ms: seq<Pull>, points: int, packsOpened: nat, t1: Tracker)
    requires ms != [] && points >= t.rarity.cost && BuySpec(t, ms[0], packsOpened) == (Done, t1)
    ensures BuyAll(t, ms, points, packsOpened) == BuyAll(t1, ms[1..], points - t.rarity.cost, packsOpened)
  {
  }

  /** The three ways a turn of the inner loop goes: it cannot pay, the
      purchase raises, or it buys and goes on with the rest. */
  lemma {:induction false} BuyAllTurn(t: Tracker, ms: seq<Pull>, points: int, packsOpened: nat)
    requires ms != []
    ensures points < t.rarity.cost ==> BuyAll(t, ms, points, packsOpened) == (Raised(RuntimeError), t, points)
    ensures points >= t.rarity.cost && BuySpec(t, ms[0], packsOpened).0.Raised? ==>
      BuyAll(t, ms, points, packsOpened) == (BuySpec(t, ms[0], packsOpened).0, BuySpec(t, ms[0], packsOpened).1, points)
    ensures points >= t.rarity.cost && BuySpec(t, ms[0], packsOpened).0 == Done ==>
      BuyAll(t, ms, points, packsOpened) == BuyAll(BuySpec(t, ms[0], packsOpened).1, ms[1..], points - t.rarity.cost, packsOpened)
  {
  }

  /** A turn of the inner loop that cannot pay raises `RuntimeError`. */
  lemma {:induction false} BuyAllBroke(t: Tracker, ms: seq<Pull>, points: int, packsOpened: nat)
    requires ms != [] && points < t.rarity.cost
    ensures BuyAll(t, ms, points, packsOpened).0 == Raised(RuntimeError)
  {
  }

  /** The inner loop pays for every missing card of `t` and buys it out. */
  predicate PaidOut(t: Tracker, points: int, packsOpened: nat) {
    var r := BuyAll(t, PlainMissing(t.buckets), points, packsOpened);
    r.0 == Done && r.2 == points - t.rarity.cost * |PlainMissing(t.buckets)| && BoughtOut(t, r.1, packsOpened)
  }

  /** The inner loop buys the first `k` missing cards of `t`, then raises
      `RuntimeError` with fewer points left than the rarity's cost. */
  predicate RanOut(t: Tracker, points: int, packsOpened: nat, k: nat) {
    var ms := PlainMissing(t.buckets);
    var r := BuyAll(t, ms, points, packsOpened);
    r.0 == Raised(RuntimeError) && k < |ms| && r.2 == points - t.rarity.cost * k && r.2 < t.rarity.cost &&
    r.1.bought == t.bought + ms[..k] && PlainMissing(r.1.buckets) == ms[k..]
  }

  /** After the first purchase there is one card fewer to pay for. */
  lemma PriceAfterFirst(t: Tracker, t1: Tracker, packsOpened: nat)
    requires PlainMissing(t.buckets) != [] && FirstBought(t, t1, packsOpened)
    ensures |PlainMissing(t1.buckets)| + 1 == |PlainMissing(t.buckets)|
    ensures t.rarity.cost * |PlainMissing(t.buckets)| == t.rarity.cost + t1.rarity.cost * |PlainMissing(t1.buckets)|
  {
    MulSucc(t.rarity.cost, |PlainMissing(t1.buckets)|);
  }

  /** `t` after the inner loop's first purchase. */
  function AfterFirst(t: Tracker, packsOpened: nat): Tracker
    requires PlainMissing(t.buckets) != []
  {
    BuySpec(t, PlainMissing(t.buckets)[0], packsOpened).1
  }

  /** The first purchase leaves a plain collection of the same rarity with
      one card fewer to pay for. */
  lemma FirstStep(t: Tracker, packsOpened: nat)
    requires Plain(t) && PlainMissing(t.buckets) != []
    ensures var t1 := AfterFirst(t, packsOpened);
      Plain(t1) && t1.rarity == t.rarity && |PlainMissing(t1.buckets)| + 1 == |PlainMissing(t.buckets)| &&
      t.rarity.cost * |PlainMissing(t.buckets)| == t.rarity.cost + t.rarity.cost * |PlainMissing(t1.buckets)|
  {
    var t1 := BuyFirst(t, packsOpened);
    PriceAfterFirst(t, t1, packsOpened);
  }

  /** Paying out the rest after the first purchase pays out the whole
      collection. */
  lemma PaidOutStep(t: Tracker, points: int, packsOpened: nat)
    requires Plain(t) && PlainMissing(t.buckets) != [] && points >= t.rarity.cost
    requires PaidOut(AfterFirst(t, packsOpened), points - t.rarity.cost, packsOpened)
    ensures PaidOut(t, points, packsOpened)
  {
    var ms := PlainMissing(t.buckets);
    var t1 := BuyFirst(t, packsOpened);
    PriceAfterFirst(t, t1, packsOpened);
    BuyAllStep(t, ms, points, packsOpened, t1);
    BoughtOutStep(t, t1, BuyAll(t1, ms[1..], points - t.rarity.cost, packsOpened).1, packsOpened);
  }

  /** With points for all of them, the inner loop buys every missing card of
      a plain collection and spends exactly their price. */
  lemma {:induction false} BuyAllPlain(t: Tracker, points: int, packsOpened: nat)
    requires Plain(t) && points >= t.rarity.cost * |PlainMissing(t.buckets)|
    ensures PaidOut(t, points, packsOpened)
    decreases |PlainMissing(t.buckets)|
  {
    if PlainMissing(t.buckets) != [] {
      FirstStep(t, packsOpened);
      BuyAllPlain(AfterFirst(t, packsOpened), points - t.rarity.cost, packsOpened);
      PaidOutStep(t, points, packsOpened);
    } else {
      assert t.bought + [] == t.bought;
    }
  }

  /** With points for the first missing card but not for all of them, the
      inner loop buys that card and runs out one card later than it does
      from the state after it. */
  lemma {:induction false} RanOutStep(t: Tracker, points: int, packsOpened: nat) returns (k: nat)
    requires Plain(t) && t.rarity.cost <= points < t.rarity.cost * |PlainMissing(t.buckets)|
    ensures RanOut(t, points, packsOpened, k)
    decreases |PlainMissing(t.buckets)|, 0
  {
    FirstStep(t, packsOpened);
    var k1 := BuyAllShort(AfterFirst(t, packsOpened), points - t.rarity.cost, packsOpened);
    var ms := PlainMissing(t.buckets);
    var t1 := BuyFirst(t, packsOpened);
    BuyAllStep(t, ms, points, packsOpened, t1);
    MulSucc(t.rarity.cost, k1);
    ShiftSlices(t.bought, ms, k1);
    k := k1 + 1;
  }

  /** Too few points for the first card raise at once. */
  lemma RanOutAtOnce(t: Tracker, points: int, packsOpened: nat)
    requires PlainMissing(t.buckets) != [] && points < t.rarity.cost
    ensures RanOut(t, points, packsOpened, 0)
  {
    var ms := PlainMissing(t.buckets);
    assert ms[..0] == [] && ms[0..] == ms;
  }

  /** Buying the head, then the next `k`, buys the first `k + 1`. */
  lemma ShiftSlices<T>(before: seq<T>, ms: seq<T>, k: nat)
    requires k < |ms|
    ensures (before + [ms[0]]) + ms[1..][..k] == before + ms[..k + 1]
    ensures ms[1..][k..] == ms[k + 1..]
  {
    assert ms[..k + 1] == [ms[0]] + ms[1..][..k];
  }

  /** With too few points for all of them, the inner loop buys, in order,
      the cards it can pay for, then raises `RuntimeError` at the first it
      cannot. */
  lemma {:induction false} BuyAllShort(t: Tracker, points: int, packsOpened: nat) returns (k: nat)
    requires Plain(t) && 0 <= points < t.rarity.cost * |PlainMissing(t.buckets)|
    ensures RanOut(t, points, packsOpened, k)
    decreases |PlainMissing(t.buckets)|, 1
  {
    if points < t.rarity.cost {
      k := 0;
      assert PlainMissing(t.buckets) != [];
      RanOutAtOnce(t, points, packsOpened);
    } else {
      k := RanOutStep(t, points, packsOpened);
    }
  }

  /** Every card of `ms` fits the buckets of `d`. */
  predicate AllFit(d: Dict<Bucket>, ms: seq<Pull>)
    decreases |ms|
  {
    ms == [] || (Fits(d, ms[0]) && AllFit(d, ms[1..]))
  }

  lemma {:induction false} AllFitMembers(d: Dict<Bucket>, ms: seq<Pull>)
    requires forall m :: m in ms ==> Fits(d, m)
    ensures AllFit(d, ms)
    decreases |ms|
  {
    if ms != [] {
      forall m | m in ms[1..] ensures Fits(d, m) {
        assert m in ms;
      }
      AllFitMembers(d, ms[1..]);
    }
  }

  /** Cards that fit a collection's buckets fit them after a purchase that
      keeps their shape. */
  lemma {:induction false} AllFitShape(d: Dict<Bucket>, e: Dict<Bucket>, ms: seq<Pull>)
    requires SameShape(d, e) && AllFit(d, ms)
    ensures AllFit(e, ms)
    decreases |ms|
  {
    if ms != [] {
      SameShapeLookup(d, e, ms[0].0);
      AllFitShape(d, e, ms[1..]);
    }
  }

  /** A mission collection whose missing copies can be listed. */
  predicate Listable(t: Tracker) {
    t.goal.Some? && Shaped(t) && Missing(t).Ok?
  }

  /** Every purchase of `ms`, made in turn from `t`, goes through and keeps
      the rarity. */
  ghost predicate AllBuy(t: Tracker, ms: seq<Pull>, packsOpened: nat)
    decreases |ms|
  {
    ms == [] ||
    (BuySpec(t, ms[0], packsOpened).0 == Done && BuySpec(t, ms[0], packsOpened).1.rarity == t.rarity &&
     AllBuy(BuySpec(t, ms[0], packsOpened).1, ms[1..], packsOpened))
  }

  /** `t` after buying each of `ms` in turn. */
  function Bought(t: Tracker, ms: seq<Pull>, packsOpened: nat): Tracker
    decreases |ms|
  {
    if ms == [] then t else Bought(BuySpec(t, ms[0], packsOpened).1, ms[1..], packsOpened)
  }

  /** With points for all of them, the inner loop over purchases that all
      go through buys each one and spends exactly their price. */
  lemma {:induction false} AllBuyPaid(t: Tracker, ms: seq<Pull>, points: int, packsOpened: nat)
    requires AllBuy(t, ms, packsOpened) && points >= t.rarity.cost * |ms|
    ensures BuyAll(t, ms, points, packsOpened).0 == Done
    ensures BuyAll(t, ms, points, packsOpened).1 == Bought(t, ms, packsOpened)
    ensures BuyAll(t, ms, points, packsOpened).2 == points - t.rarity.cost * |ms|
    decreases |ms|
  {
    if ms != [] {
      var t1 := BuySpec(t, ms[0], packsOpened).1;
      MulPred(t.rarity.cost, |ms|);
      MulNonNegative(t.rarity.cost, |ms| - 1);
      AllBuyPaid(t1, ms[1..], points - t.rarity.cost, packsOpened);
      BuyAllStep(t, ms, points, packsOpened, t1);
    }
  }

  /** Short of points for all of them (and in no debt), the same loop
      raises `RuntimeError`. */
  lemma {:induction false} AllBuyShort(t: Tracker, ms: seq<Pull>, points: int, packsOpened: nat)
    requires AllBuy(t, ms, packsOpened) && 0 <= points < t.rarity.cost * |ms|
    ensures BuyAll(t, ms, points, packsOpened).0 == Raised(RuntimeError)
    decreases |ms|
  {
    if points < t.rarity.cost {
      BuyAllBroke(t, ms, points, packsOpened);
    } else {
      var t1 := BuySpec(t, ms[0], packsOpened).1;
      MulPred(t.rarity.cost, |ms|);
      AllBuyShort(t1, ms[1..], points - t.rarity.cost, packsOpened);
      BuyAllStep(t, ms, points, packsOpened, t1);
    }
  }

  /** Buying cards that fit, one after another, from a mission collection
      whose missing copies can be listed: every purchase goes through, and
      the collection after them all is `t` with those cards bought. */
  lemma {:induction false} GoalBuys(t: Tracker, ms: seq<Pull>, packsOpened: nat)
    requires Listable(t) && AllFit(t.buckets, ms)
    ensures AllBuy(t, ms, packsOpened) && GoalAfter(t, ms, Bought(t, ms, packsOpened), packsOpened)
    decreases |ms|
  {
    if ms == [] {
      assert t.bought + ms == t.bought;
    } else {
      var t1 := BuyFits(t, ms[0], packsOpened);
      AllFitShape(t.buckets, t1.buckets, ms[1..]);
      GoalBuys(t1, ms[1..], packsOpened);
      GoalAfterCompose(t, ms[0], t1, ms[1..], Bought(t1, ms[1..], packsOpened), packsOpened);
      assert ms == [ms[0]] + ms[1..];
    }
  }

  /** What `buy_remaining` leaves of a mission collection it can pay for:
      the same goal and rarity, nothing missing, every missing copy bought
      in `iter_missing` order, and `completed_at` as it was or, when it was
      unset and something was bought, latched by the last purchase. */
  predicate GoalBoughtOut(before: Tracker, after: Tracker, packsOpened: nat) {
    Missing(before).Ok? && after.goal == before.goal && after.rarity == before.rarity && Shaped(after) &&
    Missing(after) == Ok([]) && after.bought == before.bought + Missing(before).value &&
    (before.completedAt.Some? ==> after.completedAt == before.completedAt) &&
    (before.completedAt.None? && Missing(before).value != [] ==> after.completedAt == Some(packsOpened))
  }

  /** With points for all of them, the inner loop buys every copy a mission
      collection is missing: each card ends up held at least as often as
      the goal needs, so nothing is missing any more. */
  lemma BuyAllGoalOut(t: Tracker, points: int, packsOpened: nat)
    requires Goaled(t) && points >= t.rarity.cost * MissingCount(t)
    ensures var r := BuyAll(t, Missing(t).value, points, packsOpened);
      r.0 == Done && r.2 == points - t.rarity.cost * MissingCount(t) &&
      GoalBoughtOut(t, r.1, packsOpened) && Goaled(r.1)
  {
    var g := t.goal.value;
    var ms := Missing(t).value;
    GoalMissingTags(t.buckets, g);
    AllFitMembers(t.buckets, ms);
    GoalBuys(t, ms, packsOpened);
    AllBuyPaid(t, ms, points, packsOpened);
    var a := Bought(t, ms, packsOpened);
    forall n, j | 0 <= n < |g| && 0 <= j < |g[n].1| ensures g[n].1[j] <= Held(a.buckets, g[n].0, j) {
      GoalMissingCounts(t.buckets, g, n, j);
    }
    GoalMissingMet(a.buckets, g);
  }

  /** What `buy_remaining` leaves of a collection it can pay for. */
  predicate ClearedOut(before: Tracker, after: Tracker, packsOpened: nat) {
    if before.goal.None? then BoughtOut(before, after, packsOpened) else GoalBoughtOut(before, after, packsOpened)
  }

  /** With points for all of them, the inner loop buys every card a buyable
      collection is missing, spends exactly their price and leaves nothing
      remaining. */
  lemma BuyOut(t: Tracker, points: int, packsOpened: nat)
    requires Buyable(t) && points >= t.rarity.cost * MissingCount(t)
    ensures Missing(t).Ok?
    ensures var r := BuyAll(t, Missing(t).value, points, packsOpened);
      r.0 == Done && r.2 == points - t.rarity.cost * MissingCount(t) &&
      ClearedOut(t, r.1, packsOpened) && Buyable(r.1) && Remaining(r.1, None) == Ok(0)
  {
    if Plain(t) {
      BuyAllPlain(t, points, packsOpened);
      PlainRemainingIsMissing(BuyAll(t, Missing(t).value, points, packsOpened).1);
    } else {
      BuyAllGoalOut(t, points, packsOpened);
    }
  }

  /** Short of the price of what a buyable collection is missing (and in no
      debt), the inner loop raises `RuntimeError`. */
  lemma BuyShort(t: Tracker, points: int, packsOpened: nat)
    requires Buyable(t) && 0 <= points < t.rarity.cost * MissingCount(t)
    ensures Missing(t).Ok? && BuyAll(t, Missing(t).value, points, packsOpened).0 == Raised(RuntimeError)
  {
    if Plain(t) {
      var k := BuyAllShort(t, points, packsOpened);
    } else {
      GoalMissingTags(t.buckets, t.goal.value);
      AllFitMembers(t.buckets, Missing(t).value);
      GoalBuys(t, Missing(t).value, packsOpened);
      AllBuyShort(t, Missing(t).value, points, packsOpened);
    }
  }

  /** With points for every collection's missing cards, `buy_remaining`
      from `i` on buys them all and spends exactly their price. */
  lemma {:induction false} BuyRemainingOut(book: Book, i: nat, points: int, packsOpened: nat)
    requires i <= |book| && BuyableBook(book) && points >= MissingCost(book[i..])
    ensures var (s, b, p) := BuyRemainingFrom(book, i, points, packsOpened);
      s == Done && p == points - MissingCost(book[i..]) && |b| == |book| &&
      (forall k :: 0 <= k < i ==> b[k] == book[k]) &&
      forall k :: i <= k < |book| ==>
        b[k].0 == book[k].0 && ClearedOut(book[k].1, b[k].1, packsOpened) && Remaining(b[k].1, None) == Ok(0)
    decreases |book| - i
  {
    if i < |book| {
      var t := book[i].1;
      assert book[i..][1..] == book[i + 1..];
      BuyOut(t, points, packsOpened);
      var r := BuyAll(t, Missing(t).value, points, packsOpened);
      var book1 := book[i := (book[i].0, r.1)];
      assert book1[i + 1..] == book[i + 1..];
      BuyRemainingOut(book1, i + 1, r.2, packsOpened);
    }
  }

  /** `buy_remaining` given at least `required_pack_points`: it does not
      raise, returns the points less the required ones, and leaves every
      collection with nothing remaining, every missing card bought in
      `iter_missing` order. */
  lemma BuyRemainingPaysExactly(book: Book, points: int, packsOpened: nat)
    requires BuyableBook(book) && RequiredPackPoints(book).Ok? && RequiredPackPoints(book).value <= points
    ensures var (s, b, p) := BuyRemainingFrom(book, 0, points, packsOpened);
      s == Done && p == points - RequiredPackPoints(book).value && |b| == |book| &&
      forall k :: 0 <= k < |book| ==>
        b[k].0 == book[k].0 && ClearedOut(book[k].1, b[k].1, packsOpened) && Remaining(b[k].1, None) == Ok(0)
  {
    RequiredIsMissingCost(book);
    assert book[0..] == book;
    BuyRemainingOut(book, 0, points, packsOpened);
  }

  /** `buy_remaining` given fewer points than the missing cards cost (and
      no debt) raises `RuntimeError`. */
  lemma {:induction false} BuyRemainingShort(book: Book, i: nat, points: int, packsOpened: nat)
    requires i <= |book| && BuyableBook(book) && 0 <= points < MissingCost(book[i..])
    ensures BuyRemainingFrom(book, i, points, packsOpened).0 == Raised(RuntimeError)
    decreases |book| - i
  {
    var t := book[i].1;
    assert book[i..][1..] == book[i + 1..];
    if points < t.rarity.cost * MissingCount(t) {
      BuyShort(t, points, packsOpened);
    } else {
      BuyOut(t, points, packsOpened);
      var r := BuyAll(t, Missing(t).value, points, packsOpened);
      var book1 := book[i := (book[i].0, r.1)];
      assert book1[i + 1..] == book[i + 1..];
      BuyRemainingShort(book1, i + 1, r.2, packsOpened);
    }
  }

  /** The same with the points still needed as the bound. */
  lemma BuyRemainingRaises(book: Book, points: int, packsOpened: nat)
    requires BuyableBook(book) && RequiredPackPoints(book).Ok? && 0 <= points < RequiredPackPoints(book).value
    ensures BuyRemainingFrom(book, 0, points, packsOpened).0 == Raised(RuntimeError)
  {
    RequiredIsMissingCost(book);
    assert book[0..] == book;
    BuyRemainingShort(book, 0, points, packsOpened);
  }

  /** A plain collection loaded from a state listing 0 copies of its first
      card: `unique` counts that card, so `required_pack_points` asks for
      the price of one card while two are missing, and `buy_remaining`
      given exactly that raises `RuntimeError`. */
  lemma ZeroLoadedBuyRemainingRaises(r: Offering.Rarity, packsOpened: nat)
    requires r.counts == [(ANY, 2)] && r.cost == 70
    ensures var (s, t) := LoadSpec(NewTracker(r, None), Flat(PerCard([0])));
      s == Done && t.goal.None? && Shaped(t) && !AllConsistent(t.buckets) &&
      |PlainMissing(t.buckets)| == 2 && RequiredPackPoints([(r.name, t)]) == Ok(70) &&
      BuyRemainingFrom([(r.name, t)], 0, 70, packsOpened).0 == Raised(RuntimeError)
  {
    var t0 := NewTracker(r, None);
    assert Keys(t0.buckets) == [ANY];
    var b := BucketAdd(NewBucket(2), 0, 0);
    assert b == Bucket([0, 0], 1, 1);
    assert LoadAmount(NewBucket(2), PerCard([0])) == (Done, b);
    var t := t0.(buckets := [(ANY, b)]);
    assert IndexOf(Keys(t0.buckets), ANY) == Some(0);
    assert t0.buckets[0 := (ANY, b)] == [(ANY, b)];
    assert LoadOne(t0, (ANY, PerCard([0]))) == (Done, t);
    assert [(ANY, PerCard([0]))][1..] == [];
    assert LoadEntries(t0, [(ANY, PerCard([0]))]) == (Done, t);
    assert SumUnique(t.buckets) == 1 by {
      assert t.buckets[1..] == [];
    }
    assert SumValues(r.counts) == 2;
    assert Remaining(t, None) == Ok(1);
    assert LoadSpec(t0, Flat(PerCard([0]))) == (Done, t);
    var book := [(r.name, t)];
    assert book[1..] == [];
    assert RequiredPackPoints(book) == Ok(70);
    var ms := [(ANY, 0), (ANY, 1)];
    assert Zeros(ANY, [0], 1) == [(ANY, 1)];
    assert PlainMissing(t.buckets) == ms;
    var t1 := BuySpec(t, ms[0], packsOpened).1;
    assert Store(t.buckets, ms[0]).Ok?;
    assert BuySpec(t, ms[0], packsOpened).0 == Done;
    assert BuyAll(t, ms, 70, packsOpened) == BuyAll(t1, ms[1..], 0, packsOpened);
  }
}
