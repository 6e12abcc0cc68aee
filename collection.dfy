/** The classes of `collection.py`, updated in place as the source updates
    them, each method proved to move its abstract state exactly as the
    value-level specification in `Bookkeeping` says. */
module Tracking {
  import opened Common
  import Offering
  import opened Bookkeeping

  // ---------------------------------------------------------------------
  // Variant

  /** The copies collected of each card of one variant bucket. */
  class Variant {
    const size: nat
    const collection: array<nat>
    var unique: nat
    var total: nat

    ghost predicate Valid() {
      collection.Length == size
    }

    /** The bucket's state as a value. */
    function Model(): (b: Bucket)
      reads this, collection
      ensures |b.cells| == collection.Length
    {
      Bucket(collection[..], unique, total)
    }

    constructor (size: nat)
      ensures Valid() && fresh(collection) && Model() == NewBucket(size)
    {
      this.size := size;
      collection := new nat[size](_ => 0);
      unique, total := 0, 0;
    }

    /** `completed`: with `unique` kept consistent, every card is held. */
    function Completed(): (r: bool)
      reads this, collection
      requires Valid()
      ensures Consistent(Model()) ==> (r <==> forall i :: 0 <= i < size ==> collection[i] > 0)
    {
      if Consistent(Model()) then
        CompletedIsAllHeld(Model());
        size == unique
      else size == unique
    }

    /** `item in variant`: card `item` is held; an index past the bucket
        raises. */
    function Contains(item: nat): (r: Result<bool>)
      reads this, collection
      requires Valid()
      ensures r.Ok? <==> item < size
      ensures r == Ok(false) && Consistent(Model()) ==> !Completed()
    {
      if item < collection.Length then Ok(collection[item] > 0) else Err(IndexError)
    }

    /** `add(item, count)`: an index past the bucket raises before anything
        changes. */
    method Add(item: nat, count: nat) returns (s: Status)
      requires Valid()
      modifies this, collection
      ensures Valid()
      ensures item < size ==> s == Done && Model() == BucketAdd(old(Model()), item, count)
      ensures item >= size ==> s == Raised(IndexError) && Model() == old(Model())
    {
      if item >= collection.Length {
        return Raised(IndexError);
      }
      if collection[item] == 0 {
        unique := unique + 1;
      }
      collection[item] := collection[item] + count;
      total := total + 1;
      s := Done;
    }
  }

  // ---------------------------------------------------------------------
  // RarityCollection and MissionRarityCollection

  /** `MissionRarityCollection.__post_init__`'s loop over the mission: a
      bare amount goes under `ANY`, an int `n` becomes a list of `n` ones. */
  method NormaliseMission(l: Layout) returns (g: Goal)
    ensures g == NormaliseGoal(l)
  {
    var d := Spread(l);
    g := [];
    for i := 0 to |d|
      invariant |g| == i
      invariant forall j :: 0 <= j < i ==> g[j] == (d[j].0, Needs(d[j].1))
    {
      var (variant, count) := d[i];
      match count {
        case Copies(n) =>
          g := g + [(variant, seq(n, _ => 1))];
        case PerCard(nums) =>
          g := g + [(variant, nums)];
      }
    }
    ghost var want := NormaliseGoal(l);
    assert |want| == |g| by { assert |Keys(want)| == |Keys(d)|; }
    forall j | 0 <= j < |g| ensures g[j] == want[j] {
      assert Keys(want)[j] == Keys(d)[j];
    }
  }

  /** One rarity's collection. A `RarityCollection` has no goal; a
      `MissionRarityCollection` has one, and `remaining` and `iter_missing`
      dispatch on it. */
  class RarityCollection {
    const rarity: Offering.Rarity
    const goal: Option<Goal>
    const collected: Dict<Variant>
    var bought: seq<Pull>
    var completedAt: Option<nat>
    ghost const Cells: set<Variant>
    ghost const Arrays: set<array<nat>>

    /** One bucket per count entry, in order and of the entry's size, each
        its own object over its own array. */
    ghost predicate Valid() {
      Offering.WellKeyed(rarity.counts) &&
      |collected| == |rarity.counts| &&
      (forall i :: 0 <= i < |collected| ==>
        collected[i].0 == rarity.counts[i].0 && collected[i].1.size == rarity.counts[i].1 &&
        collected[i].1.Valid() && collected[i].1 in Cells && collected[i].1.collection in Arrays) &&
      (forall i, j :: 0 <= i < j < |collected| ==>
        collected[i].1 != collected[j].1 && collected[i].1.collection != collected[j].1.collection)
    }

    function Buckets(): (d: Dict<Bucket>)
      reads Cells, Arrays
      requires Valid()
      ensures |d| == |collected|
      ensures forall i :: 0 <= i < |d| ==> d[i] == (collected[i].0, collected[i].1.Model())
    {
      seq(|collected|, i requires 0 <= i < |collected| && Valid() reads Cells, Arrays =>
        (collected[i].0, collected[i].1.Model()))
    }

    /** The collection's state as a value. */
    function State(): (t: Tracker)
      reads this, Cells, Arrays
      requires Valid()
      ensures Shaped(t) && t.buckets == Buckets()
      ensures t.rarity == rarity && t.goal == goal && t.bought == bought && t.completedAt == completedAt
    {
      Tracker(rarity, goal, Buckets(), bought, completedAt)
    }

    lemma KeysAgree()
      requires Valid()
      ensures Keys(collected) == Keys(rarity.counts)
    {
    }

    constructor (rarity: Offering.Rarity, mission: Option<Layout>)
      requires Offering.WellKeyed(rarity.counts)
      ensures Valid() && fresh(Cells) && fresh(Arrays)
      ensures State() == NewTracker(rarity, mission)
    {
      var c := rarity.counts;
      var vs: Dict<Variant> := [];
      ghost var cells: set<Variant> := {};
      ghost var arrays: set<array<nat>> := {};
      for i := 0 to |c|
        invariant |vs| == i
        invariant forall j :: 0 <= j < i ==>
          vs[j].0 == c[j].0 && vs[j].1.size == c[j].1 && vs[j].1.Valid() &&
          vs[j].1 in cells && vs[j].1.collection in arrays &&
          vs[j].1.Model() == NewBucket(c[j].1)
        invariant forall j, l :: 0 <= j < l < i ==>
          vs[j].1 != vs[l].1 && vs[j].1.collection != vs[l].1.collection
        invariant fresh(cells) && fresh(arrays)
      {
        var v := new Variant(c[i].1);
        vs := vs + [(c[i].0, v)];
        cells := cells + {v};
        arrays := arrays + {v.collection};
      }
      var g: Option<Goal> := None;
      if mission.Some? {
        var normalised := NormaliseMission(mission.value);
        g := Some(normalised);
      }
      this.rarity := rarity;
      goal := g;
      collected := vs;
      bought := [];
      completedAt := None;
      Cells := cells;
      Arrays := arrays;
      new;
      ghost var want := NewTracker(rarity, mission);
      assert Buckets() == want.buckets;
    }

    /** `add(item, opened)`: the crown-card rule, one copy into the bucket,
        then the `completed_at` latch, which is tested first so that
        `remaining()` is not evaluated once it is set. */
    method Add(item: Pull, packsOpened: nat) returns (s: Status)
      requires Valid()
      modifies this, Cells, Arrays
      ensures Valid()
      ensures (s, State()) == AddSpec(old(State()), item, packsOpened)
    {
      KeysAgree();
      var (variant, card) := item;
      if variant !in Keys(collected) && Keys(rarity.counts) == [ANY] {
        match Offering.RareCounts(rarity) {
          case None =>
            return Raised(AttributeError);
          case Some(rc) =>
            match IndexOf(Keys(rc), variant) {
              case None =>
                return Raised(ValueError);
              case Some(j) =>
                card := j;
                variant := ANY;
            }
        }
      }
      ghost var t0 := State();
      assert Remap(t0, item) == Ok((variant, card));
      s := AddRemapped((variant, card), packsOpened);
    }

    /** `add` once the bucket is chosen: store, then latch. */
    method AddRemapped(p: Pull, packsOpened: nat) returns (s: Status)
      requires Valid()
      modifies this, Cells, Arrays
      ensures Valid()
      ensures (s, State()) == StoreAndLatch(old(State()), p, packsOpened)
    {
      s := StoreCard(p);
      if s.Raised? {
        return;
      }
      if completedAt.None? {
        var r := Remaining(State(), None);
        if r.Err? {
          return Raised(r.error);
        }
        if r.value == 0 {
          completedAt := Some(packsOpened);
        }
      }
    }

    /** `self.collected[variant].add(card)`: the lookup raises for a tag
        without a bucket, the bucket for an index past its end. */
    method StoreCard(p: Pull) returns (s: Status)
      requires Valid()
      modifies Cells, Arrays
      ensures Valid()
      ensures match Store(old(Buckets()), p)
        case Err(e) => s == Raised(e) && Buckets() == old(Buckets())
        case Ok(d) => s == Done && Buckets() == d
    {
      var k := IndexOf(Keys(collected), p.0);
      assert Keys(Buckets()) == Keys(collected);
      if k.None? {
        return Raised(KeyError);
      }
      s := StoreAt(k.value, p.1);
    }

    /** The bucket at position `k` takes one copy of `card`. */
    method StoreAt(k: nat, card: nat) returns (s: Status)
      requires Valid() && k < |collected|
      modifies Cells, Arrays
      ensures Valid()
      ensures card < |old(Buckets())[k].1.cells| ==>
        s == Done && Buckets() == old(Buckets())[k := (collected[k].0, BucketAdd(old(Buckets())[k].1, card, 1))]
      ensures card >= |old(Buckets())[k].1.cells| ==> s == Raised(IndexError) && Buckets() == old(Buckets())
    {
      ghost var d0 := Buckets();
      var v := collected[k].1;
      s := v.Add(card, 1);
      forall i | 0 <= i < |collected| && i != k
        ensures collected[i].1.Model() == old(collected[i].1.Model())
      {
        assert collected[i].1 != v && collected[i].1.collection != v.collection;
      }
      if s.Raised? {
        assert Buckets() == d0;
        return;
      }
      assert Buckets() == d0[k := (collected[k].0, BucketAdd(d0[k].1, card, 1))];
    }

    /** `buy(item, opened)`: `add`, then record the item. */
    method Buy(item: Pull, packsOpened: nat) returns (s: Status)
      requires Valid()
      modifies this, Cells, Arrays
      ensures Valid()
      ensures (s, State()) == BuySpec(old(State()), item, packsOpened)
    {
      s := Add(item, packsOpened);
      if s.Done? {
        bought := bought + [item];
      }
    }

    /** The per-card loop of `load_initial_state` for one entry, on the
        bucket at position `k`. */
    method LoadInto(k: nat, a: Amount) returns (s: Status)
      requires Valid() && k < |collected|
      modifies collected[k].1, collected[k].1.collection
      ensures (s, collected[k].1.Model()) == LoadAmount(old(collected[k].1.Model()), a)
    {
      var v := collected[k].1;
      match a {
        case Copies(n) =>
          for i := 0 to n
            invariant AddOnes(v.Model(), i, n) == AddOnes(old(v.Model()), 0, n)
          {
            s := v.Add(i, 1);
            if s.Raised? {
              return;
            }
          }
        case PerCard(nums) =>
          for i := 0 to |nums|
            invariant AddNums(v.Model(), nums, i) == AddNums(old(v.Model()), nums, 0)
          {
            s := v.Add(i, nums[i]);
            if s.Raised? {
              return;
            }
          }
      }
      s := Done;
    }

    /** `LoadInto` seen from the whole collection: only the bucket at `k`
        changes. */
    method LoadEntry(k: nat, a: Amount) returns (s: Status)
      requires Valid() && k < |collected|
      modifies Cells, Arrays
      ensures Valid()
      ensures var (s1, b) := LoadAmount(old(Buckets())[k].1, a);
        s == s1 && Buckets() == old(Buckets())[k := (collected[k].0, b)]
    {
      var v := collected[k].1;
      s := LoadInto(k, a);
      forall i | 0 <= i < |collected| && i != k
        ensures collected[i].1.Model() == old(collected[i].1.Model())
      {
        assert collected[i].1 != v && collected[i].1.collection != v.collection;
      }
    }

    /** One entry of `load_initial_state`'s loop. */
    method LoadOneEntry(e: (Tag, Amount)) returns (s: Status)
      requires Valid()
      modifies Cells, Arrays
      ensures Valid()
      ensures (s, State()) == LoadOne(old(State()), e)
    {
      KeysAgree();
      var (variant, amount) := e;
      if !Touches(amount) {
        return Done;
      }
      var k := IndexOf(Keys(collected), variant);
      if k.None? {
        return Raised(KeyError);
      }
      s := LoadEntry(k.value, amount);
    }

    /** `load_initial_state(state)`: every entry in order, then
        `completed_at := 0` if nothing remains. */
    method LoadInitialState(state: Layout) returns (s: Status)
      requires Valid()
      modifies this, Cells, Arrays
      ensures Valid()
      ensures (s, State()) == LoadSpec(old(State()), state)
    {
      KeysAgree();
      var d := Spread(state);
      for e := 0 to |d|
        invariant LoadEntries(State(), d[e..]) == LoadEntries(old(State()), d)
      {
        assert d[e..][0] == d[e] && d[e..][1..] == d[e + 1..];
        s := LoadOneEntry(d[e]);
        if s.Raised? {
          return;
        }
      }
      var r := Remaining(State(), None);
      if r.Err? {
        return Raised(r.error);
      }
      if r.value == 0 {
        completedAt := Some(0);
      }
      s := Done;
    }
  }

  // ---------------------------------------------------------------------
  // Collection, as values

  /** The rarity collections of a `Collection`, by rarity name. */
  type Book = Dict<Tracker>

  /** A pull as `Collection.add` receives it: the rarity name and the card. */
  type RarityPull = (string, Pull)

  /** The initial state `Collection.load_initial_state` reads: the optional
      `"pack_points"` entry and the `"collected"` entry, whose absence
      raises. */
  datatype Seed = Seed(packPoints: Option<int>, collected: Option<Dict<Layout>>)

  predicate WellFormed(book: Book) {
    Distinct(Keys(book)) && forall i :: 0 <= i < |book| ==> Shaped(book[i].1)
  }

  /** `Collection.add(pulled)`: each pull goes to its rarity's collection
      with the same `opened`; rarities not tracked are skipped. */
  function BookAdd(book: Book, pulled: seq<RarityPull>, packsOpened: nat): (Status, Book)
    decreases |pulled|
  {
    if pulled == [] then (Done, book)
    else
      match IndexOf(Keys(book), pulled[0].0)
      case None => BookAdd(book, pulled[1..], packsOpened)
      case Some(j) =>
        var (s, t) := AddSpec(book[j].1, pulled[0].1, packsOpened);
        var book1 := book[j := (book[j].0, t)];
        if s.Raised? then (s, book1) else BookAdd(book1, pulled[1..], packsOpened)
  }

  /** `Collection.buy(picked)`: nothing picked fails to unpack. */
  function BookBuy(book: Book, points: int, picked: Option<RarityPull>, packsOpened: nat): (Status, Book, int) {
    match picked
    case None => (Raised(TypeError), book, points)
    case Some(p) => BuyPicked(book, points, p, packsOpened)
  }

  /** `Collection.buy((rarity, card))`: the rarity's `buy`, then its cost
      comes off the points. */
  function BuyPicked(book: Book, points: int, p: RarityPull, packsOpened: nat): (Status, Book, int) {
    match IndexOf(Keys(book), p.0)
    case None => (Raised(KeyError), book, points)
    case Some(j) => BuyIndex(book, points, j, p.1, packsOpened)
  }

  /** The purchase once the rarity has been found at position `j`. */
  function BuyIndex(book: Book, points: int, j: nat, card: Pull, packsOpened: nat): (Status, Book, int)
    requires j < |book|
  {
    var r := BuySpec(book[j].1, card, packsOpened);
    var book1 := book[j := (book[j].0, r.1)];
    if r.0.Raised? then (r.0, book1, points) else (Done, book1, points - r.1.rarity.cost)
  }

  /** The loop of `Collection.load_initial_state` over `"collected"`. */
  function BookLoad(book: Book, entries: Dict<Layout>): (Status, Book)
    decreases |entries|
  {
    if entries == [] then (Done, book)
    else
      match IndexOf(Keys(book), entries[0].0)
      case None => (Raised(KeyError), book)
      case Some(j) =>
        var (s, t) := LoadSpec(book[j].1, entries[0].1);
        var book1 := book[j := (book[j].0, t)];
        if s.Raised? then (s, book1) else BookLoad(book1, entries[1..])
  }

  /** `Collection.load_initial_state(initial_state)`: the points (0 when
      absent), then each named rarity's initial state. */
  function SeedSpec(book: Book, seed: Seed): (Status, Book, int) {
    var points := match seed.packPoints case Some(p) => p case None => 0;
    match seed.collected
    case None => (Raised(KeyError), book, points)
    case Some(entries) =>
      var (s, book1) := BookLoad(book, entries);
      (s, book1, points)
  }

  predicate AllWellKeyed(rs: seq<Offering.Rarity>) {
    forall i :: 0 <= i < |rs| ==> Offering.WellKeyed(rs[i].counts)
  }

  /** `Collection.from_json(expansion, mission)`: with a non-empty mission,
      a mission collection for each rarity it names; otherwise a plain
      collection for every rarity. */
  function FreshBook(rs: seq<Offering.Rarity>, mission: Option<Dict<Layout>>): Book
    requires AllWellKeyed(rs)
  {
    if rs == [] then []
    else
      var rest := FreshBook(rs[1..], mission);
      if mission.Some? && mission.value != [] then
        match Lookup(mission.value, rs[0].name)
        case Some(l) => [(rs[0].name, NewTracker(rs[0], Some(l)))] + rest
        case None => rest
      else [(rs[0].name, NewTracker(rs[0], None))] + rest
  }

  /** Without a mission every rarity gets an empty plain collection under
      its name, in rarity order. */
  lemma {:induction false} FreshBookPlain(rs: seq<Offering.Rarity>)
    requires AllWellKeyed(rs)
    ensures var b := FreshBook(rs, None);
      |b| == |rs| && forall i :: 0 <= i < |rs| ==>
        b[i].0 == rs[i].name && b[i].1 == NewTracker(rs[i], None) && b[i].1.goal.None? &&
        Shaped(b[i].1) && AllConsistent(b[i].1.buckets) && b[i].1.bought == [] && b[i].1.completedAt.None?
  {
    if rs != [] {
      FreshBookPlain(rs[1..]);
      var b := FreshBook(rs, None);
      forall i | 1 <= i < |rs| ensures b[i] == FreshBook(rs[1..], None)[i - 1] && rs[i] == rs[1..][i - 1] {
      }
    }
  }

  /** Some rarity of `rs` is named `k`. */
  predicate Named(rs: seq<Offering.Rarity>, k: string) {
    exists i :: 0 <= i < |rs| && rs[i].name == k
  }

  lemma NamedCons(rs: seq<Offering.Rarity>, k: string)
    requires rs != []
    ensures Named(rs, k) <==> rs[0].name == k || Named(rs[1..], k)
  {
    if Named(rs, k) && rs[0].name != k {
      var i :| 0 <= i < |rs| && rs[i].name == k;
      assert rs[1..][i - 1].name == k;
    }
    if Named(rs[1..], k) {
      var i :| 0 <= i < |rs[1..]| && rs[1..][i].name == k;
      assert rs[i + 1].name == k;
    }
  }

  /** The mission collections of a non-empty list of rarities: the first
      one's when the mission names it, then the rest's. */
  lemma {:induction false} FreshBookCons(rs: seq<Offering.Rarity>, mission: Dict<Layout>)
    requires AllWellKeyed(rs) && mission != [] && rs != []
    ensures var b, rest := FreshBook(rs, Some(mission)), FreshBook(rs[1..], Some(mission));
      (forall k :: k in Keys(b) <==> (k == rs[0].name && k in Keys(mission)) || k in Keys(rest)) &&
      (forall e :: e in b ==> e in rest || e.1 == NewTracker(rs[0], Lookup(mission, rs[0].name)))
  {
    var rest := FreshBook(rs[1..], Some(mission));
    var l := Lookup(mission, rs[0].name);
    if l.Some? {
      var b := [(rs[0].name, NewTracker(rs[0], l))] + rest;
      assert FreshBook(rs, Some(mission)) == b;
      assert Keys(b) == [rs[0].name] + Keys(rest);
    }
  }

  /** With a mission, exactly the rarities the mission names get a
      collection, each one a mission collection. */
  lemma {:induction false} FreshBookMission(rs: seq<Offering.Rarity>, mission: Dict<Layout>)
    requires AllWellKeyed(rs) && mission != []
    ensures var b := FreshBook(rs, Some(mission));
      (forall k :: k in Keys(b) <==> k in Keys(mission) && Named(rs, k)) &&
      forall e :: e in b ==> e.1.goal.Some? && e.1.bought == [] && e.1.completedAt.None?
  {
    if rs != [] {
      FreshBookMission(rs[1..], mission);
      FreshBookCons(rs, mission);
      forall k {
        NamedCons(rs, k);
      }
    }
  }

  /** `Collection.add` records no purchase and never unsets a latched
      `completed_at`: every collection keeps its name, rarity, goal and
      purchases. Pulls of rarities that are not tracked change nothing. */
  lemma {:induction false} BookAddKeeps(book: Book, pulled: seq<RarityPull>, packsOpened: nat)
    ensures var (s, b) := BookAdd(book, pulled, packsOpened);
      |b| == |book| && forall i :: 0 <= i < |book| ==>
        b[i].0 == book[i].0 && b[i].1.rarity == book[i].1.rarity && b[i].1.goal == book[i].1.goal &&
        b[i].1.bought == book[i].1.bought &&
        (book[i].1.completedAt.Some? ==> b[i].1.completedAt == book[i].1.completedAt)
    ensures (forall k :: 0 <= k < |pulled| ==> pulled[k].0 !in Keys(book)) ==>
      BookAdd(book, pulled, packsOpened) == (Done, book)
    decreases |pulled|
  {
    if pulled != [] {
      match IndexOf(Keys(book), pulled[0].0)
      case None =>
        BookAddKeeps(book, pulled[1..], packsOpened);
      case Some(j) =>
        var (s, t) := AddSpec(book[j].1, pulled[0].1, packsOpened);
        AddLatch(book[j].1, pulled[0].1, packsOpened);
        var book1 := book[j := (book[j].0, t)];
        assert Keys(book1) == Keys(book);
        BookAddKeeps(book1, pulled[1..], packsOpened);
    }
  }

  /** `b` and `p` are `book` and `points` after the collection at `j`, of
      the picked rarity, bought the picked card and paid for it. */
  predicate BoughtAt(book: Book, b: Book, p: int, points: int, j: int, picked: RarityPull, packsOpened: nat) {
    0 <= j < |book| && book[j].0 == picked.0 &&
    b == book[j := (book[j].0, BuySpec(book[j].1, picked.1, packsOpened).1)] &&
    b[j].1.bought == book[j].1.bought + [picked.1] &&
    p == points - book[j].1.rarity.cost
  }

  /** `Collection.buy`: nothing picked raises `TypeError` and an untracked
      rarity `KeyError`, both before anything changes; a purchase that goes
      through records the card with its rarity's collection, pays that
      rarity's cost, and leaves the other collections alone. */
  lemma BookBuyPays(book: Book, points: int, picked: Option<RarityPull>, packsOpened: nat)
    ensures var (s, b, p) := BookBuy(book, points, picked, packsOpened);
      (picked.None? ==> s == Raised(TypeError) && b == book && p == points) &&
      (picked.Some? && picked.value.0 !in Keys(book) ==> s == Raised(KeyError) && b == book && p == points)
    ensures var (s, b, p) := BookBuy(book, points, picked, packsOpened);
      s.Done? ==> picked.Some? && exists j :: BoughtAt(book, b, p, points, j, picked.value, packsOpened)
  {
    if picked.Some? {
      match IndexOf(Keys(book), picked.value.0)
      case None =>
      case Some(j) =>
        BuyRecords(book[j].1, picked.value.1, packsOpened);
        AddLatch(book[j].1, picked.value.1, packsOpened);
        var (s, b, p) := BookBuy(book, points, picked, packsOpened);
        if s.Done? {
          assert BoughtAt(book, b, p, points, j, picked.value, packsOpened);
        }
    }
  }

  /** `load_initial_state` of one collection changes only its buckets and
      its latch. */
  lemma LoadKeeps(t: Tracker, l: Layout)
    ensures var t1 := LoadSpec(t, l).1;
      t1.rarity == t.rarity && t1.goal == t.goal && t1.bought == t.bought
  {
    LoadEntriesKeeps(t, Spread(l));
  }

  lemma {:induction false} LoadEntriesKeeps(t: Tracker, d: Dict<Amount>)
    ensures var t1 := LoadEntries(t, d).1;
      t1.rarity == t.rarity && t1.goal == t.goal && t1.bought == t.bought && t1.completedAt == t.completedAt
    decreases |d|
  {
    if d != [] {
      LoadEntriesKeeps(LoadOne(t, d[0]).1, d[1..]);
    }
  }

  /** `Collection.load_initial_state` sets the points first, to the seed's
      or 0, so they are set even when loading then raises; a seed without
      `"collected"` raises `KeyError` with the collections untouched; no
      collection changes its name, rarity, goal or purchases. */
  lemma SeedLoads(book: Book, seed: Seed)
    ensures var (s, b, p) := SeedSpec(book, seed);
      p == (if seed.packPoints.Some? then seed.packPoints.value else 0) &&
      (seed.collected.None? ==> s == Raised(KeyError) && b == book) &&
      |b| == |book| && forall i :: 0 <= i < |book| ==>
        b[i].0 == book[i].0 && b[i].1.rarity == book[i].1.rarity && b[i].1.goal == book[i].1.goal &&
        b[i].1.bought == book[i].1.bought
  {
    if seed.collected.Some? {
      BookLoadKeeps(book, seed.collected.value);
    }
  }

  lemma {:induction false} BookLoadKeeps(book: Book, entries: Dict<Layout>)
    ensures var b := BookLoad(book, entries).1;
      |b| == |book| && forall i :: 0 <= i < |book| ==>
        b[i].0 == book[i].0 && b[i].1.rarity == book[i].1.rarity && b[i].1.goal == book[i].1.goal &&
        b[i].1.bought == book[i].1.bought
    decreases |entries|
  {
    if entries != [] {
      match IndexOf(Keys(book), entries[0].0)
      case None =>
      case Some(j) =>
        var (s, t) := LoadSpec(book[j].1, entries[0].1);
        LoadKeeps(book[j].1, entries[0].1);
        var book1 := book[j := (book[j].0, t)];
        assert Keys(book1) == Keys(book);
        BookLoadKeeps(book1, entries[1..]);
    }
  }

  // ---------------------------------------------------------------------
  // Collection

  /** Two rarity collections share no object. */
  ghost predicate Apart(a: RarityCollection, b: RarityCollection) {
    a != b && a.Cells !! b.Cells && a.Arrays !! b.Arrays
  }

  /** The aggregate a simulation trial mutates. */
  class Collection {
    const collected: Dict<RarityCollection>
    var packsOpened: nat
    var packPoints: int
    var allCommonAt: Option<nat>
    ghost const Repr: set<object>

    /** A dict of rarity collections that share nothing with each other. */
    ghost predicate Valid() {
      this !in Repr && Distinct(Keys(collected)) &&
      (forall i :: 0 <= i < |collected| ==>
        collected[i].1.Valid() && collected[i].1 in Repr &&
        collected[i].1.Cells <= Repr && collected[i].1.Arrays <= Repr) &&
      (forall i, j :: 0 <= i < j < |collected| ==> Apart(collected[i].1, collected[j].1))
    }

    /** The rarity collections as values. */
    function Book(): (b: Book)
      reads Repr
      requires Valid()
      ensures |b| == |collected| && Keys(b) == Keys(collected)
      ensures forall i :: 0 <= i < |b| ==> b[i] == (collected[i].0, collected[i].1.State())
    {
      seq(|collected|, i requires 0 <= i < |collected| && Valid() reads Repr =>
        (collected[i].0, collected[i].1.State()))
    }

    constructor (collected: Dict<RarityCollection>)
      requires Distinct(Keys(collected))
      requires forall i :: 0 <= i < |collected| ==> collected[i].1.Valid()
      requires forall i, j :: 0 <= i < j < |collected| ==> Apart(collected[i].1, collected[j].1)
      ensures Valid() && this.collected == collected
      ensures packsOpened == 0 && packPoints == 0 && allCommonAt.None?
    {
      this.collected := collected;
      packsOpened, packPoints, allCommonAt := 0, 0, None;
      Repr := (set i | 0 <= i < |collected| :: collected[i].1 as object)
        + (set i, o | 0 <= i < |collected| && o in collected[i].1.Cells :: o as object)
        + (set i, o | 0 <= i < |collected| && o in collected[i].1.Arrays :: o as object);
    }

    /** The collection at position `j` adds a card; the others are left
        alone. */
    method AddAt(j: nat, pull: Pull) returns (s: Status)
      requires Valid() && j < |collected|
      modifies Repr
      ensures Valid()
      ensures var (s1, t) := AddSpec(old(Book())[j].1, pull, packsOpened);
        s == s1 && Book() == old(Book())[j := (collected[j].0, t)]
    {
      var rc := collected[j].1;
      s := rc.Add(pull, packsOpened);
      forall i | 0 <= i < |collected| && i != j
        ensures collected[i].1.State() == old(collected[i].1.State())
      {
        if i < j {
          assert Apart(collected[i].1, rc);
        } else {
          assert Apart(rc, collected[i].1);
        }
      }
    }

    /** `add(pulled)` */
    method Add(pulled: seq<RarityPull>) returns (s: Status)
      requires Valid()
      modifies Repr
      ensures Valid()
      ensures (s, Book()) == BookAdd(old(Book()), pulled, packsOpened)
    {
      for i := 0 to |pulled|
        invariant BookAdd(Book(), pulled[i..], packsOpened) == BookAdd(old(Book()), pulled, packsOpened)
      {
        assert pulled[i..][0] == pulled[i] && pulled[i..][1..] == pulled[i + 1..];
        var (rarity, pull) := pulled[i];
        var k := IndexOf(Keys(collected), rarity);
        if k.Some? {
          ghost var b0 := Book();
          s := AddAt(k.value, pull);
          assert BookAdd(b0, pulled[i..], packsOpened) ==
            if s.Raised? then (s, Book()) else BookAdd(Book(), pulled[i + 1..], packsOpened);
          if s.Raised? {
            return;
          }
        }
      }
      s := Done;
    }

    /** The collection at position `j` buys a card. */
    method BuyAt(j: nat, card: Pull) returns (s: Status, ghost t: Tracker)
      requires Valid() && j < |collected|
      modifies Repr
      ensures Valid()
      ensures (s, t) == BuySpec(old(Book())[j].1, card, packsOpened)
      ensures t.rarity == collected[j].1.rarity
      ensures Book() == old(Book())[j := (collected[j].0, t)]
    {
      var rc := collected[j].1;
      s := rc.Buy(card, packsOpened);
      t := rc.State();
      forall i | 0 <= i < |collected| && i != j
        ensures collected[i].1.State() == old(collected[i].1.State())
      {
        if i < j {
          assert Apart(collected[i].1, rc);
        } else {
          assert Apart(rc, collected[i].1);
        }
      }
    }

    /** `buy(picked)` */
    method Buy(picked: Option<RarityPull>) returns (s: Status)
      requires Valid()
      modifies this, Repr
      ensures Valid() && packsOpened == old(packsOpened) && allCommonAt == old(allCommonAt)
      ensures var r := BookBuy(old(Book()), old(packPoints), picked, packsOpened);
        s == r.0 && Book() == r.1 && packPoints == r.2
    {
      if picked.None? {
        return Raised(TypeError);
      }
      s := BuyPickedCard(picked.value);
    }

    method BuyPickedCard(p: RarityPull) returns (s: Status)
      requires Valid()
      modifies this, Repr
      ensures Valid() && packsOpened == old(packsOpened) && allCommonAt == old(allCommonAt)
      ensures var r := BuyPicked(old(Book()), old(packPoints), p, packsOpened);
        s == r.0 && Book() == r.1 && packPoints == r.2
    {
      var k := IndexOf(Keys(collected), p.0);
      if k.None? {
        return Raised(KeyError);
      }
      s := BuyIndexed(k.value, p.1);
    }

    method BuyIndexed(j: nat, card: Pull) returns (s: Status)
      requires Valid() && j < |collected|
      modifies this, Repr
      ensures Valid() && packsOpened == old(packsOpened) && allCommonAt == old(allCommonAt)
      ensures var r := BuyIndex(old(Book()), old(packPoints), j, card, packsOpened);
        s == r.0 && Book() == r.1 && packPoints == r.2
    {
      ghost var t;
      s, t := BuyAt(j, card);
      if s.Done? {
        packPoints := packPoints - collected[j].1.rarity.cost;
      }
    }

    /** The collection at position `j` loads its initial state. */
    method LoadAt(j: nat, l: Layout) returns (s: Status)
      requires Valid() && j < |collected|
      modifies Repr
      ensures Valid()
      ensures var (s1, t) := LoadSpec(old(Book())[j].1, l);
        s == s1 && Book() == old(Book())[j := (collected[j].0, t)]
    {
      var rc := collected[j].1;
      s := rc.LoadInitialState(l);
      forall i | 0 <= i < |collected| && i != j
        ensures collected[i].1.State() == old(collected[i].1.State())
      {
        if i < j {
          assert Apart(collected[i].1, rc);
        } else {
          assert Apart(rc, collected[i].1);
        }
      }
    }

    /** `load_initial_state(initial_state)` */
    method LoadInitialState(seed: Seed) returns (s: Status)
      requires Valid()
      modifies this, Repr
      ensures Valid() && packsOpened == old(packsOpened) && allCommonAt == old(allCommonAt)
      ensures (s, Book(), packPoints) == SeedSpec(old(Book()), seed)
    {
      packPoints := match seed.packPoints case Some(p) => p case None => 0;
      if seed.collected.None? {
        return Raised(KeyError);
      }
      var entries := seed.collected.value;
      ghost var points := packPoints;
      for i := 0 to |entries|
        invariant Valid() && packPoints == points
        invariant packsOpened == old(packsOpened) && allCommonAt == old(allCommonAt)
        invariant BookLoad(Book(), entries[i..]) == BookLoad(old(Book()), entries)
      {
        assert entries[i..][0] == entries[i] && entries[i..][1..] == entries[i + 1..];
        var (rarity, counts) := entries[i];
        var k := IndexOf(Keys(collected), rarity);
        if k.None? {
          return Raised(KeyError);
        }
        s := LoadAt(k.value, counts);
        if s.Raised? {
          return;
        }
      }
      s := Done;
    }
  }
}
