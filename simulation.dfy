/** `simulation.py`: the round-robin variant iterator, `buy_remaining` as the
    loop it is, and one iteration of `simulate` over the collection it
    mutates, each proved against a function on values. */
module Simulation {
  import opened Common
  import opened Bookkeeping
  import opened Tracking
  import opened Policy

  // ---------------------------------------------------------------------
  // VariantIterator

  /** `vs` without any `x`, the others in order. */
  function Without(vs: seq<Tag>, x: Tag): (r: seq<Tag>)
    ensures x !in r && |r| <= |vs|
    ensures forall y :: y != x ==> multiset(r)[y] == multiset(vs)[y]
  {
    if vs == [] then []
    else
      assert vs == [vs[0]] + vs[1..];
      if vs[0] == x then Without(vs[1..], x) else [vs[0]] + Without(vs[1..], x)
  }

  /** Filtering a list extended by one tag extends the filtered list by
      that tag unless it is the one dropped. */
  lemma {:induction false} WithoutSnoc(vs: seq<Tag>, y: Tag, x: Tag)
    ensures Without(vs + [y], x) == Without(vs, x) + (if y == x then [] else [y])
  {
    if vs != [] {
      assert (vs + [y])[1..] == vs[1..] + [y];
      WithoutSnoc(vs[1..], y, x);
    }
  }

  /** Nothing to drop leaves the list as it is. */
  lemma {:induction false} WithoutAbsent(vs: seq<Tag>, x: Tag)
    requires x !in vs
    ensures Without(vs, x) == vs
  {
    if vs != [] {
      WithoutAbsent(vs[1..], x);
    }
  }

  /** The deque `VariantIterator.__init__` builds: `ANY` alone when it is the
      only variant, otherwise the variants without `ANY`. */
  function Initial(vs: seq<Tag>): seq<Tag> {
    if vs == [ANY] then [ANY] else Without(vs, ANY)
  }

  /** `ANY` is kept only as the only variant; every other variant is kept
      as often as it is listed, and a list without `ANY` is kept as is. */
  lemma InitialVariants(vs: seq<Tag>)
    ensures vs == [ANY] ==> Initial(vs) == [ANY]
    ensures vs != [ANY] ==> ANY !in Initial(vs)
    ensures forall y :: y != ANY ==> multiset(Initial(vs))[y] == multiset(vs)[y]
    ensures ANY !in vs ==> Initial(vs) == vs
  {
    if ANY !in vs {
      WithoutAbsent(vs, ANY);
    }
  }

  /** `rotate(-1)`: the front element moves to the back. */
  function Rotate<T>(s: seq<T>): seq<T> {
    if s == [] then [] else s[1..] + [s[0]]
  }

  /** Rotating keeps every element and puts the front one last. */
  lemma RotateKeeps<T>(s: seq<T>)
    ensures |Rotate(s)| == |s| && multiset(Rotate(s)) == multiset(s)
    ensures s != [] ==> Rotate(s)[|s| - 1] == s[0] && Rotate(s)[..|s| - 1] == s[1..]
  {
    if s != [] {
      assert s == [s[0]] + s[1..];
      assert Rotate(s)[..|s| - 1] == s[1..];
    }
  }

  /** The deque after `n` calls of `next`. */
  function Turns<T>(s: seq<T>, n: nat): seq<T> {
    if n == 0 then s else Rotate(Turns(s, n - 1))
  }

  /** `a` more calls after `b` calls are `a + b` calls. */
  lemma {:induction false} TurnsAdd<T>(s: seq<T>, a: nat, b: nat)
    ensures Turns(s, a + b) == Turns(Turns(s, b), a)
  {
    if a > 0 {
      TurnsAdd(s, a - 1, b);
    }
  }

  /** The first `r` calls move the first `r` tags to the back. */
  lemma {:induction false} TurnsPrefix<T>(s: seq<T>, r: nat)
    requires r <= |s|
    ensures Turns(s, r) == s[r..] + s[..r]
  {
    if r > 0 {
      TurnsPrefix(s, r - 1);
      var t := s[r - 1..] + s[..r - 1];
      assert t[0] == s[r - 1] && t[1..] == s[r..] + s[..r - 1];
      assert s[..r] == s[..r - 1] + [s[r - 1]];
    } else {
      assert s[0..] + s[..0] == s;
    }
  }

  /** Whole rounds bring the deque back to where it started. */
  lemma {:induction false} TurnsRounds<T>(s: seq<T>, q: nat)
    ensures Turns(s, q * |s|) == s
  {
    if q > 0 {
      MulSucc(|s|, q - 1);
      assert q * |s| == |s| + (q - 1) * |s|;
      TurnsAdd(s, |s|, (q - 1) * |s|);
      TurnsRounds(s, q - 1);
      TurnsPrefix(s, |s|);
      assert s[|s|..] + s[..|s|] == s;
    }
  }

  /** The deque cycles: after `q` whole rounds and `r` more calls it starts
      at position `r`, so that call returns `s[r]`. */
  lemma TurnsCycle<T>(s: seq<T>, q: nat, r: nat)
    requires r < |s|
    ensures Turns(s, q * |s| + r) == s[r..] + s[..r]
    ensures Turns(s, q * |s| + r)[0] == s[r]
  {
    TurnsAdd(s, r, q * |s|);
    TurnsRounds(s, q);
    TurnsPrefix(s, r);
  }

  /** `deque.remove(v)` behind `if v in deque`: the first `v` goes, if any. */
  function RemoveFirst(s: seq<Tag>, v: Tag): (r: seq<Tag>)
    ensures v !in s ==> r == s
    ensures v in s ==> |r| == |s| - 1 && multiset(r) == multiset(s) - multiset{v}
  {
    match IndexOf(s, v)
    case None => s
    case Some(i) =>
      assert s == s[..i] + [s[i]] + s[i + 1..];
      s[..i] + s[i + 1..]
  }

  /** Removing keeps the other variants in order: it deletes the first
      occurrence and nothing else. */
  lemma RemoveFirstKeepsOrder(s: seq<Tag>, v: Tag) returns (i: nat)
    requires v in s
    ensures i < |s| && s[i] == v && v !in s[..i]
    ensures RemoveFirst(s, v) == s[..i] + s[i + 1..]
  {
    i := IndexOf(s, v).value;
  }

  /** `VariantIterator`: the variants to cycle through, as a deque. */
  class VariantIterator {
    var variants: seq<Tag>

    constructor (vs: seq<Tag>)
      ensures variants == Initial(vs)
    {
      if vs == [ANY] {
        variants := [ANY];
      } else {
        var kept := [];
        for i := 0 to |vs|
          invariant kept == Without(vs[..i], ANY)
        {
          WithoutSnoc(vs[..i], vs[i], ANY);
          assert vs[..i + 1] == vs[..i] + [vs[i]];
          if vs[i] != ANY {
            kept := kept + [vs[i]];
          }
        }
        assert vs[..|vs|] == vs;
        variants := kept;
      }
    }

    /** `__next__`: rotate left, then return the last element, which is
        the former front; an empty deque raises `IndexError`. */
    method Next() returns (r: Result<Tag>)
      modifies this
      ensures old(variants) == [] ==> r == Err(IndexError) && variants == []
      ensures old(variants) != [] ==> r == Ok(old(variants)[0]) && variants == Rotate(old(variants))
    {
      variants := Rotate(variants);
      if variants == [] {
        return Err(IndexError);
      }
      r := Ok(variants[|variants| - 1]);
    }

    /** `remove(variant)` */
    method Remove(v: Tag)
      modifies this
      ensures variants == RemoveFirst(old(variants), v)
    {
      if v in variants {
        var i := 0;
        while variants[i] != v
          invariant 0 <= i < |variants| && v in variants[i..] && v !in variants[..i]
          decreases |variants| - i
        {
          assert variants[i..] == [variants[i]] + variants[i + 1..];
          i := i + 1;
        }
        assert IndexOf(variants, v) == Some(i);
        variants := variants[..i] + variants[i + 1..];
      }
    }
  }

  // ---------------------------------------------------------------------
  // buy_remaining as a loop

  /** `buy_remaining(collection, pack_points, opened)`: the new points, or
      the exception, with the collections as the purchases left them. */
  method BuyRemaining(c: Collection, points: int) returns (s: Status, p: int)
    requires c.Valid()
    modifies c.Repr
    ensures c.Valid()
    ensures (s, c.Book(), p) == BuyRemainingFrom(old(c.Book()), 0, points, c.packsOpened)
  {
    p := points;
    var i := 0;
    while i < |c.collected|
      invariant c.Valid() && i <= |c.collected|
      invariant BuyRemainingFrom(c.Book(), i, p, c.packsOpened) == BuyRemainingFrom(old(c.Book()), 0, points, c.packsOpened)
      decreases |c.collected| - i
    {
      var missing := Missing(c.collected[i].1.State());
      if missing.Err? {
        return Raised(missing.error), p;
      }
      s, p := BuyEach(c, i, missing.value, p);
      if s.Raised? {
        return;
      }
      i := i + 1;
    }
    s := Done;
  }

  /** The inner loop of `buy_remaining` over the missing cards `ms` of the
      collection at position `j`. */
  method BuyEach(c: Collection, j: nat, ms: seq<Pull>, points: int) returns (s: Status, p: int)
    requires c.Valid() && j < |c.collected|
    modifies c.Repr
    ensures c.Valid()
    ensures var r := BuyAll(old(c.Book())[j].1, ms, points, c.packsOpened);
      s == r.0 && p == r.2 && c.Book() == old(c.Book())[j := (c.collected[j].0, r.1)]
  {
    p := points;
    for k := 0 to |ms|
      invariant c.Valid()
      invariant c.Book() == old(c.Book())[j := (c.collected[j].0, c.Book()[j].1)]
      invariant BuyAll(c.Book()[j].1, ms[k..], p, c.packsOpened) == BuyAll(old(c.Book())[j].1, ms, points, c.packsOpened)
    {
      assert ms[k..][0] == ms[k] && ms[k..][1..] == ms[k + 1..];
      ghost var t0 := c.Book()[j].1;
      BuyAllTurn(t0, ms[k..], p, c.packsOpened);
      var cost := c.collected[j].1.rarity.cost;
      if p < cost {
        return Raised(RuntimeError), p;
      }
      var bought;
      ghost var t;
      bought, t := c.BuyAt(j, ms[k]);
      if bought.Raised? {
        return bought, p;
      }
      BuyAllStep(t0, ms[k..], p, c.packsOpened, t);
      p := p - cost;
    }
    s := Done;
  }

  // ---------------------------------------------------------------------
  // One iteration of simulate

  /** What `simulate` reads and writes of the `Collection`: the rarity
      collections, `opened`, `pack_points` and `all_common_at`. */
  datatype Progress = Progress(book: Book, packsOpened: nat, points: int, allCommonAt: Option<nat>)

  /** How an iteration ends: the loop goes on, breaks, or raises. */
  datatype Outcome = Continue | Stop | Failed(error: Error)

  function ProgressOf(c: Collection): Progress
    reads c, c.Repr
    requires c.Valid()
  {
    Progress(c.Book(), c.packsOpened, c.packPoints, c.allCommonAt)
  }

  /** `collection.pack_points = buy_remaining(collected, pack_points, opened)`:
      the points are only assigned when the purchases finish. */
  function AutoBuySpec(p: Progress): (Status, Progress) {
    var (s, b, points) := BuyRemainingFrom(p.book, 0, p.points, p.packsOpened);
    (s, p.(book := b, points := if s.Done? then points else p.points))
  }

  /** The purchase at the cap: `collection.buy(pick_from_remaining(
      collected, rarest(variant)))`. */
  function CapBuySpec(p: Progress, v: Tag): (Status, Progress) {
    match PickFromRemaining(p.book, Rarest(v))
    case Err(e) => (Raised(e), p)
    case Ok(picked) =>
      var (s, b, points) := BookBuy(p.book, p.points, picked, p.packsOpened);
      (s, p.(book := b, points := points))
  }

  /** The `buy_cards` block: buy everything when the points cover what is
      missing, then one card when the points sit exactly at the cap and
      something is incomplete. */
  function PurchaseSpec(p: Progress, v: Tag): (Status, Progress) {
    match RequiredPackPoints(p.book)
    case Err(e) => (Raised(e), p)
    case Ok(required) =>
      var (s, p1) := if required <= p.points then AutoBuySpec(p) else (Done, p);
      if s.Raised? then (s, p1)
      else if p1.points == MAX_PACK_POINTS && !CompletedAll(p1.book) then CapBuySpec(p1, v)
      else (Done, p1)
  }

  /** `all_common_at` is latched to `opened` the first time every common
      rarity is complete. */
  function LatchSpec(p: Progress): Progress {
    if p.allCommonAt.None? && CompletedCommon(p.book) then p.(allCommonAt := Some(p.packsOpened)) else p
  }

  /** The termination checks: stop when everything is complete, retire
      the variant once it is complete, stop at `max_opened`. */
  function ChecksSpec(p: Progress, vs: seq<Tag>, v: Tag, maxOpened: Option<int>): (Outcome, seq<Tag>) {
    if CompletedAll(p.book) then (Stop, vs)
    else
      match CompletedVariant(p.book, v)
      case Err(e) => (Failed(e), vs)
      case Ok(complete) =>
        var vs1 := if complete then RemoveFirst(vs, v) else vs;
        if maxOpened.Some? && p.packsOpened >= maxOpened.value then (Stop, vs1) else (Continue, vs1)
  }

  /** Opening a pack: one more opened, five more points, the pulls added
      with the new `opened`. */
  function OpenSpec(p: Progress, pulled: seq<RarityPull>): (Status, Progress) {
    var (s, b) := BookAdd(p.book, pulled, p.packsOpened + 1);
    (s, Progress(b, p.packsOpened + 1, p.points + 5, p.allCommonAt))
  }

  /** One iteration of the `simulate` loop with `pulled` as the pack's
      pulls: take the next variant, open the pack, buy, latch, check. */
  function StepSpec(p: Progress, vs: seq<Tag>, pulled: seq<RarityPull>, buyCards: bool, maxOpened: Option<int>)
    : (Outcome, Progress, seq<Tag>)
  {
    if vs == [] then (Failed(IndexError), p, vs)
    else
      var v := vs[0];
      var (s, p1) := OpenSpec(p, pulled);
      if s.Raised? then (Failed(s.error), p1, Rotate(vs))
      else
        var (s2, p2) := if buyCards then PurchaseSpec(p1, v) else (Done, p1);
        if s2.Raised? then (Failed(s2.error), p2, Rotate(vs))
        else
          var p3 := LatchSpec(p2);
          var (o, vs1) := ChecksSpec(p3, Rotate(vs), v, maxOpened);
          (o, p3, vs1)
  }

  /** The `simulate` loop over the packs supplied, one per iteration; when
      the supply runs out the loop has not broken. */
  function SimulateSpec(p: Progress, vs: seq<Tag>, packs: seq<seq<RarityPull>>, buyCards: bool, maxOpened: Option<int>)
    : (Outcome, Progress, seq<Tag>)
    decreases |packs|
  {
    if packs == [] then (Continue, p, vs)
    else
      var (o, p1, vs1) := StepSpec(p, vs, packs[0], buyCards, maxOpened);
      if o.Continue? then SimulateSpec(p1, vs1, packs[1..], buyCards, maxOpened) else (o, p1, vs1)
  }

  /** The auto-buy step of an iteration. */
  method AutoBuy(c: Collection) returns (s: Status)
    requires c.Valid()
    modifies c, c.Repr
    ensures c.Valid()
    ensures (s, ProgressOf(c)) == AutoBuySpec(old(ProgressOf(c)))
  {
    var points;
    s, points := BuyRemaining(c, c.packPoints);
    if s.Done? {
      c.packPoints := points;
    }
  }

  /** The purchase at the cap. */
  method CapBuy(c: Collection, v: Tag) returns (s: Status)
    requires c.Valid()
    modifies c, c.Repr
    ensures c.Valid()
    ensures (s, ProgressOf(c)) == CapBuySpec(old(ProgressOf(c)), v)
  {
    var picked := PickFromRemaining(c.Book(), Rarest(v));
    if picked.Err? {
      return Raised(picked.error);
    }
    s := c.Buy(picked.value);
  }

  /** The `buy_cards` block of an iteration. */
  method Purchase(c: Collection, v: Tag) returns (s: Status)
    requires c.Valid()
    modifies c, c.Repr
    ensures c.Valid()
    ensures (s, ProgressOf(c)) == PurchaseSpec(old(ProgressOf(c)), v)
  {
    var required := RequiredPackPoints(c.Book());
    if required.Err? {
      return Raised(required.error);
    }
    if required.value <= c.packPoints {
      s := AutoBuy(c);
      if s.Raised? {
        return;
      }
    }
    if c.packPoints == MAX_PACK_POINTS && !CompletedAll(c.Book()) {
      s := CapBuy(c, v);
    } else {
      s := Done;
    }
  }

  /** Opening a pack and adding its pulls. */
  method OpenPack(c: Collection, pulled: seq<RarityPull>) returns (s: Status)
    requires c.Valid()
    modifies c, c.Repr
    ensures c.Valid()
    ensures (s, ProgressOf(c)) == OpenSpec(old(ProgressOf(c)), pulled)
  {
    c.packsOpened := c.packsOpened + 1;
    c.packPoints := c.packPoints + 5;
    s := c.Add(pulled);
  }

  /** The `all_common_at` latch. */
  method Latch(c: Collection)
    requires c.Valid()
    modifies c
    ensures c.Valid()
    ensures ProgressOf(c) == LatchSpec(old(ProgressOf(c)))
  {
    if c.allCommonAt.None? && CompletedCommon(c.Book()) {
      c.allCommonAt := Some(c.packsOpened);
    }
  }

  /** The termination checks of an iteration. */
  method Checks(c: Collection, it: VariantIterator, v: Tag, maxOpened: Option<int>) returns (o: Outcome)
    requires c.Valid() && it !in c.Repr
    modifies it
    ensures (o, it.variants) == ChecksSpec(ProgressOf(c), old(it.variants), v, maxOpened)
  {
    var book := c.Book();
    if CompletedAll(book) {
      return Stop;
    }
    var complete := CompletedVariant(book, v);
    if complete.Err? {
      return Failed(complete.error);
    }
    if complete.value {
      it.Remove(v);
    }
    if maxOpened.Some? && c.packsOpened >= maxOpened.value {
      return Stop;
    }
    o := Continue;
  }

  /** One iteration of the `simulate` loop. */
  method Step(c: Collection, it: VariantIterator, pulled: seq<RarityPull>, buyCards: bool, maxOpened: Option<int>)
    returns (o: Outcome)
    requires c.Valid() && it !in c.Repr
    modifies c, c.Repr, it
    ensures c.Valid()
    ensures (o, ProgressOf(c), it.variants) == StepSpec(old(ProgressOf(c)), old(it.variants), pulled, buyCards, maxOpened)
  {
    var next := it.Next();
    if next.Err? {
      return Failed(next.error);
    }
    var s := OpenPack(c, pulled);
    if s.Raised? {
      return Failed(s.error);
    }
    if buyCards {
      s := Purchase(c, next.value);
      if s.Raised? {
        return Failed(s.error);
      }
    }
    Latch(c);
    o := Checks(c, it, next.value, maxOpened);
  }

  /** `simulate(expansion, collection, buy_cards=..., max_opened=...)` with
      the expansion's variants and one supplied pack per iteration. */
  method Simulate(c: Collection, variants: seq<Tag>, packs: seq<seq<RarityPull>>, buyCards: bool, maxOpened: Option<int>)
    returns (o: Outcome)
    requires c.Valid()
    modifies c, c.Repr
    ensures c.Valid()
    ensures var r := SimulateSpec(old(ProgressOf(c)), Initial(variants), packs, buyCards, maxOpened);
      o == r.0 && ProgressOf(c) == r.1
  {
    var it := new VariantIterator(variants);
    o := Continue;
    for i := 0 to |packs|
      invariant c.Valid() && fresh(it) && o.Continue?
      invariant SimulateSpec(ProgressOf(c), it.variants, packs[i..], buyCards, maxOpened) ==
        SimulateSpec(old(ProgressOf(c)), Initial(variants), packs, buyCards, maxOpened)
    {
      assert packs[i..][0] == packs[i] && packs[i..][1..] == packs[i + 1..];
      o := Step(c, it, packs[i], buyCards, maxOpened);
      if !o.Continue? {
        return;
      }
    }
    assert packs[|packs|..] == [];
  }

  // ---------------------------------------------------------------------
  // What an iteration does

  /** The purchases leave `opened` and `all_common_at` alone. */
  lemma PurchaseKeeps(p: Progress, v: Tag)
    ensures PurchaseSpec(p, v).1.packsOpened == p.packsOpened
    ensures PurchaseSpec(p, v).1.allCommonAt == p.allCommonAt
  {
  }

  /** An iteration opens exactly one pack; with no variant left it raises
      `IndexError` before opening anything. */
  lemma StepOpensOne(p: Progress, vs: seq<Tag>, pulled: seq<RarityPull>, buyCards: bool, maxOpened: Option<int>)
    ensures var r := StepSpec(p, vs, pulled, buyCards, maxOpened);
      (vs == [] ==> r == (Failed(IndexError), p, vs)) &&
      (vs != [] ==> r.1.packsOpened == p.packsOpened + 1)
  {
    if vs != [] {
      var (s, p1) := OpenSpec(p, pulled);
      PurchaseKeeps(p1, vs[0]);
    }
  }

  /** Without buying, an iteration adds exactly five points; with buying,
      the purchases start from the points plus five. */
  lemma StepPoints(p: Progress, vs: seq<Tag>, pulled: seq<RarityPull>, maxOpened: Option<int>)
    requires vs != []
    ensures StepSpec(p, vs, pulled, false, maxOpened).1.points == p.points + 5
    ensures var (s, p1) := OpenSpec(p, pulled);
      p1.points == p.points + 5 && p1.packsOpened == p.packsOpened + 1 &&
      (s.Done? ==> StepSpec(p, vs, pulled, true, maxOpened).1.points == PurchaseSpec(p1, vs[0]).1.points)
  {
  }

  /** When the points cover what is still needed, the auto-buy buys every
      missing card of every collection and spends exactly the points still
      needed. */
  lemma AutoBuyClears(p: Progress)
    requires BuyableBook(p.book) && RequiredPackPoints(p.book).Ok? && RequiredPackPoints(p.book).value <= p.points
    ensures var (s, p1) := AutoBuySpec(p);
      s == Done && p1.points == p.points - RequiredPackPoints(p.book).value &&
      p1.packsOpened == p.packsOpened && p1.allCommonAt == p.allCommonAt && |p1.book| == |p.book| &&
      forall k :: 0 <= k < |p.book| ==>
        p1.book[k].0 == p.book[k].0 && ClearedOut(p.book[k].1, p1.book[k].1, p.packsOpened) &&
        Remaining(p1.book[k].1, None) == Ok(0)
  {
    BuyRemainingPaysExactly(p.book, p.points, p.packsOpened);
  }

  /** The auto-buy fires exactly when the points cover what is still
      needed; short of that, the purchases are at most the one at the cap. */
  lemma AutoBuyOnlyWhenCovered(p: Progress, v: Tag)
    requires RequiredPackPoints(p.book).Ok? && RequiredPackPoints(p.book).value > p.points
    ensures p.points != MAX_PACK_POINTS || CompletedAll(p.book) ==> PurchaseSpec(p, v) == (Done, p)
    ensures p.points == MAX_PACK_POINTS && !CompletedAll(p.book) ==> PurchaseSpec(p, v) == CapBuySpec(p, v)
  {
  }

  /** The key found by the position of its name, when names are distinct. */
  lemma IndexOfDistinct(ks: seq<Tag>, i: nat)
    requires Distinct(ks) && i < |ks|
    ensures IndexOf(ks, ks[i]) == Some(i)
  {
  }

  /** A purchase at the cap that goes through buys exactly one card, the
      one `pick_from_remaining` picks, and pays its collection's cost. */
  lemma CapBuysOne(p: Progress, v: Tag) returns (i: nat)
    requires Distinct(Keys(p.book)) && CapBuySpec(p, v).0 == Done
    ensures i < |p.book| && HasRemaining(p.book[i].1)
    ensures Missing(p.book[i].1).Ok? && Missing(p.book[i].1).value != []
    ensures PickFromRemaining(p.book, Rarest(v)) == Ok(Some((p.book[i].0, Missing(p.book[i].1).value[0])))
    ensures var t := BuySpec(p.book[i].1, Missing(p.book[i].1).value[0], p.packsOpened);
      t.0 == Done && CapBuySpec(p, v).1 == p.(book := p.book[i := (p.book[i].0, t.1)], points := p.points - p.book[i].1.rarity.cost)
  {
    var picked := PickFromRemaining(p.book, Rarest(v));
    assert picked.Ok? && picked.value.Some?;
    i := PickLeastKey(p.book, Rarest(v));
    IndexOfDistinct(Keys(p.book), i);
    AddLatch(p.book[i].1, Missing(p.book[i].1).value[0], p.packsOpened);
  }

  /** The one card bought at the cap is the first missing card of a
      collection with something remaining whose rarest-card ratio is the
      least among all such collections. */
  lemma CapBuysRarest(p: Progress, v: Tag) returns (i: nat)
    requires Distinct(Keys(p.book)) && CapBuySpec(p, v).0 == Done
    ensures i < |p.book| && HasRemaining(p.book[i].1)
    ensures Missing(p.book[i].1).Ok? && Missing(p.book[i].1).value != []
    ensures var t := BuySpec(p.book[i].1, Missing(p.book[i].1).value[0], p.packsOpened);
      t.0 == Done && CapBuySpec(p, v).1 == p.(book := p.book[i := (p.book[i].0, t.1)], points := p.points - p.book[i].1.rarity.cost)
    ensures p.book[i].1.rarity.offeringRate != [] && Offering.Count(p.book[i].1.rarity, Some(v)) > 0
    ensures forall j :: 0 <= j < |p.book| && HasRemaining(p.book[j].1) ==>
      p.book[j].1.rarity.offeringRate != [] && Offering.Count(p.book[j].1.rarity, Some(v)) > 0 &&
      MaxRate(p.book[i].1.rarity.offeringRate) / Offering.Count(p.book[i].1.rarity, Some(v)) as real <=
      MaxRate(p.book[j].1.rarity.offeringRate) / Offering.Count(p.book[j].1.rarity, Some(v)) as real
  {
    i := CapBuysOne(p, v);
    var i2 := RarestPicksLeastRate(p.book, v);
    assert Keys(p.book)[i] == Keys(p.book)[i2];
  }

  /** A latched `all_common_at` never changes; it is latched, to the new
      `opened`, only once every common rarity is complete, and an iteration
      that gets to the latch with every common rarity complete latches it. */
  lemma StepLatch(p: Progress, vs: seq<Tag>, pulled: seq<RarityPull>, buyCards: bool, maxOpened: Option<int>)
    ensures var r := StepSpec(p, vs, pulled, buyCards, maxOpened);
      (p.allCommonAt.Some? ==> r.1.allCommonAt == p.allCommonAt) &&
      (p.allCommonAt.None? && r.1.allCommonAt.Some? ==>
        r.1.allCommonAt == Some(r.1.packsOpened) && CompletedCommon(r.1.book)) &&
      (!r.0.Failed? && CompletedCommon(r.1.book) ==> r.1.allCommonAt.Some?)
  {
    if vs != [] {
      var (s, p1) := OpenSpec(p, pulled);
      PurchaseKeeps(p1, vs[0]);
    }
  }

  /** An iteration breaks exactly when everything is complete or `opened`
      has reached `max_opened`. */
  lemma StepStops(p: Progress, vs: seq<Tag>, pulled: seq<RarityPull>, buyCards: bool, maxOpened: Option<int>)
    ensures var r := StepSpec(p, vs, pulled, buyCards, maxOpened);
      (r.0 == Stop ==> CompletedAll(r.1.book) || (maxOpened.Some? && r.1.packsOpened >= maxOpened.value)) &&
      (r.0 == Continue ==> !CompletedAll(r.1.book) && !(maxOpened.Some? && r.1.packsOpened >= maxOpened.value))
  {
  }

  /** The variant just used is retired once it is complete, unless the
      loop broke because everything is; the others keep their turn order. */
  lemma StepRetires(p: Progress, vs: seq<Tag>, pulled: seq<RarityPull>, buyCards: bool, maxOpened: Option<int>)
    requires vs != []
    ensures var r := StepSpec(p, vs, pulled, buyCards, maxOpened);
      !r.0.Failed? && !CompletedAll(r.1.book) ==>
        CompletedVariant(r.1.book, vs[0]).Ok? &&
        r.2 == if CompletedVariant(r.1.book, vs[0]).value then RemoveFirst(Rotate(vs), vs[0]) else Rotate(vs)
  {
  }

  /** With `ANY` as the only variant, the checks never retire it while
      some plain collection has `ANY` cards. */
  lemma ChecksKeepAny(p: Progress, maxOpened: Option<int>, k: nat)
    requires k < |p.book| && Plain(p.book[k].1) && Offering.AnyCount(p.book[k].1.rarity.counts) > 0
    ensures ChecksSpec(p, [ANY], ANY, maxOpened).1 == [ANY]
  {
    AnyNeverCompleted(p.book, k);
  }

  /** When `ANY` is the only variant and some plain collection has `ANY`
      cards, an iteration never retires it. */
  lemma AnyOnlyNeverRetired(p: Progress, pulled: seq<RarityPull>, buyCards: bool, maxOpened: Option<int>, k: nat)
    requires var r := StepSpec(p, [ANY], pulled, buyCards, maxOpened);
      k < |r.1.book| && Plain(r.1.book[k].1) && Offering.AnyCount(r.1.book[k].1.rarity.counts) > 0
    ensures StepSpec(p, [ANY], pulled, buyCards, maxOpened).2 == [ANY]
  {
    assert Rotate([ANY]) == [ANY];
    var r := StepSpec(p, [ANY], pulled, buyCards, maxOpened);
    if !r.0.Failed? || r.2 != [ANY] {
      ChecksKeepAny(r.1, maxOpened, k);
    }
  }

  /** Over the supplied packs the loop opens one pack per iteration, all of
      them when it never breaks, and never more than `max_opened` when it
      starts below it. */
  lemma {:induction false} SimulateBounded(p: Progress, vs: seq<Tag>, packs: seq<seq<RarityPull>>, buyCards: bool, maxOpened: Option<int>)
    ensures var r := SimulateSpec(p, vs, packs, buyCards, maxOpened);
      p.packsOpened <= r.1.packsOpened <= p.packsOpened + |packs| &&
      (r.0 == Continue ==> r.1.packsOpened == p.packsOpened + |packs|) &&
      (maxOpened.Some? && p.packsOpened < maxOpened.value ==> r.1.packsOpened <= maxOpened.value)
    decreases |packs|
  {
    if packs != [] {
      StepOpensOne(p, vs, packs[0], buyCards, maxOpened);
      StepStops(p, vs, packs[0], buyCards, maxOpened);
      var (o, p1, vs1) := StepSpec(p, vs, packs[0], buyCards, maxOpened);
      if o.Continue? {
        SimulateBounded(p1, vs1, packs[1..], buyCards, maxOpened);
      }
    }
  }

  /** Over the whole loop a latched `all_common_at` never changes, and one
      latched on the way is at most the final `opened`. */
  lemma {:induction false} SimulateKeepsLatch(p: Progress, vs: seq<Tag>, packs: seq<seq<RarityPull>>, buyCards: bool, maxOpened: Option<int>)
    ensures var r := SimulateSpec(p, vs, packs, buyCards, maxOpened);
      (p.allCommonAt.Some? ==> r.1.allCommonAt == p.allCommonAt) &&
      (p.allCommonAt.None? && r.1.allCommonAt.Some? ==> p.packsOpened < r.1.allCommonAt.value <= r.1.packsOpened)
    decreases |packs|
  {
    if packs != [] {
      StepLatch(p, vs, packs[0], buyCards, maxOpened);
      StepOpensOne(p, vs, packs[0], buyCards, maxOpened);
      var (o, p1, vs1) := StepSpec(p, vs, packs[0], buyCards, maxOpened);
      if o.Continue? {
        SimulateKeepsLatch(p1, vs1, packs[1..], buyCards, maxOpened);
        SimulateBounded(p1, vs1, packs[1..], buyCards, maxOpened);
      }
    }
  }
}
