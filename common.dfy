/** Shared vocabulary: optional values, Python-style failures, variant tags
    and insertion-ordered dictionaries keyed by tag. */
module Common {

  datatype Option<+T> = None | Some(value: T)

  /** The exception kinds the modelled code can raise. */
  datatype Error =
    | KeyError          // dict lookup of a missing key
    | IndexError        // list index out of range, or next() on an empty deque
    | ValueError        // list.index of an absent element, randint on an empty range, max of nothing
    | AttributeError    // rare_counts is None
    | TypeError         // unpacking None
    | ZeroDivisionError // ratio over a rarity with no cards for the variant
    | StopIteration     // next() on an exhausted generator
    | RuntimeError      // "Ran out of points"

  /** Either a value or the exception that was raised instead. */
  datatype Result<+T> = Ok(value: T) | Err(error: Error) {
    predicate IsFailure() { Err? }
    function PropagateFailure<U>(): Result<U> requires Err? { Err(error) }
    function Extract(): T requires Ok? { value }
  }

  /** The outcome of a statement that returns nothing: it finished, or it
      raised. */
  datatype Status = Done | Raised(error: Error) {
    predicate IsFailure() { Raised? }
    function PropagateFailure(): Status requires Raised? { this }
  }

  /** A variant tag ("Pikachu", "Charizard", ...). */
  type Tag = string

  /** The reserved tag of the cards every variant offers. */
  const ANY: Tag := "_any_"

  /** A Python dict keyed by tag, in insertion order. */
  type Dict<V> = seq<(Tag, V)>

  /** A Python dict from tag to card count. */
  type Counts = Dict<nat>

  function Keys<V>(d: Dict<V>): (ks: seq<Tag>)
    ensures |ks| == |d| && forall i :: 0 <= i < |d| ==> ks[i] == d[i].0
  {
    seq(|d|, i requires 0 <= i < |d| => d[i].0)
  }

  predicate Distinct<T(==)>(s: seq<T>) {
    forall i, j :: 0 <= i < j < |s| ==> s[i] != s[j]
  }

  /** Dropping the first entry drops the first key, and keeps distinct keys
      distinct. */
  lemma TailKeys<V>(d: Dict<V>)
    requires d != []
    ensures Keys(d[1..]) == Keys(d)[1..]
    ensures Distinct(Keys(d)) ==> Distinct(Keys(d[1..]))
  {
    var ks := Keys(d);
    var ts := Keys(d[1..]);
    forall a | 0 <= a < |ts| ensures ts[a] == ks[1..][a] {
      assert ts[a] == ks[a + 1];
    }
    if Distinct(ks) {
      forall a, b | 0 <= a < b < |ts| ensures ts[a] != ts[b] {
        assert ts[a] == ks[a + 1] && ts[b] == ks[b + 1];
      }
    }
  }

  /** Dropping the last entry drops the last key, and keeps distinct keys
      distinct. */
  lemma InitKeys<V>(d: Dict<V>)
    requires d != []
    ensures Keys(d[..|d| - 1]) == Keys(d)[..|d| - 1]
    ensures Distinct(Keys(d)) ==> Distinct(Keys(d[..|d| - 1]))
  {
    var ks := Keys(d);
    var ts := Keys(d[..|d| - 1]);
    forall a | 0 <= a < |ts| ensures ts[a] == ks[..|d| - 1][a] {
      assert ts[a] == ks[a];
    }
    if Distinct(ks) {
      forall a, b | 0 <= a < b < |ts| ensures ts[a] != ts[b] {
        assert ts[a] == ks[a] && ts[b] == ks[b];
      }
    }
  }

  /** Position of the first occurrence of `x` in `s` (list.index). */
  function IndexOf<T(==)>(s: seq<T>, x: T): (r: Option<nat>)
    ensures r.Some? ==> r.value < |s| && s[r.value] == x && forall j :: 0 <= j < r.value ==> s[j] != x
    ensures r.None? <==> x !in s
  {
    if s == [] then None
    else if s[0] == x then Some(0)
    else match IndexOf(s[1..], x)
      case None => None
      case Some(i) => Some(i + 1)
  }

  /** `d[k]` when `k` is a key, else nothing. */
  function Lookup<V>(d: Dict<V>, k: Tag): (r: Option<V>)
    ensures r.Some? <==> k in Keys(d)
    ensures r.Some? ==> exists i :: 0 <= i < |d| && d[i] == (k, r.value)
  {
    if d == [] then None
    else if d[0].0 == k then Some(d[0].1)
    else
      var r := Lookup(d[1..], k);
      assert r.Some? ==> exists i :: 0 <= i < |d| - 1 && d[1..][i] == (k, r.value);
      r
  }

  /** `d.get(k, default)` */
  function Get(d: Counts, k: Tag, default: nat): nat {
    match Lookup(d, k)
    case Some(v) => v
    case None => default
  }

  /** `sum(d.values())` */
  function SumValues(d: Counts): nat {
    if d == [] then 0 else d[0].1 + SumValues(d[1..])
  }

  /** `list(range(n))` */
  function Range(n: nat): (r: seq<nat>)
    ensures |r| == n && forall i :: 0 <= i < n ==> r[i] == i
  {
    seq(n, i => i)
  }
}
