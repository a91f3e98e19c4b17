/** Lookup and removal by id, shared by every list of records the blog keeps: the
    `findIndex(p => p.id === id)` and `filter(x => x.id !== id)` idioms. */
module Records {
  import opened Wrappers
  import opened Seqs

  /** `xs.findIndex(x => idOf(x) === id)`, with `-1` as `None`. */
  function IndexOfId<T>(xs: seq<T>, id: string, idOf: T -> string): (r: Option<nat>)
    ensures r.Some? ==> r.value < |xs| && idOf(xs[r.value]) == id
    ensures r.Some? ==> forall j :: 0 <= j < r.value ==> idOf(xs[j]) != id
    ensures r.None? <==> forall j :: 0 <= j < |xs| ==> idOf(xs[j]) != id
  {
    IndexOfIdFrom(xs, 0, id, idOf)
  }

  function IndexOfIdFrom<T>(xs: seq<T>, i: nat, id: string, idOf: T -> string): (r: Option<nat>)
    requires i <= |xs|
    ensures r.Some? ==> i <= r.value < |xs| && idOf(xs[r.value]) == id
    ensures r.Some? ==> forall j :: i <= j < r.value ==> idOf(xs[j]) != id
    ensures r.None? <==> forall j :: i <= j < |xs| ==> idOf(xs[j]) != id
    decreases |xs| - i
  {
    if i == |xs| then None
    else if idOf(xs[i]) == id then Some(i)
    else IndexOfIdFrom(xs, i + 1, id, idOf)
  }

  function OtherId<T>(idOf: T -> string, id: string): T -> bool {
    x => idOf(x) != id
  }

  /** `xs.filter(x => idOf(x) !== id)`. */
  function RemoveId<T(==,!new)>(xs: seq<T>, id: string, idOf: T -> string): seq<T> {
    Filter(xs, OtherId(idOf, id))
  }

  /** Removal drops every copy of each record with the id, keeps every copy of the others,
      and keeps them in order. */
  lemma RemoveIdSpec<T(!new)>(xs: seq<T>, id: string, idOf: T -> string)
    ensures forall x :: x in RemoveId(xs, id, idOf) <==> x in xs && idOf(x) != id
    ensures forall x :: multiset(RemoveId(xs, id, idOf))[x] == if idOf(x) != id then multiset(xs)[x] else 0
    ensures IsSubseq(RemoveId(xs, id, idOf), xs)
    ensures (forall j :: 0 <= j < |xs| ==> idOf(xs[j]) != id) ==> RemoveId(xs, id, idOf) == xs
  {
    FilterSpec(xs, OtherId(idOf, id));
    FilterAll(xs, OtherId(idOf, id));
  }

  lemma {:induction false} FilterAll<T(!new)>(xs: seq<T>, keep: T -> bool)
    ensures (forall j :: 0 <= j < |xs| ==> keep(xs[j])) ==> Filter(xs, keep) == xs
  {
    if |xs| > 0 {
      FilterAll(xs[1..], keep);
      if forall j :: 0 <= j < |xs| ==> keep(xs[j]) {
        assert forall j :: 0 <= j < |xs[1..]| ==> xs[1..][j] == xs[j + 1];
      }
    }
  }
}
