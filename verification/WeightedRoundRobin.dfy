/** Weighted round-robin selection among the healthy backends of a tunnel.

    One selection reads a shared counter, reduces it modulo the total weight and walks the list. Fairness
    is a property of many selections: it is stated for every number of consecutive ones, from any counter.
 */
module WeightedRoundRobin {
  import opened Arith

  const U32 := 0x1_0000_0000
  const U64 := 0x1_0000_0000_0000_0000

  type Weight32 = n: nat | n < 0x1_0000_0000

  datatype Backend = Backend(id: string, weight: Weight32, healthy: bool)

  /** The outcome of a selection: no healthy backend, the position of a backend, or the remainder by a total
      weight that has wrapped around to zero. */
  datatype Selection = NoBackend | Selected(pos: nat) | RemainderByZero

  function Weight(b: Backend): (w: nat)
    ensures 1 <= w < U32
  {
    if b.weight < 1 then 1 else b.weight
  }

  function Healthy(backends: seq<Backend>): seq<Backend> {
    if backends == [] then []
    else if backends[0].healthy then [backends[0]] + Healthy(backends[1..])
    else Healthy(backends[1..])
  }

  function TotalWeight(list: seq<Backend>): nat {
    if list == [] then 0 else Weight(list[0]) + TotalWeight(list[1..])
  }

  /** The total weight of the backends before a position. */
  function WeightBefore(list: seq<Backend>, pos: nat): nat
    requires pos <= |list|
  {
    if pos == 0 then 0 else Weight(list[0]) + WeightBefore(list[1..], pos - 1)
  }

  /** The position whose share of the total weight holds a slot. */
  function Locate(list: seq<Backend>, slot: nat): (pos: nat)
    requires slot < TotalWeight(list)
    ensures pos < |list|
  {
    if slot < Weight(list[0]) then 0 else 1 + Locate(list[1..], slot - Weight(list[0]))
  }

  /** The selection a counter value leads to. The sum of the weights wraps around at 32 bits. */
  function Pick(list: seq<Backend>, counter: nat): (r: Selection)
    ensures r.Selected? ==> r.pos < |list|
  {
    if list == [] then NoBackend
    else
      var total := TotalWeight(list) % U32;
      if total == 0 then RemainderByZero
      else
        assert counter % total < TotalWeight(list);
        Selected(Locate(list, counter % total))
  }

  /** The position in the full list of the healthy backend at a position among the healthy ones. */
  function IndexOf(backends: seq<Backend>, pos: nat): (i: nat)
    requires pos < |Healthy(backends)|
    ensures i < |backends| && backends[i].healthy && Healthy(backends)[pos] == backends[i]
  {
    if !backends[0].healthy then 1 + IndexOf(backends[1..], pos)
    else if pos == 0 then 0
    else 1 + IndexOf(backends[1..], pos - 1)
  }

  /** The selection from the full list. */
  function Choice(backends: seq<Backend>, counter: nat): Selection {
    match Pick(Healthy(backends), counter)
    case Selected(pos) => Selected(IndexOf(backends, pos))
    case NoBackend => NoBackend
    case RemainderByZero => RemainderByZero
  }

  class TunnelEntry {
    var backends: seq<Backend>
    var rrCounter: nat

    constructor ()
      ensures backends == [] && rrCounter == 0
    {
      backends := [];
      rrCounter := 0;
    }

    method AddBackend(id: string, weight: Weight32)
      modifies this`backends
      ensures backends == old(backends) + [Backend(id, if weight == 0 then 1 else weight, true)]
    {
      backends := backends + [Backend(id, if weight < 1 then 1 else weight, true)];
    }

    method SelectBackend() returns (r: Selection)
      requires rrCounter < U64
      modifies this`rrCounter
      ensures r == Choice(backends, old(rrCounter))
      ensures rrCounter == if r.NoBackend? then old(rrCounter) else (old(rrCounter) + 1) % U64
    {
      var healthy := Healthy(backends);
      if healthy == [] {
        return NoBackend;
      }
      var totalWeight := TotalWeight(healthy) % U32;
      var counter := rrCounter;
      rrCounter := (rrCounter + 1) % U64;
      if totalWeight == 0 {
        return RemainderByZero;
      }
      var slot := counter % totalWeight;
      var i := 0;
      while i < |healthy| && slot >= Weight(healthy[i])
        invariant i <= |healthy|
        invariant 0 <= slot < TotalWeight(healthy[i..])
        invariant Locate(healthy, counter % totalWeight) == i + Locate(healthy[i..], slot)
      {
        assert healthy[i..][1..] == healthy[i + 1..];
        slot := slot - Weight(healthy[i]);
        i := i + 1;
      }
      if i < |healthy| {
        r := Selected(IndexOf(backends, i));
      } else {
        // The source falls back to the first healthy backend here.
        assert false;
      }
    }
  }

  // ----- the slots of one backend -----

  lemma {:induction false} SharesFitTotal(list: seq<Backend>, pos: nat)
    requires pos < |list|
    ensures WeightBefore(list, pos) + Weight(list[pos]) <= TotalWeight(list)
    ensures pos == |list| - 1 ==> WeightBefore(list, pos) + Weight(list[pos]) == TotalWeight(list)
  {
    if pos > 0 {
      SharesFitTotal(list[1..], pos - 1);
    } else {
      assert |list| == 1 ==> TotalWeight(list[1..]) == 0;
    }
  }

  /** A backend owns exactly the slots of its share. */
  lemma {:induction false} LocateIff(list: seq<Backend>, slot: nat, pos: nat)
    requires slot < TotalWeight(list) && pos < |list|
    ensures Locate(list, slot) == pos
       <==> WeightBefore(list, pos) <= slot < WeightBefore(list, pos) + Weight(list[pos])
  {
    if pos == 0 {
    } else if slot >= Weight(list[0]) {
      LocateIff(list[1..], slot - Weight(list[0]), pos - 1);
    }
  }

  // ----- counting selections -----

  /** How often a position is selected by n consecutive counter values. */
  function Count(list: seq<Backend>, pos: nat, start: nat, n: nat): nat {
    if n == 0 then 0
    else Count(list, pos, start, n - 1)
         + if Pick(list, (start + n - 1) % U64) == Selected(pos) then 1 else 0
  }

  function Clamp(x: int, w: nat): nat {
    if x < 0 then 0 else if x > w then w else x
  }

  /** The number of k < n whose remainder by W lies in [a, a + w). */
  function Hits(W: nat, a: nat, w: nat, n: nat): nat
    requires W > 0
  {
    n / W * w + Clamp(n % W - a, w)
  }

  lemma HitsStep(W: nat, a: nat, w: nat, n: nat)
    requires 0 < w && a + w <= W
    ensures Hits(W, a, w, n + 1) == Hits(W, a, w, n) + if a <= n % W < a + w then 1 else 0
  {
    var q, r := n / W, n % W;
    if r + 1 < W {
      QuotientIs(n + 1, W, q, r + 1);
    } else {
      assert W * (q + 1) == W * q + W;
      QuotientIs(n + 1, W, q + 1, 0);
      assert (q + 1) * w == q * w + w;
    }
  }

  lemma {:induction false} CountIsHits(list: seq<Backend>, pos: nat, start: nat, n: nat)
    requires pos < |list| && TotalWeight(list) < U32 && start + n <= U64
    ensures TotalWeight(list) > 0
    ensures var W, a, w := TotalWeight(list), WeightBefore(list, pos), Weight(list[pos]);
            Count(list, pos, start, n) == Hits(W, a, w, start + n) - Hits(W, a, w, start)
  {
    var W, a, w := TotalWeight(list), WeightBefore(list, pos), Weight(list[pos]);
    SharesFitTotal(list, pos);
    if n > 0 {
      CountIsHits(list, pos, start, n - 1);
      var k := start + n - 1;
      LocateIff(list, k % W, pos);
      HitsStep(W, a, w, k);
      PickSmall(list, k);
    }
  }

  lemma PickSmall(list: seq<Backend>, k: nat)
    requires list != [] && TotalWeight(list) < U32 && k < U64
    ensures TotalWeight(list) > 0
    ensures Pick(list, k % U64) == Selected(Locate(list, k % TotalWeight(list)))
  {
    QuotientIs(TotalWeight(list), U32, 0, TotalWeight(list));
    QuotientIs(k, U64, 0, k);
  }

  /** W hits less w misses, as a function of the remainder alone. */
  lemma HitsBalance(W: nat, a: nat, w: nat, n: nat)
    requires 0 < w && a + w <= W
    ensures Hits(W, a, w, n) * W - n * w == W * Clamp(n % W - a, w) - n % W * w
    ensures -(a * w) <= Hits(W, a, w, n) * W - n * w <= w * (W - w) - a * w
  {
    var q, r := n / W, n % W;
    var c := Clamp(r - a, w);
    assert (q * w + c) * W - (W * q + r) * w == W * c - r * w by {
      assert (q * w + c) * W == q * w * W + c * W;
      assert (W * q + r) * w == W * q * w + r * w;
      assert q * w * W == W * q * w;
    }
    BalanceRange(W, a, w, r);
  }

  lemma BalanceRange(W: nat, a: nat, w: nat, r: nat)
    requires 0 < w && a + w <= W && r < W
    ensures -(a * w) <= W * Clamp(r - a, w) - r * w <= w * (W - w) - a * w
  {
    if r < a {
      assert W * Clamp(r - a, w) == 0;
      MulMono(r, a, w);
      MulMono(a, W - w, w);
    } else if r < a + w {
      var d := r - a;
      MulDistributes(W, w, d);
      MulDistributes(r, a, w);
      MulMono(d, w, W - w);
    } else {
      MulDistributes(W, r, w);
      MulMono(W - r, W - w - a, w);
      MulDistributes(W - w, a, w);
    }
  }

  lemma MulDistributes(x: int, y: int, z: int)
    ensures (x - y) * z == x * z - y * z
  {
  }

  lemma MulMono(x: nat, y: nat, z: nat)
    requires x <= y
    ensures 0 <= x * z <= y * z
  {
  }

  // ----- fairness -----

  /** n consecutive selections give a backend its share n*w/W, up to less than w. */
  lemma TightlyFair(list: seq<Backend>, pos: nat, start: nat, n: nat)
    requires pos < |list| && TotalWeight(list) < U32 && start + n <= U64
    ensures var W, w, c := TotalWeight(list), Weight(list[pos]), Count(list, pos, start, n);
            -(w * (W - w)) <= c * W - n * w <= w * (W - w)
  {
    var W, a, w := TotalWeight(list), WeightBefore(list, pos), Weight(list[pos]);
    SharesFitTotal(list, pos);
    CountIsHits(list, pos, start, n);
    HitsBalance(W, a, w, start);
    HitsBalance(W, a, w, start + n);
    Spread(Hits(W, a, w, start + n), Hits(W, a, w, start), W, start, n, w);
  }

  lemma Spread(h1: nat, h0: nat, W: nat, start: nat, n: nat, w: nat)
    ensures (h1 - h0) * W - n * w == (h1 * W - (start + n) * w) - (h0 * W - start * w)
  {
  }

  lemma HitsOfOwnShare(W: nat, a: nat, w: nat)
    requires 0 < w && a + w <= W
    ensures Hits(W, a, w, a) == 0 && Hits(W, a, w, a + w) == w
  {
    QuotientIs(a, W, 0, a);
    if a + w < W {
      QuotientIs(a + w, W, 0, a + w);
    } else {
      QuotientIs(W, W, 1, 0);
    }
  }

  /** The bound is attained on both sides: by as many selections as the weight, from the backend's share on,
      and by as many as the other weights, from the end of its share on. */
  lemma BoundIsTight(list: seq<Backend>, pos: nat)
    requires pos < |list| && TotalWeight(list) < U32
    ensures var W, a, w := TotalWeight(list), WeightBefore(list, pos), Weight(list[pos]);
            && w <= W
            && Count(list, pos, a, w) * W - w * w == w * (W - w)
            && Count(list, pos, a + w, W - w) * W - (W - w) * w == -(w * (W - w))
  {
    hide Count, Weight, Hits, WeightBefore, TotalWeight;
    var W, a, w := TotalWeight(list), WeightBefore(list, pos), Weight(list[pos]);
    SharesFitTotal(list, pos);
    CountIsHits(list, pos, a, w);
    CountIsHits(list, pos, a + w, W - w);
    HitsOfOwnShare(W, a, w);
    HitsPeriod(W, a, w, a);
    MulDistributes(W, w, w);
  }

  lemma HitsPeriod(W: nat, a: nat, w: nat, n: nat)
    requires 0 < W
    ensures Hits(W, a, w, n + W) == Hits(W, a, w, n) + w
  {
    assert W * (n / W + 1) == W * (n / W) + W;
    QuotientIs(n + W, W, n / W + 1, n % W);
    assert (n / W + 1) * w == n / W * w + w;
  }

  /** A total weight of 2^32 or more starves the last backend for ever. */
  lemma OverflowStarvesLast(list: seq<Backend>, counter: nat)
    requires list != [] && TotalWeight(list) >= U32
    ensures Pick(list, counter) != Selected(|list| - 1)
  {
    var last := |list| - 1;
    SharesFitTotal(list, last);
    var total := TotalWeight(list) % U32;
    assert total <= TotalWeight(list) - U32;
    if total > 0 {
      LocateIff(list, counter % total, last);
    }
  }

  /** Two backends of weight 2^31: the sum wraps to zero, and no counter selects anything. */
  lemma TwoHeavyBackends(counter: nat)
    ensures var list := [Backend("a", 0x8000_0000, true), Backend("b", 0x8000_0000, true)];
            HealthyWeight(list) == 0x1_0000_0000 && Choice(list, counter) == RemainderByZero
  {
    var a, b := Backend("a", 0x8000_0000, true), Backend("b", 0x8000_0000, true);
    assert [a, b][1..] == [b] && [b][1..] == [];
    assert Healthy([b]) == [b] && TotalWeight([b]) == 0x8000_0000;
  }

  lemma {:induction false} OverflowCountsNothing(list: seq<Backend>, start: nat, n: nat)
    requires list != [] && TotalWeight(list) >= U32
    ensures Count(list, |list| - 1, start, n) == 0
  {
    if n > 0 {
      OverflowCountsNothing(list, start, n - 1);
      OverflowStarvesLast(list, (start + n - 1) % U64);
    }
  }

  /** As many selections as the total weight give every backend exactly its weight,
      if and only if the total weight fits 32 bits. */
  lemma ExactShareIff(list: seq<Backend>, start: nat)
    requires list != [] && start + TotalWeight(list) <= U64
    ensures (forall pos | 0 <= pos < |list| :: Count(list, pos, start, TotalWeight(list)) == Weight(list[pos]))
       <==> TotalWeight(list) < U32
  {
    var W := TotalWeight(list);
    if W < U32 {
      forall pos | 0 <= pos < |list|
        ensures Count(list, pos, start, W) == Weight(list[pos])
      {
        CountIsHits(list, pos, start, W);
        HitsPeriod(W, WeightBefore(list, pos), Weight(list[pos]), start);
      }
    } else {
      var last := |list| - 1;
      OverflowCountsNothing(list, start, W);
      assert Weight(list[last]) >= 1;
    }
  }

  // ----- the full list -----

  /** The weight that counts for a backend is the one it was added with, but at least one. */
  function HealthyWeight(backends: seq<Backend>): nat {
    if backends == [] then 0
    else
      var rest := HealthyWeight(backends[1..]);
      if !backends[0].healthy then rest
      else if backends[0].weight == 0 then 1 + rest
      else backends[0].weight + rest
  }

  lemma {:induction false} HealthyWeightIsTotal(backends: seq<Backend>)
    ensures HealthyWeight(backends) == TotalWeight(Healthy(backends))
    ensures Healthy(backends) != [] <==> exists i | 0 <= i < |backends| :: backends[i].healthy
    ensures Healthy(backends) != [] <==> HealthyWeight(backends) > 0
  {
    if backends != [] {
      var rest := backends[1..];
      HealthyWeightIsTotal(rest);
      assert forall i | 0 <= i < |rest| :: rest[i] == backends[i + 1];
      if i :| 0 <= i < |backends| && backends[i].healthy {
        assert i > 0 ==> rest[i - 1].healthy;
      }
      assert ([backends[0]] + Healthy(rest))[1..] == Healthy(rest);
    }
  }

  /** Nothing is selected exactly when no backend is healthy, and what is selected is healthy. */
  lemma ChoiceIff(backends: seq<Backend>, counter: nat)
    ensures Choice(backends, counter) == NoBackend <==> forall i | 0 <= i < |backends| :: !backends[i].healthy
    ensures Choice(backends, counter) == RemainderByZero
       <==> HealthyWeight(backends) > 0 && HealthyWeight(backends) % 0x1_0000_0000 == 0
    ensures Choice(backends, counter).Selected? ==>
              var i := Choice(backends, counter).pos; i < |backends| && backends[i].healthy
  {
    HealthyWeightIsTotal(backends);
  }

  function HealthyBefore(backends: seq<Backend>, i: nat): nat
    requires i <= |backends|
  {
    |Healthy(backends[..i])|
  }

  lemma {:induction false} IndexOfIff(backends: seq<Backend>, i: nat)
    requires i < |backends| && backends[i].healthy
    ensures HealthyBefore(backends, i) < |Healthy(backends)|
    ensures Healthy(backends)[HealthyBefore(backends, i)] == backends[i]
    ensures forall pos: nat | pos < |Healthy(backends)| ::
              IndexOf(backends, pos) == i <==> pos == HealthyBefore(backends, i)
  {
    var rest := backends[1..];
    if i > 0 {
      assert backends[..i][1..] == rest[..i - 1] && rest[i - 1] == backends[i];
      IndexOfIff(rest, i - 1);
    }
  }

  /** How often a backend of the full list is selected by n consecutive counter values. */
  function Chosen(backends: seq<Backend>, i: nat, start: nat, n: nat): nat {
    if n == 0 then 0
    else Chosen(backends, i, start, n - 1)
         + if Choice(backends, (start + n - 1) % U64) == Selected(i) then 1 else 0
  }

  lemma {:induction false} ChosenIsCount(backends: seq<Backend>, i: nat, start: nat, n: nat)
    requires i < |backends|
    ensures Chosen(backends, i, start, n)
         == if backends[i].healthy then Count(Healthy(backends), HealthyBefore(backends, i), start, n) else 0
  {
    if n > 0 {
      hide Pick, HealthyBefore, Healthy;
      ChosenIsCount(backends, i, start, n - 1);
      if backends[i].healthy {
        IndexOfIff(backends, i);
      }
    }
  }

  function ShareOf(b: Backend): nat {
    if !b.healthy then 0 else if b.weight == 0 then 1 else b.weight
  }

  /** Over the full list: as many selections as the weights of the healthy backends together choose each
      healthy backend exactly as often as its weight says and no other one, exactly if that sum fits 32 bits. */
  lemma ExactChoicesIff(backends: seq<Backend>, start: nat)
    requires start + HealthyWeight(backends) <= U64
    ensures (forall i | 0 <= i < |backends| ::
               Chosen(backends, i, start, HealthyWeight(backends)) == ShareOf(backends[i]))
       <==> HealthyWeight(backends) < 0x1_0000_0000
  {
    hide Count, TotalWeight, HealthyBefore, Chosen;
    HealthyWeightIsTotal(backends);
    var list, n := Healthy(backends), HealthyWeight(backends);
    forall i | 0 <= i < |backends|
      ensures Chosen(backends, i, start, n)
           == if backends[i].healthy then Count(list, HealthyBefore(backends, i), start, n) else 0
    {
      ChosenIsCount(backends, i, start, n);
    }
    forall i | 0 <= i < |backends| && backends[i].healthy
      ensures HealthyBefore(backends, i) < |list| && list[HealthyBefore(backends, i)] == backends[i]
    {
      IndexOfIff(backends, i);
    }
    if list != [] {
      ExactShareIff(list, start);
      if n >= U32 {
        var pos :| 0 <= pos < |list| && Count(list, pos, start, n) != Weight(list[pos]);
        var i := IndexOf(backends, pos);
        IndexOfIff(backends, i);
        assert Chosen(backends, i, start, n) != ShareOf(backends[i]);
      }
    } else {
      NothingChosen(backends, start, n);
    }
  }

  lemma NothingChosen(backends: seq<Backend>, start: nat, n: nat)
    requires Healthy(backends) == []
    ensures forall i | 0 <= i < |backends| :: !backends[i].healthy
  {
    HealthyWeightIsTotal(backends);
  }

  /** Any number of consecutive selections gives each backend its share, up to less than its weight. */
  lemma ChoicesAreFair(backends: seq<Backend>, i: nat, start: nat, n: nat)
    requires i < |backends| && HealthyWeight(backends) < 0x1_0000_0000 && start + n <= U64
    ensures var W, w, c := HealthyWeight(backends), ShareOf(backends[i]), Chosen(backends, i, start, n);
            -(w * (W - w)) <= c * W - n * w <= w * (W - w)
  {
    hide Count, TotalWeight, HealthyBefore, Chosen;
    HealthyWeightIsTotal(backends);
    ChosenIsCount(backends, i, start, n);
    if backends[i].healthy {
      IndexOfIff(backends, i);
      TightlyFair(Healthy(backends), HealthyBefore(backends, i), start, n);
    }
  }
}
