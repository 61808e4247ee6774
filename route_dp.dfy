/**
 * The layered shortest-route optimizer that both the client (calculatePath in
 * frontend/src/utils/algorithm.ts) and the server (FindOptimalPath in the
 * service) run once the chest index is known and every required layer is
 * non-empty: the first-layer costs, the relaxation of each later layer with a
 * strict-less-than first-minimum back-link, the choice of the treasure cell,
 * the walk back over the back-links, the reversal, and the step list.
 *
 * The Euclidean distance of the source is a parameter `dist`; the facts the
 * proofs rely on are collected in IsDistance.
 */
module RouteDp {
  import opened Types
  import opened Wrappers
  import opened ChestIndex

  type DistFn = (Pos, Pos) -> real

  /** What the route needs of the distance: non-negative, symmetric, zero exactly on equal cells. */
  ghost predicate IsDistance(dist: DistFn) {
    && (forall a: Pos, b: Pos :: dist(a, b) >= 0.0)
    && (forall a: Pos, b: Pos :: dist(a, b) == dist(b, a))
    && (forall a: Pos, b: Pos :: dist(a, b) == 0.0 <==> a == b)
  }

  /** One DP cell: the cheapest cost found and where it came from (-1, -1 on the first layer). */
  datatype Entry = Entry(dist: real, prevChest: int, prevPosIndex: int)

  /** One element of the reconstructed path: a chest type and an index into its position list. */
  datatype Visit = Visit(chest: int, posIndex: nat)

  /**
   * The first index attaining the minimum of s, as a left-to-right scan that
   * replaces the candidate only on a strictly smaller value returns it.
   */
  function FirstArgMin(s: seq<real>): (k: nat)
    requires |s| > 0
    ensures k < |s|
    ensures forall j :: 0 <= j < |s| ==> s[k] <= s[j]
    ensures forall j :: 0 <= j < k ==> s[k] < s[j]
    decreases |s|
  {
    if |s| == 1 then 0
    else
      var k := FirstArgMin(s[..|s| - 1]);
      if s[|s| - 1] < s[k] then |s| - 1 else k
  }

  /** Cost of reaching q through each cell of the previous layer. */
  function Candidates(prevDp: seq<Entry>, prevPositions: seq<Pos>, q: Pos, dist: DistFn): seq<real>
    requires |prevDp| == |prevPositions|
  {
    seq(|prevPositions|, j requires 0 <= j < |prevPositions| => prevDp[j].dist + dist(prevPositions[j], q))
  }

  /** The first required layer: straight from the start cell, no predecessor. */
  function FirstLayer(first: seq<Pos>, dist: DistFn): seq<Entry> {
    seq(|first|, i requires 0 <= i < |first| => Entry(dist(Origin, first[i]), -1, -1))
  }

  /** The DP cell of position q: the first cheapest predecessor and its cost. */
  function Relaxed(prevDp: seq<Entry>, prevPositions: seq<Pos>, q: Pos, prevChest: int, dist: DistFn): Entry
    requires |prevDp| == |prevPositions| > 0
  {
    var cands := Candidates(prevDp, prevPositions, q, dist);
    var j := FirstArgMin(cands);
    Entry(cands[j], prevChest, j)
  }

  function NextLayer(prevDp: seq<Entry>, prevPositions: seq<Pos>, current: seq<Pos>, prevChest: int, dist: DistFn): seq<Entry>
    requires |prevDp| == |prevPositions| > 0
  {
    seq(|current|, i requires 0 <= i < |current| => Relaxed(prevDp, prevPositions, current[i], prevChest, dist))
  }

  /** The DP row of chest type k when the chain starts at type s. */
  function Dp(idx: ChestMap, s: int, k: int, dist: DistFn): (row: seq<Entry>)
    requires s <= k && LayersReady(idx, s, k)
    ensures |row| == |idx[k]|
    decreases k - s
  {
    if k == s then FirstLayer(idx[s], dist)
    else NextLayer(Dp(idx, s, k - 1, dist), idx[k - 1], idx[k], k - 1, dist)
  }

  /** The recurrence each DP cell satisfies, with the strict-less-than tie-break. */
  lemma DpRecurrence(idx: ChestMap, s: int, k: int, i: int, dist: DistFn)
    requires s <= k && LayersReady(idx, s, k) && 0 <= i < |idx[k]|
    ensures k == s ==> Dp(idx, s, k, dist)[i] == Entry(dist(Origin, idx[s][i]), -1, -1)
    ensures k > s ==>
      var cands := Candidates(Dp(idx, s, k - 1, dist), idx[k - 1], idx[k][i], dist);
      var e := Dp(idx, s, k, dist)[i];
      && e.prevChest == k - 1
      && 0 <= e.prevPosIndex < |idx[k - 1]|
      && e.dist == cands[e.prevPosIndex]
      && (forall j :: 0 <= j < |cands| ==> e.dist <= cands[j])
      && (forall j :: 0 <= j < e.prevPosIndex ==> e.dist < cands[j])
  {
  }

  function Costs(row: seq<Entry>): seq<real> {
    seq(|row|, i requires 0 <= i < |row| => row[i].dist)
  }

  /** The path the back-links give from cell i of type k back to type s, in forward order. */
  function TracePath(idx: ChestMap, s: int, k: int, i: nat, dist: DistFn): (path: seq<Visit>)
    requires s <= k && LayersReady(idx, s, k) && i < |idx[k]|
    ensures |path| == k - s + 1
    ensures forall t :: 0 <= t < |path| ==> path[t].chest == s + t && path[t].posIndex < |idx[s + t]|
    ensures path[|path| - 1] == Visit(k, i)
    decreases k - s
  {
    if k == s then [Visit(s, i)]
    else
      DpBackLinkShape(idx, s, k, i, dist);
      TracePath(idx, s, k - 1, Dp(idx, s, k, dist)[i].prevPosIndex, dist) + [Visit(k, i)]
  }

  predicate ValidVisits(idx: ChestMap, vs: seq<Visit>) {
    forall t :: 0 <= t < |vs| ==> vs[t].chest in idx && vs[t].posIndex < |idx[vs[t].chest]|
  }

  /** A choice of one cell per chest type s..k, in increasing type order. */
  predicate IsChain(idx: ChestMap, s: int, k: int, vs: seq<Visit>) {
    && |vs| == k - s + 1
    && ValidVisits(idx, vs)
    && forall t :: 0 <= t < |vs| ==> vs[t].chest == s + t && vs[t].chest in idx && vs[t].posIndex < |idx[s + t]|
  }

  function PosOf(idx: ChestMap, v: Visit): Pos
    requires v.chest in idx && v.posIndex < |idx[v.chest]|
  {
    idx[v.chest][v.posIndex]
  }

  function Positions(idx: ChestMap, vs: seq<Visit>): seq<Pos>
    requires ValidVisits(idx, vs)
  {
    seq(|vs|, t requires 0 <= t < |vs| => PosOf(idx, vs[t]))
  }

  /** Where the traveler stands after visiting vs from o. */
  function LastPos(idx: ChestMap, o: Pos, vs: seq<Visit>): Pos
    requires ValidVisits(idx, vs)
  {
    if |vs| == 0 then o else PosOf(idx, vs[|vs| - 1])
  }

  /** Length of the route o -> qs[0] -> qs[1] -> ... */
  function PathCost(o: Pos, qs: seq<Pos>, dist: DistFn): real
    decreases |qs|
  {
    if |qs| == 0 then 0.0
    else
      var init := qs[..|qs| - 1];
      PathCost(o, init, dist) + dist(if |init| == 0 then o else init[|init| - 1], qs[|qs| - 1])
  }

  /**
   * The steps emitted while walking vs from o: each step goes from the current
   * cell to the visit's cell; a visit on the current cell emits nothing.
   */
  function StepsOf(idx: ChestMap, o: Pos, vs: seq<Visit>, dist: DistFn): seq<Step>
    requires ValidVisits(idx, vs)
    decreases |vs|
  {
    if |vs| == 0 then []
    else
      var init := vs[..|vs| - 1];
      var from := LastPos(idx, o, init);
      var to := PosOf(idx, vs[|vs| - 1]);
      StepsOf(idx, o, init, dist) + (if from == to then [] else [Step(from, to, vs[|vs| - 1].chest, dist(from, to))])
  }

  /** The fuel of a step list: the sum of its distances, accumulated left to right. */
  function Fuel(steps: seq<Step>): (f: real)
    ensures |steps| == 0 ==> f == 0.0
    ensures (forall k :: 0 <= k < |steps| ==> steps[k].distance >= 0.0) ==> f >= 0.0
    decreases |steps|
  {
    if |steps| == 0 then 0.0 else Fuel(steps[..|steps| - 1]) + steps[|steps| - 1].distance
  }

  /** The index of the treasure cell the route ends at. */
  function BestFinal(idx: ChestMap, s: int, p: int, dist: DistFn): (i: nat)
    requires s <= p && LayersReady(idx, s, p)
    ensures i < |idx[p]|
  {
    FirstArgMin(Costs(Dp(idx, s, p, dist)))
  }

  /** The route calculatePath returns once the chain s..p is known to be non-empty. */
  function RouteSteps(idx: ChestMap, s: int, p: int, dist: DistFn): seq<Step>
    requires s <= p && LayersReady(idx, s, p)
  {
    StepsOf(idx, Origin, TracePath(idx, s, p, BestFinal(idx, s, p, dist), dist), dist)
  }

  lemma PathCostSnoc(o: Pos, qs: seq<Pos>, q: Pos, dist: DistFn)
    ensures PathCost(o, qs + [q], dist) == PathCost(o, qs, dist) + dist(if |qs| == 0 then o else qs[|qs| - 1], q)
  {
    assert (qs + [q])[..|qs|] == qs;
  }

  lemma PositionsSnoc(idx: ChestMap, vs: seq<Visit>, v: Visit)
    requires ValidVisits(idx, vs + [v])
    ensures ValidVisits(idx, vs) && v.chest in idx && v.posIndex < |idx[v.chest]|
    ensures Positions(idx, vs + [v]) == Positions(idx, vs) + [PosOf(idx, v)]
  {
    assert forall t :: 0 <= t < |vs| ==> (vs + [v])[t] == vs[t];
    assert (vs + [v])[|vs|] == v;
  }

  lemma FuelSnoc(steps: seq<Step>, extra: seq<Step>)
    requires |extra| <= 1
    ensures Fuel(steps + extra) == Fuel(steps) + (if |extra| == 0 then 0.0 else extra[0].distance)
  {
    if |extra| == 0 {
      assert steps + extra == steps;
    } else {
      assert (steps + extra)[..|steps|] == steps;
    }
  }

  /** Back-links: -1 on the first layer, the previous type on every later one. */
  lemma DpBackLinkShape(idx: ChestMap, s: int, k: int, i: nat, dist: DistFn)
    requires s <= k && LayersReady(idx, s, k) && i < |idx[k]|
    ensures k == s ==> Dp(idx, s, k, dist)[i].prevChest == -1
    ensures k > s ==> Dp(idx, s, k, dist)[i].prevChest == k - 1
    ensures k > s ==> 0 <= Dp(idx, s, k, dist)[i].prevPosIndex < |idx[k - 1]|
  {
    DpRecurrence(idx, s, k, i, dist);
  }

  /** A cell of a later layer costs exactly its back-link's cost plus the hop. */
  lemma DpViaBackLink(idx: ChestMap, s: int, k: int, i: nat, dist: DistFn)
    requires s < k && LayersReady(idx, s, k) && i < |idx[k]|
    ensures 0 <= Dp(idx, s, k, dist)[i].prevPosIndex < |idx[k - 1]|
    ensures var j := Dp(idx, s, k, dist)[i].prevPosIndex;
      Dp(idx, s, k, dist)[i].dist == Dp(idx, s, k - 1, dist)[j].dist + dist(idx[k - 1][j], idx[k][i])
  {
    DpRecurrence(idx, s, k, i, dist);
  }

  /** A cell of a later layer costs no more than any predecessor's cost plus the hop. */
  lemma DpBelowEachPredecessor(idx: ChestMap, s: int, k: int, i: nat, j: nat, dist: DistFn)
    requires s < k && LayersReady(idx, s, k) && i < |idx[k]| && j < |idx[k - 1]|
    ensures Dp(idx, s, k, dist)[i].dist <= Dp(idx, s, k - 1, dist)[j].dist + dist(idx[k - 1][j], idx[k][i])
  {
    DpRecurrence(idx, s, k, i, dist);
    var cands := Candidates(Dp(idx, s, k - 1, dist), idx[k - 1], idx[k][i], dist);
    assert cands[j] == Dp(idx, s, k - 1, dist)[j].dist + dist(idx[k - 1][j], idx[k][i]);
  }

  lemma DpFirstLayer(idx: ChestMap, s: int, i: nat, dist: DistFn)
    requires LayersReady(idx, s, s) && i < |idx[s]|
    ensures Dp(idx, s, s, dist)[i].dist == dist(Origin, idx[s][i])
  {
  }

  lemma TracePathSnoc(idx: ChestMap, s: int, k: int, i: nat, dist: DistFn)
    requires s < k && LayersReady(idx, s, k) && i < |idx[k]|
    ensures LayersReady(idx, s, k - 1)
    ensures 0 <= Dp(idx, s, k, dist)[i].prevPosIndex < |idx[k - 1]|
    ensures TracePath(idx, s, k, i, dist) ==
      TracePath(idx, s, k - 1, Dp(idx, s, k, dist)[i].prevPosIndex, dist) + [Visit(k, i)]
  {
    DpViaBackLink(idx, s, k, i, dist);
  }

  /** The cost of every DP cell is the length of the path its back-links trace. */
  lemma {:induction false} DpAttained(idx: ChestMap, s: int, k: int, i: nat, dist: DistFn)
    requires s <= k && LayersReady(idx, s, k) && i < |idx[k]|
    ensures IsChain(idx, s, k, TracePath(idx, s, k, i, dist))
    ensures Dp(idx, s, k, dist)[i].dist == PathCost(Origin, Positions(idx, TracePath(idx, s, k, i, dist)), dist)
    decreases k - s
  {
    var path := TracePath(idx, s, k, i, dist);
    if k == s {
      assert path == [] + [Visit(s, i)];
      PositionsSnoc(idx, [], Visit(s, i));
      PathCostSnoc(Origin, [], idx[s][i], dist);
      DpFirstLayer(idx, s, i, dist);
    } else {
      TracePathSnoc(idx, s, k, i, dist);
      DpViaBackLink(idx, s, k, i, dist);
      var j: nat := Dp(idx, s, k, dist)[i].prevPosIndex;
      DpAttained(idx, s, k - 1, j, dist);
      var prev := TracePath(idx, s, k - 1, j, dist);
      ChainCostSnoc(idx, prev, Visit(k, i), dist);
      assert PosOf(idx, prev[|prev| - 1]) == idx[k - 1][j];
    }
  }

  /** Extending a walk by one visit adds the hop from its last cell to the new one. */
  lemma ChainCostSnoc(idx: ChestMap, prev: seq<Visit>, v: Visit, dist: DistFn)
    requires |prev| > 0 && ValidVisits(idx, prev + [v])
    ensures ValidVisits(idx, prev) && v.chest in idx && v.posIndex < |idx[v.chest]|
    ensures PathCost(Origin, Positions(idx, prev + [v]), dist) ==
      PathCost(Origin, Positions(idx, prev), dist) + dist(PosOf(idx, prev[|prev| - 1]), PosOf(idx, v))
  {
    PositionsSnoc(idx, prev, v);
    var P := Positions(idx, prev);
    assert P[|prev| - 1] == PosOf(idx, prev[|prev| - 1]);
    PathCostSnoc(Origin, P, PosOf(idx, v), dist);
  }

  /** Dropping the last visit of a chain s..k leaves a chain s..k-1. */
  lemma ChainInit(idx: ChestMap, s: int, k: int, vs: seq<Visit>)
    requires s < k && IsChain(idx, s, k, vs)
    ensures IsChain(idx, s, k - 1, vs[..|vs| - 1])
  {
    var init := vs[..|vs| - 1];
    assert forall t :: 0 <= t < |init| ==> init[t] == vs[t];
  }

  /** The inductive step of DpMinimal: one more hop keeps the DP cost below the chain's cost. */
  lemma DpMinimalStep(idx: ChestMap, s: int, k: int, vs: seq<Visit>, dist: DistFn)
    requires s < k && LayersReady(idx, s, k) && IsChain(idx, s, k, vs)
    requires IsChain(idx, s, k - 1, vs[..|vs| - 1])
    requires Dp(idx, s, k - 1, dist)[vs[|vs| - 2].posIndex].dist <= PathCost(Origin, Positions(idx, vs[..|vs| - 1]), dist)
    ensures Dp(idx, s, k, dist)[vs[|vs| - 1].posIndex].dist <= PathCost(Origin, Positions(idx, vs), dist)
  {
    var init := vs[..|vs| - 1];
    var v, u := vs[|vs| - 1], vs[|vs| - 2];
    InitLast(vs);
    assert init[|init| - 1] == u;
    ChainCostSnoc(idx, init, v, dist);
    assert u.chest == k - 1 && v.chest == k;
    DpBelowEachPredecessor(idx, s, k, v.posIndex, u.posIndex, dist);
  }

  /** A one-cell chain costs exactly its first-layer DP entry. */
  lemma DpMinimalFirst(idx: ChestMap, s: int, vs: seq<Visit>, dist: DistFn)
    requires LayersReady(idx, s, s) && IsChain(idx, s, s, vs)
    ensures Dp(idx, s, s, dist)[vs[0].posIndex].dist == PathCost(Origin, Positions(idx, vs), dist)
  {
    var i := vs[0].posIndex;
    assert vs == [] + [vs[0]];
    PositionsSnoc(idx, [], vs[0]);
    assert Positions(idx, vs) == [idx[s][i]];
    PathCostSnoc(Origin, [], idx[s][i], dist);
    DpFirstLayer(idx, s, i, dist);
  }

  /** No choice of one cell per type s..k ending at a given cell of type k is cheaper than its DP cost. */
  lemma {:induction false} DpMinimal(idx: ChestMap, s: int, k: int, vs: seq<Visit>, dist: DistFn)
    requires s <= k && LayersReady(idx, s, k) && IsChain(idx, s, k, vs)
    ensures Dp(idx, s, k, dist)[vs[|vs| - 1].posIndex].dist <= PathCost(Origin, Positions(idx, vs), dist)
    decreases k - s
  {
    if k == s {
      DpMinimalFirst(idx, s, vs, dist);
    } else {
      ChainInit(idx, s, k, vs);
      DpMinimal(idx, s, k - 1, vs[..|vs| - 1], dist);
      DpMinimalStep(idx, s, k, vs, dist);
    }
  }

  /** Walking the visits and summing the emitted steps gives the length of the visited path. */
  lemma {:induction false} StepsFuel(idx: ChestMap, o: Pos, vs: seq<Visit>, dist: DistFn)
    requires ValidVisits(idx, vs) && IsDistance(dist)
    ensures Fuel(StepsOf(idx, o, vs, dist)) == PathCost(o, Positions(idx, vs), dist)
    decreases |vs|
  {
    if |vs| > 0 {
      var init := vs[..|vs| - 1];
      var v := vs[|vs| - 1];
      assert vs == init + [v];
      PositionsSnoc(idx, init, v);
      StepsFuel(idx, o, init, dist);
      var from := LastPos(idx, o, init);
      var to := PosOf(idx, v);
      var extra := if from == to then [] else [Step(from, to, v.chest, dist(from, to))];
      FuelSnoc(StepsOf(idx, o, init, dist), extra);
      PathCostSnoc(o, Positions(idx, init), to, dist);
      assert dist(from, to) == 0.0 <==> from == to;
    }
  }

  /**
   * The emitted steps chain: the first leaves o, each leaves where the previous
   * one arrived, none stays in place, each carries the distance of its two ends,
   * and the traveler ends where the visits end.
   */
  lemma {:induction false} StepsChained(idx: ChestMap, o: Pos, vs: seq<Visit>, dist: DistFn)
    requires ValidVisits(idx, vs)
    ensures var S := StepsOf(idx, o, vs, dist);
      && (|S| > 0 ==> S[0].from == o)
      && (forall t :: 0 < t < |S| ==> S[t].from == S[t - 1].to)
      && (forall t :: 0 <= t < |S| ==> S[t].from != S[t].to && S[t].distance == dist(S[t].from, S[t].to))
      && (if |S| == 0 then o else S[|S| - 1].to) == LastPos(idx, o, vs)
    decreases |vs|
  {
    if |vs| > 0 {
      var init := vs[..|vs| - 1];
      StepsChained(idx, o, init, dist);
    }
  }

  /**
   * When the visits are the types s, s+1, ... in order, the emitted steps carry
   * strictly increasing chest numbers from that range, each arriving at a cell
   * listed for its chest number.
   */
  lemma {:induction false} StepsChests(idx: ChestMap, o: Pos, s: int, vs: seq<Visit>, dist: DistFn)
    requires ValidVisits(idx, vs)
    requires forall t :: 0 <= t < |vs| ==> vs[t].chest == s + t
    ensures forall t :: 0 <= t < |StepsOf(idx, o, vs, dist)| ==>
      var st := StepsOf(idx, o, vs, dist)[t];
      s <= st.chestNumber < s + |vs| && st.chestNumber in idx && st.to in idx[st.chestNumber]
    ensures forall a, b :: 0 <= a < b < |StepsOf(idx, o, vs, dist)| ==>
      StepsOf(idx, o, vs, dist)[a].chestNumber < StepsOf(idx, o, vs, dist)[b].chestNumber
    decreases |vs|
  {
    if |vs| > 0 {
      var init := vs[..|vs| - 1];
      var v := vs[|vs| - 1];
      assert vs == init + [v];
      PositionsSnoc(idx, init, v);
      assert forall t :: 0 <= t < |init| ==> init[t].chest == s + t by {
        forall t | 0 <= t < |init| ensures init[t].chest == s + t {
          assert init[t] == vs[t];
        }
      }
      StepsChests(idx, o, s, init, dist);
      var from, to := LastPos(idx, o, init), PosOf(idx, v);
      var extra := if from == to then [] else [Step(from, to, v.chest, dist(from, to))];
      assert StepsOf(idx, o, vs, dist) == StepsOf(idx, o, init, dist) + extra;
      AppendStepChests(idx, StepsOf(idx, o, init, dist), extra, s, v.chest);
    }
  }

  /** Appending at most one step for chest c keeps the chest numbers in range and increasing. */
  lemma AppendStepChests(idx: ChestMap, before: seq<Step>, extra: seq<Step>, s: int, c: int)
    requires forall t :: 0 <= t < |before| ==>
      s <= before[t].chestNumber < c && before[t].chestNumber in idx && before[t].to in idx[before[t].chestNumber]
    requires forall a, b :: 0 <= a < b < |before| ==> before[a].chestNumber < before[b].chestNumber
    requires |extra| <= 1 && s <= c
    requires |extra| == 1 ==> extra[0].chestNumber == c && c in idx && extra[0].to in idx[c]
    ensures forall t :: 0 <= t < |before + extra| ==>
      var st := (before + extra)[t];
      s <= st.chestNumber < c + 1 && st.chestNumber in idx && st.to in idx[st.chestNumber]
    ensures forall a, b :: 0 <= a < b < |before + extra| ==> (before + extra)[a].chestNumber < (before + extra)[b].chestNumber
  {
    var S := before + extra;
    forall t | 0 <= t < |S|
      ensures s <= S[t].chestNumber < c + 1 && S[t].chestNumber in idx && S[t].to in idx[S[t].chestNumber]
    {
      if t < |before| {
        assert S[t] == before[t];
      } else {
        assert S[t] == extra[0];
      }
    }
    forall a, b | 0 <= a < b < |S| ensures S[a].chestNumber < S[b].chestNumber {
      if b < |before| {
        assert S[a] == before[a] && S[b] == before[b];
      } else {
        assert S[b] == extra[0] && S[a] == before[a];
      }
    }
  }

  /** When no visit lands on the cell the traveler already stands on, every visit emits exactly one step. */
  lemma {:induction false} StepsNoSkip(idx: ChestMap, o: Pos, vs: seq<Visit>, dist: DistFn)
    requires ValidVisits(idx, vs)
    requires forall t :: 0 <= t < |vs| ==> PosOf(idx, vs[t]) != LastPos(idx, o, vs[..t])
    ensures |StepsOf(idx, o, vs, dist)| == |vs|
    ensures forall t :: 0 <= t < |vs| ==>
      StepsOf(idx, o, vs, dist)[t].chestNumber == vs[t].chest && StepsOf(idx, o, vs, dist)[t].to == PosOf(idx, vs[t])
    decreases |vs|
  {
    if |vs| > 0 {
      var init := vs[..|vs| - 1];
      forall t | 0 <= t < |init| ensures PosOf(idx, init[t]) != LastPos(idx, o, init[..t]) {
        assert init[..t] == vs[..t];
      }
      StepsNoSkip(idx, o, init, dist);
      var v := vs[|vs| - 1];
      var from, to := LastPos(idx, o, init), PosOf(idx, v);
      assert init == vs[..|vs| - 1];
      assert from != to;
      var before := StepsOf(idx, o, init, dist);
      assert StepsOf(idx, o, vs, dist) == before + [Step(from, to, v.chest, dist(from, to))];
      forall t | 0 <= t < |vs|
        ensures StepsOf(idx, o, vs, dist)[t].chestNumber == vs[t].chest && StepsOf(idx, o, vs, dist)[t].to == PosOf(idx, vs[t])
      {
        if t < |init| {
          assert vs[t] == init[t];
        }
      }
    }
  }

  /**
   * The route's fuel is the DP cost of the chosen treasure cell, and no choice of
   * one cell per type s..p, visited in order from (1,1), costs less.
   */
  lemma RouteOptimal(idx: ChestMap, s: int, p: int, dist: DistFn)
    requires s <= p && LayersReady(idx, s, p) && IsDistance(dist)
    ensures Fuel(RouteSteps(idx, s, p, dist)) == Dp(idx, s, p, dist)[BestFinal(idx, s, p, dist)].dist
    ensures forall vs :: IsChain(idx, s, p, vs) ==>
      Fuel(RouteSteps(idx, s, p, dist)) <= PathCost(Origin, Positions(idx, vs), dist)
  {
    var best := BestFinal(idx, s, p, dist);
    var path := TracePath(idx, s, p, best, dist);
    DpAttained(idx, s, p, best, dist);
    StepsFuel(idx, Origin, path, dist);
    forall vs: seq<Visit> | IsChain(idx, s, p, vs)
      ensures Fuel(RouteSteps(idx, s, p, dist)) <= PathCost(Origin, Positions(idx, vs), dist)
    {
      DpMinimal(idx, s, p, vs, dist);
      assert Costs(Dp(idx, s, p, dist))[vs[|vs| - 1].posIndex] == Dp(idx, s, p, dist)[vs[|vs| - 1].posIndex].dist;
    }
  }
  /** The optimizer's fuel is at most the length of the given chain. */
  lemma ChainFuelBound(idx: ChestMap, s: int, p: int, dist: DistFn, vs: seq<Visit>)
    requires s <= p && LayersReady(idx, s, p) && IsDistance(dist) && IsChain(idx, s, p, vs)
    ensures Fuel(RouteSteps(idx, s, p, dist)) <= PathCost(Origin, Positions(idx, vs), dist)
  {
    RouteOptimal(idx, s, p, dist);
  }


  /**
   * The route's steps chain from (1,1), never stay in place, carry the distance
   * of their ends, and visit strictly increasing chest numbers within s..p, each
   * arriving at a cell listed for its chest number.
   */
  lemma RouteShape(idx: ChestMap, s: int, p: int, dist: DistFn)
    requires s <= p && LayersReady(idx, s, p)
    ensures var S := RouteSteps(idx, s, p, dist);
      && (|S| > 0 ==> S[0].from == Origin)
      && (forall t :: 0 < t < |S| ==> S[t].from == S[t - 1].to)
      && (forall t :: 0 <= t < |S| ==> S[t].from != S[t].to && S[t].distance == dist(S[t].from, S[t].to))
      && (forall t :: 0 <= t < |S| ==>
            s <= S[t].chestNumber <= p && S[t].chestNumber in idx && S[t].to in idx[S[t].chestNumber])
      && (forall a, b :: 0 <= a < b < |S| ==> S[a].chestNumber < S[b].chestNumber)
  {
    RouteChained(idx, s, p, dist);
    RouteChests(idx, s, p, dist);
  }

  /** The route's steps chain from (1,1), never stay in place and carry the distance of their ends. */
  lemma RouteChained(idx: ChestMap, s: int, p: int, dist: DistFn)
    requires s <= p && LayersReady(idx, s, p)
    ensures var S := RouteSteps(idx, s, p, dist);
      && (|S| > 0 ==> S[0].from == Origin)
      && (forall t :: 0 < t < |S| ==> S[t].from == S[t - 1].to)
      && (forall t :: 0 <= t < |S| ==> S[t].from != S[t].to && S[t].distance == dist(S[t].from, S[t].to))
  {
    var path := TracePath(idx, s, p, BestFinal(idx, s, p, dist), dist);
    assert ValidVisits(idx, path);
    StepsChained(idx, Origin, path, dist);
  }

  /** The route visits strictly increasing chest numbers within s..p, each at a cell listed for it. */
  lemma RouteChests(idx: ChestMap, s: int, p: int, dist: DistFn)
    requires s <= p && LayersReady(idx, s, p)
    ensures var S := RouteSteps(idx, s, p, dist);
      && (forall t :: 0 <= t < |S| ==>
            s <= S[t].chestNumber <= p && S[t].chestNumber in idx && S[t].to in idx[S[t].chestNumber])
      && (forall a, b :: 0 <= a < b < |S| ==> S[a].chestNumber < S[b].chestNumber)
  {
    var path := TracePath(idx, s, p, BestFinal(idx, s, p, dist), dist);
    assert ValidVisits(idx, path);
    StepsChests(idx, Origin, s, path, dist);
  }

  /** The reverse of a sequence (Array.prototype.reverse on the collected path). */
  function Reversed<T>(xs: seq<T>): (r: seq<T>)
    ensures |r| == |xs|
    ensures forall t :: 0 <= t < |xs| ==> r[t] == xs[|xs| - 1 - t]
    decreases |xs|
  {
    if |xs| == 0 then [] else [xs[|xs| - 1]] + Reversed(xs[..|xs| - 1])
  }

  lemma ReversedSnoc<T>(xs: seq<T>, x: T)
    ensures Reversed(xs + [x]) == [x] + Reversed(xs)
  {
    assert (xs + [x])[..|xs|] == xs;
  }

  /** The first-layer loop: one entry per position of the first required type. */
  method FirstLayerOf(first: seq<Pos>, dist: DistFn) returns (row: seq<Entry>)
    ensures row == FirstLayer(first, dist)
  {
    row := [];
    var i := 0;
    while i < |first|
      invariant 0 <= i <= |first|
      invariant row == FirstLayer(first[..i], dist)
    {
      row := row + [Entry(dist(Origin, first[i]), -1, -1)];
      i := i + 1;
      assert first[..i] == first[..i - 1] + [first[i - 1]];
    }
    assert first[..i] == first;
  }

  /**
   * The inner scan of one relaxation: the first predecessor whose cost plus hop
   * is strictly below the best so far, starting from "no candidate" (Infinity).
   */
  method BestPredecessor(prevDp: seq<Entry>, prevPositions: seq<Pos>, q: Pos, dist: DistFn)
    returns (minDist: real, bestPrevIndex: nat)
    requires |prevDp| == |prevPositions| > 0
    ensures bestPrevIndex == FirstArgMin(Candidates(prevDp, prevPositions, q, dist))
    ensures minDist == Candidates(prevDp, prevPositions, q, dist)[bestPrevIndex]
  {
    ghost var cands := Candidates(prevDp, prevPositions, q, dist);
    var best: Option<real> := None;
    bestPrevIndex := 0;
    var j := 0;
    while j < |prevPositions|
      invariant 0 <= j <= |prevPositions|
      invariant j == 0 ==> best == None && bestPrevIndex == 0
      invariant j > 0 ==> bestPrevIndex == FirstArgMin(cands[..j]) && best == Some(cands[bestPrevIndex])
    {
      var d := prevDp[j].dist + dist(prevPositions[j], q);
      assert d == cands[j];
      assert cands[..j + 1][..j] == cands[..j];
      if best == None || d < best.value {
        best := Some(d);
        bestPrevIndex := j;
      }
      j := j + 1;
    }
    assert cands[..j] == cands;
    minDist := best.value;
  }

  /** One relaxed layer: every current position gets its first cheapest predecessor. */
  method NextLayerOf(prevDp: seq<Entry>, prevPositions: seq<Pos>, current: seq<Pos>, prevChest: int, dist: DistFn)
    returns (row: seq<Entry>)
    requires |prevDp| == |prevPositions| > 0
    ensures row == NextLayer(prevDp, prevPositions, current, prevChest, dist)
  {
    row := [];
    var i := 0;
    while i < |current|
      invariant 0 <= i <= |current|
      invariant row == NextLayer(prevDp, prevPositions, current[..i], prevChest, dist)
    {
      var minDist, bestPrevIndex := BestPredecessor(prevDp, prevPositions, current[i], dist);
      row := row + [Entry(minDist, prevChest, bestPrevIndex)];
      i := i + 1;
      assert current[..i] == current[..i - 1] + [current[i - 1]];
    }
    assert current[..i] == current;
  }

  /** The DP table keyed by chest type, filled layer by layer from s to p. */
  method FillDp(idx: ChestMap, s: int, p: int, dist: DistFn) returns (dp: map<int, seq<Entry>>)
    requires s <= p && LayersReady(idx, s, p)
    ensures forall c :: c in dp <==> s <= c <= p
    ensures forall c :: s <= c <= p ==> dp[c] == Dp(idx, s, c, dist)
  {
    var firstDp := FirstLayerOf(idx[s], dist);
    dp := map[s := firstDp];
    var prevChestLevel := s;
    var chest := s + 1;
    while chest <= p
      invariant s + 1 <= chest <= p + 1 && prevChestLevel == chest - 1
      invariant dp == DpMap(idx, s, chest - 1, dist)
    {
      assert LayersReady(idx, s, chest);
      DpMapSpec(idx, s, chest - 1, dist);
      DpNext(idx, s, chest, dist);
      var currentDp := NextLayerOf(dp[prevChestLevel], idx[prevChestLevel], idx[chest], prevChestLevel, dist);
      dp := dp[chest := currentDp];
      prevChestLevel := chest;
      chest := chest + 1;
    }
    DpMapSpec(idx, s, p, dist);
  }

  /** The DP table for types s..k, as the layer loop stores it. */
  function DpMap(idx: ChestMap, s: int, k: int, dist: DistFn): map<int, seq<Entry>>
    requires s <= k && LayersReady(idx, s, k)
    decreases k - s
  {
    if k == s then map[s := Dp(idx, s, s, dist)]
    else DpMap(idx, s, k - 1, dist)[k := Dp(idx, s, k, dist)]
  }

  lemma {:induction false} DpMapSpec(idx: ChestMap, s: int, k: int, dist: DistFn)
    requires s <= k && LayersReady(idx, s, k)
    ensures forall c :: c in DpMap(idx, s, k, dist) <==> s <= c <= k
    ensures forall c :: s <= c <= k ==> DpMap(idx, s, k, dist)[c] == Dp(idx, s, c, dist)
    decreases k - s
  {
    if k > s {
      DpMapSpec(idx, s, k - 1, dist);
    }
  }

  /** One unfolding of Dp past the first layer. */
  lemma DpNext(idx: ChestMap, s: int, k: int, dist: DistFn)
    requires s < k && LayersReady(idx, s, k)
    ensures LayersReady(idx, s, k - 1)
    ensures Dp(idx, s, k, dist) == NextLayer(Dp(idx, s, k - 1, dist), idx[k - 1], idx[k], k - 1, dist)
  {
  }

  /** The scan for the cheapest treasure cell, replacing only on a strictly smaller cost. */
  method BestFinalIndex(finalDp: seq<Entry>) returns (bestFinalIndex: nat)
    requires |finalDp| > 0
    ensures bestFinalIndex == FirstArgMin(Costs(finalDp))
  {
    ghost var costs := Costs(finalDp);
    bestFinalIndex := 0;
    var bestFinalDist := finalDp[0].dist;
    var i := 1;
    while i < |finalDp|
      invariant 1 <= i <= |finalDp|
      invariant bestFinalIndex == FirstArgMin(costs[..i]) && bestFinalDist == costs[bestFinalIndex]
    {
      assert costs[..i + 1][..i] == costs[..i];
      if finalDp[i].dist < bestFinalDist {
        bestFinalDist := finalDp[i].dist;
        bestFinalIndex := i;
      }
      i := i + 1;
    }
    assert costs[..i] == costs;
  }

  lemma BacktrackStep(idx: ChestMap, s: int, p: int, best: nat, c: int, i: nat, before: seq<Visit>, dist: DistFn)
    requires s < c <= p && LayersReady(idx, s, p) && best < |idx[p]| && i < |idx[c]|
    requires TracePath(idx, s, c, i, dist) + Reversed(before) == TracePath(idx, s, p, best, dist)
    ensures 0 <= Dp(idx, s, c, dist)[i].prevPosIndex < |idx[c - 1]|
    ensures TracePath(idx, s, c - 1, Dp(idx, s, c, dist)[i].prevPosIndex, dist) + Reversed(before + [Visit(c, i)])
      == TracePath(idx, s, p, best, dist)
  {
    TracePathSnoc(idx, s, c, i, dist);
    ReversedSnoc(before, Visit(c, i));
    var prefix := TracePath(idx, s, c - 1, Dp(idx, s, c, dist)[i].prevPosIndex, dist);
    ConcatAssoc(prefix, [Visit(c, i)], Reversed(before));
  }

  lemma BacktrackLast(idx: ChestMap, s: int, p: int, best: nat, i: nat, before: seq<Visit>, dist: DistFn)
    requires s <= p && LayersReady(idx, s, p) && best < |idx[p]| && i < |idx[s]|
    requires TracePath(idx, s, s, i, dist) + Reversed(before) == TracePath(idx, s, p, best, dist)
    ensures Reversed(before + [Visit(s, i)]) == TracePath(idx, s, p, best, dist)
  {
    ReversedSnoc(before, Visit(s, i));
    assert TracePath(idx, s, s, i, dist) == [Visit(s, i)];
  }

  /** The walk back over the back-links from the treasure cell, then the reversal. */
  method Backtrack(idx: ChestMap, s: int, p: int, dp: map<int, seq<Entry>>, bestFinalIndex: nat, dist: DistFn)
    returns (path: seq<Visit>)
    requires 1 <= s <= p && LayersReady(idx, s, p) && bestFinalIndex < |idx[p]|
    requires forall c :: s <= c <= p ==> c in dp && dp[c] == Dp(idx, s, c, dist)
    ensures path == TracePath(idx, s, p, bestFinalIndex, dist)
  {
    var acc: seq<Visit> := [];
    var currentChest := p;
    var currentPosIndex := bestFinalIndex;
    while currentChest >= s
      invariant s <= currentChest <= p && 0 <= currentPosIndex < |idx[currentChest]|
      invariant TracePath(idx, s, currentChest, currentPosIndex, dist) + Reversed(acc) == TracePath(idx, s, p, bestFinalIndex, dist)
      decreases currentChest
    {
      ghost var before := acc;
      acc := acc + [Visit(currentChest, currentPosIndex)];
      DpBackLinkShape(idx, s, currentChest, currentPosIndex, dist);
      var dpEntry := dp[currentChest][currentPosIndex];
      if dpEntry.prevChest == -1 {
        BacktrackLast(idx, s, p, bestFinalIndex, currentPosIndex, before, dist);
        break;
      }
      BacktrackStep(idx, s, p, bestFinalIndex, currentChest, currentPosIndex, before, dist);
      currentChest := dpEntry.prevChest;
      currentPosIndex := dpEntry.prevPosIndex;
    }
    path := Reversed(acc);
  }

  /** The step loop: walk the path from (1,1), skipping a visit on the current cell. */
  method BuildSteps(idx: ChestMap, path: seq<Visit>, dist: DistFn) returns (steps: seq<Step>)
    requires ValidVisits(idx, path)
    ensures steps == StepsOf(idx, Origin, path, dist)
  {
    steps := [];
    var fromPos := Origin;
    var t := 0;
    while t < |path|
      invariant 0 <= t <= |path|
      invariant ValidVisits(idx, path[..t])
      invariant fromPos == LastPos(idx, Origin, path[..t])
      invariant steps == StepsOf(idx, Origin, path[..t], dist)
    {
      var visit := path[t];
      var toPos := idx[visit.chest][visit.posIndex];
      assert path[..t + 1][..t] == path[..t] && path[..t + 1][t] == visit;
      if fromPos != toPos {
        steps := steps + [Step(fromPos, toPos, visit.chest, dist(fromPos, toPos))];
        fromPos := toPos;
      }
      t := t + 1;
    }
    assert path[..t] == path;
  }

  /** The optimizer once the chain s..p is non-empty: the DP, the treasure choice, the trace and the steps. */
  method OptimalSteps(idx: ChestMap, s: int, p: int, dist: DistFn) returns (steps: seq<Step>)
    requires 1 <= s <= p && LayersReady(idx, s, p)
    ensures steps == RouteSteps(idx, s, p, dist)
  {
    var dp := FillDp(idx, s, p, dist);
    var bestFinalIndex := BestFinalIndex(dp[p]);
    var path := Backtrack(idx, s, p, dp, bestFinalIndex, dist);
    assert IsChain(idx, s, p, path) by {
      DpAttained(idx, s, p, bestFinalIndex, dist);
    }
    steps := BuildSteps(idx, path, dist);
  }
}
