/**
 Preferential attachment: preferentialAttachmentSimulation of networks.go.
 Nodes edgesPerStep + 1, ..., numAgents - 1 arrive one at a time; each draws
 targets among the earlier nodes by a walk over the cumulative degree until it
 has edgesPerStep distinct ones, then links to all of them.
 */
module PreferentialAttachment {
  import opened Options
  import opened Graphs

  /** Sum of a prefix: one more element adds that element. */
  lemma SumPrefix(s: seq<int>, i: int)
    requires 0 <= i < |s|
    ensures Sum(s[..i + 1]) == Sum(s[..i]) + s[i]
  {
    assert s[..i + 1][..i] == s[..i];
  }

  /** Adding one to one entry adds one to the sum. */
  lemma {:induction false} SumIncrement(s: seq<int>, j: int)
    requires 0 <= j < |s|
    ensures Sum(s[j := s[j] + 1]) == Sum(s) + 1
  {
    var s' := s[j := s[j] + 1];
    var n := |s|;
    if j < n - 1 {
      assert s'[..n - 1] == s[..n - 1][j := s[j] + 1];
      SumIncrement(s[..n - 1], j);
    } else {
      assert s'[..n - 1] == s[..n - 1];
    }
  }

  /** All prefixes of a run of zeros sum to zero. */
  lemma {:induction false} SumZeros(s: seq<int>, k: int)
    requires 0 <= k <= |s|
    requires forall u :: 0 <= u < k ==> s[u] == 0
    ensures Sum(s[..k]) == 0
  {
    if k > 0 {
      SumZeros(s, k - 1);
      SumPrefix(s, k - 1);
    }
  }

  /** The cumulative degree of nodes 0 .. u: deg[0] + ... + deg[u]. */
  function Cum(deg: seq<int>, u: int): int
    requires 0 <= u < |deg|
  {
    Sum(deg[..u + 1])
  }

  /**
   The cumulative-degree walk from node `i` on: the first node `u` in
   i .. newNode-1 whose cumulative degree reaches `r`, or nothing when no
   such node exists.
   */
  function FirstReaching(deg: seq<int>, newNode: int, r: int, i: nat): (pick: Option<int>)
    requires newNode <= |deg|
    decreases newNode - i
    ensures pick.Some? ==> i <= pick.value < newNode && Cum(deg, pick.value) >= r
    ensures pick.Some? ==> (forall u :: i <= u < pick.value ==> Cum(deg, u) < r)
    ensures pick.None? ==> (forall u :: i <= u < newNode ==> Cum(deg, u) < r)
  {
    if i >= newNode then None
    else if Cum(deg, i) >= r then Some(i)
    else FirstReaching(deg, newNode, r, i + 1)
  }

  /** The node a draw `r` selects for the new node `newNode`, if any. */
  function Pick(deg: seq<int>, newNode: int, r: int): Option<int>
    requires newNode <= |deg|
  {
    FirstReaching(deg, newNode, r, 0)
  }

  /** A draw of 0 (or less) selects node 0 whenever degrees are not negative. */
  lemma PickZero(deg: seq<int>, newNode: int, r: int)
    requires 0 < newNode <= |deg|
    requires deg[0] >= 0 && r <= 0
    ensures Pick(deg, newNode, r) == Some(0)
  {
    SumPrefix(deg, 0);
  }

  /** A draw no larger than the true degree total always selects some node. */
  lemma PickAlways(deg: seq<int>, newNode: int, r: int)
    requires 0 < newNode <= |deg|
    requires r <= Sum(deg[..newNode])
    ensures Pick(deg, newNode, r).Some?
  {
    assert deg[..(newNode - 1) + 1] == deg[..newNode];
    assert Cum(deg, newNode - 1) >= r;
  }

  /**
   The zero-degree fallback: when no earlier node has a degree, a draw selects
   node 0 if it is 0 and selects nothing otherwise.
   */
  lemma ZeroFallback(deg: seq<int>, newNode: int, r: int)
    requires 0 < newNode <= |deg|
    requires forall u :: 0 <= u < newNode ==> deg[u] == 0
    ensures Pick(deg, newNode, r) == if r <= 0 then Some(0) else None
  {
    SumZeros(deg, 1);
    var pick := Pick(deg, newNode, r);
    if pick.Some? && r > 0 {
      SumZeros(deg, pick.value + 1);
    }
  }

  /**
   The distinct nodes selected by the draws numbered from .. until-1, each draw
   being rng(k, total) for draw number k.
   */
  ghost function Picked(deg: seq<int>, newNode: int, total: int, rng: (nat, int) -> int, from: nat, until: nat): (picked: set<int>)
    requires newNode <= |deg| && from <= until
    decreases until
    ensures forall t :: t in picked ==> 0 <= t < newNode
  {
    if until == from then {}
    else
      var earlier := Picked(deg, newNode, total, rng, from, until - 1);
      match Pick(deg, newNode, rng(until - 1, total))
      case None => earlier
      case Some(t) => earlier + {t}
  }

  /**
   While no earlier node has a degree, every draw selects node 0 or nothing,
   so no more than one distinct target can ever be collected.
   */
  lemma {:induction false} StuckStart(deg: seq<int>, newNode: int, total: int, rng: (nat, int) -> int, from: nat, until: nat)
    requires 0 < newNode <= |deg| && from <= until
    requires forall u :: 0 <= u < newNode ==> deg[u] == 0
    ensures Picked(deg, newNode, total, rng, from, until) <= {0}
    ensures |Picked(deg, newNode, total, rng, from, until)| <= 1
  {
    if until > from {
      StuckStart(deg, newNode, total, rng, from, until - 1);
      ZeroFallback(deg, newNode, rng(until - 1, total));
    }
    SubsetSize(Picked(deg, newNode, total, rng, from, until), {0});
  }

  /**
   The draw number at which the target loop of node `newNode`, started at draw
   `from`, stops: the first `j` from the given one on where the draws from
   `from` up to `j` have selected `m` distinct targets, or `maxDraws` when the
   budget runs out first.
   */
  ghost function StopAt(deg: seq<int>, newNode: int, total: int, m: int, rng: (nat, int) -> int,
                        from: nat, j: nat, maxDraws: nat): (stop: nat)
    requires newNode <= |deg| && from <= j <= maxDraws
    decreases maxDraws - j
    ensures j <= stop <= maxDraws
  {
    if j == maxDraws || |Picked(deg, newNode, total, rng, from, j)| >= m then j
    else StopAt(deg, newNode, total, m, rng, from, j + 1, maxDraws)
  }

  /**
   The stopping point is the first draw count from `j` on at which `m` targets
   are in, or the budget when there is none.
   */
  lemma {:induction false} StopAtFirst(deg: seq<int>, newNode: int, total: int, m: int, rng: (nat, int) -> int,
                                       from: nat, j: nat, maxDraws: nat)
    requires newNode <= |deg| && from <= j <= maxDraws
    decreases maxDraws - j
    ensures var stop := StopAt(deg, newNode, total, m, rng, from, j, maxDraws);
      && (stop == maxDraws || |Picked(deg, newNode, total, rng, from, stop)| >= m)
      && forall i :: j <= i < stop ==> |Picked(deg, newNode, total, rng, from, i)| < m
  {
    if j < maxDraws && |Picked(deg, newNode, total, rng, from, j)| < m {
      StopAtFirst(deg, newNode, total, m, rng, from, j + 1, maxDraws);
    }
  }

  /** A draw count short of `m` targets extends the run of short counts before it. */
  lemma ShortStep(deg: seq<int>, newNode: int, total: int, m: int, rng: (nat, int) -> int, from: nat, j: nat)
    requires newNode <= |deg| && from <= j
    requires forall i :: from <= i < j ==> |Picked(deg, newNode, total, rng, from, i)| < m
    requires |Picked(deg, newNode, total, rng, from, j)| < m
    ensures forall i :: from <= i < j + 1 ==> |Picked(deg, newNode, total, rng, from, i)| < m
  {
  }

  /**
   A draw count `s` from `j` on where the targets are complete (or the budget
   is spent), with every count before it short of `m`, is the stopping point.
   */
  lemma {:induction false} StopAtIs(deg: seq<int>, newNode: int, total: int, m: int, rng: (nat, int) -> int,
                                    from: nat, j: nat, s: nat, maxDraws: nat)
    requires newNode <= |deg| && from <= j <= s <= maxDraws
    requires s == maxDraws || |Picked(deg, newNode, total, rng, from, s)| >= m
    requires forall i :: j <= i < s ==> |Picked(deg, newNode, total, rng, from, i)| < m
    decreases s - j
    ensures StopAt(deg, newNode, total, m, rng, from, j, maxDraws) == s
  {
    if j < s {
      StopAtIs(deg, newNode, total, m, rng, from, j + 1, s, maxDraws);
    }
  }

  /** The edges touching node `v`. */
  ghost function Incident(e: EdgeMap, v: int): set<Key> {
    set k | k in e && (k.0 == v || k.1 == v)
  }

  /** The targets node `v` links to. */
  ghost function OutTargets(e: EdgeMap, v: int): set<int> {
    set k | k in e && k.0 == v :: k.1
  }

  /** `deg` counts, for every node, the edges touching it, and sums to twice the edges. */
  ghost predicate DegreesMatch(e: EdgeMap, deg: seq<int>) {
    && (forall v :: 0 <= v < |deg| ==> deg[v] == |Incident(e, v)|)
    && Sum(deg) == 2 * |e|
  }

  /**
   Every edge leaves a node in lo .. newNode-1 for a strictly lower node and
   carries the initial weight: no self-loops, and nothing is ever incremented.
   */
  ghost predicate Shaped(e: EdgeMap, lo: int, newNode: int, edgeWeights: bool) {
    forall k :: k in e ==> lo <= k.0 < newNode && 0 <= k.1 < k.0 && e[k] == InitialWeight(edgeWeights)
  }

  /** Every node in lo .. newNode-1 has exactly `m` out-edges (none when m <= 0). */
  ghost predicate OutDegrees(e: EdgeMap, lo: int, newNode: int, m: int) {
    forall v :: lo <= v < newNode ==> |OutTargets(e, v)| == Max0(m)
  }

  /** The store after node `newNode` linked to every node of `targets`. */
  ghost function Attached(e: EdgeMap, newNode: int, targets: set<int>, edgeWeights: bool): EdgeMap {
    var links := set t | t in targets :: (newNode, t);
    map k | k in e.Keys + links :: if k in e then e[k] else InitialWeight(edgeWeights)
  }

  lemma IncidentInsert(e: EdgeMap, key: Key, w: int, v: int)
    requires key !in e
    ensures |Incident(e[key := w], v)| == |Incident(e, v)| + (if key.0 == v || key.1 == v then 1 else 0)
  {
    if key.0 == v || key.1 == v {
      assert Incident(e[key := w], v) == Incident(e, v) + {key};
    } else {
      assert Incident(e[key := w], v) == Incident(e, v);
    }
  }

  /** `deg` with one more at node `i`: networks.go's `degree[i]++`. */
  function Bumped(deg: seq<int>, i: int): (r: seq<int>)
    requires 0 <= i < |deg|
    ensures |r| == |deg| && r[i] == deg[i] + 1
    ensures forall v :: 0 <= v < |deg| && v != i ==> r[v] == deg[v]
  {
    deg[i := deg[i] + 1]
  }

  /** The degree of every node after one new edge: its ends gain one each. */
  lemma IncidentStep(e: EdgeMap, deg: seq<int>, key: Key, w: int)
    requires forall v :: 0 <= v < |deg| ==> deg[v] == |Incident(e, v)|
    requires key !in e && key.0 != key.1
    requires 0 <= key.0 < |deg| && 0 <= key.1 < |deg|
    ensures var d := Bumped(Bumped(deg, key.1), key.0);
      forall v :: 0 <= v < |d| ==> d[v] == |Incident(e[key := w], v)|
  {
    var d := Bumped(Bumped(deg, key.1), key.0);
    forall v | 0 <= v < |d| ensures d[v] == |Incident(e[key := w], v)| {
      IncidentInsert(e, key, w, v);
    }
  }

  /** Two increments add two to the degree total, one new edge adds one edge. */
  lemma SumStep(e: EdgeMap, deg: seq<int>, key: Key, w: int)
    requires Sum(deg) == 2 * |e|
    requires key !in e && key.0 != key.1
    requires 0 <= key.0 < |deg| && 0 <= key.1 < |deg|
    ensures Sum(Bumped(Bumped(deg, key.1), key.0)) == 2 * |e[key := w]|
  {
    assert |e[key := w]| == |e| + 1;
    var once := Bumped(deg, key.1);
    SumIncrement(deg, key.1);
    assert Sum(once) == Sum(deg) + 1;
    SumIncrement(once, key.0);
  }

  /** Storing a new edge and adding one to the degree of both its ends keeps the degrees right. */
  lemma DegreesStep(e: EdgeMap, deg: seq<int>, key: Key, w: int)
    requires DegreesMatch(e, deg)
    requires key !in e && key.0 != key.1
    requires 0 <= key.0 < |deg| && 0 <= key.1 < |deg|
    ensures DegreesMatch(e[key := w], Bumped(Bumped(deg, key.1), key.0))
  {
    IncidentStep(e, deg, key, w);
    SumStep(e, deg, key, w);
  }

  lemma AttachedNone(e: EdgeMap, newNode: int, edgeWeights: bool)
    ensures Attached(e, newNode, {}, edgeWeights) == e
  {
    var none: set<int> := {};
    assert (set t | t in none :: (newNode, t)) == {};
  }

  /** Linking `newNode` to one more target adds that one edge. */
  lemma AttachedGrow(e: EdgeMap, newNode: int, done: set<int>, t: int, edgeWeights: bool)
    requires forall k :: k in e ==> k.0 < newNode
    requires t !in done
    ensures (newNode, t) !in Attached(e, newNode, done, edgeWeights)
    ensures Attached(e, newNode, done + {t}, edgeWeights)
            == Attached(e, newNode, done, edgeWeights)[(newNode, t) := InitialWeight(edgeWeights)]
  {
  }

  /** Attaching keeps the shape one node further on. */
  lemma AttachedShaped(e: EdgeMap, lo: int, newNode: int, targets: set<int>, edgeWeights: bool)
    requires Shaped(e, lo, newNode, edgeWeights) && lo <= newNode
    requires forall t :: t in targets ==> 0 <= t < newNode
    ensures Shaped(Attached(e, newNode, targets, edgeWeights), lo, newNode + 1, edgeWeights)
  {
  }

  /** The new node's out-targets are exactly `targets`; no other node's change. */
  lemma AttachedOutTargets(e: EdgeMap, newNode: int, targets: set<int>, edgeWeights: bool, v: int)
    requires forall k :: k in e ==> k.0 < newNode
    ensures OutTargets(Attached(e, newNode, targets, edgeWeights), v)
            == if v == newNode then targets else OutTargets(e, v)
  {
    var a := Attached(e, newNode, targets, edgeWeights);
    if v == newNode {
      forall t | t in targets ensures t in OutTargets(a, v) {
        assert (newNode, t) in a;
      }
    }
  }

  /** The cumulative-degree walk of one draw `r`: networks.go's inner loop over `cum`. */
  method PickTarget(degree: array<int>, newNode: int, r: int) returns (found: bool, target: int)
    requires newNode <= degree.Length
    ensures Pick(degree[..], newNode, r) == if found then Some(target) else None
  {
    var cum := 0;
    var i := 0;
    found, target := false, 0;
    while i < newNode
      invariant 0 <= i <= Max0(newNode)
      invariant cum == Sum(degree[..i])
      invariant Pick(degree[..], newNode, r) == FirstReaching(degree[..], newNode, r, i)
    {
      SumPrefix(degree[..], i);
      assert degree[..][..i + 1] == degree[..i + 1];
      assert degree[..][..i] == degree[..i];
      cum := cum + degree[i];
      if cum >= r {
        found, target := true, i;
        return;
      }
      i := i + 1;
    }
  }

  /**
   The bound of the draws for node `newNode`: the degree total of the nodes
   below it, or `newNode` itself when that total is 0.
   */
  function DrawBound(deg: seq<int>, newNode: int): int
    requires newNode <= |deg|
  {
    var total := Sum(deg[..Max0(newNode)]);
    if total == 0 then newNode else total
  }

  /** The degree total of the nodes below `newNode`, before the fallback. */
  method TotalDegree(degree: array<int>, newNode: int) returns (total: int)
    requires newNode <= degree.Length
    ensures total == Sum(degree[..Max0(newNode)])
  {
    total := 0;
    var i := 0;
    while i < newNode
      invariant 0 <= i <= Max0(newNode)
      invariant total == Sum(degree[..i])
    {
      SumPrefix(degree[..], i);
      assert degree[..][..i + 1] == degree[..i + 1];
      assert degree[..][..i] == degree[..i];
      total := total + degree[i];
      i := i + 1;
    }
  }

  /** Draw number `next`: add the node it selects, if any, to the targets. */
  method DrawOnce(degree: array<int>, newNode: int, total: int, rng: (nat, int) -> int,
                  start: nat, next: nat, targets: set<int>)
    returns (targets': set<int>)
    requires newNode <= degree.Length && start <= next
    requires targets == Picked(degree[..], newNode, total, rng, start, next)
    ensures targets' == Picked(degree[..], newNode, total, rng, start, next + 1)
    ensures targets <= targets' && |targets'| <= |targets| + 1
  {
    var found, target := PickTarget(degree, newNode, rng(next, total));
    targets' := if found then targets + {target} else targets;
  }

  /**
   The target loop of one new node: draw, walk, collect, until `m` distinct
   targets are collected or the draw budget runs out. The result is the set of
   nodes the consumed draws selected, and no draw is taken once the m-th
   target is in.
   */
  method ChooseTargets(degree: array<int>, newNode: int, total: int, m: int,
                       rng: (nat, int) -> int, start: nat, maxDraws: nat)
    returns (targets: set<int>, next: nat)
    requires newNode <= degree.Length && start <= maxDraws
    ensures start <= next <= maxDraws
    ensures targets == Picked(degree[..], newNode, total, rng, start, next)
    ensures |targets| < m ==> next == maxDraws
    ensures |targets| <= Max0(m)
    ensures forall j :: start <= j < next ==> |Picked(degree[..], newNode, total, rng, start, j)| < m
    ensures next == StopAt(degree[..], newNode, total, m, rng, start, start, maxDraws)
  {
    ghost var deg := degree[..];
    targets := {};
    next := start;
    while |targets| < m && next < maxDraws
      invariant start <= next <= maxDraws && degree[..] == deg
      invariant targets == Picked(deg, newNode, total, rng, start, next)
      invariant |targets| <= Max0(m)
      invariant forall i :: start <= i < next ==> |Picked(deg, newNode, total, rng, start, i)| < m
      decreases maxDraws - next
    {
      ShortStep(deg, newNode, total, m, rng, start, next);
      targets := DrawOnce(degree, newNode, total, rng, start, next, targets);
      assert targets == Picked(deg, newNode, total, rng, start, next + 1);
      next := next + 1;
    }
    StopAtIs(deg, newNode, total, m, rng, start, start, next, maxDraws);
  }

  /**
   Midway through linking `newNode`: the targets in `done` are linked and the
   degrees match the store.
   */
  ghost predicate Attaching(e0: EdgeMap, newNode: int, done: set<int>, edgeWeights: bool, e: EdgeMap, deg: seq<int>) {
    e == Attached(e0, newNode, done, edgeWeights) && DegreesMatch(e, deg)
  }

  lemma AttachStep(e0: EdgeMap, newNode: int, done: set<int>, edgeWeights: bool, e: EdgeMap, deg: seq<int>, t: int)
    requires Attaching(e0, newNode, done, edgeWeights, e, deg) && t !in done
    requires forall k :: k in e0 ==> k.0 < newNode
    requires 0 <= t < newNode < |deg|
    ensures Attaching(e0, newNode, done + {t}, edgeWeights,
                      e[(newNode, t) := InitialWeight(edgeWeights)], Bumped(Bumped(deg, t), newNode))
  {
    AttachedGrow(e0, newNode, done, t, edgeWeights);
    DegreesStep(e, deg, (newNode, t), InitialWeight(edgeWeights));
  }

  /** Some element of a non-empty set: the next key a Go map range yields. */
  method Any(s: set<int>) returns (x: int)
    requires s != {}
    ensures x in s
  {
    Inhabited(s);
    x :| x in s;
  }

  lemma Inhabited(s: set<int>)
    ensures s != {} ==> exists x :: x in s
  {
    if forall x :: x !in s {
      assert s == {};
    }
  }

  /** Moving one target from the rest to the linked ones. */
  lemma TakeOne(targets: set<int>, done: set<int>, rest: set<int>, t: int)
    requires done + rest == targets && done !! rest && t in rest
    ensures (done + {t}) + (rest - {t}) == targets && (done + {t}) !! (rest - {t})
    ensures |rest - {t}| < |rest| && t !in done
  {
  }

  /**
   One edge of the new node: the record (newNode, t) is written with the
   initial weight, and the degrees of both ends go up by one.
   */
  method Link(g: Graph, degree: array<int>, newNode: int, t: int, edgeWeights: bool)
    requires 0 <= t < degree.Length && 0 <= newNode < degree.Length
    modifies g, degree
    ensures g.edges == old(g.edges)[(newNode, t) := InitialWeight(edgeWeights)]
    ensures degree[..] == Bumped(Bumped(old(degree[..]), t), newNode)
    ensures g.groups == old(g.groups)
  {
    var weight := 0;
    if edgeWeights {
      weight := 1;
    }
    g.Store(newNode, t, weight);
    degree[t] := degree[t] + 1;
    degree[newNode] := degree[newNode] + 1;
  }

  /**
   Links `newNode` to every node of `targets` in some order (the source
   iterates a Go map), storing each edge with the initial weight and adding one
   to the degree of both ends.
   */
  method Attach(g: Graph, degree: array<int>, newNode: int, targets: set<int>, edgeWeights: bool)
    requires newNode < degree.Length
    requires forall t :: t in targets ==> 0 <= t < newNode
    requires forall k :: k in g.edges ==> k.0 < newNode
    requires DegreesMatch(g.edges, degree[..])
    modifies g, degree
    ensures g.edges == Attached(old(g.edges), newNode, targets, edgeWeights)
    ensures DegreesMatch(g.edges, degree[..])
    ensures g.groups == old(g.groups)
  {
    ghost var e0 := g.edges;
    ghost var done: set<int> := {};
    var rest := targets;
    AttachedNone(e0, newNode, edgeWeights);
    assert done + rest == targets;
    while rest != {}
      invariant done + rest == targets && done !! rest
      invariant Attaching(e0, newNode, done, edgeWeights, g.edges, degree[..])
      invariant g.groups == old(g.groups)
      decreases |rest|
    {
      var t := Any(rest);
      TakeOne(targets, done, rest, t);
      AttachStep(e0, newNode, done, edgeWeights, g.edges, degree[..], t);
      Link(g, degree, newNode, t, edgeWeights);
      done := done + {t};
      rest := rest - {t};
    }
  }

  /**
   The state after the new nodes lo .. newNode-1 have been linked: the shape of
   every edge, degrees that count edges, m out-edges per linked node, and no
   edges at all when m <= 0.
   */
  ghost predicate Linked(e: EdgeMap, deg: seq<int>, lo: int, newNode: int, m: int, edgeWeights: bool) {
    && Shaped(e, lo, newNode, edgeWeights)
    && DegreesMatch(e, deg)
    && OutDegrees(e, lo, newNode, m)
    && (m <= 0 ==> e == map[])
  }

  /** The degrees of an empty graph are all zero, and zero degrees match it. */
  lemma NoEdgeDegrees(deg: seq<int>)
    ensures DegreesMatch(map[], deg) <==> forall u :: 0 <= u < |deg| ==> deg[u] == 0
  {
    if forall u :: 0 <= u < |deg| ==> deg[u] == 0 {
      SumZeros(deg, |deg|);
      assert deg[..|deg|] == deg;
    }
  }

  /** Linking node `newNode` to its `m` targets takes the state one node further. */
  lemma LinkedStep(e: EdgeMap, deg: seq<int>, lo: int, newNode: int, m: int, edgeWeights: bool,
                   targets: set<int>, deg': seq<int>)
    requires Linked(e, deg, lo, newNode, m, edgeWeights) && lo <= newNode
    requires forall t :: t in targets ==> 0 <= t < newNode
    requires |targets| == Max0(m)
    requires DegreesMatch(Attached(e, newNode, targets, edgeWeights), deg')
    ensures Linked(Attached(e, newNode, targets, edgeWeights), deg', lo, newNode + 1, m, edgeWeights)
  {
    var e' := Attached(e, newNode, targets, edgeWeights);
    AttachedShaped(e, lo, newNode, targets, edgeWeights);
    forall v | lo <= v < newNode + 1 ensures |OutTargets(e', v)| == Max0(m) {
      AttachedOutTargets(e, newNode, targets, edgeWeights, v);
    }
    if m <= 0 {
      assert targets == {};
      AttachedNone(e, newNode, edgeWeights);
    }
  }

  /**
   The first new node, when m >= 2: no node has a degree yet, so its draws
   can collect at most one distinct target.
   */
  lemma FirstNodeStuck(e: EdgeMap, deg: seq<int>, lo: int, m: int, edgeWeights: bool,
                       total: int, rng: (nat, int) -> int, from: nat, until: nat)
    requires Linked(e, deg, lo, lo, m, edgeWeights)
    requires m >= 2 && lo == m + 1 && lo <= |deg| && from <= until
    ensures |Picked(deg, lo, total, rng, from, until)| <= 1
  {
    assert e == map[];
    NoEdgeDegrees(deg);
    StuckStart(deg, lo, total, rng, from, until);
  }

  /**
   Every edge of a preferential-attachment graph joins two distinct agents,
   so there are at most n * (n - 1) of them.
   */
  lemma ShapedWellFormed(e: EdgeMap, lo: int, n: int, edgeWeights: bool)
    requires Shaped(e, lo, n, edgeWeights)
    ensures WellFormed(e, n) && |e| <= n * (n - 1)
  {
    EdgeCountBound(e, n);
  }

  /**
   One new node of the run: its degree total (with the zero-degree fallback),
   its target loop, and, when the targets are complete, its links. `linked` is
   false, with nothing changed, when the draw budget ran out first; `count` is
   the number of edges the node formed, `targets` the nodes its draws picked
   and `next` the first draw it left unused.
   */
  method AddNode(g: Graph, degree: array<int>, newNode: int, m: int, edgeWeights: bool,
                 rng: (nat, int) -> int, used: nat, maxDraws: nat)
    returns (linked: bool, count: int, next: nat, targets: set<int>)
    requires m + 1 <= newNode < degree.Length && used <= maxDraws
    requires Linked(g.edges, degree[..], m + 1, newNode, m, edgeWeights)
    requires m >= 2 ==> newNode == m + 1
    modifies g, degree
    ensures used <= next <= maxDraws && g.groups == old(g.groups)
    ensures linked ==> Linked(g.edges, degree[..], m + 1, newNode + 1, m, edgeWeights) && count == Max0(m)
    ensures !linked ==> g.edges == old(g.edges) && degree[..] == old(degree[..])
    ensures m >= 2 ==> !linked
    ensures m <= 0 ==> linked
    ensures next == StopAt(old(degree[..]), newNode, DrawBound(old(degree[..]), newNode), m, rng, used, used, maxDraws)
    ensures targets == Picked(old(degree[..]), newNode, DrawBound(old(degree[..]), newNode), rng, used, next)
    ensures linked <==> |targets| >= m
    ensures linked ==> g.edges == Attached(old(g.edges), newNode, targets, edgeWeights)
    ensures !linked ==> (next == maxDraws
      && |Picked(old(degree[..]), newNode, DrawBound(old(degree[..]), newNode), rng, used, maxDraws)| < m)
  {
    var total := TotalDegree(degree, newNode);
    if total == 0 {
      total := newNode;
    }
    targets, next := ChooseTargets(degree, newNode, total, m, rng, used, maxDraws);
    if m >= 2 {
      FirstNodeStuck(g.edges, degree[..], newNode, m, edgeWeights, total, rng, used, next);
    }
    if |targets| < m {
      linked, count := false, 0;
      return;
    }
    ghost var e, d := g.edges, degree[..];
    Attach(g, degree, newNode, targets, edgeWeights);
    LinkedStep(e, d, m + 1, newNode, m, edgeWeights, targets, degree[..]);
    linked, count := true, |targets|;
  }

  /**
   The loop of preferentialAttachmentSimulation over the new nodes, from
   edgesPerStep + 1 on, with the draws numbered from 0. `reached` is the first
   node not linked: all of them when `completed`, else the node whose draws ran
   out.
   */
  method LinkNewNodes(g: Graph, degree: array<int>, edgesPerStep: int, edgeWeights: bool,
                      rng: (nat, int) -> int, maxDraws: nat)
    returns (completed: bool, added: seq<int>, used: nat)
    requires degree.Length == g.numAgents
    requires Linked(g.edges, degree[..], edgesPerStep + 1, edgesPerStep + 1, edgesPerStep, edgeWeights)
    modifies g, degree
    ensures g.groups == old(g.groups)
    ensures var reached := edgesPerStep + 1 + |added|;
      && Linked(g.edges, degree[..], edgesPerStep + 1, reached, edgesPerStep, edgeWeights)
      && (completed ==> |added| == Max0(degree.Length - (edgesPerStep + 1)))
      && (!completed ==> reached < degree.Length && used == maxDraws)
    ensures forall k :: 0 <= k < |added| ==> added[k] == Max0(edgesPerStep)
    ensures edgesPerStep <= 0 ==> completed
    ensures edgesPerStep >= 2 ==> added == []
  {
    completed := true;
    added := [];
    used := 0;
    var newNode := edgesPerStep + 1;
    while newNode < degree.Length
      invariant used <= maxDraws
      invariant newNode <= degree.Length || newNode == edgesPerStep + 1
      invariant Linked(g.edges, degree[..], edgesPerStep + 1, newNode, edgesPerStep, edgeWeights)
      invariant edgesPerStep >= 2 ==> newNode == edgesPerStep + 1
      invariant newNode == edgesPerStep + 1 + |added|
      invariant forall k :: 0 <= k < |added| ==> added[k] == Max0(edgesPerStep)
      invariant g.groups == old(g.groups)
      decreases degree.Length - newNode
    {
      var linked, count, next, _ := AddNode(g, degree, newNode, edgesPerStep, edgeWeights, rng, used, maxDraws);
      used := next;
      if !linked {
        completed := false;
        return;
      }
      added := added + [count];
      newNode := newNode + 1;
    }
  }

  /**
   preferentialAttachmentSimulation. Draw number k of the run is rng(k, total),
   standing for rand.Intn(total); the run stops early, with `completed` false,
   once `maxDraws` draws are used up, which is where the source would go on
   drawing for ever. When edgesPerStep >= 2 and there is at least one new
   node, that always happens: the first new node can never collect its
   targets. `added` holds the per-node edge counts the source logs, one for
   each new node that was linked.
   */
  method PreferentialAttachmentSimulation(numAgents: int, edgesPerStep: int, edgeWeights: bool,
                                          rng: (nat, int) -> int, maxDraws: nat)
    returns (g: Graph, degree: array<int>, completed: bool, added: seq<int>, used: nat)
    requires numAgents >= 0
    ensures fresh(g) && fresh(degree)
    ensures g.numAgents == numAgents && g.groups == map[] && degree.Length == numAgents
    ensures Shaped(g.edges, edgesPerStep + 1, numAgents, edgeWeights)
    ensures DegreesMatch(g.edges, degree[..])
    ensures completed ==> OutDegrees(g.edges, edgesPerStep + 1, numAgents, edgesPerStep)
    ensures numAgents <= edgesPerStep + 1 || edgesPerStep <= 0 ==> completed && g.edges == map[]
    ensures edgesPerStep >= 2 && numAgents > edgesPerStep + 1 ==> !completed
    ensures forall k :: 0 <= k < |added| ==> added[k] == Max0(edgesPerStep)
    ensures completed ==> |added| == Max0(numAgents - (edgesPerStep + 1))
    ensures !completed ==> |added| < numAgents - (edgesPerStep + 1)
    ensures !completed ==> used == maxDraws
  {
    g := new Graph(numAgents);
    degree := new int[numAgents];
    forall i | 0 <= i < numAgents {
      degree[i] := 0;
    }
    NoEdgeDegrees(degree[..]);
    completed, added, used := LinkNewNodes(g, degree, edgesPerStep, edgeWeights, rng, maxDraws);
  }
}
