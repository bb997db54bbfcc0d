/** A value that may be absent. */
module Options {
  datatype Option<+T> = None | Some(value: T)
}

/**
 The graph shared by the three simulations of networks.go: a node count, an edge
 store keyed by the ordered pair (source, target), and an optional group map.
 */
module Graphs {

  /** An ordered (source, target) pair; networks.go encodes it as the string "i_j". */
  type Key = (int, int)

  /** The edge store: the weight of every stored edge, by its ordered pair. */
  type EdgeMap = map<Key, int>

  /** One edge record, as networks.go and visualize.go both declare it. */
  datatype Edge = Edge(source: int, target: int, weight: int)

  function Max0(n: int): nat { if n > 0 then n else 0 }

  /** The sum of a sequence of integers. */
  function Sum(s: seq<int>): int {
    if s == [] then 0 else Sum(s[..|s| - 1]) + s[|s| - 1]
  }

  /** The weight a newly formed edge starts with. */
  function InitialWeight(edgeWeights: bool): int { if edgeWeights then 1 else 0 }

  /**
   Insert-or-increment: a first formation of `key` stores it with the initial
   weight; a repeat formation adds one to its weight when weighting is on and
   leaves it alone otherwise. No other record is touched, and the store grows by
   exactly one record when the pair was new.
   */
  function Upserted(m: EdgeMap, key: Key, edgeWeights: bool): (r: EdgeMap)
    ensures r.Keys == m.Keys + {key}
    ensures key !in m ==> r[key] == InitialWeight(edgeWeights)
    ensures key in m ==> r[key] == if edgeWeights then m[key] + 1 else m[key]
    ensures forall k :: k in m && k != key ==> r[k] == m[k]
    ensures |r| == if key in m then |m| else |m| + 1
  {
    if key in m then
      if edgeWeights then m[key := m[key] + 1] else m
    else
      m[key := InitialWeight(edgeWeights)]
  }

  /** No self-loops, and both ends are nodes of a graph of `n` agents. */
  ghost predicate WellFormed(m: EdgeMap, n: int) {
    forall k :: k in m ==> k.0 != k.1 && 0 <= k.0 < n && 0 <= k.1 < n
  }

  ghost function Row(a: int, b: int): set<Key> {
    set j | 0 <= j < b :: (a, j)
  }

  ghost function Column(a: int, b: int): set<Key> {
    set i | 0 <= i < b :: (i, a)
  }

  /** Every ordered pair of distinct nodes below `n`, built node by node. */
  ghost function OffDiagonal(n: nat): set<Key> {
    if n == 0 then {} else OffDiagonal(n - 1) + Row(n - 1, n - 1) + Column(n - 1, n - 1)
  }

  lemma {:induction false} RowCount(a: int, b: nat)
    ensures |Row(a, b)| == b
  {
    if b > 0 {
      RowCount(a, b - 1);
      assert (a, b - 1) !in Row(a, b - 1);
      assert Row(a, b) == Row(a, b - 1) + {(a, b - 1)};
    } else {
      assert Row(a, b) == {};
    }
  }

  lemma {:induction false} ColumnCount(a: int, b: nat)
    ensures |Column(a, b)| == b
  {
    if b > 0 {
      ColumnCount(a, b - 1);
      assert (b - 1, a) !in Column(a, b - 1);
      assert Column(a, b) == Column(a, b - 1) + {(b - 1, a)};
    } else {
      assert Column(a, b) == {};
    }
  }

  lemma {:induction false} OffDiagonalMembers(n: nat, k: Key)
    ensures k in OffDiagonal(n) <==> 0 <= k.0 < n && 0 <= k.1 < n && k.0 != k.1
  {
    if n > 0 {
      OffDiagonalMembers(n - 1, k);
    }
  }

  lemma PairCountStep(a: nat)
    ensures (a + 1) * a == a * (a - 1) + 2 * a
  {
  }

  lemma {:induction false} OffDiagonalSize(n: nat)
    ensures |OffDiagonal(n)| == n * (n - 1)
  {
    if n > 0 {
      var a := n - 1;
      OffDiagonalSize(a);
      RowCount(a, a);
      ColumnCount(a, a);
      forall k | k in Row(a, a) ensures k !in OffDiagonal(a) {
        OffDiagonalMembers(a, k);
      }
      forall k | k in Column(a, a) ensures k !in OffDiagonal(a) + Row(a, a) {
        OffDiagonalMembers(a, k);
      }
      assert |OffDiagonal(a) + Row(a, a)| == a * (a - 1) + a;
      PairCountStep(a);
    }
  }

  lemma NonPositiveSquare(n: int)
    requires n <= 0
    ensures n * (n - 1) >= 0
  {
    assert n * (n - 1) == (-n) * (1 - n);
  }

  lemma SubsetSize<T>(a: set<T>, b: set<T>)
    requires a <= b
    ensures |a| <= |b|
  {
    assert b == a + (b - a);
  }

  /**
   At most one record per ordered pair and no self-loops bound the store:
   a well-formed store for `n` agents holds at most n * (n - 1) edges.
   */
  lemma EdgeCountBound(m: EdgeMap, n: int)
    requires WellFormed(m, n)
    ensures |m| <= n * (n - 1)
  {
    if n <= 0 {
      assert m.Keys == {};
      NonPositiveSquare(n);
    } else {
      OffDiagonalSize(n);
      forall k | k in m.Keys ensures k in OffDiagonal(n) {
        OffDiagonalMembers(n, k);
      }
      SubsetSize(m.Keys, OffDiagonal(n));
    }
  }

  /** The edge store decoded from an edge list (the reading side of network.json). */
  function EdgeMapOf(list: seq<Edge>): EdgeMap {
    if list == [] then map[]
    else
      var e := list[|list| - 1];
      EdgeMapOf(list[..|list| - 1])[(e.source, e.target) := e.weight]
  }

  /** The part of the store whose keys lie in `keys`. */
  function Restrict(m: EdgeMap, keys: set<Key>): EdgeMap {
    map k | k in m && k in keys :: m[k]
  }

  lemma RestrictGrow(m: EdgeMap, keys: set<Key>, k: Key)
    requires k in m
    ensures Restrict(m, keys + {k}) == Restrict(m, keys)[k := m[k]]
  {
  }

  /** The keys of the edges of a list. */
  function ListKeys(list: seq<Edge>): set<Key> {
    set e | e in list :: (e.source, e.target)
  }

  /** No two records of the list name the same ordered pair. */
  ghost predicate DistinctPairs(list: seq<Edge>) {
    forall a, b :: 0 <= a < b < |list| ==>
      (list[a].source, list[a].target) != (list[b].source, list[b].target)
  }

  /**
   `list` holds one record, with its weight, for each stored pair not in
   `rest`, no pair twice.
   */
  ghost predicate Flattened(m: EdgeMap, list: seq<Edge>, rest: set<Key>) {
    && rest <= m.Keys
    && ListKeys(list) == m.Keys - rest
    && (forall e :: e in list ==> (e.source, e.target) in m && m[(e.source, e.target)] == e.weight)
    && DistinctPairs(list)
    && EdgeMapOf(list) == Restrict(m, m.Keys - rest)
  }

  lemma FlattenStep(m: EdgeMap, list: seq<Edge>, rest: set<Key>, k: Key)
    requires Flattened(m, list, rest) && k in rest
    ensures Flattened(m, list + [Edge(k.0, k.1, m[k])], rest - {k})
  {
    var list' := list + [Edge(k.0, k.1, m[k])];
    assert list'[..|list'| - 1] == list;
    assert ListKeys(list') == ListKeys(list) + {k};
    RestrictGrow(m, m.Keys - rest, k);
    assert m.Keys - (rest - {k}) == (m.Keys - rest) + {k};
  }

  lemma FlattenDone(m: EdgeMap, list: seq<Edge>)
    requires Flattened(m, list, {})
    ensures forall k :: k in m ==> Edge(k.0, k.1, m[k]) in list
    ensures EdgeMapOf(list) == m
  {
    assert Restrict(m, m.Keys) == m;
    forall k | k in m ensures Edge(k.0, k.1, m[k]) in list {
      assert k in ListKeys(list);
    }
  }

  /**
   Go's `%`, which truncates: the remainder takes the sign of `a`. It agrees
   with Dafny's Euclidean `%` for `a >= 0`, and for `a < 0` it is that
   remainder shifted down by |b| unless it is 0.
   */
  function GoRem(a: int, b: int): (r: int)
    requires b != 0
    ensures a >= 0 ==> r == a % b
    ensures a < 0 ==> r == if a % b == 0 then 0 else a % b - (if b < 0 then -b else b)
  {
    var d := if b < 0 then -b else b;
    RemAbs(a, b);
    if a >= 0 then a % d else (RemNegated(a, d); -((-a) % d))
  }

  /** Euclidean division by a positive `d` has exactly one remainder. */
  lemma RemUnique(a: int, d: int, q: int, r: int)
    requires d > 0 && 0 <= r < d && a == q * d + r
    ensures a % d == r
  {
    var q', r' := a / d, a % d;
    assert q' * d + r' == a;
    assert (q - q') * d == q * d - q' * d == r' - r;
    if q > q' {
      MulAtLeast(q - q', d);
      assert false;
    } else if q < q' {
      assert (q' - q) * d == r - r';
      MulAtLeast(q' - q, d);
      assert false;
    }
  }

  lemma MulAtLeast(k: int, d: int)
    requires k >= 1 && d > 0
    ensures k * d >= d
  {
    assert k * d == (k - 1) * d + d;
  }

  /** Dafny's `%` depends only on the magnitude of the divisor. */
  lemma RemAbs(a: int, b: int)
    requires b != 0
    ensures a % b == a % (if b < 0 then -b else b)
  {
    if b < 0 {
      RemUnique(a, -b, -(a / b), a % b);
    }
  }

  /** The Euclidean remainder of `a < 0`, from the remainder of `-a`. */
  lemma RemNegated(a: int, d: int)
    requires a < 0 && d > 0
    ensures a % d == if (-a) % d == 0 then 0 else d - (-a) % d
  {
    var q, s := (-a) / d, (-a) % d;
    if s == 0 {
      RemUnique(a, d, -q, 0);
    } else {
      RemUnique(a, d, -q - 1, d - s);
    }
  }

  /** The group map of a homophily graph: node i belongs to group i % k. */
  function GroupMap(n: int, k: int): (groups: map<int, int>)
    requires k != 0 || n <= 0
    ensures forall i :: i in groups <==> 0 <= i < n
    ensures forall i :: i in groups ==> 0 <= groups[i] < (if k < 0 then -k else k)
  {
    map i | 0 <= i < n :: GoRem(i, k)
  }

  /** Nodes and edges of one run; `groups` is filled only by the homophily simulation. */
  class Graph {
    const numAgents: int
    var edges: EdgeMap
    var groups: map<int, int>

    constructor (n: int)
      ensures numAgents == n && edges == map[] && groups == map[]
    {
      numAgents := n;
      edges := map[];
      groups := map[];
    }

    /**
     The shared insert-or-increment of networks.go; `created` says whether the
     pair was new, which is what the simulations count as an added edge.
     */
    method Upsert(i: int, j: int, edgeWeights: bool) returns (created: bool)
      modifies this
      ensures created <==> (i, j) !in old(edges)
      ensures edges == Upserted(old(edges), (i, j), edgeWeights)
      ensures groups == old(groups)
    {
      var key := (i, j);
      ghost var before := edges;
      if key in edges {
        if edgeWeights {
          edges := edges[key := edges[key] + 1];
        }
        created := false;
      } else {
        edges := edges[key := InitialWeight(edgeWeights)];
        created := true;
      }
      assert edges == Upserted(before, key, edgeWeights);
    }

    /** A plain store of a fresh record, as preferential attachment writes it. */
    method Store(i: int, j: int, weight: int)
      modifies this
      ensures edges == old(edges)[(i, j) := weight]
      ensures groups == old(groups)
    {
      edges := edges[(i, j) := weight];
    }

    /** Fills the still empty group map, node by node, with i % k. */
    method AssignGroups(k: int)
      requires k != 0 || numAgents <= 0
      requires groups == map[]
      modifies this
      ensures groups == GroupMap(numAgents, k)
      ensures edges == old(edges)
    {
      var i := 0;
      while i < numAgents
        invariant 0 <= i <= Max0(numAgents)
        invariant groups == GroupMap(i, k)
        invariant edges == old(edges)
      {
        groups := groups[i := GoRem(i, k)];
        i := i + 1;
      }
      assert GroupMap(i, k) == GroupMap(numAgents, k);
    }

    /**
     Flattens the store into a list: one record per stored pair with its weight,
     no pair twice, and decoding the list gives the store back. The order is
     whatever order the store's keys are taken in.
     */
    method EdgeList() returns (list: seq<Edge>)
      ensures |list| == |edges|
      ensures forall e :: e in list ==> (e.source, e.target) in edges && edges[(e.source, e.target)] == e.weight
      ensures forall k :: k in edges ==> Edge(k.0, k.1, edges[k]) in list
      ensures DistinctPairs(list)
      ensures EdgeMapOf(list) == edges
    {
      list := [];
      var rest := edges.Keys;
      assert Restrict(edges, {}) == map[];
      while rest != {}
        invariant Flattened(edges, list, rest)
        invariant |list| + |rest| == |edges|
        decreases |rest|
      {
        var k :| k in rest;
        FlattenStep(edges, list, rest, k);
        list := list + [Edge(k.0, k.1, edges[k])];
        rest := rest - {k};
      }
      FlattenDone(edges, list);
    }
  }
}
