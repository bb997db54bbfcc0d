/** Homophily-biased linking: homophilySimulation of networks.go. */
module HomophilyLinking {
  import opened Options
  import opened Graphs
  import opened Steps

  /**
   Node `i`'s action on its draw: a self-target is dropped; otherwise the coin
   is compared against `pIn` when both nodes are in the same group and against
   `pOut` when they are not, and a coin below it links `i` to the target.
   */
  function HomophilyChoice(i: int, d: Draw, k: int, pIn: real, pOut: real): (c: Choice)
    requires k != 0
    ensures d.target == i ==> c == None
    ensures c.Some? ==> c.value == d.target
    ensures d.target != i && GoRem(i, k) == GoRem(d.target, k) ==> (c.Some? <==> d.uniform < pIn)
    ensures d.target != i && GoRem(i, k) != GoRem(d.target, k) ==> (c.Some? <==> d.uniform < pOut)
  {
    if d.target == i then None
    else
      var prob := if GoRem(i, k) == GoRem(d.target, k) then pIn else pOut;
      if d.uniform < prob then Some(d.target) else None
  }

  /** The choices of every node in one step. */
  function HomophilyChoices(row: seq<Draw>, k: int, pIn: real, pOut: real): (choices: seq<Choice>)
    requires k != 0
    ensures |choices| == |row|
  {
    seq(|row|, i requires 0 <= i < |row| => HomophilyChoice(i, row[i], k, pIn, pOut))
  }

  /** The choices of every node in every step. */
  function HomophilyRows(draws: seq<seq<Draw>>, k: int, pIn: real, pOut: real): (rows: seq<seq<Choice>>)
    requires k != 0
    ensures |rows| == |draws|
    ensures forall s :: 0 <= s < |rows| ==> |rows[s]| == |draws[s]|
    ensures forall s :: 0 <= s < |rows| ==> rows[s] == HomophilyChoices(draws[s], k, pIn, pOut)
  {
    seq(|draws|, s requires 0 <= s < |draws| => HomophilyChoices(draws[s], k, pIn, pOut))
  }

  /** The edge store a homophily run with these draws ends with. */
  function HomophilyRun(draws: seq<seq<Draw>>, k: int, pIn: real, pOut: real, edgeWeights: bool): EdgeMap
    requires k != 0
  {
    RunPrefix(HomophilyRows(draws, k, pIn, pOut), |draws|, edgeWeights)
  }

  /** Every stored edge joins two distinct agents; at most n * (n - 1) of them. */
  lemma HomophilyRunWellFormed(draws: seq<seq<Draw>>, numAgents: int, timeSteps: int, k: int,
                               pIn: real, pOut: real, edgeWeights: bool)
    requires ValidDraws(draws, numAgents, timeSteps)
    requires k != 0
    ensures WellFormed(HomophilyRun(draws, k, pIn, pOut, edgeWeights), numAgents)
    ensures |HomophilyRun(draws, k, pIn, pOut, edgeWeights)| <= numAgents * (numAgents - 1)
  {
    var rows := HomophilyRows(draws, k, pIn, pOut);
    var r := HomophilyRun(draws, k, pIn, pOut, edgeWeights);
    forall key | key in r ensures key.0 != key.1 && 0 <= key.0 < numAgents && 0 <= key.1 < numAgents {
      StoredWasChosen(rows, edgeWeights, key);
      var s :| 0 <= s < |rows| && FormedIn(rows[s], key);
      assert rows[s][key.0] == HomophilyChoice(key.0, draws[s][key.0], k, pIn, pOut);
    }
    EdgeCountBound(r, numAgents);
  }

  /**
   With pIn = 1 every same-group attempt succeeds and with pOut = 0 every
   cross-group attempt fails, so every stored edge joins two nodes of one group.
   */
  lemma SameGroupOnly(draws: seq<seq<Draw>>, numAgents: int, timeSteps: int, k: int,
                      pIn: real, pOut: real, edgeWeights: bool, key: Key)
    requires ValidDraws(draws, numAgents, timeSteps)
    requires k != 0
    requires pIn == 1.0 && pOut == 0.0
    requires key in HomophilyRun(draws, k, pIn, pOut, edgeWeights)
    ensures GoRem(key.0, k) == GoRem(key.1, k)
  {
    var rows := HomophilyRows(draws, k, pIn, pOut);
    StoredWasChosen(rows, edgeWeights, key);
    var s :| 0 <= s < |rows| && FormedIn(rows[s], key);
    assert rows[s][key.0] == HomophilyChoice(key.0, draws[s][key.0], k, pIn, pOut);
  }

  /**
   With weighting off every stored weight is 0; with it on every stored weight
   is the number of times its pair was formed, hence at least 1.
   */
  lemma HomophilyRunWeights(draws: seq<seq<Draw>>, k: int, pIn: real, pOut: real, edgeWeights: bool, key: Key)
    requires k != 0
    requires key in HomophilyRun(draws, k, pIn, pOut, edgeWeights)
    ensures !edgeWeights ==> HomophilyRun(draws, k, pIn, pOut, edgeWeights)[key] == 0
    ensures edgeWeights ==> HomophilyRun(draws, k, pIn, pOut, edgeWeights)[key]
                            == Formations(HomophilyRows(draws, k, pIn, pOut), |draws|, key) >= 1
  {
    RunWeights(HomophilyRows(draws, k, pIn, pOut), |draws|, edgeWeights, key);
  }

  /**
   One time step of homophilySimulation: each node draws a target; a
   self-target is dropped; otherwise the group comparison picks `pIn` or
   `pOut` and a coin below it goes through the upsert.
   */
  method HomophilyTimeStep(g: Graph, row: seq<Draw>, k: int, pIn: real, pOut: real, edgeWeights: bool)
    returns (edgesAdded: int)
    requires k != 0
    requires |row| == Max0(g.numAgents)
    requires forall i :: 0 <= i < |row| ==> 0 <= row[i].target < g.numAgents
    requires g.groups == GroupMap(g.numAgents, k)
    modifies g
    ensures g.edges == StepPrefix(old(g.edges), HomophilyChoices(row, k, pIn, pOut), |row|, edgeWeights)
    ensures edgesAdded == |g.edges| - |old(g.edges)|
    ensures g.groups == old(g.groups)
  {
    ghost var choices := HomophilyChoices(row, k, pIn, pOut);
    ghost var start := g.edges;
    edgesAdded := 0;
    var n := g.numAgents;
    var i := 0;
    while i < n
      invariant 0 <= i <= |row|
      invariant i < n || i == |row|
      invariant g.groups == old(g.groups)
      invariant g.edges == StepPrefix(start, choices, i, edgeWeights)
      invariant edgesAdded == |g.edges| - |start|
    {
      var d := row[i];
      ghost var before := g.edges;
      assert choices[i] == HomophilyChoice(i, d, k, pIn, pOut);
      StepNext(start, choices, i, edgeWeights);
      var j := d.target;
      if i != j {
        var prob := if g.groups[i] == g.groups[j] then pIn else pOut;
        if d.uniform < prob {
          var created := g.Upsert(i, j, edgeWeights);
          if created {
            edgesAdded := edgesAdded + 1;
          }
        }
      }
      assert g.edges == Form(before, i, choices[i], edgeWeights);
      i := i + 1;
    }
  }

  /**
   homophilySimulation: node i is put in group i % k once, before any step;
   then `timeSteps` steps run over the fresh graph. `added` holds the per-step
   "edges added" counts the source logs.
   */
  method HomophilySimulation(numAgents: int, timeSteps: int, k: int, pIn: real, pOut: real,
                             edgeWeights: bool, draws: seq<seq<Draw>>)
    returns (g: Graph, added: seq<int>)
    requires ValidDraws(draws, numAgents, timeSteps)
    requires k != 0
    ensures fresh(g) && g.numAgents == numAgents
    ensures g.groups == GroupMap(numAgents, k)
    ensures g.edges == HomophilyRun(draws, k, pIn, pOut, edgeWeights)
    ensures added == Gains(HomophilyRows(draws, k, pIn, pOut), |draws|, edgeWeights)
  {
    g := new Graph(numAgents);
    g.AssignGroups(k);
    ghost var rows := HomophilyRows(draws, k, pIn, pOut);
    added := [];
    var t := 0;
    while t < timeSteps
      invariant 0 <= t <= |draws|
      invariant t < timeSteps || t == |draws|
      invariant g.numAgents == numAgents && g.groups == GroupMap(numAgents, k)
      invariant g.edges == RunPrefix(rows, t, edgeWeights)
      invariant added == Gains(rows, t, edgeWeights)
    {
      ValidRow(draws, numAgents, timeSteps, t);
      RunStep(rows, t, edgeWeights);
      assert rows[t] == HomophilyChoices(draws[t], k, pIn, pOut);
      var edgesAdded := HomophilyTimeStep(g, draws[t], k, pIn, pOut, edgeWeights);
      added := added + [edgesAdded];
      t := t + 1;
    }
  }
}
