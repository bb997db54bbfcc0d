/** Random (Erdős–Rényi style) linking: randomSimulation of networks.go. */
module RandomLinking {
  import opened Options
  import opened Graphs
  import opened Steps

  /**
   Node `i`'s action on its draw: when the coin falls below `p` it links to the
   drawn target, unless that target is `i` itself (then the attempt is dropped).
   */
  function RandomChoice(i: int, d: Draw, p: real): (c: Choice)
    ensures c.Some? <==> d.uniform < p && d.target != i
    ensures c.Some? ==> c.value == d.target
  {
    if d.uniform < p then
      if d.target == i then None else Some(d.target)
    else None
  }

  /** The choices of every node in one step. */
  function RandomChoices(row: seq<Draw>, p: real): (choices: seq<Choice>)
    ensures |choices| == |row|
  {
    seq(|row|, i requires 0 <= i < |row| => RandomChoice(i, row[i], p))
  }

  /** The choices of every node in every step. */
  function RandomRows(draws: seq<seq<Draw>>, p: real): (rows: seq<seq<Choice>>)
    ensures |rows| == |draws|
    ensures forall s :: 0 <= s < |rows| ==> |rows[s]| == |draws[s]|
    ensures forall s :: 0 <= s < |rows| ==> rows[s] == RandomChoices(draws[s], p)
  {
    seq(|draws|, s requires 0 <= s < |draws| => RandomChoices(draws[s], p))
  }

  /** The edge store a random run with these draws ends with. */
  function RandomRun(draws: seq<seq<Draw>>, p: real, edgeWeights: bool): EdgeMap {
    RunPrefix(RandomRows(draws, p), |draws|, edgeWeights)
  }

  /**
   Every stored edge joins two distinct agents, so there are at most
   numAgents * (numAgents - 1) of them.
   */
  lemma RandomRunWellFormed(draws: seq<seq<Draw>>, numAgents: int, timeSteps: int, p: real, edgeWeights: bool)
    requires ValidDraws(draws, numAgents, timeSteps)
    ensures WellFormed(RandomRun(draws, p, edgeWeights), numAgents)
    ensures |RandomRun(draws, p, edgeWeights)| <= numAgents * (numAgents - 1)
  {
    var rows := RandomRows(draws, p);
    var r := RandomRun(draws, p, edgeWeights);
    forall key | key in r ensures key.0 != key.1 && 0 <= key.0 < numAgents && 0 <= key.1 < numAgents {
      StoredWasChosen(rows, edgeWeights, key);
      var s :| 0 <= s < |rows| && FormedIn(rows[s], key);
      assert rows[s][key.0] == RandomChoice(key.0, draws[s][key.0], p);
    }
    EdgeCountBound(r, numAgents);
  }

  /**
   With weighting off every stored weight is 0; with it on every stored weight
   is the number of times its pair was formed, hence at least 1.
   */
  lemma RandomRunWeights(draws: seq<seq<Draw>>, p: real, edgeWeights: bool, key: Key)
    requires key in RandomRun(draws, p, edgeWeights)
    ensures !edgeWeights ==> RandomRun(draws, p, edgeWeights)[key] == 0
    ensures edgeWeights ==> RandomRun(draws, p, edgeWeights)[key] == Formations(RandomRows(draws, p), |draws|, key) >= 1
  {
    RunWeights(RandomRows(draws, p), |draws|, edgeWeights, key);
  }

  /** With p = 0 no coin ever succeeds, so no edge is formed in any number of steps. */
  lemma ZeroProbabilityNoEdges(draws: seq<seq<Draw>>, numAgents: int, timeSteps: int, p: real, edgeWeights: bool)
    requires ValidDraws(draws, numAgents, timeSteps)
    requires p <= 0.0
    ensures RandomRun(draws, p, edgeWeights) == map[]
  {
    var rows := RandomRows(draws, p);
    forall s, i | 0 <= s < |rows| && 0 <= i < |rows[s]| ensures rows[s][i] == None {
      assert rows[s][i] == RandomChoice(i, draws[s][i], p);
    }
    NoChoiceNoEdges(rows, edgeWeights);
  }

  /**
   One time step of randomSimulation (the body of the loop over t): each node
   whose coin falls below `p` links to its drawn target unless that is itself.
   `edgesAdded` counts the pairs the step newly stored.
   */
  method RandomTimeStep(g: Graph, row: seq<Draw>, p: real, edgeWeights: bool) returns (edgesAdded: int)
    requires |row| == Max0(g.numAgents)
    modifies g
    ensures g.edges == StepPrefix(old(g.edges), RandomChoices(row, p), |row|, edgeWeights)
    ensures edgesAdded == |g.edges| - |old(g.edges)|
    ensures g.groups == old(g.groups)
  {
    ghost var choices := RandomChoices(row, p);
    ghost var start := g.edges;
    edgesAdded := 0;
    var n := g.numAgents;
    var i := 0;
    while i < n
      invariant 0 <= i <= |row|
      invariant i < n || i == |row|
      invariant g.groups == old(g.groups)
      invariant g.edges == StepPrefix(start, choices, i, edgeWeights)
      invariant edgesAdded == |g.edges| - |start|
    {
      var d := row[i];
      ghost var before := g.edges;
      assert choices[i] == RandomChoice(i, d, p);
      StepNext(start, choices, i, edgeWeights);
      if d.uniform < p {
        var j := d.target;
        if i != j {
          var created := g.Upsert(i, j, edgeWeights);
          if created {
            edgesAdded := edgesAdded + 1;
          }
        }
      }
      assert g.edges == Form(before, i, choices[i], edgeWeights);
      i := i + 1;
    }
  }

  /**
   randomSimulation: `timeSteps` steps over a fresh graph. `added` holds the
   per-step "edges added" counts the source logs.
   */
  method RandomSimulation(numAgents: int, timeSteps: int, p: real, edgeWeights: bool, draws: seq<seq<Draw>>)
    returns (g: Graph, added: seq<int>)
    requires ValidDraws(draws, numAgents, timeSteps)
    ensures fresh(g) && g.numAgents == numAgents && g.groups == map[]
    ensures g.edges == RandomRun(draws, p, edgeWeights)
    ensures added == Gains(RandomRows(draws, p), |draws|, edgeWeights)
  {
    g := new Graph(numAgents);
    ghost var rows := RandomRows(draws, p);
    added := [];
    var t := 0;
    while t < timeSteps
      invariant 0 <= t <= |draws|
      invariant t < timeSteps || t == |draws|
      invariant g.numAgents == numAgents && g.groups == map[]
      invariant g.edges == RunPrefix(rows, t, edgeWeights)
      invariant added == Gains(rows, t, edgeWeights)
    {
      ValidRow(draws, numAgents, timeSteps, t);
      RunStep(rows, t, edgeWeights);
      assert rows[t] == RandomChoices(draws[t], p);
      var edgesAdded := RandomTimeStep(g, draws[t], p, edgeWeights);
      added := added + [edgesAdded];
      t := t + 1;
    }
  }
}
