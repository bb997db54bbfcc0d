/**
 The time-step structure the random and homophily simulations share
 (networks.go:47-75 and 140-175): in every step, nodes 0, 1, ... in turn
 either form an edge to one target or do nothing, and each formation goes
 through the insert-or-increment of the edge store.
 */
module Steps {
  import opened Options
  import opened Graphs

  /**
   The random draws of one attempt: `uniform` stands for rand.Float64(), a
   value in [0, 1) compared against a probability, and `target` for
   rand.Intn(numAgents).
   */
  datatype Draw = Draw(uniform: real, target: int)

  /** A run's draws: one row per time step, one draw per node, each in range. */
  ghost predicate ValidDraws(draws: seq<seq<Draw>>, numAgents: int, timeSteps: int) {
    && |draws| == Max0(timeSteps)
    && (forall s :: 0 <= s < |draws| ==> |draws[s]| == Max0(numAgents))
    && (forall s, i :: 0 <= s < |draws| && 0 <= i < |draws[s]| ==>
          0.0 <= draws[s][i].uniform < 1.0 && 0 <= draws[s][i].target < numAgents)
  }

  /** What one node does in one step: form an edge to `Some(target)`, or nothing. */
  type Choice = Option<int>

  /** The store after node `i` acted on choice `c`. */
  function Form(m: EdgeMap, i: int, c: Choice, edgeWeights: bool): EdgeMap {
    match c
    case None => m
    case Some(j) => Upserted(m, (i, j), edgeWeights)
  }

  /** The store after nodes 0 .. k-1 of one step have acted. */
  function StepPrefix(m: EdgeMap, choices: seq<Choice>, k: nat, edgeWeights: bool): EdgeMap
    requires k <= |choices|
  {
    if k == 0 then m
    else Form(StepPrefix(m, choices, k - 1, edgeWeights), k - 1, choices[k - 1], edgeWeights)
  }

  /** The store after the first `t` steps, starting from an empty store. */
  function RunPrefix(rows: seq<seq<Choice>>, t: nat, edgeWeights: bool): EdgeMap
    requires t <= |rows|
  {
    if t == 0 then map[]
    else
      var before := RunPrefix(rows, t - 1, edgeWeights);
      StepPrefix(before, rows[t - 1], |rows[t - 1]|, edgeWeights)
  }

  /** Node i acting after nodes 0 .. i-1. */
  lemma StepNext(m: EdgeMap, choices: seq<Choice>, i: nat, edgeWeights: bool)
    requires i < |choices|
    ensures StepPrefix(m, choices, i + 1, edgeWeights) == Form(StepPrefix(m, choices, i, edgeWeights), i, choices[i], edgeWeights)
  {
  }

  /** Whether, in a step with these choices, node key.0 chose key.1. */
  predicate FormedIn(choices: seq<Choice>, key: Key) {
    0 <= key.0 < |choices| && choices[key.0] == Some(key.1)
  }

  /** In how many of the first `t` steps the pair `key` was formed. */
  function Formations(rows: seq<seq<Choice>>, t: nat, key: Key): nat
    requires t <= |rows|
  {
    if t == 0 then 0
    else Formations(rows, t - 1, key) + (if FormedIn(rows[t - 1], key) then 1 else 0)
  }

  /** Node `i`'s action leaves every record of another pair as it was. */
  lemma FormElsewhere(m: EdgeMap, i: int, c: Choice, edgeWeights: bool, key: Key)
    requires !(key.0 == i && c == Some(key.1))
    ensures var r := Form(m, i, c, edgeWeights);
      (key in r <==> key in m) && (key in m ==> r[key] == m[key])
  {
  }

  /** Upserting into two stores that agree on `key` gives the same record for it. */
  lemma FormHere(prev: EdgeMap, m: EdgeMap, key: Key, edgeWeights: bool)
    requires (key in prev <==> key in m) && (key in m ==> prev[key] == m[key])
    ensures key in Upserted(prev, key, edgeWeights)
    ensures Upserted(prev, key, edgeWeights)[key] == Upserted(m, key, edgeWeights)[key]
  {
  }

  /** A record whose pair no node among 0 .. k-1 chose is left as it was. */
  lemma {:induction false} StepUntouched(m: EdgeMap, choices: seq<Choice>, k: nat, edgeWeights: bool, key: Key)
    requires k <= |choices|
    requires !(0 <= key.0 < k && choices[key.0] == Some(key.1))
    ensures var r := StepPrefix(m, choices, k, edgeWeights);
      (key in r <==> key in m) && (key in m ==> r[key] == m[key])
  {
    if k > 0 {
      StepUntouched(m, choices, k - 1, edgeWeights, key);
      var prev := StepPrefix(m, choices, k - 1, edgeWeights);
      FormElsewhere(prev, k - 1, choices[k - 1], edgeWeights, key);
    }
  }

  /** A record whose pair was chosen in the step went through one upsert. */
  lemma {:induction false} StepFormed(m: EdgeMap, choices: seq<Choice>, k: nat, edgeWeights: bool, key: Key)
    requires k <= |choices|
    requires 0 <= key.0 < k && choices[key.0] == Some(key.1)
    ensures var r := StepPrefix(m, choices, k, edgeWeights);
      key in r && r[key] == Upserted(m, key, edgeWeights)[key]
  {
    var prev := StepPrefix(m, choices, k - 1, edgeWeights);
    if key.0 == k - 1 {
      StepUntouched(m, choices, k - 1, edgeWeights, key);
      FormHere(prev, m, key, edgeWeights);
    } else {
      StepFormed(m, choices, k - 1, edgeWeights, key);
      FormElsewhere(prev, k - 1, choices[k - 1], edgeWeights, key);
    }
  }

  /**
   One step touches a record only if its source node chose its target, and
   then exactly once, as one insert-or-increment; every other record is kept.
   */
  lemma StepEffect(m: EdgeMap, choices: seq<Choice>, k: nat, edgeWeights: bool, key: Key)
    requires k <= |choices|
    ensures var r := StepPrefix(m, choices, k, edgeWeights);
      if 0 <= key.0 < k && choices[key.0] == Some(key.1) then
        key in r && r[key] == Upserted(m, key, edgeWeights)[key]
      else
        (key in r <==> key in m) && (key in m ==> r[key] == m[key])
  {
    if 0 <= key.0 < k && choices[key.0] == Some(key.1) {
      StepFormed(m, choices, k, edgeWeights, key);
    } else {
      StepUntouched(m, choices, k, edgeWeights, key);
    }
  }

  /**
   The weight semantics over a whole run: a pair is stored exactly when it was
   formed at least once, and its weight is the number of formations when
   weighting is on and 0 when it is off. Repeats update, they never duplicate.
   */
  lemma {:induction false} RunWeights(rows: seq<seq<Choice>>, t: nat, edgeWeights: bool, key: Key)
    requires t <= |rows|
    ensures var r := RunPrefix(rows, t, edgeWeights);
      (key in r <==> Formations(rows, t, key) > 0) &&
      (key in r ==> r[key] == if edgeWeights then Formations(rows, t, key) else 0)
  {
    if t > 0 {
      RunWeights(rows, t - 1, edgeWeights, key);
      var before := RunPrefix(rows, t - 1, edgeWeights);
      StepEffect(before, rows[t - 1], |rows[t - 1]|, edgeWeights, key);
    }
  }

  /** A pair formed at least once was chosen by its source in some step. */
  lemma {:induction false} FormedSomewhere(rows: seq<seq<Choice>>, t: nat, key: Key)
    requires t <= |rows|
    requires Formations(rows, t, key) > 0
    ensures exists s :: 0 <= s < t && FormedIn(rows[s], key)
  {
    if !FormedIn(rows[t - 1], key) {
      FormedSomewhere(rows, t - 1, key);
    }
  }

  /** Every stored pair of a run was chosen by its source in some step. */
  lemma StoredWasChosen(rows: seq<seq<Choice>>, edgeWeights: bool, key: Key)
    requires key in RunPrefix(rows, |rows|, edgeWeights)
    ensures exists s :: 0 <= s < |rows| && FormedIn(rows[s], key)
  {
    RunWeights(rows, |rows|, edgeWeights, key);
    FormedSomewhere(rows, |rows|, key);
  }

  /** A run in which nobody chooses anything leaves the store empty. */
  lemma {:induction false} NoChoiceNoEdges(rows: seq<seq<Choice>>, edgeWeights: bool)
    requires forall s, i :: 0 <= s < |rows| && 0 <= i < |rows[s]| ==> rows[s][i] == None
    ensures RunPrefix(rows, |rows|, edgeWeights) == map[]
  {
    forall key | key in RunPrefix(rows, |rows|, edgeWeights) ensures false {
      StoredWasChosen(rows, edgeWeights, key);
    }
  }

  /**
   The number of records the store gained in each of the first `t` steps:
   the "edges added" count the source logs after every step.
   */
  function Gains(rows: seq<seq<Choice>>, t: nat, edgeWeights: bool): (gains: seq<int>)
    requires t <= |rows|
    ensures |gains| == t
  {
    if t == 0 then []
    else Gains(rows, t - 1, edgeWeights) + [|RunPrefix(rows, t, edgeWeights)| - |RunPrefix(rows, t - 1, edgeWeights)|]
  }

  /** One more step of a run: the next row acts on the store, and its growth is logged. */
  lemma RunStep(rows: seq<seq<Choice>>, t: nat, edgeWeights: bool)
    requires t < |rows|
    ensures RunPrefix(rows, t + 1, edgeWeights) == StepPrefix(RunPrefix(rows, t, edgeWeights), rows[t], |rows[t]|, edgeWeights)
    ensures Gains(rows, t + 1, edgeWeights) ==
      Gains(rows, t, edgeWeights) + [|RunPrefix(rows, t + 1, edgeWeights)| - |RunPrefix(rows, t, edgeWeights)|]
  {
  }

  lemma GainsLast(rows: seq<seq<Choice>>, t: nat, edgeWeights: bool)
    requires 0 < t <= |rows|
    ensures Gains(rows, t, edgeWeights)[..t - 1] == Gains(rows, t - 1, edgeWeights)
    ensures Gains(rows, t, edgeWeights)[t - 1] == |RunPrefix(rows, t, edgeWeights)| - |RunPrefix(rows, t - 1, edgeWeights)|
  {
  }

  /** Step `s`'s count is the growth of the store during that step, never negative. */
  lemma {:induction false} GainsAt(rows: seq<seq<Choice>>, t: nat, edgeWeights: bool, s: nat)
    requires s < t <= |rows|
    ensures Gains(rows, t, edgeWeights)[s] == |RunPrefix(rows, s + 1, edgeWeights)| - |RunPrefix(rows, s, edgeWeights)| >= 0
  {
    GainsLast(rows, t, edgeWeights);
    if s < t - 1 {
      GainsAt(rows, t - 1, edgeWeights, s);
      assert Gains(rows, t, edgeWeights)[s] == Gains(rows, t, edgeWeights)[..t - 1][s];
    } else {
      var before := RunPrefix(rows, s, edgeWeights);
      StepGrows(before, rows[s], |rows[s]|, edgeWeights);
    }
  }

  /** The per-step counts add up to the size of the store. */
  lemma {:induction false} GainsSum(rows: seq<seq<Choice>>, t: nat, edgeWeights: bool)
    requires t <= |rows|
    ensures Sum(Gains(rows, t, edgeWeights)) == |RunPrefix(rows, t, edgeWeights)|
  {
    if t > 0 {
      GainsSum(rows, t - 1, edgeWeights);
      GainsLast(rows, t, edgeWeights);
    }
  }

  /** One row of a valid run: one draw per agent, each target an agent. */
  lemma ValidRow(draws: seq<seq<Draw>>, numAgents: int, timeSteps: int, t: int)
    requires ValidDraws(draws, numAgents, timeSteps)
    requires 0 <= t < |draws|
    ensures |draws[t]| == Max0(numAgents)
    ensures forall i :: 0 <= i < |draws[t]| ==> 0 <= draws[t][i].target < numAgents
  {
  }

  /** A step never loses records: its gain is a count of newly stored pairs. */
  lemma {:induction false} StepGrows(m: EdgeMap, choices: seq<Choice>, k: nat, edgeWeights: bool)
    requires k <= |choices|
    ensures m.Keys <= StepPrefix(m, choices, k, edgeWeights).Keys
    ensures |m| <= |StepPrefix(m, choices, k, edgeWeights)| <= |m| + k
  {
    if k > 0 {
      StepGrows(m, choices, k - 1, edgeWeights);
    }
  }
}
