/**
 The run parameters of networks.go and the defaults loadConfig fills in for
 fields the configuration leaves at zero.
 */
module Config {

  /**
   The configuration of one run. `p`, `pIn` and `pOut` are probabilities,
   modelled as reals; the unused `Dynamic` and `OutputFormat` fields are not
   part of this model.
   */
  datatype Config = Config(
    numAgents: int,
    linkingStrategy: string,
    timeSteps: int,
    edgeWeights: bool,
    p: real,
    edgesPerStep: int,
    homophilyGroups: int,
    pIn: real,
    pOut: real)

  const DefaultNumAgents := 100
  const DefaultTimeSteps := 10
  const DefaultP := 0.05
  const DefaultEdgesPerStep := 1
  const DefaultHomophilyGroups := 2
  const DefaultPIn := 0.1
  const DefaultPOut := 0.01

  function OrDefault(x: int, default: int): int { if x == 0 then default else x }

  function OrDefaultReal(x: real, default: real): real { if x == 0.0 then default else x }

  /** The configuration with every zero field replaced by its default. */
  function Defaulted(c: Config): Config {
    c.(numAgents := OrDefault(c.numAgents, DefaultNumAgents),
       timeSteps := OrDefault(c.timeSteps, DefaultTimeSteps),
       p := OrDefaultReal(c.p, DefaultP),
       edgesPerStep := OrDefault(c.edgesPerStep, DefaultEdgesPerStep),
       homophilyGroups := OrDefault(c.homophilyGroups, DefaultHomophilyGroups),
       pIn := OrDefaultReal(c.pIn, DefaultPIn),
       pOut := OrDefaultReal(c.pOut, DefaultPOut))
  }

  /**
   Defaulting fills exactly the zero fields: a zero count becomes 100, 10, 1
   or 2, a zero probability 0.05, 0.1 or 0.01, every other field is kept, and
   no numeric field is zero afterwards.
   */
  lemma DefaultsFill(c: Config)
    ensures var d := Defaulted(c);
      && (c.numAgents == 0 ==> d.numAgents == 100) && (c.numAgents != 0 ==> d.numAgents == c.numAgents)
      && (c.timeSteps == 0 ==> d.timeSteps == 10) && (c.timeSteps != 0 ==> d.timeSteps == c.timeSteps)
      && (c.edgesPerStep == 0 ==> d.edgesPerStep == 1) && (c.edgesPerStep != 0 ==> d.edgesPerStep == c.edgesPerStep)
      && (c.homophilyGroups == 0 ==> d.homophilyGroups == 2)
      && (c.homophilyGroups != 0 ==> d.homophilyGroups == c.homophilyGroups)
      && (c.p == 0.0 ==> d.p == 0.05) && (c.p != 0.0 ==> d.p == c.p)
      && (c.pIn == 0.0 ==> d.pIn == 0.1) && (c.pIn != 0.0 ==> d.pIn == c.pIn)
      && (c.pOut == 0.0 ==> d.pOut == 0.01) && (c.pOut != 0.0 ==> d.pOut == c.pOut)
      && d.linkingStrategy == c.linkingStrategy && d.edgeWeights == c.edgeWeights
      && d.numAgents != 0 && d.timeSteps != 0 && d.edgesPerStep != 0 && d.homophilyGroups != 0
      && d.p != 0.0 && d.pIn != 0.0 && d.pOut != 0.0
  {
  }

  /** Defaulting twice is defaulting once. */
  lemma DefaultsIdempotent(c: Config)
    ensures Defaulted(Defaulted(c)) == Defaulted(c)
  {
  }

  /**
   loadConfig's default-filling, one field after another, on the decoded
   configuration.
   */
  method LoadDefaults(c: Config) returns (config: Config)
    ensures config == Defaulted(c)
  {
    config := c;
    if config.numAgents == 0 {
      config := config.(numAgents := DefaultNumAgents);
    }
    if config.timeSteps == 0 {
      config := config.(timeSteps := DefaultTimeSteps);
    }
    if config.p == 0.0 {
      config := config.(p := DefaultP);
    }
    if config.edgesPerStep == 0 {
      config := config.(edgesPerStep := DefaultEdgesPerStep);
    }
    if config.homophilyGroups == 0 {
      config := config.(homophilyGroups := DefaultHomophilyGroups);
    }
    if config.pIn == 0.0 {
      config := config.(pIn := DefaultPIn);
    }
    if config.pOut == 0.0 {
      config := config.(pOut := DefaultPOut);
    }
  }

  /** The three linking strategies. */
  datatype Strategy = Random | PreferentialAttachment | Homophily

  /**
   The strategy a configuration names: "preferential_attachment" and
   "homophily" select those two, and every other name, "random" or not,
   selects random linking.
   */
  function StrategyOf(name: string): (s: Strategy)
    ensures s == PreferentialAttachment <==> name == "preferential_attachment"
    ensures s == Homophily <==> name == "homophily"
    ensures s == Random <==> name != "preferential_attachment" && name != "homophily"
  {
    if name == "random" then Random
    else if name == "preferential_attachment" then PreferentialAttachment
    else if name == "homophily" then Homophily
    else Random
  }
}

/**
 The simulation driver of networks.go's main: defaults, strategy dispatch, and
 the network written to network.json.
 */
module Driver {
  import opened Graphs
  import opened Steps
  import opened Config
  import opened RandomLinking
  import opened PreferentialAttachment
  import opened HomophilyLinking

  /** What network.json holds: the node count, the edge list and the groups. */
  datatype Network = Network(numAgents: int, edges: seq<Edge>, groups: map<int, int>)

  /**
   main: fill in the defaults, run the named strategy (random for an unknown
   name), and flatten the edge store into the list written out. The random and
   homophily runs draw from `draws`, the preferential-attachment run from
   `rng`, with at most `maxDraws` draws. The other two strategies always
   complete; a preferential-attachment run that is not completed has used up
   all `maxDraws` draws.
   */
  method RunSimulation(raw: Config, draws: seq<seq<Draw>>, rng: (nat, int) -> int, maxDraws: nat)
    returns (net: Network, completed: bool, used: nat)
    requires var c := Defaulted(raw);
      StrategyOf(c.linkingStrategy) != PreferentialAttachment ==> ValidDraws(draws, c.numAgents, c.timeSteps)
    requires StrategyOf(raw.linkingStrategy) == PreferentialAttachment ==> raw.numAgents >= 0
    ensures var c := Defaulted(raw);
      && net.numAgents == c.numAgents
      && |net.edges| == |EdgeMapOf(net.edges)|
      && DistinctPairs(net.edges)
      && match StrategyOf(c.linkingStrategy)
         case Random =>
           && EdgeMapOf(net.edges) == RandomRun(draws, c.p, c.edgeWeights)
           && net.groups == map[] && completed
         case Homophily =>
           && EdgeMapOf(net.edges) == HomophilyRun(draws, c.homophilyGroups, c.pIn, c.pOut, c.edgeWeights)
           && net.groups == GroupMap(c.numAgents, c.homophilyGroups) && completed
         case PreferentialAttachment =>
           && Shaped(EdgeMapOf(net.edges), c.edgesPerStep + 1, c.numAgents, c.edgeWeights)
           && (completed ==> OutDegrees(EdgeMapOf(net.edges), c.edgesPerStep + 1, c.numAgents, c.edgesPerStep))
           && net.groups == map[]
           && (!completed ==> used == maxDraws)
  {
    var config := LoadDefaults(raw);
    DefaultsFill(raw);
    var g: Graph;
    completed, used := true, 0;
    match StrategyOf(config.linkingStrategy) {
      case Random =>
        var added;
        g, added := RandomSimulation(config.numAgents, config.timeSteps, config.p, config.edgeWeights, draws);
      case PreferentialAttachment =>
        var degree, added;
        g, degree, completed, added, used := PreferentialAttachmentSimulation(config.numAgents, config.edgesPerStep,
                                                                 config.edgeWeights, rng, maxDraws);
      case Homophily =>
        var added;
        g, added := HomophilySimulation(config.numAgents, config.timeSteps, config.homophilyGroups,
                                        config.pIn, config.pOut, config.edgeWeights, draws);
    }
    var edges := g.EdgeList();
    net := Network(g.numAgents, edges, g.groups);
  }
}
