/**
 The node/edge construction of components/GraphVisualization.tsx: one pass over the
 creature list that fills a node table keyed by id (vis-network's `DataSet`, here a map)
 and an edge list, deduplicating nodes first-writer-wins.
 */
module GraphBuilder {
  import opened Creatures

  /** A `DataSet` item: its id, its label (`caption`) and its fill colour (the constant `shape` is left out). */
  datatype Node = Node(id: string, caption: string, color: string)

  /** A directed edge from the food to the creature that eats it. */
  datatype Edge = Edge(from: string, to: string)

  datatype Graph = Graph(nodes: map<string, Node>, edges: seq<Edge>)

  /** Fill colour of a node first met as a food. */
  const FoodColor: string := "#f0f0f0"

  /** The empty node and edge sets the pass starts from. */
  const EmptyGraph := Graph(map[], [])

  /** Adds a node for `id`, labelled `id` and filled with `color`, only when no node has that id yet. */
  function AddIfAbsent(nodes: map<string, Node>, id: string, color: string): (r: map<string, Node>)
    ensures r.Keys == nodes.Keys + {id}
    ensures forall k :: k in nodes ==> r[k] == nodes[k]
    ensures id !in nodes ==> r[id] == Node(id, id, color)
  {
    if id in nodes then nodes else nodes[id := Node(id, id, color)]
  }

  /** The body of the `forEach` for one creature. */
  function Step(g: Graph, c: Creature): (r: Graph)
    ensures r.nodes.Keys == g.nodes.Keys + NodeIds([c])
    ensures forall id :: id in g.nodes ==> r.nodes[id] == g.nodes[id]
    ensures r.edges == g.edges + (if c.eats != "" then [Edge(c.eats, c.name)] else [])
  {
    var nodes := AddIfAbsent(g.nodes, c.name, c.color);
    if c.eats != "" then
      Graph(AddIfAbsent(nodes, c.eats, FoodColor), g.edges + [Edge(c.eats, c.name)])
    else
      Graph(nodes, g.edges)
  }

  /** The `forEach` over `cs` in list order, starting from `g`. */
  function BuildFrom(g: Graph, cs: seq<Creature>): (r: Graph)
    ensures g.nodes.Keys <= r.nodes.Keys
    ensures |g.edges| <= |r.edges| && r.edges[..|g.edges|] == g.edges
    decreases |cs|
  {
    if cs == [] then g else BuildFrom(Step(g, cs[0]), cs[1..])
  }

  /** The graph of a creature list. */
  function Build(cs: seq<Creature>): (r: Graph)
    ensures r.nodes.Keys == NodeIds(cs)
    ensures |r.edges| == |Feeders(cs)|
  {
    BuildFromKeys(EmptyGraph, cs);
    BuildFromEdges(EmptyGraph, cs);
    BuildFrom(EmptyGraph, cs)
  }

  /** The loop of lines 24-51, with `nodes` updated in place and `edges` growing. */
  method BuildGraph(creatures: seq<Creature>) returns (nodes: map<string, Node>, edges: seq<Edge>)
    ensures Graph(nodes, edges) == Build(creatures)
    ensures nodes.Keys == NodeIds(creatures)
    ensures |edges| == |Feeders(creatures)|
    ensures forall e :: e in edges ==> e.from in nodes && e.to in nodes
  {
    nodes, edges := map[], [];
    for i := 0 to |creatures|
      invariant BuildFrom(Graph(nodes, edges), creatures[i..]) == Build(creatures)
    {
      var creature := creatures[i];
      ghost var before := Graph(nodes, edges);
      if creature.name !in nodes {
        nodes := nodes[creature.name := Node(creature.name, creature.name, creature.color)];
      }
      if creature.eats != "" {
        if creature.eats !in nodes {
          nodes := nodes[creature.eats := Node(creature.eats, creature.eats, FoodColor)];
        }
        edges := edges + [Edge(creature.eats, creature.name)];
      }
      assert Graph(nodes, edges) == Step(before, creature);
      assert creatures[i..][1..] == creatures[i + 1..];
    }
    EdgesFollowFeeders(creatures);
    EndpointsAreNodes(creatures);
  }

  // Reference definitions the lemmas compare the pass against.

  /** `id` is the creature's own name, or its non-empty food. */
  predicate Mentions(c: Creature, id: string)
  {
    id == c.name || (c.eats != "" && id == c.eats)
  }

  /** Every creature name together with every non-empty food name. */
  function NodeIds(cs: seq<Creature>): set<string>
  {
    if cs == [] then {}
    else (if cs[0].eats != "" then {cs[0].name, cs[0].eats} else {cs[0].name}) + NodeIds(cs[1..])
  }

  /** The creatures that have a food, in list order, duplicates kept. */
  function Feeders(cs: seq<Creature>): (r: seq<Creature>)
    ensures |r| <= |cs|
    ensures forall k :: 0 <= k < |r| ==> r[k].eats != ""
  {
    if cs == [] then []
    else (if cs[0].eats != "" then [cs[0]] else []) + Feeders(cs[1..])
  }

  /** The edge contributed by a creature that has a food: from the food to the creature. */
  function FoodEdge(c: Creature): Edge
  {
    Edge(c.eats, c.name)
  }

  /** One edge per creature in `Feeders(cs)`, in the same order. */
  function FoodEdges(cs: seq<Creature>): (r: seq<Edge>)
    ensures |r| == |Feeders(cs)|
  {
    seq(|Feeders(cs)|, k requires 0 <= k < |Feeders(cs)| => FoodEdge(Feeders(cs)[k]))
  }

  // Lemmas about the reference definitions.

  /** An id is in `NodeIds(cs)` exactly when some creature of `cs` mentions it. */
  lemma {:induction false} NodeIdsMembership(cs: seq<Creature>, id: string)
    ensures id in NodeIds(cs) <==> exists k :: 0 <= k < |cs| && Mentions(cs[k], id)
  {
    if cs != [] {
      NodeIdsMembership(cs[1..], id);
      if id in NodeIds(cs[1..]) {
        var k :| 0 <= k < |cs| - 1 && Mentions(cs[1..][k], id);
        assert Mentions(cs[k + 1], id);
      }
      if exists k :: 0 <= k < |cs| && Mentions(cs[k], id) {
        var k :| 0 <= k < |cs| && Mentions(cs[k], id);
        if k > 0 {
          assert Mentions(cs[1..][k - 1], id);
        }
      }
    }
  }

  /** `Feeders(cs)` holds exactly the creatures of `cs` that have a food. */
  lemma {:induction false} FeedersMembership(cs: seq<Creature>, c: Creature)
    ensures c in Feeders(cs) <==> c in cs && c.eats != ""
  {
    if cs != [] {
      FeedersMembership(cs[1..], c);
      assert c in cs <==> c == cs[0] || c in cs[1..];
    }
  }

  lemma FoodEdgesCons(cs: seq<Creature>)
    requires cs != []
    ensures FoodEdges(cs) == (if cs[0].eats != "" then [FoodEdge(cs[0])] else []) + FoodEdges(cs[1..])
  {
    if cs[0].eats != "" {
      assert Feeders(cs) == [cs[0]] + Feeders(cs[1..]);
    } else {
      assert Feeders(cs) == Feeders(cs[1..]);
    }
  }

  // Lemmas about the pass.

  lemma BuildFromAppend(g: Graph, a: seq<Creature>, b: seq<Creature>)
    ensures BuildFrom(g, a + b) == BuildFrom(BuildFrom(g, a), b)
    decreases |a|
  {
    if a != [] {
      assert (a + b)[1..] == a[1..] + b;
      BuildFromAppend(Step(g, a[0]), a[1..], b);
    } else {
      assert a + b == b;
    }
  }

  /** Rebuilding after appending one creature is one more step of the pass. */
  lemma BuildAppend(cs: seq<Creature>, c: Creature)
    ensures Build(cs + [c]) == Step(Build(cs), c)
  {
    BuildFromAppend(EmptyGraph, cs, [c]);
  }

  lemma {:induction false} BuildFromKeys(g: Graph, cs: seq<Creature>)
    ensures BuildFrom(g, cs).nodes.Keys == g.nodes.Keys + NodeIds(cs)
    decreases |cs|
  {
    if cs != [] {
      BuildFromKeys(Step(g, cs[0]), cs[1..]);
      assert NodeIds(cs) == NodeIds([cs[0]]) + NodeIds(cs[1..]);
    }
  }

  lemma {:induction false} NodeIdsBound(cs: seq<Creature>)
    ensures |NodeIds(cs)| <= 2 * |cs|
  {
    if cs != [] {
      NodeIdsBound(cs[1..]);
      var first := if cs[0].eats != "" then {cs[0].name, cs[0].eats} else {cs[0].name};
      assert NodeIds(cs) == first + NodeIds(cs[1..]);
      assert |first| <= 2;
    }
  }

  /** The node table has one entry per distinct id, so at most two per creature. */
  lemma NodeCount(cs: seq<Creature>)
    ensures |Build(cs).nodes| == |NodeIds(cs)| <= 2 * |cs|
  {
    assert |Build(cs).nodes| == |Build(cs).nodes.Keys|;
    NodeIdsBound(cs);
  }

  /** Later creatures never overwrite a node that already exists. */
  lemma {:induction false} BuildFromKeeps(g: Graph, cs: seq<Creature>, id: string)
    requires id in g.nodes
    ensures id in BuildFrom(g, cs).nodes && BuildFrom(g, cs).nodes[id] == g.nodes[id]
    decreases |cs|
  {
    if cs != [] {
      BuildFromKeeps(Step(g, cs[0]), cs[1..], id);
    }
  }

  /** A node, once in the graph of a prefix, is the same node in the graph of the whole list. */
  lemma LaterNeverChange(cs: seq<Creature>, more: seq<Creature>, id: string)
    requires id in Build(cs).nodes
    ensures id in Build(cs + more).nodes && Build(cs + more).nodes[id] == Build(cs).nodes[id]
  {
    BuildFromAppend(EmptyGraph, cs, more);
    BuildFromKeeps(Build(cs), more, id);
  }

  lemma {:induction false} BuildFromFirst(g: Graph, cs: seq<Creature>, k: nat, id: string)
    requires id !in g.nodes
    requires k < |cs| && Mentions(cs[k], id)
    requires forall j :: 0 <= j < k ==> !Mentions(cs[j], id)
    ensures id in BuildFrom(g, cs).nodes
    ensures BuildFrom(g, cs).nodes[id] == Node(id, id, if cs[k].name == id then cs[k].color else FoodColor)
    decreases |cs|
  {
    if k == 0 {
      BuildFromKeeps(Step(g, cs[0]), cs[1..], id);
    } else {
      assert !Mentions(cs[0], id);
      assert id !in Step(g, cs[0]).nodes;
      BuildFromFirst(Step(g, cs[0]), cs[1..], k - 1, id);
    }
  }

  /**
   First writer wins on colour: an id first met at creature `k` takes that creature's colour
   if it is the creature's name, and the food colour if it is only its food; its label is its id.
   */
  lemma FirstWriterWins(cs: seq<Creature>, k: nat, id: string)
    requires k < |cs| && Mentions(cs[k], id)
    requires forall j :: 0 <= j < k ==> !Mentions(cs[j], id)
    ensures id in Build(cs).nodes
    ensures Build(cs).nodes[id] == Node(id, id, if cs[k].name == id then cs[k].color else FoodColor)
  {
    BuildFromFirst(EmptyGraph, cs, k, id);
  }

  lemma {:induction false} BuildFromLabels(g: Graph, cs: seq<Creature>)
    requires forall id :: id in g.nodes ==> g.nodes[id].id == id && g.nodes[id].caption == id
    ensures forall id :: id in BuildFrom(g, cs).nodes ==>
      BuildFrom(g, cs).nodes[id].id == id && BuildFrom(g, cs).nodes[id].caption == id
    decreases |cs|
  {
    if cs != [] {
      BuildFromLabels(Step(g, cs[0]), cs[1..]);
    }
  }

  /** Every node's id and label are the key it is stored under. */
  lemma LabelsAreIds(cs: seq<Creature>)
    ensures forall id :: id in Build(cs).nodes ==>
      Build(cs).nodes[id].id == id && Build(cs).nodes[id].caption == id
  {
    BuildFromLabels(EmptyGraph, cs);
  }

  lemma ConcatAssoc(a: seq<Edge>, b: seq<Edge>, c: seq<Edge>)
    ensures (a + b) + c == a + (b + c)
  {
  }

  lemma {:induction false} BuildFromEdges(g: Graph, cs: seq<Creature>)
    ensures BuildFrom(g, cs).edges == g.edges + FoodEdges(cs)
    decreases |cs|
  {
    if cs == [] {
      assert FoodEdges(cs) == [];
    } else {
      var g' := Step(g, cs[0]);
      BuildFromEdges(g', cs[1..]);
      FoodEdgesCons(cs);
      ConcatAssoc(g.edges, if cs[0].eats != "" then [FoodEdge(cs[0])] else [], FoodEdges(cs[1..]));
    }
  }

  /**
   One edge per creature that has a food, duplicates and self-loops included: the k-th edge
   goes from the food to the name of the k-th such creature.
   */
  lemma EdgesFollowFeeders(cs: seq<Creature>)
    ensures |Build(cs).edges| == |Feeders(cs)|
    ensures forall k :: 0 <= k < |Feeders(cs)| ==>
      Build(cs).edges[k] == Edge(Feeders(cs)[k].eats, Feeders(cs)[k].name)
  {
    BuildFromEdges(EmptyGraph, cs);
  }

  lemma {:induction false} BuildFromClosed(g: Graph, cs: seq<Creature>)
    requires forall e :: e in g.edges ==> e.from in g.nodes && e.to in g.nodes
    ensures forall e :: e in BuildFrom(g, cs).edges ==>
      e.from in BuildFrom(g, cs).nodes && e.to in BuildFrom(g, cs).nodes
    decreases |cs|
  {
    if cs != [] {
      BuildFromClosed(Step(g, cs[0]), cs[1..]);
    }
  }

  /** Every edge endpoint is an existing node id. */
  lemma EndpointsAreNodes(cs: seq<Creature>)
    ensures forall e :: e in Build(cs).edges ==> e.from in Build(cs).nodes && e.to in Build(cs).nodes
  {
    BuildFromClosed(EmptyGraph, cs);
  }

  /** A creature without food adds its own node if absent and no edge. */
  lemma NoFoodNoEdge(g: Graph, c: Creature)
    requires c.eats == ""
    ensures Step(g, c).edges == g.edges
    ensures Step(g, c).nodes.Keys == g.nodes.Keys + {c.name}
  {
  }

  /** A creature that eats itself yields a self-edge and no node besides its own. */
  lemma SelfFeeding(g: Graph, c: Creature)
    requires c.eats == c.name != ""
    ensures Step(g, c).edges == g.edges + [Edge(c.name, c.name)]
    ensures Step(g, c).nodes.Keys == g.nodes.Keys + {c.name}
  {
  }

  /** `[{Wolf, eats Wolf, #ffffff}]` gives one white node and the self-edge Wolf→Wolf. */
  lemma WolfScenario()
    ensures Build([Creature("Wolf", "Wolf", "#ffffff")])
         == Graph(map["Wolf" := Node("Wolf", "Wolf", "#ffffff")], [Edge("Wolf", "Wolf")])
  {
  }

  /**
   A creature named after something already eaten keeps the food colour: Rabbit is met
   first as Fox's food, so its own colour is ignored.
   */
  lemma FoxRabbitScenario()
    ensures Build([Creature("Fox", "Rabbit", "#ff0000"), Creature("Rabbit", "Grass", "#00ff00")])
         == Graph(map["Fox" := Node("Fox", "Fox", "#ff0000"),
                      "Rabbit" := Node("Rabbit", "Rabbit", FoodColor),
                      "Grass" := Node("Grass", "Grass", FoodColor)],
                  [Edge("Rabbit", "Fox"), Edge("Grass", "Rabbit")])
  {
  }
}
