/** Toll tagging and tag filtering: `tag_toll_nodes` (and its earlier copy
    `tag_graph`), `filter_tagged_nodes` and `get_subgraph_copy`. */
module TollTagging {
  import opened Results
  import opened Sequences
  import opened RoadGraph

  /** The branch of the classification that an edge takes. */
  datatype EdgeClass = MarkedToll | Ref407 | Name407 | NonToll

  /** `'407' in s`. */
  predicate Contains407(s: string)
    decreases |s|
  {
    |s| >= 3 && (s[..3] == "407" || Contains407(s[1..]))
  }

  /** The priority chain: the `toll` flag, then `ref`, then `name`, else non-toll. */
  function Classify(a: EdgeAttrs): EdgeClass {
    if a.toll == Some("yes") then MarkedToll
    else if a.refText.Some? && Contains407(a.refText.value) then Ref407
    else if a.nameText.Some? && Contains407(a.nameText.value) then Name407
    else NonToll
  }

  function HasClass(c: EdgeClass): Edge -> bool {
    (e: Edge) => Classify(e.attrs) == c
  }

  function IsTollEdge(): Edge -> bool {
    (e: Edge) => Classify(e.attrs) != NonToll
  }

  /** `toll_node_ids`: both endpoints of every toll-classified edge. */
  function TollEndpoints(edges: seq<Edge>): set<NodeId> {
    (set e | e in edges && Classify(e.attrs) != NonToll :: e.u) +
    (set e | e in edges && Classify(e.attrs) != NonToll :: e.v)
  }

  /** `non_toll_node_ids`: both endpoints of every other edge. */
  function NonTollEndpoints(edges: seq<Edge>): set<NodeId> {
    (set e | e in edges && Classify(e.attrs) == NonToll :: e.u) +
    (set e | e in edges && Classify(e.attrs) == NonToll :: e.v)
  }

  const TollRoute := "toll_route"

  /** The graph after the tagging loop: every node's `tag` is overwritten. */
  function Tagged(g: Graph, toll: set<NodeId>): Graph {
    Graph(map n | n in g.nodes ::
            g.nodes[n].(tag := Some(if n in toll then TagText(TollRoute) else NullTag)),
          g.edges)
  }

  /** Both phases of `tag_toll_nodes`: classify the edges, then overwrite the tags. */
  method TagTollNodes(g: MultiDiGraph)
    returns (toll: set<NodeId>, nonToll: set<NodeId>, markedAsToll: nat, ref407: nat, name407: nat)
    requires g.Valid()
    modifies g
    ensures g.Valid()
    ensures toll == TollEndpoints(old(g.edges)) && nonToll == NonTollEndpoints(old(g.edges))
    ensures markedAsToll == Count(old(g.edges), HasClass(MarkedToll))
    ensures ref407 == Count(old(g.edges), HasClass(Ref407))
    ensures name407 == Count(old(g.edges), HasClass(Name407))
    ensures g.Snapshot() == Tagged(old(g.Snapshot()), toll)
  {
    toll, nonToll, markedAsToll, ref407, name407 := ClassifyEdges(g.edges);
    OverwriteTags(g, toll);
  }

  /** The edge loop of `tag_toll_nodes`: each edge takes exactly one branch of the
      priority chain, feeds one node set and bumps at most one counter. */
  method ClassifyEdges(edges: seq<Edge>)
    returns (toll: set<NodeId>, nonToll: set<NodeId>, markedAsToll: nat, ref407: nat, name407: nat)
    ensures toll == TollEndpoints(edges) && nonToll == NonTollEndpoints(edges)
    ensures markedAsToll == Count(edges, HasClass(MarkedToll))
    ensures ref407 == Count(edges, HasClass(Ref407))
    ensures name407 == Count(edges, HasClass(Name407))
  {
    toll, nonToll := {}, {};
    markedAsToll, ref407, name407 := 0, 0, 0;
    var i := 0;
    while i < |edges|
      invariant 0 <= i <= |edges|
      invariant toll == TollEndpoints(edges[..i]) && nonToll == NonTollEndpoints(edges[..i])
      invariant markedAsToll == Count(edges[..i], HasClass(MarkedToll))
      invariant ref407 == Count(edges[..i], HasClass(Ref407))
      invariant name407 == Count(edges[..i], HasClass(Name407))
    {
      var e := edges[i];
      assert edges[..i + 1] == edges[..i] + [e];
      EndpointsSnoc(edges[..i], e);
      CountSnoc(edges[..i], e, HasClass(MarkedToll));
      CountSnoc(edges[..i], e, HasClass(Ref407));
      CountSnoc(edges[..i], e, HasClass(Name407));
      toll, nonToll, markedAsToll, ref407, name407 :=
        ClassifyEdge(e, toll, nonToll, markedAsToll, ref407, name407);
      i := i + 1;
    }
    assert edges[..i] == edges;
  }

  /** One pass of the edge loop: the branch taken feeds one node set and bumps at most
      one counter. */
  method ClassifyEdge(e: Edge, toll: set<NodeId>, nonToll: set<NodeId>, markedAsToll: nat, ref407: nat, name407: nat)
    returns (toll': set<NodeId>, nonToll': set<NodeId>, markedAsToll': nat, ref407': nat, name407': nat)
    ensures var c := Classify(e.attrs);
      && toll' == toll + (if c != NonToll then {e.u, e.v} else {})
      && nonToll' == nonToll + (if c == NonToll then {e.u, e.v} else {})
      && markedAsToll' == markedAsToll + (if c == MarkedToll then 1 else 0)
      && ref407' == ref407 + (if c == Ref407 then 1 else 0)
      && name407' == name407 + (if c == Name407 then 1 else 0)
  {
    toll', nonToll', markedAsToll', ref407', name407' := toll, nonToll, markedAsToll, ref407, name407;
    var c := Classify(e.attrs);
    if c == MarkedToll {
      toll' := toll + {e.u, e.v};
      markedAsToll' := markedAsToll + 1;
    } else if c == Ref407 {
      toll' := toll + {e.u, e.v};
      ref407' := ref407 + 1;
    } else if c == Name407 {
      toll' := toll + {e.u, e.v};
      name407' := name407 + 1;
    } else {
      nonToll' := nonToll + {e.u, e.v};
    }
  }

  lemma EndpointsSnoc(s: seq<Edge>, e: Edge)
    ensures TollEndpoints(s + [e]) ==
      TollEndpoints(s) + (if Classify(e.attrs) != NonToll then {e.u, e.v} else {})
    ensures NonTollEndpoints(s + [e]) ==
      NonTollEndpoints(s) + (if Classify(e.attrs) == NonToll then {e.u, e.v} else {})
  {
    assert forall x :: x in s + [e] <==> x in s || x == e;
  }

  lemma CountSnoc(s: seq<Edge>, e: Edge, p: Edge -> bool)
    ensures Count(s + [e], p) == Count(s, p) + (if p(e) then 1 else 0)
  {
    assert (s + [e])[..|s + [e]| - 1] == s;
  }

  /** The node loop of `tag_toll_nodes`: reset every tag to `None`, then mark toll nodes. */
  method OverwriteTags(g: MultiDiGraph, toll: set<NodeId>)
    requires g.Valid()
    modifies g
    ensures g.Valid()
    ensures g.Snapshot() == Tagged(old(g.Snapshot()), toll)
  {
    ghost var before := g.Snapshot();
    var remaining := g.nodes.Keys;
    while remaining != {}
      invariant g.Valid()
      invariant remaining <= g.nodes.Keys
      invariant g.nodes.Keys == before.nodes.Keys
      invariant g.edges == before.edges
      invariant forall m :: m in g.nodes ==>
        g.nodes[m] == if m in remaining then before.nodes[m] else Tagged(before, toll).nodes[m]
      decreases remaining
    {
      SomeNode(remaining);
      var n :| n in remaining;
      g.SetTag(n, NullTag);
      if n in toll {
        g.SetTag(n, TagText(TollRoute));
      }
      remaining := remaining - {n};
    }
    assert g.nodes == Tagged(before, toll).nodes by {
      assert g.nodes.Keys == Tagged(before, toll).nodes.Keys;
      forall n | n in g.nodes ensures g.nodes[n] == Tagged(before, toll).nodes[n] {
        assert n !in remaining;
      }
    }
  }

  /** The three counters together count the toll-classified edges. */
  lemma {:induction false} CountersAddUp(edges: seq<Edge>)
    ensures Count(edges, HasClass(MarkedToll)) + Count(edges, HasClass(Ref407))
            + Count(edges, HasClass(Name407)) == Count(edges, IsTollEdge())
  {
    if edges != [] {
      CountersAddUp(edges[..|edges| - 1]);
    }
  }

  /** Every edge feeds exactly one of the two sets, so every endpoint is in one of
      them, and a node joined to a toll and a non-toll edge lies in both. */
  lemma EndpointSets(edges: seq<Edge>, e: Edge)
    requires e in edges
    ensures Classify(e.attrs) != NonToll ==> e.u in TollEndpoints(edges) && e.v in TollEndpoints(edges)
    ensures Classify(e.attrs) == NonToll ==> e.u in NonTollEndpoints(edges) && e.v in NonTollEndpoints(edges)
  {
  }

  /** After tagging, a node is tagged `'toll_route'` exactly when it is an endpoint of
      a toll-classified edge, and `None` otherwise (isolated nodes included). */
  lemma TagIff(g: Graph, n: NodeId)
    requires n in g.nodes
    ensures var t := Tagged(g, TollEndpoints(g.edges)).nodes[n].tag;
      && (t == Some(TagText(TollRoute)) <==>
            exists e :: e in g.edges && Classify(e.attrs) != NonToll && (e.u == n || e.v == n))
      && (t != Some(TagText(TollRoute)) ==> t == Some(NullTag))
  {
  }

  /** Tagging changes only tags: node ids, coordinates and edges stay. */
  lemma TaggingKeepsTheRest(g: Graph, toll: set<NodeId>)
    ensures Tagged(g, toll).nodes.Keys == g.nodes.Keys && Tagged(g, toll).edges == g.edges
    ensures forall n :: n in g.nodes ==>
      Tagged(g, toll).nodes[n].(tag := g.nodes[n].tag) == g.nodes[n]
  {
  }

  // ---------------------------------------------------------------------
  // Induced subgraphs

  function BothEndsIn(keep: set<NodeId>): Edge -> bool {
    (e: Edge) => e.u in keep && e.v in keep
  }

  /** `nx.MultiDiGraph(G.subgraph(node_subset).copy())`: the subgraph induced by the
      nodes of `g` that lie in `subset`, with their attributes and in edge order. */
  function SubgraphCopy(g: Graph, subset: set<NodeId>): (r: Graph)
    ensures r.nodes.Keys == g.nodes.Keys * subset
    ensures forall n :: n in r.nodes ==> r.nodes[n] == g.nodes[n]
    ensures forall e :: e in r.edges <==> e in g.edges && e.u in r.nodes && e.v in r.nodes
  {
    var keep := g.nodes.Keys * subset;
    Graph(map n | n in keep :: g.nodes[n], Filter(g.edges, BothEndsIn(keep)))
  }

  /** `d.get('tag') == tag_filter` for a string filter. */
  predicate HasTag(a: NodeAttrs, tagFilter: string) {
    a.tag == Some(TagText(tagFilter))
  }

  /** `filter_tagged_nodes`: the subgraph induced by the nodes tagged `tagFilter`. */
  function FilterTaggedNodes(g: Graph, tagFilter: string): (r: Graph)
    ensures forall n :: n in r.nodes <==> n in g.nodes && HasTag(g.nodes[n], tagFilter)
    ensures forall n :: n in r.nodes ==> r.nodes[n] == g.nodes[n]
    ensures forall e :: e in r.edges <==>
      e in g.edges && e.u in g.nodes && e.v in g.nodes
      && HasTag(g.nodes[e.u], tagFilter) && HasTag(g.nodes[e.v], tagFilter)
  {
    SubgraphCopy(g, set n | n in g.nodes && HasTag(g.nodes[n], tagFilter))
  }

  /** An induced subgraph of a well-formed graph is well-formed. */
  lemma SubgraphCopyWellFormed(g: Graph, subset: set<NodeId>)
    requires WellFormed(g)
    ensures WellFormed(SubgraphCopy(g, subset))
  {
    SubsequenceUniqueSlots(g.edges, BothEndsIn(g.nodes.Keys * subset));
  }

  /** Taking the induced subgraph twice is taking it on the intersection. */
  lemma SubgraphOfSubgraph(g: Graph, a: set<NodeId>, b: set<NodeId>)
    ensures SubgraphCopy(SubgraphCopy(g, a), b) == SubgraphCopy(g, a * b)
  {
    var ka := g.nodes.Keys * a;
    var kab := ka * b;
    assert SubgraphCopy(g, a).nodes.Keys * b == kab;
    assert g.nodes.Keys * (a * b) == kab;
    FilterFilter(g.edges, BothEndsIn(ka), BothEndsIn(kab), BothEndsIn(kab));
  }

  /** Filtering by a tag is idempotent. */
  lemma FilterTaggedIdempotent(g: Graph, tagFilter: string)
    ensures FilterTaggedNodes(FilterTaggedNodes(g, tagFilter), tagFilter) == FilterTaggedNodes(g, tagFilter)
  {
    var s := set n | n in g.nodes && HasTag(g.nodes[n], tagFilter);
    var f := FilterTaggedNodes(g, tagFilter);
    var s' := set n | n in f.nodes && HasTag(f.nodes[n], tagFilter);
    assert s' == f.nodes.Keys == s;
    SubgraphOfSubgraph(g, s, s');
    assert s * s' == s;
  }
}
