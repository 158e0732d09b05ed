/** From a snapshot's nodes and edges to index lists per node and edge type. */
module GraphBuilder {
  import opened Common

  datatype NodeType = Router | Interface | BgpSession

  datatype Relation = HasInterface | InterfaceOf | ConnectedTo | OspfPeer | BgpPeer | SessionOn | HostsSession | OtherRelation(text: string)

  /** `kind` is None for a type the builder does not know. */
  datatype Node = Node(id: string, kind: Option<NodeType>)

  datatype Edge = Edge(source: string, target: string, relation: Relation)

  datatype EdgeType = EdgeType(source: NodeType, relation: Relation, target: NodeType)

  const HAS := EdgeType(Router, HasInterface, Interface)
  const OF := EdgeType(Interface, InterfaceOf, Router)

  const EDGE_TYPES := [HAS, OF, EdgeType(Interface, ConnectedTo, Interface), EdgeType(Router, OspfPeer, Router),
                       EdgeType(Router, BgpPeer, Router), EdgeType(BgpSession, SessionOn, Router), EdgeType(Router, HostsSession, BgpSession)]

  type IdMap = map<string, (NodeType, nat)>

  // ---------------------------------------------------------------- nodes

  /** node_id_map[t]: the ids of the nodes of one type, in order. */
  function OfType(nodes: seq<Node>, t: NodeType): seq<string> {
    if nodes == [] then []
    else
      var n, front := nodes[|nodes| - 1], OfType(nodes[..|nodes| - 1], t);
      if n.kind == Some(t) then front + [n.id] else front
  }

  /** global_id_map; a later node of the same id takes its place. */
  function IdsOf(nodes: seq<Node>): IdMap {
    if nodes == [] then map[]
    else
      var n, front := nodes[|nodes| - 1], nodes[..|nodes| - 1];
      if n.kind.None? then IdsOf(front)
      else IdsOf(front)[n.id := (n.kind.value, |OfType(front, n.kind.value)|)]
  }

  /** Every index decodes: looking an id up and going back through node_id_map gives the id. */
  lemma {:induction false} IdsDecode(nodes: seq<Node>, id: string)
    ensures id in IdsOf(nodes) ==>
              var (t, k) := IdsOf(nodes)[id];
              k < |OfType(nodes, t)| && OfType(nodes, t)[k] == id
    ensures id in IdsOf(nodes) <==> exists i :: 0 <= i < |nodes| && nodes[i].id == id && nodes[i].kind.Some?
  {
    if nodes != [] {
      var n, front := nodes[|nodes| - 1], nodes[..|nodes| - 1];
      IdsDecode(front, id);
      assert forall i :: 0 <= i < |front| ==> nodes[i] == front[i];
      if n.kind.Some? && n.id == id {
        assert nodes[|nodes| - 1].id == id;
      }
    }
  }

  /** Nodes that share an id share their type; unique ids are a special case. */
  predicate TypesAgree(nodes: seq<Node>) {
    forall i, j | 0 <= i < |nodes| && 0 <= j < |nodes| && nodes[i].id == nodes[j].id :: nodes[i].kind == nodes[j].kind
  }

  /** Then an id's type in the map is its node's. */
  lemma {:induction false} IdsTyped(nodes: seq<Node>, i: nat)
    requires TypesAgree(nodes) && i < |nodes| && nodes[i].kind.Some?
    ensures nodes[i].id in IdsOf(nodes) && IdsOf(nodes)[nodes[i].id].0 == nodes[i].kind.value
  {
    if i < |nodes| - 1 {
      var front := nodes[..|nodes| - 1];
      assert TypesAgree(front);
      IdsTyped(front, i);
      assert front[i] == nodes[i];
      assert nodes[|nodes| - 1].id == nodes[i].id ==> nodes[|nodes| - 1].kind == nodes[i].kind;
    }
  }

  // ---------------------------------------------------------------- edges

  /** The edge has known endpoints, and its types and relation are those of et. */
  predicate Admissible(e: Edge, ids: IdMap, et: EdgeType) {
    e.source in ids && e.target in ids && EdgeType(ids[e.source].0, e.relation, ids[e.target].0) == et
  }

  /** The edges of one type, in snapshot order. */
  function Admitted(edges: seq<Edge>, ids: IdMap, et: EdgeType): seq<Edge> {
    if edges == [] then []
    else if Admissible(edges[0], ids, et) then [edges[0]] + Admitted(edges[1..], ids, et)
    else Admitted(edges[1..], ids, et)
  }

  /** edge_index of one type, column by column. */
  function Columns(edges: seq<Edge>, ids: IdMap, et: EdgeType): seq<(nat, nat)> {
    if edges == [] then []
    else if Admissible(edges[0], ids, et) then [(ids[edges[0].source].1, ids[edges[0].target].1)] + Columns(edges[1..], ids, et)
    else Columns(edges[1..], ids, et)
  }

  lemma {:induction false} ColumnsAre(edges: seq<Edge>, ids: IdMap, et: EdgeType, k: nat)
    ensures |Columns(edges, ids, et)| == |Admitted(edges, ids, et)|
    ensures k < |Columns(edges, ids, et)| ==>
              var e := Admitted(edges, ids, et)[k];
              e in edges && Admissible(e, ids, et) && Columns(edges, ids, et)[k] == (ids[e.source].1, ids[e.target].1)
  {
    if edges != [] {
      if Admissible(edges[0], ids, et) {
        ColumnsAre(edges[1..], ids, et, if k > 0 then k - 1 else 0);
      } else {
        ColumnsAre(edges[1..], ids, et, k);
      }
    }
  }

  /** Column k of an edge index is in range and decodes to the k-th admissible edge of its type:
      every admissible edge appears exactly once, in order, and nothing else does. */
  lemma ColumnsDecode(nodes: seq<Node>, edges: seq<Edge>, et: EdgeType, k: nat)
    requires k < |Columns(edges, IdsOf(nodes), et)|
    ensures |Columns(edges, IdsOf(nodes), et)| == |Admitted(edges, IdsOf(nodes), et)|
    ensures var (s, t) := Columns(edges, IdsOf(nodes), et)[k];
            var e := Admitted(edges, IdsOf(nodes), et)[k];
            && s < |OfType(nodes, et.source)| && t < |OfType(nodes, et.target)|
            && OfType(nodes, et.source)[s] == e.source && OfType(nodes, et.target)[t] == e.target
            && e in edges && e.relation == et.relation
  {
    ColumnsAre(edges, IdsOf(nodes), et, k);
    var e := Admitted(edges, IdsOf(nodes), et)[k];
    IdsDecode(nodes, e.source);
    IdsDecode(nodes, e.target);
  }

  // ---------------------------------------------------------------- paired relations

  function Swapped(columns: seq<(nat, nat)>): (out: seq<(nat, nat)>)
    ensures |out| == |columns|
  {
    seq(|columns|, i requires 0 <= i < |columns| => (columns[i].1, columns[i].0))
  }

  /** An interface of the snapshot and the router it names. */
  datatype Owned = Owned(iface: string, router: string)

  /** The two edges the snapshot appends for every interface. */
  function PairedEdges(interfaces: seq<Owned>): seq<Edge> {
    if interfaces == [] then []
    else
      [Edge(interfaces[0].router, interfaces[0].iface, HasInterface), Edge(interfaces[0].iface, interfaces[0].router, InterfaceOf)]
      + PairedEdges(interfaces[1..])
  }

  predicate Unpaired(edges: seq<Edge>) {
    forall e | e in edges :: !e.relation.HasInterface? && !e.relation.InterfaceOf?
  }

  lemma {:induction false} ColumnsOfUnpaired(edges: seq<Edge>, ids: IdMap)
    requires Unpaired(edges)
    ensures Columns(edges, ids, HAS) == [] && Columns(edges, ids, OF) == []
  {
    if edges != [] {
      ColumnsOfUnpaired(edges[1..], ids);
      assert edges[0] in edges;
    }
  }

  lemma {:induction false} ColumnsAppend(a: seq<Edge>, b: seq<Edge>, ids: IdMap, et: EdgeType)
    ensures Columns(a + b, ids, et) == Columns(a, ids, et) + Columns(b, ids, et)
  {
    if a == [] {
      assert a + b == b;
    } else {
      assert (a + b)[1..] == a[1..] + b;
      ColumnsAppend(a[1..], b, ids, et);
    }
  }

  lemma PairColumns(o: Owned, ids: IdMap)
    ensures var pair := [Edge(o.router, o.iface, HasInterface), Edge(o.iface, o.router, InterfaceOf)];
            Swapped(Columns(pair, ids, OF)) == Columns(pair, ids, HAS)
    ensures var pair := [Edge(o.router, o.iface, HasInterface), Edge(o.iface, o.router, InterfaceOf)];
            Columns(pair, ids, HAS) ==
            if Admissible(pair[0], ids, HAS) then [(ids[o.router].1, ids[o.iface].1)] else []
  {
    var has, of := Edge(o.router, o.iface, HasInterface), Edge(o.iface, o.router, InterfaceOf);
    var pair := [has, of];
    assert pair[1..] == [of] && [of][1..] == [];
    assert Columns([of], ids, HAS) == [];
    assert Columns([of], ids, OF) == if Admissible(of, ids, OF) then [(ids[o.iface].1, ids[o.router].1)] else [];
  }

  lemma {:induction false} PairsTransposed(interfaces: seq<Owned>, ids: IdMap)
    ensures Swapped(Columns(PairedEdges(interfaces), ids, OF)) == Columns(PairedEdges(interfaces), ids, HAS)
  {
    if interfaces != [] {
      var o, rest := interfaces[0], PairedEdges(interfaces[1..]);
      var pair := [Edge(o.router, o.iface, HasInterface), Edge(o.iface, o.router, InterfaceOf)];
      PairsTransposed(interfaces[1..], ids);
      PairColumns(o, ids);
      ColumnsAppend(pair, rest, ids, HAS);
      ColumnsAppend(pair, rest, ids, OF);
    }
  }

  /** interface_of is the column-wise transpose of has_interface. */
  lemma InterfaceOfIsTranspose(interfaces: seq<Owned>, others: seq<Edge>, ids: IdMap)
    requires Unpaired(others)
    ensures var edges := PairedEdges(interfaces) + others;
            Columns(edges, ids, HAS) == Swapped(Columns(edges, ids, OF))
  {
    PairsTransposed(interfaces, ids);
    ColumnsOfUnpaired(others, ids);
    ColumnsAppend(PairedEdges(interfaces), others, ids, HAS);
    ColumnsAppend(PairedEdges(interfaces), others, ids, OF);
  }

  function IndexOf(ids: IdMap, id: string): nat {
    if id in ids then ids[id].1 else 0
  }

  /** The interface's edge to its router finds both ends. */
  predicate Joined(o: Owned, ids: IdMap) {
    Admissible(Edge(o.router, o.iface, HasInterface), ids, HAS)
  }

  /** The columns of the interfaces that are joined to their routers, in order. */
  function JoinedColumns(interfaces: seq<Owned>, ids: IdMap): seq<(nat, nat)> {
    if interfaces == [] then []
    else
      var o, rest := interfaces[0], JoinedColumns(interfaces[1..], ids);
      if Joined(o, ids) then [(IndexOf(ids, o.router), IndexOf(ids, o.iface))] + rest else rest
  }

  /** An interface drops out of has_interface only by itself: the columns are those of the others, in order. */
  lemma {:induction false} HasColumnsAre(interfaces: seq<Owned>, ids: IdMap)
    ensures Columns(PairedEdges(interfaces), ids, HAS) == JoinedColumns(interfaces, ids)
  {
    if interfaces != [] {
      var o, rest := interfaces[0], PairedEdges(interfaces[1..]);
      HasColumnsAre(interfaces[1..], ids);
      PairColumns(o, ids);
      ColumnsAppend([Edge(o.router, o.iface, HasInterface), Edge(o.iface, o.router, InterfaceOf)], rest, ids, HAS);
    }
  }

  /** When every interface is joined, column k belongs to interface k. */
  lemma {:induction false} NoneDropped(interfaces: seq<Owned>, ids: IdMap)
    requires forall o | o in interfaces :: Joined(o, ids)
    ensures JoinedColumns(interfaces, ids)
         == seq(|interfaces|, i requires 0 <= i < |interfaces| => (IndexOf(ids, interfaces[i].router), IndexOf(ids, interfaces[i].iface)))
  {
    if interfaces != [] {
      assert interfaces[0] in interfaces && forall x | x in interfaces[1..] :: x in interfaces;
      NoneDropped(interfaces[1..], ids);
    }
  }

  // ---------------------------------------------------------------- the loops

  /** The first pass: nodes into their lists, ids into the map. */
  method AssignNodes(nodes: seq<Node>) returns (byType: map<NodeType, seq<string>>, ids: IdMap)
    ensures forall t: NodeType :: t in byType && byType[t] == OfType(nodes, t)
    ensures ids == IdsOf(nodes)
  {
    byType := map t: NodeType {:trigger OfType([], t)} | true :: [];
    ids := map[];
    for i := 0 to |nodes|
      invariant forall t: NodeType :: t in byType && byType[t] == OfType(nodes[..i], t)
      invariant ids == IdsOf(nodes[..i])
    {
      assert nodes[..i + 1][..i] == nodes[..i];
      var n := nodes[i];
      if n.kind.Some? {
        var t := n.kind.value;
        ids := ids[n.id := (t, |byType[t]|)];
        byType := byType[t := byType[t] + [n.id]];
      }
    }
    assert nodes[..|nodes|] == nodes;
  }

  /** The third pass: source and target indices into the bucket of each edge's type. */
  method FillBuckets(edges: seq<Edge>, ids: IdMap) returns (buckets: map<EdgeType, seq<(nat, nat)>>)
    ensures forall et | et in EDGE_TYPES :: et in buckets && buckets[et] == Columns(edges, ids, et)
  {
    buckets := map et | et in EDGE_TYPES :: [];
    var rest := edges;
    while rest != []
      invariant forall et :: et in buckets <==> et in EDGE_TYPES
      invariant forall et | et in EDGE_TYPES :: buckets[et] + Columns(rest, ids, et) == Columns(edges, ids, et)
    {
      var e := rest[0];
      ghost var before := buckets;
      if e.source in ids && e.target in ids {
        var key := EdgeType(ids[e.source].0, e.relation, ids[e.target].0);
        if key in buckets {
          buckets := buckets[key := buckets[key] + [(ids[e.source].1, ids[e.target].1)]];
        }
      }
      forall et | et in EDGE_TYPES ensures buckets[et] + Columns(rest[1..], ids, et) == before[et] + Columns(rest, ids, et) {
        NextColumn(before[et], rest, ids, et);
      }
      rest := rest[1..];
    }
  }

  lemma NextColumn(done: seq<(nat, nat)>, rest: seq<Edge>, ids: IdMap, et: EdgeType)
    requires rest != []
    ensures var e := rest[0];
            (if Admissible(e, ids, et) then done + [(ids[e.source].1, ids[e.target].1)] else done) + Columns(rest[1..], ids, et)
            == done + Columns(rest, ids, et)
  {
    if Admissible(rest[0], ids, et) {
      var c, columns := (ids[rest[0].source].1, ids[rest[0].target].1), Columns(rest[1..], ids, et);
      assert (done + [c]) + columns == done + ([c] + columns);
    }
  }
}
