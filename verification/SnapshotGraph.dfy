/** The snapshot of a stored topology, as a graph: no interface loses its router edge. */
module SnapshotGraph {
  import opened Common
  import opened TopologyIds
  import opened TemporalStore
  import opened TopologyHistory
  import G = GraphBuilder

  /** SELECT ... WHERE the row covers ts. */
  function Covering<K, V>(rows: seq<Row<K, V>>, ts: nat): (out: seq<Row<K, V>>)
    ensures forall r | r in out :: r in rows && r.Covers(ts)
  {
    if rows == [] then []
    else if rows[0].Covers(ts) then [rows[0]] + Covering(rows[1..], ts)
    else Covering(rows[1..], ts)
  }

  lemma {:induction false} QueriedIsCovering<K, V>(rows: seq<Row<K, V>>, id: K, ts: nat)
    requires AsOf(rows, id, ts) != []
    ensures exists r :: r in Covering(rows, ts) && r.id == id
  {
    if rows[0].id == id && rows[0].Covers(ts) {
      assert rows[0] in Covering(rows, ts);
    } else {
      QueriedIsCovering(rows[1..], id, ts);
    }
  }

  function NodesOf<V>(rows: seq<Row<string, V>>, kind: G.NodeType): (nodes: seq<G.Node>)
    ensures |nodes| == |rows|
  {
    seq(|rows|, i requires 0 <= i < |rows| => G.Node(rows[i].id, Some(kind)))
  }

  function OwnedOf(rows: seq<Row<string, Interface>>): (owned: seq<G.Owned>)
    ensures |owned| == |rows|
  {
    seq(|rows|, i requires 0 <= i < |rows| => G.Owned(rows[i].id, rows[i].value.routerId))
  }

  /** The nodes of fetch_snapshot: routers, interfaces, and the sessions fetched after them. */
  function SnapshotNodes(t: Tables, sessions: seq<G.Node>, ts: nat): seq<G.Node> {
    NodesOf(Covering(t.routers, ts), G.Router) + NodesOf(Covering(t.interfaces, ts), G.Interface) + sessions
  }

  /** Every router row carries the id of a colon-free name. */
  ghost predicate RouterNamed(r: Row<string, Router>) {
    exists name: string :: ColonFree(name) && r.id == RouterId(name)
  }

  ghost predicate RoutersNamed(rows: seq<Row<string, Router>>) {
    forall i {:trigger RouterNamed(rows[i])} :: 0 <= i < |rows| ==> RouterNamed(rows[i])
  }

  lemma CommitKeepsNamed(rows: seq<Row<string, Router>>, s: Stamped<string, Router>)
    requires RoutersNamed(rows)
    requires s.tx.Write? ==> exists name: string :: ColonFree(name) && s.tx.id == RouterId(name)
    ensures RoutersNamed(Commit(rows, s))
  {
    var after := Commit(rows, s);
    forall i | 0 <= i < |after| ensures RouterNamed(after[i]) {
      if i < |rows| {
        CommitAt(rows, s, i);
        assert RouterNamed(rows[i]);
      }
    }
  }

  lemma {:induction false} InterfacesKeepRouters(t: Tables, routerId: string, interfaces: seq<InterfaceSync>)
    ensures UpsertInterfaces(t, routerId, interfaces).routers == t.routers
  {
    if interfaces != [] {
      InterfacesKeepRouters(t, routerId, interfaces[..|interfaces| - 1]);
    }
  }

  lemma {:induction false} RunNamesRouters(events: seq<Event>)
    ensures RoutersNamed(RunOf(events).routers)
  {
    if events != [] {
      var t, e := RunOf(events[..|events| - 1]), events[|events| - 1];
      RunNamesRouters(events[..|events| - 1]);
      match e {
        case SyncRouter(name, want, outcome, interfaces) =>
          if outcome.Committed? {
            CommitKeepsNamed(t.routers, At(t.CommitTime(outcome), RouterTx(name, want)));
            InterfacesKeepRouters(UpsertRouterStep(t, name, want, outcome), RouterId(name), interfaces);
          }
        case SyncSpeed(_, _, _) =>
        case DeleteRouter(id, outcome) =>
          if outcome.Committed? {
            CommitKeepsNamed(t.routers, At(t.CommitTime(outcome), CloseRouter(id)));
          }
      }
    }
  }

  /** Session ids belong to sessions only. */
  predicate SessionIdsApart(t: Tables, sessions: seq<G.Node>) {
    && (forall s | s in sessions :: s.kind == Some(G.BgpSession))
    && (forall s, r | s in sessions && r in t.routers :: s.id != r.id)
    && (forall s, i | s in sessions && i in t.interfaces :: s.id != i.id)
  }

  lemma RoutersApart(events: seq<Event>, r: Row<string, Router>, i: Row<string, Interface>)
    requires r in RunOf(events).routers && i in RunOf(events).interfaces
    ensures r.id != i.id
  {
    RunNamesRouters(events);
    EveryRunClosed(events);
    var k :| 0 <= k < |RunOf(events).routers| && RunOf(events).routers[k] == r;
    var l :| 0 <= l < |RunOf(events).interfaces| && RunOf(events).interfaces[l] == i;
    assert RouterNamed(RunOf(events).routers[k]) && Owned(RunOf(events).interfaces[l]);
    var router: string :| ColonFree(router) && r.id == RouterId(router);
    var name: string, iface: string :| OwnedBy(i, name, iface);
    RouterIsNoInterface(router, name, iface);
  }

  lemma SnapshotTypesAgree(events: seq<Event>, sessions: seq<G.Node>, ts: nat)
    requires SessionIdsApart(RunOf(events), sessions)
    ensures G.TypesAgree(SnapshotNodes(RunOf(events), sessions, ts))
  {
    var t := RunOf(events);
    var routers, interfaces := Covering(t.routers, ts), Covering(t.interfaces, ts);
    var nodes := SnapshotNodes(t, sessions, ts);
    forall k | 0 <= k < |nodes| ensures NodeFrom(t, sessions, nodes[k]) {
      if k < |routers| {
        assert routers[k] in routers;
      } else if k < |routers| + |interfaces| {
        assert interfaces[k - |routers|] in interfaces;
      } else {
        assert sessions[k - |routers| - |interfaces|] in sessions;
      }
    }
    forall a, b | a in nodes && b in nodes && a.id == b.id ensures a.kind == b.kind {
      KindsAgree(events, sessions, a, b);
    }
  }

  /** Where a node of a snapshot comes from. */
  ghost predicate NodeFrom(t: Tables, sessions: seq<G.Node>, n: G.Node) {
    || (n.kind == Some(G.Router) && exists r :: r in t.routers && r.id == n.id)
    || (n.kind == Some(G.Interface) && exists i :: i in t.interfaces && i.id == n.id)
    || n in sessions
  }

  lemma KindsAgree(events: seq<Event>, sessions: seq<G.Node>, a: G.Node, b: G.Node)
    requires SessionIdsApart(RunOf(events), sessions) && a.id == b.id
    requires NodeFrom(RunOf(events), sessions, a) && NodeFrom(RunOf(events), sessions, b)
    ensures a.kind == b.kind
  {
    forall r, i | r in RunOf(events).routers && i in RunOf(events).interfaces ensures r.id != i.id {
      RoutersApart(events, r, i);
    }
  }

  /** For every run of syncs and deletions and every instant: in the graph built from the as-of
      snapshot, every interface is joined to its router, but for those whose id the speed sync
      misreads; has_interface holds the columns of the joined interfaces, in order; without misread
      ids column k belongs to interface k; and interface_of is the transpose in any case. */
  lemma NoInterfaceLosesItsRouter(events: seq<Event>, sessions: seq<G.Node>, others: seq<G.Edge>, ts: nat)
    requires SessionIdsApart(RunOf(events), sessions) && G.Unpaired(others)
    ensures var t := RunOf(events);
            var ids := G.IdsOf(SnapshotNodes(t, sessions, ts));
            var owned := OwnedOf(Covering(t.interfaces, ts));
            var edges := G.PairedEdges(owned) + others;
            && (forall k | 0 <= k < |owned| && !Exempt(owned[k].iface) :: G.Joined(owned[k], ids))
            && G.Columns(edges, ids, G.HAS) == G.JoinedColumns(owned, ids)
            && ((forall o | o in owned :: !Exempt(o.iface)) ==>
                  G.Columns(edges, ids, G.HAS) ==
                  seq(|owned|, k requires 0 <= k < |owned| => (G.IndexOf(ids, owned[k].router), G.IndexOf(ids, owned[k].iface))))
            && G.Columns(edges, ids, G.HAS) == G.Swapped(G.Columns(edges, ids, G.OF))
  {
    var t := RunOf(events);
    var ids, owned := G.IdsOf(SnapshotNodes(t, sessions, ts)), OwnedOf(Covering(t.interfaces, ts));
    forall k | 0 <= k < |owned| && !Exempt(owned[k].iface) ensures G.Joined(owned[k], ids) {
      OwnedAdmitted(events, sessions, ts, k);
    }
    G.HasColumnsAre(owned, ids);
    G.ColumnsOfUnpaired(others, ids);
    G.ColumnsAppend(G.PairedEdges(owned), others, ids, G.HAS);
    G.InterfaceOfIsTranspose(owned, others, ids);
    if forall o | o in owned :: !Exempt(o.iface) {
      G.NoneDropped(owned, ids);
    }
  }

  lemma OwnedAdmitted(events: seq<Event>, sessions: seq<G.Node>, ts: nat, k: nat)
    requires SessionIdsApart(RunOf(events), sessions) && k < |Covering(RunOf(events).interfaces, ts)|
    requires !Exempt(Covering(RunOf(events).interfaces, ts)[k].id)
    ensures var ids := G.IdsOf(SnapshotNodes(RunOf(events), sessions, ts));
            var row := Covering(RunOf(events).interfaces, ts)[k];
            G.Admissible(G.Edge(row.value.routerId, row.id, G.HasInterface), ids, G.HAS)
  {
    var t := RunOf(events);
    var routers, interfaces := Covering(t.routers, ts), Covering(t.interfaces, ts);
    var nodes, row := SnapshotNodes(t, sessions, ts), Covering(t.interfaces, ts)[k];
    SnapshotTypesAgree(events, sessions, ts);
    assert row in interfaces;
    var i :| 0 <= i < |t.interfaces| && t.interfaces[i] == row;
    VisibleInterfaceHasRouter(events, i, ts);
    QueriedIsCovering(t.routers, row.value.routerId, ts);
    var r :| r in routers && r.id == row.value.routerId;
    var j :| 0 <= j < |routers| && routers[j] == r;
    assert nodes[j] == G.Node(r.id, Some(G.Router)) && nodes[|routers| + k] == G.Node(row.id, Some(G.Interface));
    G.IdsTyped(nodes, j);
    G.IdsTyped(nodes, |routers| + k);
  }
}
