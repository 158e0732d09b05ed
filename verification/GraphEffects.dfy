/** Which nodes and edges of a snapshot enter its graph. */
module GraphEffects {
  import opened Common
  import opened Positions
  import opened GraphBuilder
  import T = TemporalStore
  import S = SnapshotGraph

  // ---------------------------------------------------------------- types

  /** The edge types: each known relation has one pair of end types, and there are no others. */
  lemma EdgeTypesAre(et: EdgeType)
    ensures et in EDGE_TYPES <==>
              match et.relation
              case HasInterface => et.source == Router && et.target == Interface
              case InterfaceOf => et.source == Interface && et.target == Router
              case ConnectedTo => et.source == et.target == Interface
              case OspfPeer => et.source == et.target == Router
              case BgpPeer => et.source == et.target == Router
              case SessionOn => et.source == BgpSession && et.target == Router
              case HostsSession => et.source == Router && et.target == BgpSession
              case OtherRelation(_) => false
    ensures forall i, j | 0 <= i < j < |EDGE_TYPES| :: EDGE_TYPES[i].relation != EDGE_TYPES[j].relation
    ensures HAS.relation == HasInterface && HAS in EDGE_TYPES && OF.relation == InterfaceOf && OF in EDGE_TYPES
  {
    assert HAS == EDGE_TYPES[0] && OF == EDGE_TYPES[1];
    assert EdgeType(Interface, ConnectedTo, Interface) == EDGE_TYPES[2];
    assert EdgeType(Router, OspfPeer, Router) == EDGE_TYPES[3];
    assert EdgeType(Router, BgpPeer, Router) == EDGE_TYPES[4];
    assert EdgeType(BgpSession, SessionOn, Router) == EDGE_TYPES[5];
    assert EdgeType(Router, HostsSession, BgpSession) == EDGE_TYPES[6];
  }

  // ---------------------------------------------------------------- edges

  /** The edge at i has ends of the right types and the right relation. */
  ghost function Typed(edges: seq<Edge>, ids: IdMap, et: EdgeType): nat -> bool {
    (i: nat) =>
      && i < |edges| && edges[i].relation == et.relation
      && edges[i].source in ids && ids[edges[i].source].0 == et.source
      && edges[i].target in ids && ids[edges[i].target].0 == et.target
  }

  /** The edges of a type are all those, in snapshot order. */
  lemma {:induction false} AdmittedIs(edges: seq<Edge>, from: nat, ids: IdMap, et: EdgeType) returns (at: seq<nat>)
    requires from <= |edges|
    ensures Selects(edges, from, Admitted(edges[from..], ids, et), Typed(edges, ids, et), at)
    decreases |edges| - from
  {
    if from == |edges| {
      at := [];
    } else {
      var good, rest := Typed(edges, ids, et), Admitted(edges[from + 1..], ids, et);
      at := AdmittedIs(edges, from + 1, ids, et);
      assert edges[from..][0] == edges[from] && edges[from..][1..] == edges[from + 1..];
      if good(from) {
        SelectsOneMore(edges, from, rest, good, at, Admitted(edges[from..], ids, et), [from] + at);
        at := [from] + at;
      } else {
        SelectsNoMore(edges, from, rest, good, at);
      }
    }
  }

  /** The columns of a type are the end indices of all edges of the type, in snapshot order. */
  lemma ColumnsSelect(edges: seq<Edge>, ids: IdMap, et: EdgeType) returns (at: seq<nat>)
    ensures |at| == |Columns(edges, ids, et)| && Ascending(at)
    ensures forall i: nat :: i in at <==> Typed(edges, ids, et)(i)
    ensures forall k | 0 <= k < |at| ::
              at[k] < |edges| && edges[at[k]].source in ids && edges[at[k]].target in ids
              && Columns(edges, ids, et)[k] == (ids[edges[at[k]].source].1, ids[edges[at[k]].target].1)
  {
    assert edges[0..] == edges;
    at := AdmittedIs(edges, 0, ids, et);
    ColumnsAre(edges, ids, et, 0);
    forall k: nat | k < |at|
      ensures at[k] in at && Columns(edges, ids, et)[k] == (ids[edges[at[k]].source].1, ids[edges[at[k]].target].1)
    {
      ColumnsAre(edges, ids, et, k);
    }
  }

  // ---------------------------------------------------------------- nodes

  /** The node list of a type is the ids of all its nodes, in snapshot order. */
  lemma {:induction false} OfTypeIs(nodes: seq<Node>, t: NodeType) returns (at: seq<nat>)
    ensures |at| == |OfType(nodes, t)| && Ascending(at)
    ensures forall i: nat :: i in at <==> i < |nodes| && nodes[i].kind == Some(t)
    ensures forall k | 0 <= k < |at| :: at[k] < |nodes| && OfType(nodes, t)[k] == nodes[at[k]].id
  {
    if nodes == [] {
      at := [];
    } else {
      var last := |nodes| - 1;
      at := OfTypeIs(nodes[..last], t);
      assert forall k | 0 <= k < |at| :: at[k] in at && nodes[..last][at[k]] == nodes[at[k]];
      assert forall i: nat | i < last :: nodes[..last][i] == nodes[i];
      if nodes[last].kind == Some(t) {
        at := at + [last];
      }
    }
  }

  ghost function InForce<K(!new), V(!new)>(rows: seq<T.Row<K, V>>, ts: nat): nat -> bool {
    (i: nat) => i < |rows| && rows[i].start <= ts && (rows[i].end.Some? ==> ts < rows[i].end.value)
  }

  /** A snapshot reads all rows in force at the instant, in stored order. */
  lemma {:induction false} CoveringIs<K(!new), V(!new)>(rows: seq<T.Row<K, V>>, from: nat, ts: nat) returns (at: seq<nat>)
    requires from <= |rows|
    ensures Selects(rows, from, S.Covering(rows[from..], ts), InForce(rows, ts), at)
    decreases |rows| - from
  {
    if from == |rows| {
      at := [];
    } else {
      var good, rest := InForce(rows, ts), S.Covering(rows[from + 1..], ts);
      at := CoveringIs(rows, from + 1, ts);
      assert rows[from..][0] == rows[from] && rows[from..][1..] == rows[from + 1..];
      if good(from) {
        SelectsOneMore(rows, from, rest, good, at, S.Covering(rows[from..], ts), [from] + at);
        at := [from] + at;
      } else {
        SelectsNoMore(rows, from, rest, good, at);
      }
    }
  }
}
