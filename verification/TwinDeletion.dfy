/** Deleting routers from a valid twin: what the cascade keeps true and what it breaks. */
module TwinDeletion {
  import opened Common
  import opened InjectorModel
  import opened Defects
  import G = GoldenTwin

  // ---------------------------------------------------------------- filters by a set of values

  function StrippedIn(rows: seq<Row>, f: Field, vs: set<Val>): seq<Row> {
    if rows == [] then []
    else if Cell(rows[0], f) in vs then StrippedIn(rows[1..], f, vs)
    else [rows[0]] + StrippedIn(rows[1..], f, vs)
  }

  lemma {:induction false} StrippedInMember(rows: seq<Row>, f: Field, vs: set<Val>, r: Row)
    ensures r in StrippedIn(rows, f, vs) <==> r in rows && Cell(r, f) !in vs
  {
    if rows != [] {
      StrippedInMember(rows[1..], f, vs, r);
      assert r in rows <==> r == rows[0] || r in rows[1..];
    }
  }

  lemma {:induction false} StripAgain(rows: seq<Row>, f: Field, vs: set<Val>, v: Val)
    ensures Stripped(StrippedIn(rows, f, vs), f, v) == StrippedIn(rows, f, vs + {v})
  {
    if rows != [] {
      StripAgain(rows[1..], f, vs, v);
      if Cell(rows[0], f) !in vs {
        var rest := StrippedIn(rows[1..], f, vs);
        assert ([rows[0]] + rest)[1..] == rest;
      }
    }
  }

  lemma {:induction false} StripNothing(rows: seq<Row>, f: Field)
    ensures StrippedIn(rows, f, {}) == rows
  {
    if rows != [] {
      StripNothing(rows[1..], f);
      assert rows == [rows[0]] + rows[1..];
    }
  }

  // ---------------------------------------------------------------- unique ids

  predicate UniqueIds(rows: seq<Row>) {
    rows == [] || (Cell(rows[0], Id) !in G.Ids(rows[1..]) && UniqueIds(rows[1..]))
  }

  lemma {:induction false} UniqueStripped(rows: seq<Row>, f: Field, vs: set<Val>)
    requires UniqueIds(rows)
    ensures UniqueIds(StrippedIn(rows, f, vs))
  {
    if rows != [] {
      UniqueStripped(rows[1..], f, vs);
      var rest := StrippedIn(rows[1..], f, vs);
      forall r | r in rest ensures r in rows[1..] {
        StrippedInMember(rows[1..], f, vs, r);
      }
      if Cell(rows[0], f) !in vs {
        assert ([rows[0]] + rest)[1..] == rest;
      }
    }
  }

  lemma {:induction false} UniqueRow(rows: seq<Row>, a: Row, b: Row)
    requires UniqueIds(rows) && a in rows && b in rows && Cell(a, Id) == Cell(b, Id)
    ensures a == b
  {
    assert forall r: Row :: r in rows ==> r == rows[0] || r in rows[1..];
    if a != rows[0] && b != rows[0] {
      UniqueRow(rows[1..], a, b);
    }
  }

  lemma {:induction false} StripAbsent(rows: seq<Row>, v: Val)
    requires v !in G.Ids(rows)
    ensures Stripped(rows, Id, v) == rows
  {
    if rows != [] {
      assert rows[0] in rows;
      StripAbsent(rows[1..], v);
      assert rows == [rows[0]] + rows[1..];
    }
  }

  /** With unique ids, popping the first match is filtering. */
  lemma {:induction false} PopIsStrip(rows: seq<Row>, v: Val)
    requires UniqueIds(rows)
    ensures First(rows, ById(v)).Some? ==> Dropped(rows, First(rows, ById(v)).value) == Stripped(rows, Id, v)
    ensures First(rows, ById(v)).None? ==> Stripped(rows, Id, v) == rows
  {
    if rows != [] {
      if Cell(rows[0], Id) == v {
        StripAbsent(rows[1..], v);
      } else {
        PopIsStrip(rows[1..], v);
        assert rows == [rows[0]] + rows[1..];
      }
    }
  }

  lemma RemoveIsStrip(p: Projection, t: Table, v: Val)
    requires UniqueIds(Rows(p, t))
    ensures Rows(RemoveFirst(p, t, ById(v)), t) == Stripped(Rows(p, t), Id, v)
    ensures forall u | u != t :: Rows(RemoveFirst(p, t, ById(v)), u) == Rows(p, u)
  {
    PopIsStrip(Rows(p, t), v);
  }

  // ---------------------------------------------------------------- the cascade in closed form

  /** q is p without the interfaces in `ifaces` and their edges, and without the VRFs in `vrfs` and their sessions. */
  ghost predicate Without(p: Projection, q: Projection, ifaces: set<Val>, vrfs: set<Val>) {
    && Rows(q, PhysicalInterface) == StrippedIn(Rows(p, PhysicalInterface), Id, ifaces)
    && Rows(q, InterfaceLink) == StrippedIn(Rows(p, InterfaceLink), InterfaceId, ifaces)
    && Rows(q, SubnetAssociation) == StrippedIn(Rows(p, SubnetAssociation), EntityId, ifaces)
    && Rows(q, VRF) == StrippedIn(Rows(p, VRF), Id, vrfs)
    && Rows(q, BGPSession) == StrippedIn(Rows(p, BGPSession), VrfId, vrfs)
    && Rows(q, PhysicalLink) == Rows(p, PhysicalLink)
    && Rows(q, LogicalSubnet) == Rows(p, LogicalSubnet)
    && Rows(q, L3VPNService) == Rows(p, L3VPNService)
  }

  predicate Unique(p: Projection) {
    UniqueIds(Rows(p, PhysicalRouter)) && UniqueIds(Rows(p, PhysicalInterface)) && UniqueIds(Rows(p, VRF))
  }

  function SetOf(ids: seq<Val>): set<Val> {
    set v | v in ids
  }

  lemma StripInterfaceRows(q: Projection, v: Val)
    requires UniqueIds(Rows(q, PhysicalInterface))
    ensures var after := StripInterface(RemoveFirst(q, PhysicalInterface, ById(v)), v);
            && Rows(after, PhysicalInterface) == Stripped(Rows(q, PhysicalInterface), Id, v)
            && Rows(after, InterfaceLink) == Stripped(Rows(q, InterfaceLink), InterfaceId, v)
            && Rows(after, SubnetAssociation) == Stripped(Rows(q, SubnetAssociation), EntityId, v)
            && forall t | t !in {PhysicalInterface, InterfaceLink, SubnetAssociation} :: Rows(after, t) == Rows(q, t)
  {
    RemoveIsStrip(q, PhysicalInterface, v);
  }

  lemma DropOneInterface(p: Projection, q: Projection, ifaces: set<Val>, vrfs: set<Val>, v: Val)
    requires Unique(p) && Without(p, q, ifaces, vrfs)
    ensures var after := StripInterface(RemoveFirst(q, PhysicalInterface, ById(v)), v);
            && Without(p, after, ifaces + {v}, vrfs)
            && Rows(after, PhysicalRouter) == Rows(q, PhysicalRouter)
            && Rows(after, Device) == Rows(q, Device)
  {
    UniqueStripped(Rows(p, PhysicalInterface), Id, ifaces);
    StripInterfaceRows(q, v);
    StripAgain(Rows(p, PhysicalInterface), Id, ifaces, v);
    StripAgain(Rows(p, InterfaceLink), InterfaceId, ifaces, v);
    StripAgain(Rows(p, SubnetAssociation), EntityId, ifaces, v);
  }

  lemma {:induction false} DropInterfacesIs(p: Projection, q: Projection, ifaces: set<Val>, vrfs: set<Val>, ids: seq<Val>)
    requires Unique(p) && Without(p, q, ifaces, vrfs)
    ensures var after := DropInterfaces(q, ids);
            && Without(p, after, ifaces + SetOf(ids), vrfs)
            && Rows(after, PhysicalRouter) == Rows(q, PhysicalRouter)
            && Rows(after, Device) == Rows(q, Device)
    decreases |ids|
  {
    if ids == [] {
      assert ifaces + SetOf(ids) == ifaces;
    } else {
      DropOneInterface(p, q, ifaces, vrfs, ids[0]);
      DropInterfacesIs(p, StripInterface(RemoveFirst(q, PhysicalInterface, ById(ids[0])), ids[0]), ifaces + {ids[0]}, vrfs, ids[1..]);
      assert ifaces + {ids[0]} + SetOf(ids[1..]) == ifaces + SetOf(ids);
    }
  }

  lemma StripVrfRows(q: Projection, v: Val)
    requires UniqueIds(Rows(q, VRF))
    ensures var after := Strip(RemoveFirst(q, VRF, ById(v)), BGPSession, VrfId, v);
            && Rows(after, VRF) == Stripped(Rows(q, VRF), Id, v)
            && Rows(after, BGPSession) == Stripped(Rows(q, BGPSession), VrfId, v)
            && forall t | t !in {VRF, BGPSession} :: Rows(after, t) == Rows(q, t)
  {
    RemoveIsStrip(q, VRF, v);
  }

  lemma DropOneVrf(p: Projection, q: Projection, ifaces: set<Val>, vrfs: set<Val>, v: Val)
    requires Unique(p) && Without(p, q, ifaces, vrfs)
    ensures var after := Strip(RemoveFirst(q, VRF, ById(v)), BGPSession, VrfId, v);
            && Without(p, after, ifaces, vrfs + {v})
            && Rows(after, PhysicalRouter) == Rows(q, PhysicalRouter)
            && Rows(after, Device) == Rows(q, Device)
  {
    UniqueStripped(Rows(p, VRF), Id, vrfs);
    StripVrfRows(q, v);
    StripAgain(Rows(p, VRF), Id, vrfs, v);
    StripAgain(Rows(p, BGPSession), VrfId, vrfs, v);
  }

  lemma {:induction false} DropVrfsIs(p: Projection, q: Projection, ifaces: set<Val>, vrfs: set<Val>, ids: seq<Val>)
    requires Unique(p) && Without(p, q, ifaces, vrfs)
    ensures var after := DropVrfs(q, ids);
            && Without(p, after, ifaces, vrfs + SetOf(ids))
            && Rows(after, PhysicalRouter) == Rows(q, PhysicalRouter)
            && Rows(after, Device) == Rows(q, Device)
    decreases |ids|
  {
    if ids == [] {
      assert vrfs + SetOf(ids) == vrfs;
    } else {
      DropOneVrf(p, q, ifaces, vrfs, ids[0]);
      DropVrfsIs(p, Strip(RemoveFirst(q, VRF, ById(ids[0])), BGPSession, VrfId, ids[0]), ifaces, vrfs + {ids[0]}, ids[1..]);
      assert vrfs + {ids[0]} + SetOf(ids[1..]) == vrfs + SetOf(ids);
    }
  }

  // ---------------------------------------------------------------- deleting a set of routers

  /** Missing-node defects on these routers, one after the other; None when one of them raises. */
  function DeleteRouters(p: Projection, ids: seq<string>): Option<Projection>
    decreases |ids|
  {
    if ids == [] then Some(p)
    else
      match ApplyMissingNode(p, EntityRef(PhysicalRouter, ids[0]), 0)
      case Raised => None
      case Done(q, _, _) => DeleteRouters(q, ids[1..])
  }

  predicate There(p: Projection, id: string) {
    Text(id) in G.Ids(Rows(p, PhysicalRouter))
  }

  /** The routers of the list that the twin has. */
  function Present(p: Projection, ids: seq<string>): set<string> {
    set id | id in ids && There(p, id)
  }

  function Texts(ids: set<string>): set<Val> {
    set id | id in ids :: Text(id)
  }

  /** The ids of the rows that belong to one of the routers. */
  function OwnedBy(rows: seq<Row>, routers: set<string>): set<Val> {
    set r | r in rows && Cell(r, RouterId) in Texts(routers) :: Cell(r, Id)
  }

  predicate AttachedToAny(dev: Row, routers: set<string>) {
    exists id | id in routers :: AttachedUnder(dev, id + ":interface:")
  }

  function DetachedFrom(dev: Row, routers: set<string>): Row {
    if AttachedToAny(dev, routers) then dev[InterfaceId := Null] else dev
  }

  /** q is p after the routers, and everything on them, are gone. */
  ghost predicate Deleted(p: Projection, q: Projection, routers: set<string>) {
    && Without(p, q, OwnedBy(Rows(p, PhysicalInterface), routers), OwnedBy(Rows(p, VRF), routers))
    && Rows(q, PhysicalRouter) == StrippedIn(Rows(p, PhysicalRouter), Id, Texts(routers))
    && |Rows(q, Device)| == |Rows(p, Device)|
    && forall i | 0 <= i < |Rows(p, Device)| :: Rows(q, Device)[i] == DetachedFrom(Rows(p, Device)[i], routers)
  }

  lemma {:induction false} IdsWhereMember(rows: seq<Row>, f: Field, v: Val, id: Val)
    ensures id in IdsWhere(rows, f, v) <==> exists r: Row | r in rows :: Cell(r, f) == v && Cell(r, Id) == id
  {
    if rows != [] {
      IdsWhereMember(rows[1..], f, v, id);
      assert forall r: Row :: r in rows <==> r == rows[0] || r in rows[1..];
    }
  }

  /** What is owned by one more router: the rows still there, on top of those already gone. */
  lemma OwnedGrows(rows: seq<Row>, routers: set<string>, id: string)
    ensures var left := StrippedIn(rows, Id, OwnedBy(rows, routers));
            OwnedBy(rows, routers) + SetOf(IdsWhere(left, RouterId, Text(id))) == OwnedBy(rows, routers + {id})
  {
    var gone := OwnedBy(rows, routers);
    var left := StrippedIn(rows, Id, gone);
    var grown := OwnedBy(rows, routers + {id});
    forall v | v in gone + SetOf(IdsWhere(left, RouterId, Text(id))) ensures v in grown {
      if v !in gone {
        IdsWhereMember(left, RouterId, Text(id), v);
        var r: Row :| r in left && Cell(r, RouterId) == Text(id) && Cell(r, Id) == v;
        StrippedInMember(rows, Id, gone, r);
        assert Cell(r, RouterId) in Texts(routers + {id});
      } else {
        var r: Row :| r in rows && Cell(r, RouterId) in Texts(routers) && Cell(r, Id) == v;
        assert Cell(r, RouterId) in Texts(routers + {id});
      }
    }
    forall v | v in grown && v !in gone ensures v in SetOf(IdsWhere(left, RouterId, Text(id))) {
      var r: Row :| r in rows && Cell(r, RouterId) in Texts(routers + {id}) && Cell(r, Id) == v;
      assert Cell(r, RouterId) == Text(id);
      StrippedInMember(rows, Id, gone, r);
      IdsWhereMember(left, RouterId, Text(id), v);
    }
    assert gone <= grown by {
      forall v | v in gone ensures v in grown {
        var r: Row :| r in rows && Cell(r, RouterId) in Texts(routers) && Cell(r, Id) == v;
        assert Cell(r, RouterId) in Texts(routers + {id});
      }
    }
  }

  lemma RemoveRouterRows(p: Projection, q: Projection, ifaces: set<Val>, vrfs: set<Val>, routers: set<string>, id: string)
    requires Unique(p) && Without(p, q, ifaces, vrfs)
    requires Rows(q, PhysicalRouter) == StrippedIn(Rows(p, PhysicalRouter), Id, Texts(routers))
    ensures var removed := RemoveFirst(q, PhysicalRouter, ById(Text(id)));
            && Without(p, removed, ifaces, vrfs)
            && Rows(removed, PhysicalRouter) == StrippedIn(Rows(p, PhysicalRouter), Id, Texts(routers + {id}))
            && Rows(removed, Device) == Rows(q, Device)
  {
    UniqueStripped(Rows(p, PhysicalRouter), Id, Texts(routers));
    RemoveIsStrip(q, PhysicalRouter, Text(id));
    StripAgain(Rows(p, PhysicalRouter), Id, Texts(routers), Text(id));
    assert Texts(routers) + {Text(id)} == Texts(routers + {id});
  }

  /** The parts of one more router: its interfaces and VRFs among those still there. */
  lemma DropPartsIs(p: Projection, q: Projection, routers: set<string>, id: string)
    requires Unique(p)
    requires Without(p, q, OwnedBy(Rows(p, PhysicalInterface), routers), OwnedBy(Rows(p, VRF), routers))
    ensures var after := DropRouterParts(q, id);
            && Without(p, after, OwnedBy(Rows(p, PhysicalInterface), routers + {id}), OwnedBy(Rows(p, VRF), routers + {id}))
            && Rows(after, PhysicalRouter) == Rows(q, PhysicalRouter)
            && Rows(after, Device) == Detached(Rows(q, Device), id + ":interface:")
  {
    var ifaces, vrfs := OwnedBy(Rows(p, PhysicalInterface), routers), OwnedBy(Rows(p, VRF), routers);
    var owned := IdsWhere(Rows(q, PhysicalInterface), RouterId, Text(id));
    DropInterfacesIs(p, q, ifaces, vrfs, owned);
    OwnedGrows(Rows(p, PhysicalInterface), routers, id);
    var bare := DropInterfaces(q, owned);
    var ownedVrfs := IdsWhere(Rows(bare, VRF), RouterId, Text(id));
    DropVrfsIs(p, bare, ifaces + SetOf(owned), vrfs, ownedVrfs);
    OwnedGrows(Rows(p, VRF), routers, id);
  }

  lemma DeleteOne(p: Projection, q: Projection, routers: set<string>, id: string)
    requires Unique(p) && Deleted(p, q, routers)
    ensures Deleted(p, DeleteNode(q, EntityRef(PhysicalRouter, id)), routers + {id})
  {
    RemoveRouterRows(p, q, OwnedBy(Rows(p, PhysicalInterface), routers), OwnedBy(Rows(p, VRF), routers), routers, id);
    DropPartsIs(p, RemoveFirst(q, PhysicalRouter, ById(Text(id))), routers, id);
    forall i | 0 <= i < |Rows(p, Device)|
      ensures Detached(Rows(q, Device), id + ":interface:")[i] == DetachedFrom(Rows(p, Device)[i], routers + {id})
    {
      DetachOneMore(Rows(p, Device)[i], routers, id);
    }
  }

  lemma DetachOneMore(dev: Row, routers: set<string>, id: string)
    ensures var d := DetachedFrom(dev, routers);
            (if AttachedUnder(d, id + ":interface:") then d[InterfaceId := Null] else d) == DetachedFrom(dev, routers + {id})
  {
    assert AttachedToAny(dev, routers + {id}) <==> AttachedToAny(dev, routers) || AttachedUnder(dev, id + ":interface:");
  }

  lemma FoundIffThere(p: Projection, id: string)
    ensures First(Rows(p, PhysicalRouter), ById(Text(id))).Some? <==> There(p, id)
  {
    if There(p, id) {
      var r: Row :| r in Rows(p, PhysicalRouter) && Cell(r, Id) == Text(id);
      var k :| 0 <= k < |Rows(p, PhysicalRouter)| && Rows(p, PhysicalRouter)[k] == r;
      assert Matches(Rows(p, PhysicalRouter)[k], ById(Text(id)));
    }
  }

  predicate AllText(p: Projection) {
    forall dev | dev in Rows(p, Device) :: HasTextInterface(dev)
  }

  lemma DeleteStep(p: Projection, ids: seq<string>)
    requires ids != []
    ensures DeleteRouters(p, ids) ==
            if !There(p, ids[0]) then DeleteRouters(p, ids[1..])
            else if !AllText(p) then None
            else DeleteRouters(DeleteNode(p, EntityRef(PhysicalRouter, ids[0])), ids[1..])
  {
    FoundIffThere(p, ids[0]);
  }

  /** A deleted router is not there any more; the others are as before. */
  lemma ThereAfter(p: Projection, q: Projection, routers: set<string>, id: string)
    requires Deleted(p, q, routers)
    ensures There(q, id) <==> There(p, id) && id !in routers
  {
    forall r ensures r in Rows(q, PhysicalRouter) <==> r in Rows(p, PhysicalRouter) && Cell(r, Id) !in Texts(routers) {
      StrippedInMember(Rows(p, PhysicalRouter), Id, Texts(routers), r);
    }
    if There(p, id) && id !in routers {
      var r: Row :| r in Rows(p, PhysicalRouter) && Cell(r, Id) == Text(id);
      assert r in Rows(q, PhysicalRouter);
    }
  }

  lemma PresentGrows(p: Projection, ids: seq<string>, gone: set<string>)
    requires ids != []
    ensures There(p, ids[0]) ==> gone + {ids[0]} + Present(p, ids[1..]) == gone + Present(p, ids)
    ensures !There(p, ids[0]) || ids[0] in gone ==> gone + Present(p, ids[1..]) == gone + Present(p, ids)
  {
    assert forall id :: id in ids <==> id == ids[0] || id in ids[1..];
  }

  lemma {:induction false} DeleteAll(p: Projection, q: Projection, gone: set<string>, ids: seq<string>)
    requires Unique(p) && Deleted(p, q, gone) && DeleteRouters(q, ids).Some?
    ensures Deleted(p, DeleteRouters(q, ids).value, gone + Present(p, ids))
    decreases |ids|
  {
    if ids == [] {
      assert gone + Present(p, ids) == gone;
    } else {
      var id := ids[0];
      DeleteStep(q, ids);
      ThereAfter(p, q, gone, id);
      if There(q, id) {
        DeleteOne(p, q, gone, id);
        DeleteAll(p, DeleteNode(q, EntityRef(PhysicalRouter, id)), gone + {id}, ids[1..]);
        PresentGrows(p, ids, gone);
      } else {
        DeleteAll(p, q, gone, ids[1..]);
        PresentGrows(p, ids, gone);
      }
    }
  }

  lemma NothingDeleted(p: Projection)
    ensures Deleted(p, p, {})
  {
    StripNothing(Rows(p, PhysicalInterface), Id);
    StripNothing(Rows(p, InterfaceLink), InterfaceId);
    StripNothing(Rows(p, SubnetAssociation), EntityId);
    StripNothing(Rows(p, VRF), Id);
    StripNothing(Rows(p, BGPSession), VrfId);
    StripNothing(Rows(p, PhysicalRouter), Id);
    assert OwnedBy(Rows(p, PhysicalInterface), {}) == {} && OwnedBy(Rows(p, VRF), {}) == {} && Texts({}) == {};
  }

  /** Deleting routers one after the other, in any order, amounts to filters of the tables, when no
      deletion raises. */
  lemma DeleteRoutersIs(p: Projection, ids: seq<string>)
    requires Unique(p) && DeleteRouters(p, ids).Some?
    ensures Deleted(p, DeleteRouters(p, ids).value, Present(p, ids))
  {
    NothingDeleted(p);
    DeleteAll(p, p, {}, ids);
    assert {} + Present(p, ids) == Present(p, ids);
  }

  // ---------------------------------------------------------------- which lists of routers can be deleted

  /** No device hangs on the router. */
  predicate Bare(p: Projection, id: string) {
    forall dev | dev in Rows(p, Device) :: !AttachedUnder(dev, id + ":interface:")
  }

  /** The deletions that have a router to delete: first occurrences of routers that are there. */
  function Turns(p: Projection, ids: seq<string>, gone: set<string>): seq<string> {
    if ids == [] then []
    else if There(p, ids[0]) && ids[0] !in gone then [ids[0]] + Turns(p, ids[1..], gone + {ids[0]})
    else Turns(p, ids[1..], gone)
  }

  /** Every router but the last is bare. */
  predicate AllButLastBare(p: Projection, turns: seq<string>) {
    forall k | 0 <= k < |turns| - 1 :: Bare(p, turns[k])
  }

  lemma DevicesAfter(p: Projection, id: string)
    ensures Rows(DeleteNode(p, EntityRef(PhysicalRouter, id)), Device) == Detached(Rows(p, Device), id + ":interface:")
  {
    var removed := RemoveFirst(p, PhysicalRouter, ById(Text(id)));
    var ids := IdsWhere(Rows(removed, PhysicalInterface), RouterId, Text(id));
    DropInterfacesKeepsDevices(removed, ids);
    var bare := DropInterfaces(removed, ids);
    DropVrfsKeepsDevices(bare, IdsWhere(Rows(bare, VRF), RouterId, Text(id)));
  }

  /** Where every device has a text for an interface, a deletion leaves it so if and only if the
      router is bare, and then it leaves the devices alone. */
  lemma BareIff(p: Projection, id: string)
    requires AllText(p)
    ensures AllText(DeleteNode(p, EntityRef(PhysicalRouter, id))) <==> Bare(p, id)
    ensures Bare(p, id) ==> Rows(DeleteNode(p, EntityRef(PhysicalRouter, id)), Device) == Rows(p, Device)
  {
    var q, devices := DeleteNode(p, EntityRef(PhysicalRouter, id)), Rows(p, Device);
    DevicesAfter(p, id);
    if Bare(p, id) {
      forall k | 0 <= k < |devices| ensures Rows(q, Device)[k] == devices[k] {
        assert devices[k] in devices;
      }
      assert Rows(q, Device) == devices;
    } else {
      var dev :| dev in devices && AttachedUnder(dev, id + ":interface:");
      var k :| 0 <= k < |devices| && devices[k] == dev;
      assert Rows(q, Device)[k] in Rows(q, Device) && !HasTextInterface(Rows(q, Device)[k]);
    }
  }

  lemma {:induction false} FinishFromIff(p: Projection, q: Projection, gone: set<string>, ids: seq<string>)
    requires Unique(p) && Deleted(p, q, gone)
    ensures DeleteRouters(q, ids).Some? <==> Turns(p, ids, gone) == [] || (AllText(q) && AllButLastBare(q, Turns(p, ids, gone)))
    decreases |ids|
  {
    if ids != [] {
      var id := ids[0];
      DeleteStep(q, ids);
      ThereAfter(p, q, gone, id);
      if There(q, id) {
        var next := DeleteNode(q, EntityRef(PhysicalRouter, id));
        var rest := Turns(p, ids[1..], gone + {id});
        DeleteOne(p, q, gone, id);
        FinishFromIff(p, next, gone + {id}, ids[1..]);
        if AllText(q) {
          BareIff(q, id);
          TurnIff(q, next, id, rest);
        }
      } else {
        FinishFromIff(p, q, gone, ids[1..]);
      }
    }
  }

  lemma TurnIff(q: Projection, next: Projection, id: string, rest: seq<string>)
    requires AllText(q) && (AllText(next) <==> Bare(q, id)) && (Bare(q, id) ==> Rows(next, Device) == Rows(q, Device))
    ensures AllButLastBare(q, [id] + rest) <==> rest == [] || (AllText(next) && AllButLastBare(next, rest))
  {
    var turns := [id] + rest;
    if rest != [] {
      assert AllButLastBare(q, turns) ==> Bare(q, turns[0]);
      assert forall k | 0 <= k < |rest| :: turns[k + 1] == rest[k];
      if Bare(q, id) {
        assert forall r :: Bare(next, r) == Bare(q, r);
        if AllButLastBare(q, turns) {
          forall k | 0 <= k < |rest| - 1 ensures Bare(q, rest[k]) {
            assert Bare(q, turns[k + 1]);
          }
        }
      }
    }
  }

  /** The deletions of a list all finish if and only if there is nothing to delete, or every device
      has a text for an interface and no device hangs on any router but the last one deleted: a
      detached device makes every later deletion raise. */
  lemma DeletionsFinishIff(p: Projection, ids: seq<string>)
    requires Unique(p)
    ensures DeleteRouters(p, ids).Some? <==>
            Turns(p, ids, {}) == [] || (AllText(p) && AllButLastBare(p, Turns(p, ids, {})))
  {
    NothingDeleted(p);
    FinishFromIff(p, p, {}, ids);
  }

  // ---------------------------------------------------------------- references and endpoints

  /** Every interface id starts with the id of the router the row belongs to. The loader's id
      pattern does not tie the two together. */
  predicate IdsNameOwner(p: Projection) {
    forall r | r in Rows(p, PhysicalInterface) ::
      Cell(r, RouterId).Text? && Cell(r, Id).Text? && StartsWith(Cell(r, Id).s, Cell(r, RouterId).s + ":interface:")
  }

  /** Every device on an interface of one of the routers passes the prefix test of some of them. */
  predicate Covered(p: Projection, routers: set<string>) {
    forall dev, iface | dev in Rows(p, Device) && iface in Rows(p, PhysicalInterface) ::
      (Cell(dev, InterfaceId) == Cell(iface, Id) && Cell(dev, InterfaceId) !in {Null, Text("")}
       && Cell(iface, RouterId) in Texts(routers)) ==> AttachedToAny(dev, routers)
  }

  lemma NamedOwnersCover(p: Projection, routers: set<string>)
    requires IdsNameOwner(p)
    ensures Covered(p, routers)
  {
    forall dev, iface | dev in Rows(p, Device) && iface in Rows(p, PhysicalInterface)
                        && Cell(dev, InterfaceId) == Cell(iface, Id) && Cell(iface, RouterId) in Texts(routers)
      ensures AttachedToAny(dev, routers)
    {
      assert AttachedUnder(dev, Cell(iface, RouterId).s + ":interface:");
    }
  }

  lemma KeptIds(rows: seq<Row>, gone: set<Val>, v: Val)
    requires v in G.Ids(rows) && v !in gone
    ensures v in G.Ids(StrippedIn(rows, Id, gone))
  {
    var r: Row :| r in rows && Cell(r, Id) == v;
    StrippedInMember(rows, Id, gone, r);
  }

  /** Filtering a table along with the table it refers to keeps the reference. */
  lemma KeptReference(p: Projection, q: Projection, ref: G.Reference, f: Field, dropped: set<Val>, gone: set<Val>)
    requires G.Holds(p, ref) && !ref.optional
    requires Rows(q, ref.to) == StrippedIn(Rows(p, ref.to), Id, gone)
    requires Rows(q, ref.table) == StrippedIn(Rows(p, ref.table), f, dropped)
    requires forall r | r in Rows(p, ref.table) && Cell(r, f) !in dropped :: Cell(r, ref.field) !in gone
    ensures G.Holds(q, ref)
  {
    forall r | r in Rows(q, ref.table) ensures G.Refers(q, ref, r) {
      StrippedInMember(Rows(p, ref.table), f, dropped, r);
      assert G.Refers(p, ref, r);
      KeptIds(Rows(p, ref.to), gone, Cell(r, ref.field));
    }
  }

  /** The same when the table referred to stays whole. */
  lemma KeptReferenceToWhole(p: Projection, q: Projection, ref: G.Reference, f: Field, dropped: set<Val>)
    requires G.Holds(p, ref) && !ref.optional && Rows(q, ref.to) == Rows(p, ref.to)
    requires Rows(q, ref.table) == StrippedIn(Rows(p, ref.table), f, dropped)
    ensures G.Holds(q, ref)
  {
    StripNothing(Rows(p, ref.to), Id);
    KeptReference(p, q, ref, f, dropped, {});
  }

  /** An interface is deleted exactly with its router. */
  lemma GoneWithRouter(rows: seq<Row>, routers: set<string>, r: Row)
    requires UniqueIds(rows) && r in rows
    ensures Cell(r, Id) in OwnedBy(rows, routers) <==> Cell(r, RouterId) in Texts(routers)
  {
    if Cell(r, Id) in OwnedBy(rows, routers) {
      var other: Row :| other in rows && Cell(other, RouterId) in Texts(routers) && Cell(other, Id) == Cell(r, Id);
      UniqueRow(rows, r, other);
    }
  }

  lemma DevicesKeepReferenceIff(p: Projection, q: Projection, routers: set<string>)
    requires Unique(p) && Deleted(p, q, routers)
    requires G.Holds(p, G.Reference(Device, InterfaceId, PhysicalInterface, true))
    ensures G.Holds(q, G.Reference(Device, InterfaceId, PhysicalInterface, true)) <==> Covered(p, routers)
  {
    var ref, gone := G.Reference(Device, InterfaceId, PhysicalInterface, true), OwnedBy(Rows(p, PhysicalInterface), routers);
    if Covered(p, routers) {
      forall d | d in Rows(q, Device) ensures G.Refers(q, ref, d) {
        var i :| 0 <= i < |Rows(q, Device)| && Rows(q, Device)[i] == d;
        var dev := Rows(p, Device)[i];
        assert G.Refers(p, ref, dev);
        var v := Cell(dev, InterfaceId);
        if d == dev && v !in {Null, Text("")} {
          var r: Row :| r in Rows(p, PhysicalInterface) && Cell(r, Id) == v;
          GoneWithRouter(Rows(p, PhysicalInterface), routers, r);
          KeptIds(Rows(p, PhysicalInterface), gone, v);
        }
      }
    }
    if G.Holds(q, ref) {
      forall dev, iface | dev in Rows(p, Device) && iface in Rows(p, PhysicalInterface)
                          && Cell(dev, InterfaceId) == Cell(iface, Id) && Cell(dev, InterfaceId) !in {Null, Text("")}
                          && Cell(iface, RouterId) in Texts(routers)
        ensures AttachedToAny(dev, routers)
      {
        var i :| 0 <= i < |Rows(p, Device)| && Rows(p, Device)[i] == dev;
        if Rows(q, Device)[i] == dev {
          assert dev in Rows(q, Device) && G.Refers(q, ref, dev);
          var r: Row :| r in Rows(q, PhysicalInterface) && Cell(r, Id) == Cell(iface, Id);
          StrippedInMember(Rows(p, PhysicalInterface), Id, gone, r);
          GoneWithRouter(Rows(p, PhysicalInterface), routers, iface);
        }
      }
    }
  }

  /** Deleting routers from a twin with unique ids keeps every reference check true if and only if
      the prefix test covers the devices on their interfaces; interface ids that name their
      router guarantee that. */
  lemma DeletionKeepsReferencesIff(p: Projection, ids: seq<string>)
    requires Unique(p) && G.ReferencesHold(p) && DeleteRouters(p, ids).Some?
    ensures G.ReferencesHold(DeleteRouters(p, ids).value) <==> Covered(p, Present(p, ids))
    ensures IdsNameOwner(p) ==> G.ReferencesHold(DeleteRouters(p, ids).value)
  {
    var q, devices := DeleteRouters(p, ids).value, G.Reference(Device, InterfaceId, PhysicalInterface, true);
    DeleteRoutersIs(p, ids);
    forall ref | ref in G.REFERENCES && ref != devices ensures G.Holds(q, ref) {
      ReferenceKept(p, q, Present(p, ids), ref);
    }
    assert devices == G.REFERENCES[3];
    DevicesKeepReferenceIff(p, q, Present(p, ids));
    if IdsNameOwner(p) {
      NamedOwnersCover(p, Present(p, ids));
    }
  }

  lemma ReferenceKept(p: Projection, q: Projection, routers: set<string>, ref: G.Reference)
    requires Unique(p) && Deleted(p, q, routers)
    requires ref in G.REFERENCES && !ref.optional && G.Holds(p, ref)
    ensures G.Holds(q, ref)
  {
    var ifaces, vrfs := OwnedBy(Rows(p, PhysicalInterface), routers), OwnedBy(Rows(p, VRF), routers);
    match ref.table
    case PhysicalInterface =>
      forall r | r in Rows(p, PhysicalInterface) && Cell(r, Id) !in ifaces ensures Cell(r, RouterId) !in Texts(routers) {
        GoneWithRouter(Rows(p, PhysicalInterface), routers, r);
      }
      KeptReference(p, q, ref, Id, ifaces, Texts(routers));
    case InterfaceLink =>
      if ref.to.PhysicalInterface? {
        KeptReference(p, q, ref, InterfaceId, ifaces, ifaces);
      } else {
        KeptReferenceToWhole(p, q, ref, InterfaceId, ifaces);
      }
    case SubnetAssociation => KeptReferenceToWhole(p, q, ref, EntityId, ifaces);
    case VRF =>
      if ref.to.PhysicalRouter? {
        forall r | r in Rows(p, VRF) && Cell(r, Id) !in vrfs ensures Cell(r, RouterId) !in Texts(routers) {
          GoneWithRouter(Rows(p, VRF), routers, r);
        }
        KeptReference(p, q, ref, Id, vrfs, Texts(routers));
      } else {
        KeptReferenceToWhole(p, q, ref, Id, vrfs);
      }
    case BGPSession => KeptReference(p, q, ref, VrfId, vrfs, vrfs);
  }

  /** The endpoints of a link that lie on one of these interfaces. */
  function CountOn(links: seq<Row>, link: Val, ifaces: set<Val>): nat {
    if links == [] then 0
    else (if Cell(links[0], LinkId) == link && Cell(links[0], InterfaceId) in ifaces then 1 else 0) + CountOn(links[1..], link, ifaces)
  }

  lemma {:induction false} CountSplits(links: seq<Row>, link: Val, ifaces: set<Val>)
    ensures G.Count(StrippedIn(links, InterfaceId, ifaces), LinkId, link) + CountOn(links, link, ifaces) == G.Count(links, LinkId, link)
  {
    if links != [] {
      CountSplits(links[1..], link, ifaces);
      var rest := StrippedIn(links[1..], InterfaceId, ifaces);
      if Cell(links[0], InterfaceId) !in ifaces {
        assert ([links[0]] + rest)[1..] == rest;
      }
    }
  }

  /** What breaks is link cardinality, and by exactly this much: each link is left with two
      endpoints less those on the deleted routers. */
  lemma EndpointsLeft(p: Projection, ids: seq<string>, link: Val)
    requires Unique(p) && G.TwoEndpoints(p) && link in G.Ids(Rows(p, PhysicalLink)) && DeleteRouters(p, ids).Some?
    ensures var q := DeleteRouters(p, ids).value;
            var gone := OwnedBy(Rows(p, PhysicalInterface), Present(p, ids));
            && link in G.Ids(Rows(q, PhysicalLink))
            && G.Count(Rows(q, InterfaceLink), LinkId, link) == 2 - CountOn(Rows(p, InterfaceLink), link, gone)
  {
    DeleteRoutersIs(p, ids);
    CountSplits(Rows(p, InterfaceLink), link, OwnedBy(Rows(p, PhysicalInterface), Present(p, ids)));
  }

  // ---------------------------------------------------------------- the prefix test on devices

  lemma {:induction false} FirstColonIs(s: string, k: nat)
    requires k < |s| && s[k] == ':' && forall j | 0 <= j < k :: s[j] != ':'
    ensures G.FirstColon(s) == k
  {
    if k > 0 {
      FirstColonIs(s[1..], k - 1);
    }
  }

  /** A router id in front of ":interface:" ends at the first colon after "router:". */
  lemma OwnerEnds(id: string, a: string)
    requires G.IdMatches(PhysicalRouter, a) && StartsWith(id, a + ":interface:")
    ensures |id| > |a| >= 7 && G.FirstColon(id[7..]) == |a| - 7 && id[..|a|] == a
  {
    var prefix := a + ":interface:";
    assert forall j | 0 <= j < |prefix| :: id[j] == prefix[j];
    assert id[|a|] == ':';
    forall j | 0 <= j < |a| - 7 ensures id[7..][j] != ':' {
      assert id[7..][j] == a[7..][j];
    }
    FirstColonIs(id[7..], |a| - 7);
  }

  /** Two router ids with colon-free names cannot both be followed by ":interface:" in one id. */
  lemma PrefixesAgree(id: string, a: string, b: string)
    requires G.IdMatches(PhysicalRouter, a) && G.IdMatches(PhysicalRouter, b)
    requires StartsWith(id, a + ":interface:") && StartsWith(id, b + ":interface:")
    ensures a == b
  {
    OwnerEnds(id, a);
    OwnerEnds(id, b);
  }

  /** On a valid twin whose interface ids name their owner, the prefix test picks exactly the
      devices attached to the router's own interfaces. */
  lemma PrefixTestIsOwnership(p: Projection, dev: Row, iface: Row, id: string)
    requires G.Contract(p) && IdsNameOwner(p) && G.IdMatches(PhysicalRouter, id)
    requires dev in Rows(p, Device) && iface in Rows(p, PhysicalInterface) && Cell(dev, InterfaceId) == Cell(iface, Id)
    ensures AttachedUnder(dev, id + ":interface:") <==> Cell(iface, RouterId) == Text(id)
  {
    assert G.Holds(p, G.REFERENCES[0]);
    assert G.Refers(p, G.REFERENCES[0], iface);
    var router: Row :| router in Rows(p, PhysicalRouter) && Cell(router, Id) == Cell(iface, RouterId);
    assert PhysicalRouter == G.TABLES[0];
    assert G.TableFollowsConvention(p, PhysicalRouter) && G.IdOk(PhysicalRouter, router);
    if AttachedUnder(dev, id + ":interface:") {
      PrefixesAgree(Cell(iface, Id).s, id, Cell(iface, RouterId).s);
    }
  }

  // ---------------------------------------------------------------- devices during a cascade

  lemma {:induction false} DropInterfacesKeepsDevices(p: Projection, ids: seq<Val>)
    ensures Rows(DropInterfaces(p, ids), Device) == Rows(p, Device)
    decreases |ids|
  {
    if ids != [] {
      var removed := RemoveFirst(p, PhysicalInterface, ById(ids[0]));
      assert Rows(StripInterface(removed, ids[0]), Device) == Rows(removed, Device) == Rows(p, Device);
      DropInterfacesKeepsDevices(StripInterface(removed, ids[0]), ids[1..]);
    }
  }

  lemma {:induction false} DropVrfsKeepsDevices(p: Projection, ids: seq<Val>)
    ensures Rows(DropVrfs(p, ids), Device) == Rows(p, Device)
    decreases |ids|
  {
    if ids != [] {
      DropVrfsKeepsDevices(Strip(RemoveFirst(p, VRF, ById(ids[0])), BGPSession, VrfId, ids[0]), ids[1..]);
    }
  }
}
