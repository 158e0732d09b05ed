/** What the defect classes write and remove, row by row and cell by cell. */
module DefectRows {
  import opened Common
  import opened Positions
  import opened InjectorModel
  import opened Defects
  import opened DefectEffects

  // ---------------------------------------------------------------- rendering

  /** The number that a string of decimal digits stands for. */
  ghost function ValueOf(s: string): int {
    if s == "" then 0 else 10 * ValueOf(s[..|s| - 1]) + (s[|s| - 1] as int - '0' as int)
  }

  /** Digits renders a number: it reads back as that number and has no leading zero. */
  lemma {:induction false} DigitsAre(n: nat)
    ensures ValueOf(Digits(n)) == n && Digits(n) != ""
    ensures forall c | c in Digits(n) :: '0' <= c <= '9'
    ensures n > 0 ==> Digits(n)[0] != '0'
  {
    var s := Digits(n);
    if n >= 10 {
      DigitsAre(n / 10);
      assert s[..|s| - 1] == Digits(n / 10);
    } else {
      assert s[..0] == "";
    }
  }

  // ---------------------------------------------------------------- what draws choose from

  function Other(drift: seq<Val>, current: Val): nat -> bool {
    (i: nat) => i < |drift| && drift[i] != current
  }

  /** A drift chooses from the values other than the current one, in the order of the table. */
  lemma {:induction false} AlternativesAre(drift: seq<Val>, from: nat, current: Val) returns (at: seq<nat>)
    requires from <= |drift|
    ensures Selects(drift, from, Alternatives(drift[from..], current), Other(drift, current), at)
    decreases |drift| - from
  {
    if from == |drift| {
      at := [];
    } else {
      var good, rest := Other(drift, current), Alternatives(drift[from + 1..], current);
      at := AlternativesAre(drift, from + 1, current);
      assert drift[from..][0] == drift[from] && drift[from..][1..] == drift[from + 1..];
      if good(from) {
        SelectsOneMore(drift, from, rest, good, at, Alternatives(drift[from..], current), [from] + at);
        at := [from] + at;
      } else {
        SelectsNoMore(drift, from, rest, good, at);
      }
    }
  }

  /** The row has an id, and not that one. */
  predicate Differs(r: Row, id: Val) {
    Cell(r, Id) != Null && Cell(r, Id) != Text("") && Cell(r, Id) != id
  }

  function Another(rows: seq<Row>, id: Val): nat -> bool {
    (i: nat) => i < |rows| && Differs(rows[i], id)
  }

  lemma VictimsStep(rows: seq<Row>, id: Val)
    requires rows != []
    ensures Victims(rows, id) == if Differs(rows[0], id) then [rows[0]] + Victims(rows[1..], id) else Victims(rows[1..], id)
  {
  }

  /** A merge chooses its victim from the rows with an id other than the target's, in order. */
  lemma {:induction false} VictimsAre(rows: seq<Row>, from: nat, id: Val) returns (at: seq<nat>)
    requires from <= |rows|
    ensures Selects(rows, from, Victims(rows[from..], id), Another(rows, id), at)
    decreases |rows| - from
  {
    if from == |rows| {
      at := [];
    } else {
      var good, rest := Another(rows, id), Victims(rows[from + 1..], id);
      at := VictimsAre(rows, from + 1, id);
      VictimsStep(rows[from..], id);
      assert rows[from..][0] == rows[from] && rows[from..][1..] == rows[from + 1..];
      if good(from) {
        SelectsOneMore(rows, from, rest, good, at, Victims(rows[from..], id), [from] + at);
        at := [from] + at;
      } else {
        SelectsNoMore(rows, from, rest, good, at);
      }
    }
  }

  /** The interface is at no end of the link. */
  function OffLink(ids: seq<Val>, links: seq<Row>, link: Val): nat -> bool {
    (i: nat) => i < |ids| && forall k | 0 <= k < |links| && Cell(links[k], LinkId) == link :: Cell(links[k], InterfaceId) != ids[i]
  }

  /** An end moves to one of the interfaces that are not on the link, in table order. */
  lemma {:induction false} FreeInterfacesAre(ifaces: seq<Row>, from: nat, links: seq<Row>, link: Val, ids: seq<Val>) returns (at: seq<nat>)
    requires from <= |ifaces| == |ids| && forall i | 0 <= i < |ifaces| :: ids[i] == Cell(ifaces[i], Id)
    ensures Selects(ids, from, FreeInterfaces(ifaces[from..], links, link), OffLink(ids, links, link), at)
    decreases |ifaces| - from
  {
    if from == |ifaces| {
      at := [];
    } else {
      var good, rest := OffLink(ids, links, link), FreeInterfaces(ifaces[from + 1..], links, link);
      at := FreeInterfacesAre(ifaces, from + 1, links, link, ids);
      assert ifaces[from..][0] == ifaces[from] && ifaces[from..][1..] == ifaces[from + 1..];
      if good(from) {
        SelectsOneMore(ids, from, rest, good, at, FreeInterfaces(ifaces[from..], links, link), [from] + at);
        at := [from] + at;
      } else {
        SelectsNoMore(ids, from, rest, good, at);
      }
    }
  }

  /** There is a double colon at k. */
  ghost predicate DoubleColon(s: string, k: nat) {
    k + 2 <= |s| && s[k] == ':' && s[k + 1] == ':'
  }

  /** The double colon at k is the first from `from` on. */
  ghost predicate FirstDoubleColon(s: string, from: nat, k: nat) {
    from <= k && DoubleColon(s, k) && forall j: nat | from <= j < k :: !DoubleColon(s, j)
  }

  /** The link of a natural key is what follows the first double colon. */
  lemma {:induction false} AfterSeparatorAt(s: string, from: nat, k: nat)
    requires FirstDoubleColon(s, from, k)
    ensures AfterSeparator(s, from) == s[k + 2..]
    decreases |s| - from
  {
    if from < k {
      assert !DoubleColon(s, from);
      AfterSeparatorAt(s, from + 1, k);
    }
  }

  /** Without a double colon it is all of it. */
  lemma {:induction false} AfterNoSeparator(s: string, from: nat)
    requires from <= |s| && forall k: nat | from <= k :: !DoubleColon(s, k)
    ensures AfterSeparator(s, from) == s
    decreases |s| - from
  {
    if from + 2 <= |s| {
      assert !DoubleColon(s, from);
      AfterNoSeparator(s, from + 1);
    }
  }

  /** Where no values are asked for, vendors, models, speeds, roles and statuses have their own. */
  lemma DriftTableIs(params: Params, f: Field)
    ensures DriftTable(params, f) ==
            if params.drift != [] then params.drift
            else match f
                 case Vendor => [Text("Cisco"), Text("Juniper"), Text("Nokia"), Text("Huawei"), Text("Arista")]
                 case Model => [Text("MX480"), Text("ASR9K"), Text("7750-SR"), Text("NE40E"), Text("7280R")]
                 case Speed => [Text("10G"), Text("1G"), Text("100M")]
                 case Role => [Text("PE"), Text("P"), Text("CE"), Text("RR")]
                 case Status => [Text("UP"), Text("DOWN"), Text("ADMIN_DOWN")]
                 case _ => []
  {
  }

  // ---------------------------------------------------------------- rows that go

  /** The row at i has gone and the others keep their order. */
  ghost predicate PoppedAt(before: seq<Row>, after: seq<Row>, i: nat) {
    && i < |before| && |after| == |before| - 1
    && (forall k | 0 <= k < i :: after[k] == before[k])
    && (forall k | i <= k < |after| :: after[k] == before[k + 1])
  }

  /** The row at i is the first with that id. */
  ghost predicate FirstWithId(rows: seq<Row>, id: string, i: nat) {
    i < |rows| && Cell(rows[i], Id) == Text(id) && forall k | 0 <= k < i :: Cell(rows[k], Id) != Text(id)
  }

  function Lacks(rows: seq<Row>, f: Field, v: Val): nat -> bool {
    (i: nat) => i < |rows| && Cell(rows[i], f) != v
  }

  /** The rows without that value stay, in order, and the others have gone. */
  ghost predicate Without(before: seq<Row>, after: seq<Row>, f: Field, v: Val) {
    exists at :: Selects(before, 0, after, Lacks(before, f, v), at)
  }

  lemma StrippedStep(rows: seq<Row>, f: Field, v: Val)
    requires rows != []
    ensures Stripped(rows, f, v) == if Cell(rows[0], f) == v then Stripped(rows[1..], f, v) else [rows[0]] + Stripped(rows[1..], f, v)
  {
  }

  lemma {:induction false} StrippedFrom(rows: seq<Row>, from: nat, f: Field, v: Val) returns (at: seq<nat>)
    requires from <= |rows|
    ensures Selects(rows, from, Stripped(rows[from..], f, v), Lacks(rows, f, v), at)
    decreases |rows| - from
  {
    if from == |rows| {
      at := [];
    } else {
      var good, rest := Lacks(rows, f, v), Stripped(rows[from + 1..], f, v);
      at := StrippedFrom(rows, from + 1, f, v);
      StrippedStep(rows[from..], f, v);
      assert rows[from..][0] == rows[from] && rows[from..][1..] == rows[from + 1..];
      if good(from) {
        SelectsOneMore(rows, from, rest, good, at, Stripped(rows[from..], f, v), [from] + at);
        at := [from] + at;
      } else {
        SelectsNoMore(rows, from, rest, good, at);
      }
    }
  }

  lemma StrippedIs(rows: seq<Row>, f: Field, v: Val)
    ensures Without(rows, Stripped(rows, f, v), f, v)
  {
    assert rows[0..] == rows;
    var at := StrippedFrom(rows, 0, f, v);
  }

  /** Every device on the interface loses it; nothing else about devices changes. */
  ghost predicate UnpluggedFrom(before: seq<Row>, after: seq<Row>, id: string) {
    |after| == |before| &&
    forall k, f | 0 <= k < |before| ::
      Cell(after[k], f) == if f == InterfaceId && Cell(before[k], f) == Text(id) then Null else Cell(before[k], f)
  }

  /** A recorded missing interface goes together with its link ends and its subnet memberships, and
      devices on it are unplugged; every other table stays. */
  lemma MissingInterfaceIs(p: Projection, id: string, at: nat)
    requires Recorded(ApplyMissingNode(p, EntityRef(PhysicalInterface, id), at))
    ensures var q := ApplyMissingNode(p, EntityRef(PhysicalInterface, id), at).after;
            && (exists i: nat :: FirstWithId(Rows(p, PhysicalInterface), id, i) && PoppedAt(Rows(p, PhysicalInterface), Rows(q, PhysicalInterface), i))
            && Without(Rows(p, InterfaceLink), Rows(q, InterfaceLink), InterfaceId, Text(id))
            && Without(Rows(p, SubnetAssociation), Rows(q, SubnetAssociation), EntityId, Text(id))
            && UnpluggedFrom(Rows(p, Device), Rows(q, Device), id)
            && forall t | t !in {PhysicalInterface, InterfaceLink, SubnetAssociation, Device} :: Rows(q, t) == Rows(p, t)
  {
    PoppedFirst(Rows(p, PhysicalInterface), id);
    StrippedIs(Rows(p, InterfaceLink), InterfaceId, Text(id));
    StrippedIs(Rows(p, SubnetAssociation), EntityId, Text(id));
    UnpluggedIs(Rows(p, Device), id);
    PartsDropped(RemoveFirst(p, PhysicalInterface, ById(Text(id))), id);
  }

  lemma UnpluggedIs(devices: seq<Row>, id: string)
    ensures UnpluggedFrom(devices, Unplugged(devices, Text(id)), id)
  {
  }

  lemma PartsDropped(p: Projection, id: string)
    ensures var q := DropInterfaceParts(p, id);
            && Rows(q, InterfaceLink) == Stripped(Rows(p, InterfaceLink), InterfaceId, Text(id))
            && Rows(q, SubnetAssociation) == Stripped(Rows(p, SubnetAssociation), EntityId, Text(id))
            && Rows(q, Device) == Unplugged(Rows(p, Device), Text(id))
            && forall t | t !in {InterfaceLink, SubnetAssociation, Device} :: Rows(q, t) == Rows(p, t)
  {
  }

  /** A recorded missing link goes together with its ends. */
  lemma MissingLinkIs(p: Projection, id: string, at: nat)
    requires Recorded(ApplyMissingNode(p, EntityRef(PhysicalLink, id), at))
    ensures var q := ApplyMissingNode(p, EntityRef(PhysicalLink, id), at).after;
            && (exists i: nat :: FirstWithId(Rows(p, PhysicalLink), id, i) && PoppedAt(Rows(p, PhysicalLink), Rows(q, PhysicalLink), i))
            && Without(Rows(p, InterfaceLink), Rows(q, InterfaceLink), LinkId, Text(id))
            && forall t | t !in {PhysicalLink, InterfaceLink} :: Rows(q, t) == Rows(p, t)
  {
    PoppedFirst(Rows(p, PhysicalLink), id);
    StrippedIs(Rows(p, InterfaceLink), LinkId, Text(id));
  }

  /** Any other missing node goes alone, routers apart. */
  lemma MissingOtherIs(p: Projection, e: EntityRef, at: nat)
    requires Recorded(ApplyMissingNode(p, e, at)) && e.table !in {PhysicalRouter, PhysicalInterface, PhysicalLink}
    ensures var q := ApplyMissingNode(p, e, at).after;
            && (exists i: nat :: FirstWithId(Rows(p, e.table), e.id, i) && PoppedAt(Rows(p, e.table), Rows(q, e.table), i))
            && forall t | t != e.table :: Rows(q, t) == Rows(p, t)
  {
    PoppedFirst(Rows(p, e.table), e.id);
  }

  lemma PoppedFirst(rows: seq<Row>, id: string)
    ensures match First(rows, ById(Text(id)))
            case None => true
            case Some(i) => FirstWithId(rows, id, i) && PoppedAt(rows, Dropped(rows, i), i)
  {
    var found := First(rows, ById(Text(id)));
    if found.Some? {
      DroppedIs(rows, found.value);
      assert forall k | 0 <= k < found.value :: !Matches(rows[k], ById(Text(id)));
    }
  }

  lemma DroppedIs(rows: seq<Row>, i: nat)
    requires i < |rows|
    ensures PoppedAt(rows, Dropped(rows, i), i)
  {
    forall k | 0 <= k < |rows| - 1 ensures Dropped(rows, i)[k] == rows[if k < i then k else k + 1] {
      DroppedAt(rows, i, k);
    }
  }

  /** The row is the edge of that natural key: two ends with a double colon between them. */
  ghost predicate EdgeOf(t: Table, r: Row, id: string) {
    || (t == InterfaceLink && id == Show(Cell(r, InterfaceId)) + "::" + Show(Cell(r, LinkId)))
    || (t == SubnetAssociation && id == Show(Cell(r, EntityId)) + "::" + Show(Cell(r, SubnetId)))
  }

  ghost predicate FirstEdgeOf(t: Table, rows: seq<Row>, id: string, i: nat) {
    i < |rows| && EdgeOf(t, rows[i], id) && forall k | 0 <= k < i :: !EdgeOf(t, rows[k], id)
  }

  lemma FirstEdgeIs(t: Table, rows: seq<Row>, id: string)
    requires First(rows, ByEdge(t, id)).Some?
    ensures FirstEdgeOf(t, rows, id, First(rows, ByEdge(t, id)).value)
  {
    var i := First(rows, ByEdge(t, id)).value;
    forall k | 0 <= k < i ensures !EdgeOf(t, rows[k], id) {
      assert !Matches(rows[k], ByEdge(t, id));
    }
  }

  /** A recorded missing edge is the first row of that natural key, and goes alone. */
  lemma MissingEdgeIs(p: Projection, e: EntityRef, at: nat)
    requires Recorded(ApplyMissingEdge(p, e, at))
    ensures var q := ApplyMissingEdge(p, e, at).after;
            && (exists i: nat :: FirstEdgeOf(e.table, Rows(p, e.table), e.id, i) && PoppedAt(Rows(p, e.table), Rows(q, e.table), i))
            && forall t | t != e.table :: Rows(q, t) == Rows(p, t)
  {
    FirstEdgeIs(e.table, Rows(p, e.table), e.id);
    DroppedIs(Rows(p, e.table), First(Rows(p, e.table), ByEdge(e.table, e.id)).value);
  }

  /** A recorded endpoint shift moves the first link end of that natural key to an interface that
      exists and was not on the link. */
  lemma EndpointShiftIs(p: Projection, e: EntityRef, tape: Tape, at: nat)
    requires Recorded(ApplyEndpointShift(p, e, tape, at))
    ensures var q := ApplyEndpointShift(p, e, tape, at).after;
            exists i: nat :: FirstEdgeOf(InterfaceLink, Rows(p, InterfaceLink), e.id, i) && MovedOffLink(p, q, i)
  {
    FirstEdgeIs(InterfaceLink, Rows(p, InterfaceLink), e.id);
    var i := First(Rows(p, InterfaceLink), ByEdge(InterfaceLink, e.id)).value;
    ShiftMoves(p, i, SetAttribute, tape, at);
  }

  ghost predicate MovedOffLink(p: Projection, q: Projection, i: nat) {
    exists r :: r in Rows(p, PhysicalInterface) && OnlyFieldChanged(p, q, InterfaceLink, i, InterfaceId, Cell(r, Id))
                && forall k | 0 <= k < |Rows(p, InterfaceLink)| && Cell(Rows(p, InterfaceLink)[k], LinkId) == Cell(Rows(p, InterfaceLink)[i], LinkId) ::
                     Cell(Rows(p, InterfaceLink)[k], InterfaceId) != Cell(r, Id)
  }

  lemma ShiftMoves(p: Projection, i: nat, kind: Kind, tape: Tape, at: nat)
    requires i < |Rows(p, InterfaceLink)| && !kind.Noop? && Recorded(ShiftEndpoint(p, i, kind, tape, at))
    ensures MovedOffLink(p, ShiftEndpoint(p, i, kind, tape, at).after, i)
  {
    ShiftIsReal(p, i, kind, tape, at);
    var id := Cell(Rows(ShiftEndpoint(p, i, kind, tape, at).after, InterfaceLink)[i], InterfaceId);
    var r :| r in Rows(p, PhysicalInterface) && Cell(r, Id) == id;
  }

  /** A recorded structural conflict moves one end of the link in the telemetry, and only there. */
  lemma StructuralConflictIs(w: World, e: EntityRef, tape: Tape, at: nat)
    requires Recorded(ApplyStructuralConflict(w, e, tape, at))
    ensures var after := ApplyStructuralConflict(w, e, tape, at).after;
            after.catalog == w.catalog &&
            exists i: nat :: i < |Rows(w.telemetry, InterfaceLink)| && Cell(Rows(w.telemetry, InterfaceLink)[i], LinkId) == Text(e.id)
                             && MovedOffLink(w.telemetry, after.telemetry, i)
  {
    var i := Choice(tape, at, Endpoints(Rows(w.telemetry, InterfaceLink), Text(e.id), 0));
    ShiftMoves(w.telemetry, i, EndpointShiftTelemetry, tape, at + 1);
  }

  // ---------------------------------------------------------------- cells that change

  /** The entity's row, the first with its id, has that value in the field; all else is as it was. */
  ghost predicate Writes(p: Projection, q: Projection, e: EntityRef, f: Field, v: Val) {
    exists i: nat :: FirstWithId(Rows(p, e.table), e.id, i) && OnlyFieldChanged(p, q, e.table, i, f, v)
  }

  lemma EditedWrites(p: Projection, e: EntityRef, f: Field, v: Val, kind: Kind, next: nat)
    requires Find(p, e).Some?
    ensures Writes(p, Edited(p, e, Find(p, e).value, f, v, kind, next).after, e, f, v)
  {
    var i := Find(p, e).value;
    PoppedFirst(Rows(p, e.table), e.id);
    EditedChanges(p, e, i, f, v, kind, next);
  }

  /** s is id with underscores for its colons. */
  ghost predicate MalformedFrom(id: string, s: string) {
    |s| == |id| && forall k | 0 <= k < |s| :: s[k] == if id[k] == ':' then '_' else id[k]
  }

  /** A recorded malformed id has underscores for its colons. */
  lemma MalformedIdIs(p: Projection, e: EntityRef, at: nat)
    requires Recorded(ApplyMalformedId(p, e, at))
    ensures exists s :: Writes(p, ApplyMalformedId(p, e, at).after, e, Id, Text(s)) && MalformedFrom(e.id, s)
  {
    EditedWrites(p, e, Id, Text(Underscored(e.id)), RenameId, at);
  }

  /** A recorded orphan points to a ghost router, or to an interface of one, with a number of four digits. */
  lemma OrphanEntityIs(p: Projection, e: EntityRef, tape: Tape, at: nat)
    requires Recorded(ApplyOrphanEntity(p, e, tape, at))
    ensures var q := ApplyOrphanEntity(p, e, tape, at).after;
            exists n: nat :: 1000 <= n <= 9999 &&
              if e.table.PhysicalInterface? then Writes(p, q, e, RouterId, Text("router:GHOST-" + Digits(n)))
              else e.table.Device? && Writes(p, q, e, InterfaceId, Text("router:GHOST-" + Digits(n) + ":interface:eth0"))
  {
    var n := RandInt(tape, at, 1000, 9999);
    var nowhere := "router:GHOST-" + Digits(n);
    var f, v := if e.table.PhysicalInterface? then RouterId else InterfaceId, if e.table.PhysicalInterface? then nowhere else nowhere + ":interface:eth0";
    EditedWrites(p, e, f, Text(v), SetAttribute, at + 1);
  }

  /** A recorded out-of-range value is 99999G for a speed, 99999 for a VLAN, and for any other
      attribute what the parameters give. */
  lemma OutOfRangeIs(p: Projection, e: EntityRef, at: nat, params: Params)
    requires Recorded(ApplyOutOfRange(p, e, at, params))
    ensures var q := ApplyOutOfRange(p, e, at, params).after;
            var f := params.attribute.GetOr(if e.table.PhysicalInterface? then Speed else Vlan);
            Writes(p, q, e, f, if f == Speed then Text("99999G") else if f == Vlan then Number(99999) else params.value.GetOr(Text("OUT_OF_RANGE")))
  {
    var f := params.attribute.GetOr(if e.table.PhysicalInterface? then Speed else Vlan);
    var v := if f == Speed then Text("99999G") else if f == Vlan then Number(99999) else params.value.GetOr(Text("OUT_OF_RANGE"));
    EditedWrites(p, e, f, v, SetAttribute, at);
  }

  /** A recorded invalid enum value is what the parameters give, or a word that no enum has. */
  lemma InvalidEnumIs(p: Projection, e: EntityRef, at: nat, params: Params)
    requires Recorded(ApplyInvalidEnum(p, e, at, params))
    ensures var q := ApplyInvalidEnum(p, e, at, params).after;
            var f := params.attribute.GetOr(if e.table.PhysicalRouter? then Role else Status);
            Writes(p, q, e, f, params.value.GetOr(Text(if f == Role then "FOO" else if f == Status then "BANANA" else "INVALID")))
  {
    var f := params.attribute.GetOr(if e.table.PhysicalRouter? then Role else Status);
    var v := params.value.GetOr(Text(if f == Role then "FOO" else if f == Status then "BANANA" else "INVALID"));
    EditedWrites(p, e, f, v, SetAttribute, at);
  }

  // ---------------------------------------------------------------- rows that come

  /** One row was added at the end of a table, and nothing else happened. */
  ghost predicate Appended(p: Projection, q: Projection, t: Table, row: Row) {
    && |Rows(q, t)| == |Rows(p, t)| + 1 && Rows(q, t)[|Rows(p, t)|] == row
    && (forall k | 0 <= k < |Rows(p, t)| :: Rows(q, t)[k] == Rows(p, t)[k])
    && forall u | u != t :: Rows(q, u) == Rows(p, u)
  }

  lemma AppendIs(p: Projection, t: Table, row: Row)
    ensures Appended(p, Append(p, t, row), t, row)
  {
  }

  /** The clone has another name, the id made from it, and all other cells of the original. */
  ghost predicate Clones(r: Row, clone: Row, t: Table, display: string -> string) {
    Cell(clone, Name).Text? &&
    var was, name := if Cell(r, Name) == Null then "" else Show(Cell(r, Name)), Cell(clone, Name).s;
    && name != was && (name == display(was) || (display(was) == was && name == was + "-DUP"))
    && Cell(clone, Id) == Text((if t == PhysicalRouter then "router:" else "device:") + name)
    && forall f | f != Id && f != Name :: Cell(clone, f) == Cell(r, f)
  }

  lemma CloneOfClones(e: EntityRef, r: Row, display: string -> string)
    ensures Clones(r, CloneOf(e, r, display), e.table, display)
  {
    var was := if Cell(r, Name) == Null then "" else Show(Cell(r, Name));
    var name := if display(was) == was then was + "-DUP" else display(was);
    assert name != was by {
      assert |was + "-DUP"| == |was| + 4;
    }
  }

  /** A recorded split identity appends such a clone of the entity's row to the catalog. */
  lemma SplitIdentityIs(p: Projection, e: EntityRef, env: Env, at: nat)
    requires Recorded(ApplySplitIdentity(p, true, e, env, at))
    ensures var q := ApplySplitIdentity(p, true, e, env, at).after;
            e.table in {PhysicalRouter, Device} &&
            exists i: nat, clone :: FirstWithId(Rows(p, e.table), e.id, i) && Clones(Rows(p, e.table)[i], clone, e.table, env.display)
                                    && Appended(p, q, e.table, clone)
  {
    var i := Find(p, e).value;
    PoppedFirst(Rows(p, e.table), e.id);
    CloneOfClones(e, Rows(p, e.table)[i], env.display);
    AppendIs(p, e.table, CloneOf(e, Rows(p, e.table)[i], env.display));
  }

  /** A made-up router or device: its id and name carry the tag, and it looks in order. */
  ghost predicate MadeUp(t: Table, row: Row, tag: string) {
    && Cell(row, Name) == Text("phantom-" + tag)
    && (t == PhysicalRouter ==>
          && Cell(row, Id) == Text("router:phantom-" + tag) && Cell(row, Vendor) == Text("VyOS") && Cell(row, Model) == Text("Virtual")
          && Cell(row, Role) == Text("PE") && Cell(row, Status) == Text("Running"))
    && (t == Device ==>
          Cell(row, Id) == Text("device:phantom-" + tag) && Cell(row, Status) == Text("Ready"))
    && forall f | f !in {Id, Name, Status} && (t == PhysicalRouter ==> f !in {Vendor, Model, Role}) :: Cell(row, f) == Null
  }

  lemma FabricatedIsMadeUp(t: Table, tag: string)
    requires t in {PhysicalRouter, Device}
    ensures MadeUp(t, Fabricated(t, tag), tag)
  {
  }

  /** A recorded phantom appends a made-up row to the catalog alone, a recorded shadow to the
      telemetry alone; the tag is C or T and a number of five digits. */
  lemma FabricateIs(w: World, e: EntityRef, tape: Tape, at: nat, params: Params, phantom: bool)
    requires var c := if phantom then PhantomEntity else ShadowEntity; Recorded(ApplyCross(c, w, e, tape, at, params))
    ensures var after := ApplyCross(if phantom then PhantomEntity else ShadowEntity, w, e, tape, at, params).after;
            e.table in {PhysicalRouter, Device} &&
            exists n: nat, row ::
              && 10000 <= n <= 99999 && MadeUp(e.table, row, (if phantom then "C" else "T") + Digits(n))
              && (if phantom then Appended(w.catalog, after.catalog, e.table, row) && after.telemetry == w.telemetry
                  else Appended(w.telemetry, after.telemetry, e.table, row) && after.catalog == w.catalog)
  {
    var n := RandInt(tape, at, 10000, 99999);
    var tag := (if phantom then "C" else "T") + Digits(n);
    FabricatedIsMadeUp(e.table, tag);
    AppendIs(if phantom then w.catalog else w.telemetry, e.table, Fabricated(e.table, tag));
    assert MadeUp(e.table, Fabricated(e.table, tag), (if phantom then "C" else "T") + Digits(n));
  }
}
