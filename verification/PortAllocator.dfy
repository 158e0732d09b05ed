/** The port allocator over a shared byte array, leases of its clients, and the startup sync. */
module PortAllocation {
  import opened Common

  const OFFSET := 5200
  const MAX := 10000

  type Ports = s: seq<bool> | |s| == MAX witness seq(MAX, _ => false)

  // ---------------------------------------------------------------- what the operations mean

  /** Every index of the block is valid and not busy. */
  predicate RangeFree(busy: Ports, start: int, count: nat) {
    0 <= start && start + count <= MAX && forall i | start <= i < start + count :: !busy[i]
  }

  /** The lowest free block that starts at `from` or later. */
  function FindFrom(busy: Ports, count: nat, from: nat): (start: Option<nat>)
    ensures start.Some? ==> from <= start.value && RangeFree(busy, start.value, count)
                            && forall k | from <= k < start.value :: !RangeFree(busy, k, count)
    ensures start.None? ==> forall k | from <= k :: !RangeFree(busy, k, count)
    decreases MAX - from
  {
    if from + count > MAX then None
    else if RangeFree(busy, from, count) then Some(from)
    else if from < MAX then FindFrom(busy, count, from + 1)
    else None
  }

  function Block(start: int, count: nat): (ports: seq<int>)
    ensures |ports| == count
  {
    seq(count, i requires 0 <= i < count => OFFSET + start + i)
  }

  function Set(busy: Ports, ports: seq<int>, value: bool): (after: Ports)
  {
    seq(MAX, i requires 0 <= i < MAX => if OFFSET + i in ports then value else busy[i])
  }

  /** A base port of 0 counts as absent. */
  function Start(busy: Ports, count: nat, base: Option<int>): Option<int> {
    if base.Some? && base.value != 0 then
      if RangeFree(busy, base.value - OFFSET, count) then Some(base.value - OFFSET) else None
    else
      match FindFrom(busy, count, 0)
      case Some(start) => Some(start)
      case None => None
  }

  /** alloc: the ports handed out, or None. */
  function Granted(busy: Ports, count: int, base: Option<int>): Option<seq<int>> {
    if count <= 0 then Some([])
    else if count > MAX then None
    else
      match Start(busy, count, base)
      case None => None
      case Some(start) => Some(Block(start, count))
  }

  predicate Busy(busy: Ports, port: int) {
    0 <= port - OFFSET < MAX && busy[port - OFFSET]
  }

  /** What alloc hands out was free, is contiguous, and without a base port is the lowest such
      block; it hands out nothing only when there is no such block. */
  lemma GrantIsLowestFreeBlock(busy: Ports, count: int, base: Option<int>)
    requires 0 < count
    ensures var g := Granted(busy, count, base);
            && (g.Some? ==> |g.value| == count && RangeFree(busy, g.value[0] - OFFSET, count)
                            && forall i | 0 <= i < count :: g.value[i] == g.value[0] + i)
            && (base in {None, Some(0)} && g.Some? ==> forall k | 0 <= k < g.value[0] - OFFSET :: !RangeFree(busy, k, count))
            && (base in {None, Some(0)} && g.None? ==> forall k :: !RangeFree(busy, k, count))
            && (base !in {None, Some(0)} ==> (g.Some? <==> RangeFree(busy, base.value - OFFSET, count)) && (g.Some? ==> g.value[0] == base.value))
  {
  }

  // ---------------------------------------------------------------- the allocator

  class PortAllocator {
    const bits: array<bool>

    ghost predicate Valid()
      reads this
    {
      bits.Length == MAX
    }

    ghost function Contents(): Ports
      reads this, bits
      requires Valid()
    {
      bits[..]
    }

    constructor ()
      ensures Valid() && fresh(bits) && forall p :: !Busy(Contents(), p)
    {
      bits := new bool[MAX](_ => false);
    }

    method IsRangeFree(start: int, count: int) returns (free: bool)
      requires Valid() && count > 0
      ensures free <==> RangeFree(Contents(), start, count)
    {
      if !(0 <= start < MAX) || !(0 <= start + count - 1 < MAX) {
        return false;
      }
      for i := start to start + count
        invariant forall k | start <= k < i :: !bits[k]
      {
        if bits[i] {
          return false;
        }
      }
      return true;
    }

    method FindFreeRange(count: int) returns (start: Option<nat>)
      requires Valid() && 0 < count <= MAX
      ensures start == FindFrom(Contents(), count, 0)
    {
      for i := 0 to MAX - count + 1
        invariant FindFrom(Contents(), count, 0) == FindFrom(Contents(), count, i)
      {
        var free := IsRangeFree(i, count);
        if free {
          return Some(i);
        }
      }
      return None;
    }

    method ReserveRange(start: int, count: int) returns (ports: seq<int>)
      requires Valid() && 0 <= start && 0 < count && start + count <= MAX
      modifies bits
      ensures ports == Block(start, count)
      ensures Contents() == Set(old(Contents()), ports, true)
    {
      ports := [];
      for i := start to start + count
        invariant ports == Block(start, i - start)
        invariant forall k | 0 <= k < MAX :: bits[k] == (start <= k < i || old(bits[k]))
      {
        bits[i] := true;
        ports := ports + [OFFSET + i];
      }
      BlockHolds(start, count);
    }

    method Alloc(count: int, base: Option<int>) returns (ports: Option<seq<int>>)
      requires Valid()
      modifies bits
      ensures ports == Granted(old(Contents()), count, base)
      ensures Contents() == if ports.Some? then Set(old(Contents()), ports.value, true) else old(Contents())
    {
      if count <= 0 {
        return Some([]);
      }
      if count > MAX {
        return None;
      }
      var start: Option<int>;
      if base.Some? && base.value != 0 {
        var free := IsRangeFree(base.value - OFFSET, count);
        start := if free then Some(base.value - OFFSET) else None;
      } else {
        var found := FindFreeRange(count);
        start := if found.Some? then Some(found.value) else None;
      }
      if start.None? {
        return None;
      }
      var block := ReserveRange(start.value, count);
      return Some(block);
    }

    method MarkBusy(ports: seq<int>)
      requires Valid()
      modifies bits
      ensures Contents() == Set(old(Contents()), ports, true)
    {
      SetAll(ports, true);
    }

    method Free(ports: seq<int>)
      requires Valid()
      modifies bits
      ensures Contents() == Set(old(Contents()), ports, false)
    {
      SetAll(ports, false);
    }

    /** Ports out of range are skipped. */
    method SetAll(ports: seq<int>, value: bool)
      requires Valid()
      modifies bits
      ensures Contents() == Set(old(Contents()), ports, value)
    {
      for p := 0 to |ports|
        invariant forall k | 0 <= k < MAX :: bits[k] == if OFFSET + k in ports[..p] then value else old(bits[k])
      {
        assert ports[..p + 1] == ports[..p] + [ports[p]];
        if 0 <= ports[p] - OFFSET < MAX {
          bits[ports[p] - OFFSET] := value;
        }
      }
      assert ports[..|ports|] == ports;
    }
  }

  lemma BlockHolds(start: int, count: nat)
    ensures forall p :: p in Block(start, count) <==> OFFSET + start <= p < OFFSET + start + count
  {
    forall p | OFFSET + start <= p < OFFSET + start + count ensures p in Block(start, count) {
      assert Block(start, count)[p - OFFSET - start] == p;
    }
  }

  // ---------------------------------------------------------------- leases

  /** What each client holds. */
  datatype State = State(busy: Ports, leases: map<nat, set<int>>)

  datatype Event = Alloc(client: nat, count: int, base: Option<int>) | Free(client: nat, ports: seq<int>)

  /** Clients come with a fresh number, and free only what they hold. */
  predicate Honest(s: State, e: Event) {
    match e
    case Alloc(c, _, _) => c !in s.leases
    case Free(c, ports) => c in s.leases && forall p | p in ports :: p in s.leases[c]
  }

  function SetOf(ports: seq<int>): set<int> {
    set p | p in ports
  }

  function Step(s: State, e: Event): State {
    match e
    case Alloc(c, count, base) =>
      (match Granted(s.busy, count, base)
       case None => s
       case Some(ports) => State(Set(s.busy, ports, true), s.leases[c := SetOf(ports)]))
    case Free(c, ports) =>
      State(Set(s.busy, ports, false), if c in s.leases then s.leases[c := s.leases[c] - SetOf(ports)] else s.leases)
  }

  function RunOf(events: seq<Event>): State {
    if events == [] then State(seq(MAX, _ => false), map[]) else Step(RunOf(events[..|events| - 1]), events[|events| - 1])
  }

  predicate HonestRun(events: seq<Event>) {
    events == [] || (HonestRun(events[..|events| - 1]) && Honest(RunOf(events[..|events| - 1]), events[|events| - 1]))
  }

  /** No port in two leases, and the busy ports are exactly the leased ones. */
  ghost predicate Conserved(s: State) {
    && (forall c, d | c in s.leases && d in s.leases && c != d :: s.leases[c] !! s.leases[d])
    && (forall p :: Busy(s.busy, p) <==> exists c :: c in s.leases && p in s.leases[c])
  }

  lemma SetAt(busy: Ports, ports: seq<int>, value: bool, p: int)
    ensures Busy(Set(busy, ports, value), p) <==>
            0 <= p - OFFSET < MAX && (if p in ports then value else Busy(busy, p))
  {
  }

  lemma AllocConserves(s: State, c: nat, count: int, base: Option<int>)
    requires Conserved(s) && c !in s.leases
    ensures Conserved(Step(s, Alloc(c, count, base)))
  {
    var g := Granted(s.busy, count, base);
    if g.Some? {
      var ports, t := g.value, Step(s, Alloc(c, count, base));
      forall p | p in ports ensures 0 <= p - OFFSET < MAX && !Busy(s.busy, p) {
        GrantedWasFree(s.busy, count, base, p);
      }
      forall p ensures Busy(t.busy, p) <==> exists d :: d in t.leases && p in t.leases[d] {
        SetAt(s.busy, ports, true, p);
        if p in ports {
          assert c in t.leases && p in t.leases[c];
        } else if Busy(s.busy, p) {
          var d :| d in s.leases && p in s.leases[d];
          assert d in t.leases && p in t.leases[d];
        }
      }
      forall d | d in s.leases ensures s.leases[d] !! t.leases[c] {
        forall p | p in s.leases[d] ensures p !in t.leases[c] {
          assert Busy(s.busy, p);
        }
      }
    }
  }

  lemma GrantedWasFree(busy: Ports, count: int, base: Option<int>, p: int)
    requires Granted(busy, count, base).Some? && p in Granted(busy, count, base).value
    ensures 0 <= p - OFFSET < MAX && !Busy(busy, p)
  {
    var start := Start(busy, count, base).value;
    BlockHolds(start, count);
  }

  lemma FreeConserves(s: State, c: nat, ports: seq<int>)
    requires Conserved(s) && Honest(s, Free(c, ports))
    ensures Conserved(Step(s, Free(c, ports)))
  {
    var t := Step(s, Free(c, ports));
    forall p ensures Busy(t.busy, p) <==> exists d :: d in t.leases && p in t.leases[d] {
      SetAt(s.busy, ports, false, p);
      if p in ports {
        forall d | d in t.leases ensures p !in t.leases[d] {
          assert p in s.leases[c];
        }
      } else if Busy(s.busy, p) {
        var d :| d in s.leases && p in s.leases[d];
        assert d in t.leases && p in t.leases[d];
      } else {
        forall d | d in t.leases ensures p !in t.leases[d] {
          assert d in s.leases;
        }
      }
    }
  }

  /** Over every run of honest clients, leases are disjoint and the busy bits are their union. */
  lemma {:induction false} LeasesConserved(events: seq<Event>)
    requires HonestRun(events)
    ensures Conserved(RunOf(events))
  {
    if events != [] {
      var s, e := RunOf(events[..|events| - 1]), events[|events| - 1];
      LeasesConserved(events[..|events| - 1]);
      match e {
        case Alloc(c, count, base) => AllocConserves(s, c, count, base);
        case Free(c, ports) => FreeConserves(s, c, ports);
      }
    }
  }

  // ---------------------------------------------------------------- the startup sync

  /** A traffic test as the API server lists it at startup. */
  datatype Test = Test(ports: seq<int>, hasPhase: bool, elapsed: bool) {
    /** No phase recorded, ports allocated, and the duration is over: marked Completed, ports freed. */
    predicate Reconciled() {
      !hasPhase && ports != [] && elapsed
    }
  }

  function SyncOne(busy: Ports, t: Test): Ports {
    var marked := if t.ports != [] then Set(busy, t.ports, true) else busy;
    if t.Reconciled() then Set(marked, t.ports, false) else marked
  }

  function Synced(busy: Ports, tests: seq<Test>): Ports
    decreases |tests|
  {
    if tests == [] then busy else Synced(SyncOne(busy, tests[0]), tests[1..])
  }

  /** The last test that lists the port. */
  function LastWith(tests: seq<Test>, p: int): Option<Test> {
    if tests == [] then None
    else if LastWith(tests[1..], p).Some? then LastWith(tests[1..], p)
    else if p in tests[0].ports then Some(tests[0])
    else None
  }

  /** Test k is the last that lists the port. */
  ghost predicate LastLists(tests: seq<Test>, p: int, k: nat) {
    k < |tests| && p in tests[k].ports && forall l | k < l < |tests| :: p !in tests[l].ports
  }

  lemma {:induction false} LastWithAt(tests: seq<Test>, p: int, k: nat)
    requires LastLists(tests, p, k)
    ensures LastWith(tests, p) == Some(tests[k])
  {
    if k > 0 {
      assert tests[1..][k - 1] == tests[k];
      LastWithAt(tests[1..], p, k - 1);
    } else {
      LastIsOnly(tests[1..], p);
    }
  }

  /** After the sync a port that some test lists is busy if and only if the last of them has a phase
      or is not over yet; one that no test lists is as it was. */
  lemma SyncedAs(busy: Ports, tests: seq<Test>, p: int)
    requires 0 <= p - OFFSET < MAX
    ensures forall k: nat | LastLists(tests, p, k) :: Busy(Synced(busy, tests), p) <==> tests[k].hasPhase || !tests[k].elapsed
    ensures (forall i | 0 <= i < |tests| :: p !in tests[i].ports) ==> (Busy(Synced(busy, tests), p) <==> Busy(busy, p))
  {
    SyncedIff(busy, tests, p);
    LastIsOnly(tests, p);
    forall k: nat | LastLists(tests, p, k) ensures LastWith(tests, p) == Some(tests[k]) && tests[k].ports != [] {
      LastWithAt(tests, p, k);
    }
  }

  /** After the sync a port is busy if and only if the last test that lists it is not one that is
      reconciled as Completed (or nobody lists it and it was busy before). */
  lemma {:induction false} SyncedIff(busy: Ports, tests: seq<Test>, p: int)
    requires 0 <= p - OFFSET < MAX
    ensures Busy(Synced(busy, tests), p) <==>
            (if LastWith(tests, p).Some? then !LastWith(tests, p).value.Reconciled() else Busy(busy, p))
    decreases |tests|
  {
    if tests != [] {
      var t := tests[0];
      SyncedIff(SyncOne(busy, t), tests[1..], p);
      SetAt(busy, t.ports, true, p);
      SetAt(Set(busy, t.ports, true), t.ports, false, p);
    }
  }

  /** When no port is listed twice, the sync rebuilds the union of the listed ports minus those
      of the tests it reconciles as Completed. */
  lemma SyncRebuildsUnion(tests: seq<Test>, p: int)
    requires 0 <= p - OFFSET < MAX
    requires forall i, j | 0 <= i < j < |tests| :: p !in tests[i].ports || p !in tests[j].ports
    ensures Busy(Synced(seq(MAX, _ => false), tests), p) <==>
            exists i :: 0 <= i < |tests| && p in tests[i].ports && (tests[i].hasPhase || !tests[i].elapsed)
  {
    SyncedIff(seq(MAX, _ => false), tests, p);
    LastIsOnly(tests, p);
  }

  lemma {:induction false} LastIsOnly(tests: seq<Test>, p: int)
    ensures LastWith(tests, p).None? <==> forall i :: 0 <= i < |tests| ==> p !in tests[i].ports
    ensures LastWith(tests, p).Some? ==> exists i :: 0 <= i < |tests| && p in tests[i].ports && tests[i] == LastWith(tests, p).value
  {
    if tests != [] {
      LastIsOnly(tests[1..], p);
      assert forall i :: 0 < i < |tests| ==> tests[i] == tests[1..][i - 1];
      assert forall i :: 0 <= i < |tests| - 1 ==> tests[1..][i] == tests[i + 1];
    }
  }

  /** The operator's startup loop over the listed tests. */
  method Sync(a: PortAllocator, tests: seq<Test>)
    requires a.Valid()
    modifies a.bits
    ensures a.Contents() == Synced(old(a.Contents()), tests)
  {
    var rest := tests;
    while rest != []
      invariant Synced(a.Contents(), rest) == Synced(old(a.Contents()), tests)
    {
      var t := rest[0];
      if t.ports != [] {
        a.MarkBusy(t.ports);
      }
      if !t.hasPhase && t.ports != [] && t.elapsed {
        a.Free(t.ports);
      }
      rest := rest[1..];
    }
  }

  // ---------------------------------------------------------------- tests and the ports in their status

  /** How creating a test ends once it has ports: started, failed (the ports are freed), or put off
      because a device is not ready (they are not). */
  datatype Ending = Started | Failed | NotReady

  /** `freed` when the deletion handler gets as far as freeing the ports in the test's status. */
  datatype TestEvent = Create(test: nat, count: int, base: Option<int>, ending: Ending) | Delete(test: nat, freed: bool)

  /** The allocator with the ports each test uses, and the ports each test's status lists. */
  datatype Tests = Tests(alloc: State, recorded: map<nat, seq<int>>)

  function TestStep(s: Tests, e: TestEvent): Tests {
    match e
    case Create(t, count, base, ending) =>
      (match Granted(s.alloc.busy, count, base)
       case None => s
       case Some(ports) =>
         if t in s.recorded then s
         else
           var busy := Set(s.alloc.busy, ports, true);
           match ending
           case Started => Tests(State(busy, s.alloc.leases[t := SetOf(ports)]), s.recorded[t := ports])
           case Failed => s.(alloc := s.alloc.(busy := Set(busy, ports, false)))
           case NotReady => s.(alloc := s.alloc.(busy := busy)))
    case Delete(t, freed) =>
      if t !in s.recorded then s
      else Tests(State(if freed then Set(s.alloc.busy, s.recorded[t], false) else s.alloc.busy, s.alloc.leases - {t}), s.recorded - {t})
  }

  /** What the startup sync finds and leaves: the tests it reconciles as Completed use no ports any
      more, but their status goes on listing them. */
  function AtStartup(tests: seq<Test>): Tests {
    Tests(State(Synced(seq(MAX, _ => false), tests),
                map i: nat | i < |tests| :: if tests[i].Reconciled() then {} else SetOf(tests[i].ports)),
          map i: nat | i < |tests| :: tests[i].ports)
  }

  function TestsAfter(start: Tests, events: seq<TestEvent>): Tests {
    if events == [] then start else TestStep(TestsAfter(start, events[..|events| - 1]), events[|events| - 1])
  }

  /** A test uses the ports in its status, or none any more. */
  ghost predicate Sound(s: Tests) {
    && s.alloc.leases.Keys == s.recorded.Keys
    && forall t | t in s.recorded :: s.alloc.leases[t] == {} || s.alloc.leases[t] == SetOf(s.recorded[t])
  }

  /** Nobody else uses a port in the test's status. */
  predicate Untaken(s: Tests, t: nat)
    requires t in s.recorded
  {
    forall u, p | u in s.alloc.leases && u != t && p in s.recorded[t] :: p !in s.alloc.leases[u]
  }

  /** A creation that is not put off with ports in hand; a deletion that frees nobody else's ports
      and leaves none of its own behind. */
  predicate Harmless(s: Tests, e: TestEvent) {
    match e
    case Create(t, count, base, ending) =>
      ending.NotReady? && t !in s.recorded ==> Granted(s.alloc.busy, count, base) in {None, Some([])}
    case Delete(t, freed) =>
      t in s.recorded && t in s.alloc.leases ==> if freed then Untaken(s, t) else s.alloc.leases[t] == {}
  }

  lemma StepKeepsSound(s: Tests, e: TestEvent)
    requires Sound(s)
    ensures Sound(TestStep(s, e))
  {
  }

  lemma CreateConservesIff(s: Tests, e: TestEvent)
    requires Conserved(s.alloc) && Sound(s) && e.Create?
    ensures Conserved(TestStep(s, e).alloc) <==> Harmless(s, e)
  {
    var g, next := Granted(s.alloc.busy, e.count, e.base), TestStep(s, e);
    if g.Some? && e.test !in s.recorded {
      forall p | p in g.value ensures 0 <= p - OFFSET < MAX && !Busy(s.alloc.busy, p) {
        GrantedWasFree(s.alloc.busy, e.count, e.base, p);
      }
      match e.ending {
        case Started => AllocConserves(s.alloc, e.test, e.count, e.base);
        case Failed => assert next.alloc.busy == s.alloc.busy;
        case NotReady =>
          if g.value == [] {
            assert next.alloc.busy == s.alloc.busy;
          } else {
            var p := g.value[0];
            SetAt(s.alloc.busy, g.value, true, p);
            assert !exists t :: t in s.alloc.leases && p in s.alloc.leases[t];
          }
      }
    }
  }

  /** After a deletion ports are conserved exactly when it freed the ports the test used. */
  lemma DeletedConserved(s: Tests, t: nat, freed: bool)
    requires Conserved(s.alloc) && Sound(s) && t in s.recorded
    ensures Conserved(TestStep(s, Delete(t, freed)).alloc) <==>
            forall p | Busy(s.alloc.busy, p) :: freed && p in s.recorded[t] <==> p in s.alloc.leases[t]
  {
    var ports, own, next := s.recorded[t], s.alloc.leases[t], TestStep(s, Delete(t, freed)).alloc;
    assert next.leases == s.alloc.leases - {t};
    forall p ensures Busy(next.busy, p) <==> Busy(s.alloc.busy, p) && !(freed && p in ports) {
      SetAt(s.alloc.busy, ports, false, p);
    }
    forall p ensures (exists u :: u in next.leases && p in next.leases[u]) <==> Busy(s.alloc.busy, p) && p !in own {
      if u :| u in s.alloc.leases && p in s.alloc.leases[u] && u != t {
        assert u in next.leases && p in next.leases[u] && p !in own;
      }
    }
  }

  lemma DeleteConservesIff(s: Tests, t: nat, freed: bool)
    requires Conserved(s.alloc) && Sound(s) && t in s.recorded
    ensures Conserved(TestStep(s, Delete(t, freed)).alloc) <==> Harmless(s, Delete(t, freed))
  {
    var ports, own := s.recorded[t], s.alloc.leases[t];
    DeletedConserved(s, t, freed);
    forall p | p in own ensures Busy(s.alloc.busy, p) && p in ports {
    }
    if freed && Untaken(s, t) {
      forall p | Busy(s.alloc.busy, p) && p in ports ensures p in own {
        var u :| u in s.alloc.leases && p in s.alloc.leases[u];
      }
    } else if freed {
      var u, p :| u in s.alloc.leases && u != t && p in ports && p in s.alloc.leases[u];
      assert Busy(s.alloc.busy, p) && p !in own;
    } else if own != {} {
      assert own == SetOf(ports);
      assert ports[0] in own && Busy(s.alloc.busy, ports[0]);
    }
  }

  /** Ports are conserved at the start and after every event. */
  ghost predicate ConservedThroughout(start: Tests, events: seq<TestEvent>) {
    Conserved(TestsAfter(start, events).alloc) && (events == [] || ConservedThroughout(start, events[..|events| - 1]))
  }

  /** Every event is harmless when it happens. */
  predicate HarmlessThroughout(start: Tests, events: seq<TestEvent>) {
    events == [] ||
    var front := events[..|events| - 1];
    HarmlessThroughout(start, front) && Harmless(TestsAfter(start, front), events[|events| - 1])
  }

  /** A run of creations and deletions conserves ports throughout if and only if every event in it
      is harmless when it happens. */
  lemma {:induction false} TestsConservedIff(start: Tests, events: seq<TestEvent>)
    requires Conserved(start.alloc) && Sound(start)
    ensures ConservedThroughout(start, events) <==> HarmlessThroughout(start, events)
    ensures Sound(TestsAfter(start, events))
  {
    if events != [] {
      var front, e := events[..|events| - 1], events[|events| - 1];
      TestsConservedIff(start, front);
      var s := TestsAfter(start, front);
      StepKeepsSound(s, e);
      if Conserved(s.alloc) {
        match e {
          case Create(_, _, _, _) => CreateConservesIff(s, e);
          case Delete(t, freed) => if t in s.recorded { DeleteConservesIff(s, t, freed); }
        }
      }
    }
  }

  /** The tests at startup list allocatable ports, none of them twice. */
  predicate Listed(tests: seq<Test>) {
    && (forall i, p | 0 <= i < |tests| && p in tests[i].ports :: 0 <= p - OFFSET < MAX)
    && (forall i, j, p | 0 <= i < j < |tests| && p in tests[i].ports :: p !in tests[j].ports)
  }

  lemma StartupConserves(tests: seq<Test>)
    requires Listed(tests)
    ensures Conserved(AtStartup(tests).alloc) && Sound(AtStartup(tests))
  {
    var s := AtStartup(tests).alloc;
    forall p ensures Busy(s.busy, p) <==> exists t :: t in s.leases && p in s.leases[t] {
      if 0 <= p - OFFSET < MAX {
        SyncRebuildsUnion(tests, p);
        if i :| 0 <= i < |tests| && p in tests[i].ports && !tests[i].Reconciled() {
          assert i in s.leases && p in s.leases[i];
        }
      }
    }
    forall c, d | c in s.leases && d in s.leases && c != d ensures s.leases[c] !! s.leases[d] {
      forall p | p in s.leases[c] ensures p !in s.leases[d] {
        assert c < d || d < c;
      }
    }
  }

  /** Test t is still as the startup sync found it. */
  ghost predicate FromStartup(tests: seq<Test>, s: Tests, t: nat) {
    t < |tests| && t in s.recorded && s.recorded[t] == tests[t].ports
  }

  /** Some event of the run created test t and granted it these ports. */
  predicate GrantedSince(start: Tests, events: seq<TestEvent>, t: nat, ports: seq<int>) {
    events != [] &&
    var front, e := events[..|events| - 1], events[|events| - 1];
    || GrantedSince(start, front, t, ports)
    || (e.Create? && e.test == t && e.ending.Started? && Granted(TestsAfter(start, front).alloc.busy, e.count, e.base) == Some(ports))
  }

  /** Where the ports a test uses come from. */
  lemma {:induction false} Provenance(tests: seq<Test>, events: seq<TestEvent>, t: nat)
    requires t in TestsAfter(AtStartup(tests), events).recorded
    ensures var s := TestsAfter(AtStartup(tests), events);
            && t in s.alloc.leases
            && (|| (FromStartup(tests, s, t) && s.alloc.leases[t] == if tests[t].Reconciled() then {} else SetOf(tests[t].ports))
                || (GrantedSince(AtStartup(tests), events, t, s.recorded[t]) && s.alloc.leases[t] == SetOf(s.recorded[t])))
  {
    if events != [] && t in TestsAfter(AtStartup(tests), events[..|events| - 1]).recorded {
      Provenance(tests, events[..|events| - 1], t);
    }
  }

  /** How ports come to be taken: only from a test that the startup sync reconciled as Completed,
      and only by a test that was granted them since. */
  lemma TakenOnlyFromReconciled(tests: seq<Test>, events: seq<TestEvent>, t: nat)
    requires Listed(tests) && Conserved(TestsAfter(AtStartup(tests), events).alloc)
    requires t in TestsAfter(AtStartup(tests), events).recorded && !Untaken(TestsAfter(AtStartup(tests), events), t)
    ensures var s := TestsAfter(AtStartup(tests), events);
            && FromStartup(tests, s, t) && tests[t].Reconciled()
            && exists u :: u != t && u in s.recorded && GrantedSince(AtStartup(tests), events, u, s.recorded[u])
                           && SetOf(s.recorded[u]) * SetOf(s.recorded[t]) != {}
  {
    StartupConserves(tests);
    TestsConservedIff(AtStartup(tests), events);
    var s := TestsAfter(AtStartup(tests), events);
    var u, p :| u in s.alloc.leases && u != t && p in s.recorded[t] && p in s.alloc.leases[u];
    Provenance(tests, events, t);
    Provenance(tests, events, u);
    assert s.alloc.leases[t] !! s.alloc.leases[u];
    assert t < u || u < t;
    assert p in SetOf(s.recorded[u]) * SetOf(s.recorded[t]);
  }

  /** The late free: a test is reconciled at startup, another test is granted its port, and then the
      first one is deleted. The second goes on using a port that is free to be handed out again. */
  lemma LateFreeTakesAnothersPorts()
    ensures var s := TestsAfter(AtStartup([Test([OFFSET], false, true)]), [Create(1, 1, None, Started), Delete(0, true)]);
            1 in s.alloc.leases && OFFSET in s.alloc.leases[1] && !Busy(s.alloc.busy, OFFSET) && !Conserved(s.alloc)
  {
    var tests, events := [Test([OFFSET], false, true)], [Create(1, 1, None, Started), Delete(0, true)];
    var start := AtStartup(tests);
    StartupConserves(tests);
    var first := [Create(1, 1, None, Started)];
    assert events[..1] == first && first[..0] == [];
    SyncRebuildsUnion(tests, OFFSET);
    assert !start.alloc.busy[0];
    assert RangeFree(start.alloc.busy, 0, 1);
    assert Block(0, 1) == [OFFSET];
    assert FindFrom(start.alloc.busy, 1, 0) == Some(0);
    assert Granted(start.alloc.busy, 1, None) == Some([OFFSET]);
    assert TestsAfter(start, []) == start;
    var granted := TestsAfter(start, first);
    assert granted == TestStep(start, first[0]);
    assert granted.alloc.leases[1] == SetOf([OFFSET]);
    var s := TestsAfter(start, events);
    SetAt(granted.alloc.busy, [OFFSET], false, OFFSET);
    assert 1 in s.alloc.leases && OFFSET in s.alloc.leases[1];
  }
}
