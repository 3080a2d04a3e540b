/** The guest's namespace of Mach ports: names, reference counts and the names that are handed
    out again for the same object. */
module PortSpace {
  import opened Options
  import opened Words

  type Name = u32

  const NAME_LIMIT: nat := 0x1_0000_0000
  const TASK_SELF: Name := 0x103
  const FIRST_NAME: Name := 0x203
  const STRIDE: nat := 0x100
  const UREFS_MAXIMUM: nat := 0xFFFF

  datatype PortType = Ordinary | Reply | Host | Thread | Bootstrap | Clock | Semaphore | PortSet | Timer

  datatype Port = Port(
    kind: PortType,
    hasReceiveRight: bool,
    sendUrefs: nat,
    sendOnceUrefs: nat,
    context: u64,
    queueLimit: u32,
    guarded: bool,
    guard: u64,
    strictGuard: bool,
    optionFlags: u32,
    members: seq<Name>)

  const BLANK: Port := Port(Ordinary, false, 0, 0, 0, 0, false, 0, false, 0, [])

  datatype Space = Space(
    ports: map<Name, Port>,
    nextSyntheticName: Name,
    hostSelf: Option<Name>,
    threadSelf: Option<Name>,
    bootstrap: Option<Name>,
    clocks: map<u32, Name>)

  const INITIAL: Space := Space(map[TASK_SELF := BLANK], FIRST_NAME, None, None, None, map[])

  /** A new space and the name that an operation gives, if any. */
  datatype Named = Named(space: Space, name: Option<Name>)

  // ----- operations

  predicate Exhausted(candidate: nat) { candidate > NAME_LIMIT - 1 - STRIDE }

  /** The first free name from a candidate on, in steps of the stride. */
  function Probe(ports: map<Name, Port>, candidate: Name): Option<Name>
    decreases NAME_LIMIT - candidate
  {
    if candidate !in ports then (if Exhausted(candidate) then None else Some(candidate))
    else if Exhausted(candidate) then None
    else Probe(ports, candidate + STRIDE)
  }

  function AllocatePort(s: Space, attributes: Port): Named {
    var name := Probe(s.ports, s.nextSyntheticName);
    if name.None? || Exhausted(name.value) then Named(s, None)
    else Named(s.(ports := s.ports[name.value := attributes], nextSyntheticName := name.value + STRIDE), name)
  }

  function AllocateReceiveRight(s: Space, attributes: Port): Named {
    AllocatePort(s, attributes.(hasReceiveRight := true))
  }

  /** One more reference to the port that a cached name stands for, if it is that port and can
      take one. */
  function AddUref(s: Space, name: Name, kind: PortType, maximum: nat): Named {
    if name !in s.ports || s.ports[name].kind != kind || s.ports[name].sendUrefs == 0 ||
      s.ports[name].sendUrefs == maximum then Named(s, None)
    else Named(s.(ports := s.ports[name := s.ports[name].(sendUrefs := s.ports[name].sendUrefs + 1)]), Some(name))
  }

  function CopyoutHost(s: Space, maximum: nat): Named {
    if s.hostSelf.Some? then AddUref(s, s.hostSelf.value, Host, maximum)
    else
      var made := AllocatePort(s, BLANK.(kind := Host, sendUrefs := 1));
      Named(made.space.(hostSelf := made.name), made.name)
  }

  function CopyoutThread(s: Space, maximum: nat): Named {
    if s.threadSelf.Some? then AddUref(s, s.threadSelf.value, Thread, maximum)
    else
      var made := AllocatePort(s, BLANK.(kind := Thread, sendUrefs := 1));
      Named(made.space.(threadSelf := made.name), made.name)
  }

  function CopyoutBootstrap(s: Space, maximum: nat): Named {
    if s.bootstrap.Some? then AddUref(s, s.bootstrap.value, Bootstrap, maximum)
    else
      var made := AllocatePort(s, BLANK.(kind := Bootstrap, sendUrefs := 1));
      Named(made.space.(bootstrap := made.name), made.name)
  }

  function CopyoutClock(s: Space, clock: u32, maximum: nat): Named {
    if clock in s.clocks then
      var name := s.clocks[clock];
      if name in s.ports && s.ports[name].context != clock then Named(s, None) else AddUref(s, name, Clock, maximum)
    else
      var made := AllocatePort(s, BLANK.(kind := Clock, context := clock, sendUrefs := 1));
      if made.name.None? then made
        else Named(made.space.(clocks := made.space.clocks[clock := made.name.value]), made.name)
  }

  function AllocateSemaphore(s: Space, policy: u32, value: u32): Named {
    AllocatePort(s, BLANK.(kind := Semaphore, sendUrefs := 1, context := value, optionFlags := policy))
  }

  datatype Dropped = Success | InvalidName | InvalidRight

  /** Without a port, and without the cached names that stand for it. */
  function Erase(s: Space, name: Name): Space
    requires name in s.ports
  {
    Space(s.ports - {name}, s.nextSyntheticName,
      if s.hostSelf == Some(name) then None else s.hostSelf,
      if s.threadSelf == Some(name) then None else s.threadSelf,
      if s.bootstrap == Some(name) then None else s.bootstrap,
      if s.ports[name].kind == Clock then s.clocks - {s.ports[name].context % NAME_LIMIT} else s.clocks)
  }

  predicate Gone(name: Name, p: Port) {
    name != TASK_SELF && !p.hasReceiveRight && p.sendUrefs == 0 && p.sendOnceUrefs == 0
  }

  function DeallocateUref(s: Space, name: Name): (r: (Space, Dropped)) {
    if name == 0 || name == NAME_LIMIT - 1 then (s, Success)
    else if name !in s.ports then (s, InvalidName)
    else
      var p := s.ports[name];
      if p.sendUrefs == 0 && p.sendOnceUrefs == 0 then (s, InvalidRight)
      else
        var less := if p.sendUrefs != 0 then p.(sendUrefs := p.sendUrefs - 1)
          else p.(sendOnceUrefs := p.sendOnceUrefs - 1);
        var dropped := s.(ports := s.ports[name := less]);
        (if Gone(name, less) then Erase(dropped, name) else dropped, Success)
  }

  function RollbackLastAllocation(s: Space, name: Name): Space {
    if name !in s.ports || name == TASK_SELF then s
    else
      var erased := Erase(s, name);
      if !Exhausted(name) && name + STRIDE == s.nextSyntheticName then erased.(nextSyntheticName := name) else erased
  }

  // ----- what every operation keeps

  ghost predicate NamesValid(ports: map<Name, Port>, next: Name) {
    next % STRIDE == 3 && FIRST_NAME <= next &&
    TASK_SELF in ports && ports[TASK_SELF].kind == Ordinary && !ports[TASK_SELF].hasReceiveRight &&
    forall n | n in ports :: n % STRIDE == 3 && TASK_SELF <= n < next
  }

  ghost predicate UrefsValid(ports: map<Name, Port>) {
    forall n | n in ports :: ports[n].sendUrefs <= UREFS_MAXIMUM && ports[n].sendOnceUrefs == 0
  }

  predicate IsCached(ports: map<Name, Port>, kind: PortType, n: Name) {
    n in ports && ports[n].kind == kind && !ports[n].hasReceiveRight
  }

  /** A cached name is the one live port of its kind. */
  ghost predicate CacheValid(ports: map<Name, Port>, kind: PortType, cached: Option<Name>) {
    (cached.Some? ==> IsCached(ports, kind, cached.value)) &&
    forall n | n in ports && ports[n].kind == kind :: cached == Some(n)
  }

  /** The name for a clock is the one live port of that clock. */
  ghost predicate ClocksValid(ports: map<Name, Port>, clocks: map<u32, Name>) {
    (forall c | c in clocks :: clocks[c] in ports && IsClock(ports[clocks[c]], c)) &&
    forall n | n in ports && ports[n].kind == Clock :: NamesClock(ports, clocks, n)
  }

  predicate NamesClock(ports: map<Name, Port>, clocks: map<u32, Name>, n: Name)
    requires n in ports
  {
    ports[n].context < NAME_LIMIT && ports[n].context in clocks && clocks[ports[n].context] == n
  }

  predicate IsClock(p: Port, clock: u32) {
    p.kind == Clock && p.context == clock && !p.hasReceiveRight
  }

  /** Members of a set are distinct live receive rights that are not sets. */
  ghost predicate SetsValid(ports: map<Name, Port>) {
    forall n | n in ports :: MembersValid(ports, ports[n].members)
  }

  ghost predicate MembersValid(ports: map<Name, Port>, members: seq<Name>) {
    (forall i | 0 <= i < |members| :: IsMember(ports, members[i])) &&
    (forall i, j | 0 <= i < j < |members| :: members[i] != members[j])
  }

  predicate IsMember(ports: map<Name, Port>, m: Name) {
    m in ports && ports[m].hasReceiveRight && ports[m].kind != PortSet
  }

  ghost predicate Valid(s: Space) {
    NamesValid(s.ports, s.nextSyntheticName) && UrefsValid(s.ports) && SetsValid(s.ports) &&
    ClocksValid(s.ports, s.clocks) && CacheValid(s.ports, Host, s.hostSelf) &&
    CacheValid(s.ports, Thread, s.threadSelf) && CacheValid(s.ports, Bootstrap, s.bootstrap)
  }

  lemma InitialIsValid()
    ensures Valid(INITIAL)
  {
  }

  /** The next name is never taken, so a search for a free name looks at one. */
  lemma ProbeIsImmediate(s: Space)
    requires NamesValid(s.ports, s.nextSyntheticName)
    ensures Probe(s.ports, s.nextSyntheticName) ==
      if Exhausted(s.nextSyntheticName) then None else Some(s.nextSyntheticName)
  {
  }

  lemma AllocationIs(s: Space, p: Port)
    requires NamesValid(s.ports, s.nextSyntheticName)
    ensures AllocatePort(s, p) ==
      if Exhausted(s.nextSyntheticName) then Named(s, None)
      else Named(s.(ports := s.ports[s.nextSyntheticName := p], nextSyntheticName := s.nextSyntheticName + STRIDE),
        Some(s.nextSyntheticName))
  {
    ProbeIsImmediate(s);
  }

  // ----- a new port

  lemma NewName(ports: map<Name, Port>, next: Name, p: Port)
    requires NamesValid(ports, next) && !Exhausted(next)
    ensures next !in ports && NamesValid(ports[next := p], next + STRIDE)
  {
  }

  lemma NewUrefs(ports: map<Name, Port>, name: Name, p: Port)
    requires UrefsValid(ports) && p.sendUrefs <= UREFS_MAXIMUM && p.sendOnceUrefs == 0
    ensures UrefsValid(ports[name := p])
  {
  }

  lemma NewSets(ports: map<Name, Port>, name: Name, p: Port)
    requires SetsValid(ports) && name !in ports && p.members == []
    ensures SetsValid(ports[name := p])
  {
    var after := ports[name := p];
    forall n | n in after
      ensures MembersValid(after, after[n].members)
    {
      if n != name { assert MembersValid(ports, ports[n].members); }
    }
  }

  lemma NewClocks(ports: map<Name, Port>, clocks: map<u32, Name>, name: Name, p: Port)
    requires ClocksValid(ports, clocks) && name !in ports
    ensures p.kind != Clock ==> ClocksValid(ports[name := p], clocks)
    ensures p.kind == Clock && p.context < NAME_LIMIT && p.context !in clocks && !p.hasReceiveRight ==>
      ClocksValid(ports[name := p], clocks[p.context := name])
  {
    var after := ports[name := p];
    if p.kind != Clock {
      forall n | n in after && after[n].kind == Clock
        ensures NamesClock(after, clocks, n)
      {
        assert NamesClock(ports, clocks, n);
      }
    } else if p.context < NAME_LIMIT && p.context !in clocks && !p.hasReceiveRight {
      forall n | n in after && after[n].kind == Clock
        ensures NamesClock(after, clocks[p.context := name], n)
      {
        if n != name { assert NamesClock(ports, clocks, n); }
      }
    }
  }

  lemma NewCache(ports: map<Name, Port>, kind: PortType, cached: Option<Name>, name: Name, p: Port)
    requires CacheValid(ports, kind, cached) && name !in ports
    ensures p.kind != kind ==> CacheValid(ports[name := p], kind, cached)
    ensures p.kind == kind && cached.None? && !p.hasReceiveRight ==> CacheValid(ports[name := p], kind, Some(name))
  {
  }

  /** A fresh port with at most one reference keeps the invariant, once its own cached name, if it
      is of a cached kind, stands for it. */
  lemma NewPort(s: Space, p: Port)
    requires Valid(s) && !Exhausted(s.nextSyntheticName)
    requires p.sendUrefs <= 1 && p.sendOnceUrefs == 0 && p.members == []
    ensures var name := s.nextSyntheticName;
      var t := s.(ports := s.ports[name := p], nextSyntheticName := name + STRIDE);
      name !in s.ports &&
      (p.kind != Host && p.kind != Thread && p.kind != Bootstrap && p.kind != Clock ==> Valid(t)) &&
      (p.kind == Host && !p.hasReceiveRight && s.hostSelf.None? ==> Valid(t.(hostSelf := Some(name)))) &&
      (p.kind == Thread && !p.hasReceiveRight && s.threadSelf.None? ==> Valid(t.(threadSelf := Some(name)))) &&
      (p.kind == Bootstrap && !p.hasReceiveRight && s.bootstrap.None? ==> Valid(t.(bootstrap := Some(name)))) &&
      (p.kind == Clock && !p.hasReceiveRight && p.context < NAME_LIMIT && p.context !in s.clocks ==>
        Valid(t.(clocks := s.clocks[p.context := name])))
  {
    hide NamesValid, UrefsValid, SetsValid, ClocksValid, CacheValid;
    var name := s.nextSyntheticName;
    NewName(s.ports, name, p);
    NewUrefs(s.ports, name, p);
    NewSets(s.ports, name, p);
    NewClocks(s.ports, s.clocks, name, p);
    NewCache(s.ports, Host, s.hostSelf, name, p);
    NewCache(s.ports, Thread, s.threadSelf, name, p);
    NewCache(s.ports, Bootstrap, s.bootstrap, name, p);
  }

  // ----- another count of references, or other members

  predicate SamePort(p: Port, q: Port) {
    q.kind == p.kind && q.hasReceiveRight == p.hasReceiveRight && q.context == p.context
  }

  lemma ChangedSets(ports: map<Name, Port>, name: Name, q: Port)
    requires SetsValid(ports) && name in ports && SamePort(ports[name], q) && MembersValid(ports, q.members)
    ensures SetsValid(ports[name := q])
  {
    var after := ports[name := q];
    forall n | n in after
      ensures MembersValid(after, after[n].members)
    {
      var members := after[n].members;
      assert MembersValid(ports, members);
    }
  }

  lemma ChangedClocks(ports: map<Name, Port>, clocks: map<u32, Name>, name: Name, q: Port)
    requires ClocksValid(ports, clocks) && name in ports && SamePort(ports[name], q)
    ensures ClocksValid(ports[name := q], clocks)
  {
    var after := ports[name := q];
    forall n | n in after && after[n].kind == Clock
      ensures NamesClock(after, clocks, n)
    {
      assert NamesClock(ports, clocks, n);
    }
  }

  lemma ChangedPort(s: Space, name: Name, q: Port)
    requires Valid(s) && name in s.ports && SamePort(s.ports[name], q)
    requires q.sendUrefs <= UREFS_MAXIMUM && q.sendOnceUrefs == 0 && MembersValid(s.ports, q.members)
    ensures Valid(s.(ports := s.ports[name := q]))
  {
    hide SetsValid, ClocksValid, MembersValid;
    ChangedSets(s.ports, name, q);
    ChangedClocks(s.ports, s.clocks, name, q);
  }

  lemma OwnMembers(s: Space, name: Name)
    requires Valid(s) && name in s.ports
    ensures MembersValid(s.ports, s.ports[name].members)
  {
    hide MembersValid, ClocksValid, CacheValid, NamesValid, UrefsValid;
  }

  // ----- a port less

  lemma ErasedClocks(s: Space, name: Name)
    requires ClocksValid(s.ports, s.clocks) && name in s.ports
    ensures ClocksValid(Erase(s, name).ports, Erase(s, name).clocks)
  {
    var t := Erase(s, name);
    if s.ports[name].kind == Clock { assert NamesClock(s.ports, s.clocks, name); }
    forall n | n in t.ports && t.ports[n].kind == Clock
      ensures NamesClock(t.ports, t.clocks, n)
    {
      assert NamesClock(s.ports, s.clocks, n);
    }
    forall c | c in t.clocks
      ensures t.clocks[c] in t.ports && IsClock(t.ports[t.clocks[c]], c)
    {
      assert IsClock(s.ports[s.clocks[c]], c);
    }
  }

  lemma ErasedCache(ports: map<Name, Port>, kind: PortType, cached: Option<Name>, name: Name)
    requires CacheValid(ports, kind, cached) && name in ports
    ensures CacheValid(ports - {name}, kind, if cached == Some(name) then None else cached)
  {
  }

  lemma Erased(s: Space, name: Name)
    requires Valid(s) && name in s.ports && name != TASK_SELF && !s.ports[name].hasReceiveRight
    ensures Valid(Erase(s, name))
  {
    ErasedClocks(s, name);
    ErasedCache(s.ports, Host, s.hostSelf, name);
    ErasedCache(s.ports, Thread, s.threadSelf, name);
    ErasedCache(s.ports, Bootstrap, s.bootstrap, name);
    hide ClocksValid, SetsValid, CacheValid;
  }

  // ----- the operations keep the invariant

  /** The kinds of port that no operation hands out again. */
  predicate Uncached(kind: PortType) {
    kind != Host && kind != Thread && kind != Bootstrap && kind != Clock
  }

  lemma AllocateKeeps(s: Space, p: Port)
    requires Valid(s) && Uncached(p.kind) && p.sendUrefs <= 1 && p.sendOnceUrefs == 0 && p.members == []
    ensures Valid(AllocatePort(s, p).space)
  {
    hide ClocksValid, SetsValid, CacheValid, UrefsValid;
    AllocationIs(s, p);
    if !Exhausted(s.nextSyntheticName) { NewPort(s, p); }
  }

  lemma AddUrefKeeps(s: Space, name: Name, kind: PortType, maximum: nat)
    requires Valid(s) && maximum <= UREFS_MAXIMUM
    requires name in s.ports ==> s.ports[name].sendUrefs <= maximum
    ensures Valid(AddUref(s, name, kind, maximum).space)
  {
    hide Valid, MembersValid;
    if AddUref(s, name, kind, maximum).name.Some? {
      OwnMembers(s, name);
      UrefsOf(s, name);
      ChangedPort(s, name, s.ports[name].(sendUrefs := s.ports[name].sendUrefs + 1));
    }
  }

  lemma UrefsOf(s: Space, name: Name)
    requires Valid(s) && name in s.ports
    ensures s.ports[name].sendUrefs <= UREFS_MAXIMUM && s.ports[name].sendOnceUrefs == 0
  {
  }

  lemma CopyoutsKeep(s: Space, clock: u32)
    requires Valid(s)
    ensures Valid(CopyoutHost(s, UREFS_MAXIMUM).space) && Valid(CopyoutThread(s, UREFS_MAXIMUM).space)
    ensures Valid(CopyoutBootstrap(s, UREFS_MAXIMUM).space) && Valid(CopyoutClock(s, clock, UREFS_MAXIMUM).space)
  {
    HostKeeps(s);
    ThreadKeeps(s);
    BootstrapKeeps(s);
    ClockKeeps(s, clock);
  }

  lemma NextOf(s: Space)
    requires Valid(s)
    ensures NamesValid(s.ports, s.nextSyntheticName)
    ensures forall n | n in s.ports :: s.ports[n].sendUrefs <= UREFS_MAXIMUM
  {
  }

  lemma HostKeeps(s: Space)
    requires Valid(s)
    ensures Valid(CopyoutHost(s, UREFS_MAXIMUM).space)
  {
    hide Valid, NamesValid, AllocatePort;
    var p := BLANK.(kind := Host, sendUrefs := 1);
    NextOf(s);
    if s.hostSelf.Some? {
      AddUrefKeeps(s, s.hostSelf.value, Host, UREFS_MAXIMUM);
    } else {
      AllocationIs(s, p);
      if !Exhausted(s.nextSyntheticName) { NewPort(s, p); }
    }
  }

  lemma ThreadKeeps(s: Space)
    requires Valid(s)
    ensures Valid(CopyoutThread(s, UREFS_MAXIMUM).space)
  {
    hide Valid, NamesValid, AllocatePort;
    var p := BLANK.(kind := Thread, sendUrefs := 1);
    NextOf(s);
    if s.threadSelf.Some? {
      AddUrefKeeps(s, s.threadSelf.value, Thread, UREFS_MAXIMUM);
    } else {
      AllocationIs(s, p);
      if !Exhausted(s.nextSyntheticName) { NewPort(s, p); }
    }
  }

  lemma BootstrapKeeps(s: Space)
    requires Valid(s)
    ensures Valid(CopyoutBootstrap(s, UREFS_MAXIMUM).space)
  {
    hide Valid, NamesValid, AllocatePort;
    var p := BLANK.(kind := Bootstrap, sendUrefs := 1);
    NextOf(s);
    if s.bootstrap.Some? {
      AddUrefKeeps(s, s.bootstrap.value, Bootstrap, UREFS_MAXIMUM);
    } else {
      AllocationIs(s, p);
      if !Exhausted(s.nextSyntheticName) { NewPort(s, p); }
    }
  }

  lemma ClockKeeps(s: Space, clock: u32)
    requires Valid(s)
    ensures Valid(CopyoutClock(s, clock, UREFS_MAXIMUM).space)
  {
    hide Valid, NamesValid, AllocatePort;
    var p := BLANK.(kind := Clock, context := clock, sendUrefs := 1);
    NextOf(s);
    if clock in s.clocks {
      AddUrefKeeps(s, s.clocks[clock], Clock, UREFS_MAXIMUM);
    } else {
      AllocationIs(s, p);
      if !Exhausted(s.nextSyntheticName) { NewPort(s, p); }
    }
  }

  lemma DeallocateKeeps(s: Space, name: Name)
    requires Valid(s)
    ensures Valid(DeallocateUref(s, name).0)
  {
    if name != 0 && name != NAME_LIMIT - 1 && name in s.ports {
      UrefsOf(s, name);
      OwnMembers(s, name);
      hide Valid, MembersValid;
      var p := s.ports[name];
      if p.sendUrefs != 0 {
        var less := p.(sendUrefs := p.sendUrefs - 1);
        ChangedPort(s, name, less);
        if Gone(name, less) { Erased(s.(ports := s.ports[name := less]), name); }
      }
    }
  }

  /** Rolling back right after an allocation undoes it, name and all. */
  lemma RollbackUndoes(s: Space, p: Port)
    requires Valid(s) && p.kind != Clock
    ensures var made := AllocateReceiveRight(s, p);
      made.name.Some? ==> RollbackLastAllocation(made.space, made.name.value) == s
  {
    hide SetsValid, ClocksValid, UrefsValid;
    var q := p.(hasReceiveRight := true);
    AllocationIs(s, q);
    var name := s.nextSyntheticName;
    if !Exhausted(name) {
      NewName(s.ports, name, q);
      assert s.ports[name := q] - {name} == s.ports;
    }
  }

  // ----- the object

  class GuestPortSpace {
    var ports: map<Name, Port>
    var nextSyntheticName: Name
    var hostSelfName: Option<Name>
    var threadSelfName: Option<Name>
    var bootstrapName: Option<Name>
    var clockServiceNames: map<u32, Name>

    ghost function State(): Space
      reads this
    {
      Space(ports, nextSyntheticName, hostSelfName, threadSelfName, bootstrapName, clockServiceNames)
    }

    constructor ()
      ensures State() == INITIAL
    {
      ports, nextSyntheticName := map[TASK_SELF := BLANK], FIRST_NAME;
      hostSelfName, threadSelfName, bootstrapName, clockServiceNames := None, None, None, map[];
    }

    method Allocate(attributes: Port) returns (name: Option<Name>)
      modifies this
      ensures Named(State(), name) == AllocatePort(old(State()), attributes)
    {
      var candidate: Name := nextSyntheticName;
      while candidate in ports
        invariant State() == old(State())
        invariant Probe(ports, nextSyntheticName) == Probe(ports, candidate)
        decreases NAME_LIMIT - candidate
      {
        if Exhausted(candidate) {
          return None;
        }
        candidate := candidate + STRIDE;
      }
      if Exhausted(candidate) {
        return None;
      }
      ports := ports[candidate := attributes];
      nextSyntheticName := candidate + STRIDE;
      name := Some(candidate);
    }

    method AllocateReceive(attributes: Port) returns (name: Option<Name>)
      modifies this
      ensures Named(State(), name) == AllocateReceiveRight(old(State()), attributes)
    {
      name := Allocate(attributes.(hasReceiveRight := true));
    }

    /** The reference that a cached name gains. */
    method CopyoutCached(name: Name, kind: PortType, maximum: nat) returns (r: Option<Name>)
      modifies this
      ensures Named(State(), r) == AddUref(old(State()), name, kind, maximum)
    {
      if name !in ports || ports[name].kind != kind || ports[name].sendUrefs == 0 {
        return None;
      }
      if ports[name].sendUrefs == maximum {
        return None;
      }
      ports := ports[name := ports[name].(sendUrefs := ports[name].sendUrefs + 1)];
      r := Some(name);
    }

    method CopyoutHostSendRight(maximum: nat) returns (r: Option<Name>)
      modifies this
      ensures Named(State(), r) == CopyoutHost(old(State()), maximum)
    {
      hide AllocatePort, AddUref;
      if hostSelfName.Some? {
        r := CopyoutCached(hostSelfName.value, Host, maximum);
        return;
      }
      r := Allocate(BLANK.(kind := Host, sendUrefs := 1));
      hostSelfName := r;
    }

    method CopyoutThreadSendRight(maximum: nat) returns (r: Option<Name>)
      modifies this
      ensures Named(State(), r) == CopyoutThread(old(State()), maximum)
    {
      hide AllocatePort, AddUref;
      if threadSelfName.Some? {
        r := CopyoutCached(threadSelfName.value, Thread, maximum);
        return;
      }
      r := Allocate(BLANK.(kind := Thread, sendUrefs := 1));
      threadSelfName := r;
    }

    method CopyoutBootstrapSendRight(maximum: nat) returns (r: Option<Name>)
      modifies this
      ensures Named(State(), r) == CopyoutBootstrap(old(State()), maximum)
    {
      hide AllocatePort, AddUref;
      if bootstrapName.Some? {
        r := CopyoutCached(bootstrapName.value, Bootstrap, maximum);
        return;
      }
      r := Allocate(BLANK.(kind := Bootstrap, sendUrefs := 1));
      bootstrapName := r;
    }

    method CopyoutClockSendRight(clock: u32, maximum: nat) returns (r: Option<Name>)
      modifies this
      ensures Named(State(), r) == CopyoutClock(old(State()), clock, maximum)
    {
      hide AllocatePort, AddUref;
      if clock in clockServiceNames {
        var name := clockServiceNames[clock];
        if name in ports && ports[name].context != clock {
          return None;
        }
        r := CopyoutCached(name, Clock, maximum);
        return;
      }
      r := Allocate(BLANK.(kind := Clock, context := clock, sendUrefs := 1));
      if r.Some? {
        clockServiceNames := clockServiceNames[clock := r.value];
      }
    }

    method AllocateSemaphoreSendRight(policy: u32, value: u32) returns (r: Option<Name>)
      modifies this
      ensures Named(State(), r) == AllocateSemaphore(old(State()), policy, value)
    {
      hide AllocatePort;
      r := Allocate(BLANK.(kind := Semaphore, sendUrefs := 1, context := value, optionFlags := policy));
    }

    method EraseNames(name: Name)
      requires name in ports
      modifies this
      ensures State() == Erase(old(State()), name)
    {
      if hostSelfName == Some(name) { hostSelfName := None; }
      if threadSelfName == Some(name) { threadSelfName := None; }
      if bootstrapName == Some(name) { bootstrapName := None; }
      if ports[name].kind == Clock {
        clockServiceNames := clockServiceNames - {ports[name].context % NAME_LIMIT};
      }
      ports := ports - {name};
    }

    method Deallocate(name: Name) returns (r: Dropped)
      modifies this
      ensures (State(), r) == DeallocateUref(old(State()), name)
    {
      hide Erase;
      if name == 0 || name == NAME_LIMIT - 1 {
        return Success;
      }
      if name !in ports {
        return InvalidName;
      }
      var p := ports[name];
      if p.sendUrefs != 0 {
        p := p.(sendUrefs := p.sendUrefs - 1);
      } else if p.sendOnceUrefs != 0 {
        p := p.(sendOnceUrefs := p.sendOnceUrefs - 1);
      } else {
        return InvalidRight;
      }
      ports := ports[name := p];
      if Gone(name, p) {
        EraseNames(name);
      }
      r := Success;
    }

    method Rollback(name: Name)
      modifies this
      ensures State() == RollbackLastAllocation(old(State()), name)
    {
      hide Erase;
      if name !in ports || name == TASK_SELF {
        return;
      }
      EraseKeepsNext(State(), name);
      EraseNames(name);
      if !Exhausted(name) && name + STRIDE == nextSyntheticName {
        nextSyntheticName := name;
      }
    }
  }

  lemma EraseKeepsNext(s: Space, name: Name)
    requires name in s.ports
    ensures Erase(s, name).nextSyntheticName == s.nextSyntheticName
  {
  }
}
