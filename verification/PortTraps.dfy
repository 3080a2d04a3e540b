/** The port traps as steps over the namespace, and what holds after any sequence of them. */
module PortTraps {
  import opened Options
  import opened Words
  import opened PortSpace

  const KERN_SUCCESS: u64 := 0
  const KERN_INVALID_ADDRESS: u64 := 1
  const KERN_NO_SPACE: u64 := 3
  const KERN_INVALID_NAME: u64 := 15
  const KERN_INVALID_RIGHT: u64 := 17
  const KERN_INVALID_VALUE: u64 := 18
  const KERN_UREFS_OVERFLOW: u64 := 19
  const SEND_INVALID_DESTINATION: u64 := 0x1000_0003
  const RIGHT_SEND: u32 := 0
  const RIGHT_COUNT: u32 := 6
  const QLIMIT_DEFAULT: u32 := 5

  /** The options of trap 24 by name; `policy` stands for every bit that is not modelled. */
  datatype PortOptions = PortOptions(contextAsGuard: bool, queueLimited: bool, insertSend: bool, strict: bool,
    reply: bool, policy: bool, flags: u32, queueLimit: u32)

  type Delta = d: int | -0x8000_0000 <= d < 0x8000_0000

  /** A trap with its arguments, and whether the guest memory it reads or writes is accessible. */
  datatype Trap =
    | Allocate(target: u64, right: u32, writable: bool)
    | Deallocate(target: u64, name: Name)
    | ModRefs(target: u64, name: Name, right: u32, delta: Delta)
    | MoveMember(target: u64, member: Name, set_: Name)
    | Construct(target: u64, options: Option<PortOptions>, context: u64, accessible: bool, writable: bool)
    | ReplyPort
    | ThreadSelf
    | TaskSelf
    | HostSelf
    | SpecialReplyPort
    | TimerCreate
    | HostMessage
    | BootstrapMessage
    | ClockMessage(clock: u32)
    | SemaphoreMessage(policy: u32, value: u32)

  /** What the guest gets: a status, the name of a port, no port, or the end of the run. */
  datatype Answer = Status(code: u64) | Gave(name: Name) | NoPort | Threw

  datatype Machine = Machine(space: Space, specialReplyPort: Option<Name>)

  datatype Stepped = Stepped(machine: Machine, answer: Answer)

  const ORDINARY: Port := BLANK.(queueLimit := QLIMIT_DEFAULT)

  function Give(m: Machine, n: Named, otherwise: Answer): Stepped {
    Stepped(m.(space := n.space), if n.name.Some? then Gave(n.name.value) else otherwise)
  }

  /** Traps 16 and 24: a receive right whose name must be copied out, or nothing. */
  function CreateAndCopyOut(m: Machine, p: Port, writable: bool): Stepped {
    var made := AllocateReceiveRight(m.space, p);
    if made.name.None? then Stepped(m.(space := made.space), Status(KERN_NO_SPACE))
    else if !writable then Stepped(m.(space := RollbackLastAllocation(made.space, made.name.value)),
      Status(KERN_INVALID_ADDRESS))
    else Stepped(m.(space := made.space), Gave(made.name.value))
  }

  function ConstructedPort(o: PortOptions, context: u64): Port {
    var limit := if o.queueLimited then o.queueLimit else QLIMIT_DEFAULT;
    var kind, guard := if o.reply then Reply else Ordinary, if o.contextAsGuard then context else 0;
    var p := BLANK.(kind := kind, context := context, queueLimit := limit, optionFlags := o.flags);
    if o.reply then p
    else
      p.(sendUrefs := if o.insertSend then 1 else 0, guarded := o.contextAsGuard, guard := guard,
        strictGuard := o.strict)
  }

  predicate Modelled(o: PortOptions) {
    !o.policy && (o.reply ==> !o.contextAsGuard && !o.queueLimited && !o.insertSend && !o.strict)
  }

  function StepModRefs(m: Machine, name: Name, right: u32, delta: int): Stepped {
    var s := m.space;
    if right >= RIGHT_COUNT then Stepped(m, Status(KERN_INVALID_VALUE))
    else if name !in s.ports || s.ports[name].sendUrefs == 0 then Stepped(m, Status(KERN_INVALID_NAME))
    else if right != RIGHT_SEND then Stepped(m, Status(KERN_INVALID_RIGHT))
    else
      var updated := s.ports[name].sendUrefs + delta;
      if updated < 0 then Stepped(m, Status(KERN_INVALID_VALUE))
      else if updated > UREFS_MAXIMUM then Stepped(m, Status(KERN_UREFS_OVERFLOW))
      else Stepped(m.(space := s.(ports := s.ports[name := s.ports[name].(sendUrefs := updated)])),
        Status(KERN_SUCCESS))
  }

  function StepMoveMember(m: Machine, member: Name, set_: Name): Stepped {
    var s := m.space;
    if set_ !in s.ports || member !in s.ports then Stepped(m, Status(KERN_INVALID_NAME))
    else if s.ports[set_].kind != PortSet || !s.ports[member].hasReceiveRight || s.ports[member].kind == PortSet then
      Stepped(m, Status(KERN_INVALID_RIGHT))
    else if member in s.ports[set_].members then Stepped(m, Status(KERN_SUCCESS))
    else
      var more := s.ports[set_].(members := s.ports[set_].members + [member]);
      Stepped(m.(space := s.(ports := s.ports[set_ := more])), Status(KERN_SUCCESS))
  }

  function StepConstruct(m: Machine, options: Option<PortOptions>, context: u64, accessible: bool,
                         writable: bool): Stepped {
    if options.None? then Stepped(m, Status(KERN_INVALID_ADDRESS))
    else if !Modelled(options.value) then Stepped(m, Threw)
    else if !accessible then Stepped(m, Status(KERN_INVALID_ADDRESS))
    else CreateAndCopyOut(m, ConstructedPort(options.value, context), writable)
  }

  function StepTaskSelf(m: Machine): Stepped {
    var s := m.space;
    if TASK_SELF !in s.ports then Stepped(m, Threw)
    else if s.ports[TASK_SELF].sendUrefs == UREFS_MAXIMUM then Stepped(m, NoPort)
    else
      var more := s.ports[TASK_SELF].(sendUrefs := s.ports[TASK_SELF].sendUrefs + 1);
      Stepped(m.(space := s.(ports := s.ports[TASK_SELF := more])), Gave(TASK_SELF))
  }

  function StepSpecialReplyPort(m: Machine): Stepped {
    if m.specialReplyPort.Some? then Stepped(m, Gave(m.specialReplyPort.value))
    else
      var made := AllocateReceiveRight(m.space, ORDINARY.(kind := Reply));
      if made.name.None? then Stepped(m.(space := made.space), NoPort)
      else Stepped(Machine(made.space, made.name), Gave(made.name.value))
  }

  predicate ForTask(t: Trap) {
    (t.Allocate? || t.Deallocate? || t.ModRefs? || t.MoveMember? || t.Construct?) ==> t.target == TASK_SELF
  }

  function Step(m: Machine, t: Trap): Stepped {
    if !ForTask(t) then Stepped(m, Status(SEND_INVALID_DESTINATION))
    else
      match t
      case Allocate(_, right, writable) =>
        if right != 1 && right != 3 then Stepped(m, Status(KERN_INVALID_VALUE))
        else CreateAndCopyOut(m, ORDINARY.(kind := if right == 3 then PortSet else Ordinary), writable)
      case Deallocate(_, name) =>
        var d := DeallocateUref(m.space, name);
        Stepped(m.(space := d.0),
          Status(if d.1.Success? then KERN_SUCCESS else if d.1.InvalidName? then KERN_INVALID_NAME
            else KERN_INVALID_RIGHT))
      case ModRefs(_, name, right, delta) => StepModRefs(m, name, right, delta)
      case MoveMember(_, member, set_) => StepMoveMember(m, member, set_)
      case Construct(_, options, context, accessible, writable) =>
        StepConstruct(m, options, context, accessible, writable)
      case ReplyPort => Give(m, AllocateReceiveRight(m.space, ORDINARY.(kind := Reply)), NoPort)
      case ThreadSelf => Give(m, CopyoutThread(m.space, UREFS_MAXIMUM), NoPort)
      case TaskSelf => StepTaskSelf(m)
      case HostSelf => Give(m, CopyoutHost(m.space, UREFS_MAXIMUM), NoPort)
      case SpecialReplyPort => StepSpecialReplyPort(m)
      case TimerCreate => Give(m, AllocateReceiveRight(m.space, ORDINARY.(kind := Timer)), Status(KERN_NO_SPACE))
      case HostMessage => Give(m, CopyoutHost(m.space, UREFS_MAXIMUM), Threw)
      case BootstrapMessage => Give(m, CopyoutBootstrap(m.space, UREFS_MAXIMUM), Threw)
      case ClockMessage(clock) => Give(m, CopyoutClock(m.space, clock, UREFS_MAXIMUM), Threw)
      case SemaphoreMessage(policy, value) => Give(m, AllocateSemaphore(m.space, policy, value), Threw)
  }

  function Run(m: Machine, traps: seq<Trap>): (Machine, seq<Answer>)
    decreases |traps|
  {
    if traps == [] then (m, [])
    else
      var first := Step(m, traps[0]);
      var others := Run(first.machine, traps[1..]);
      (others.0, [first.answer] + others.1)
  }

  // ----- the invariant over every run

  lemma AllocateReceiveKeeps(s: Space, p: Port)
    requires Valid(s) && Uncached(p.kind) && p.sendUrefs <= 1 && p.sendOnceUrefs == 0 && p.members == []
    ensures Valid(AllocateReceiveRight(s, p).space)
  {
    hide Valid, AllocatePort;
    AllocateKeeps(s, p.(hasReceiveRight := true));
  }

  /** A copy-out that fails leaves no trace. */
  lemma CreateKeeps(m: Machine, p: Port, writable: bool)
    requires Valid(m.space) && Uncached(p.kind) && p.sendUrefs <= 1 && p.sendOnceUrefs == 0 && p.members == []
    ensures Valid(CreateAndCopyOut(m, p, writable).machine.space)
    ensures !CreateAndCopyOut(m, p, writable).answer.Gave? ==> CreateAndCopyOut(m, p, writable).machine == m
  {
    hide Valid;
    AllocateReceiveKeeps(m.space, p);
    RollbackUndoes(m.space, p);
    NextOf(m.space);
    AllocationIs(m.space, p.(hasReceiveRight := true));
    hide AllocatePort, RollbackLastAllocation;
  }

  lemma ModRefsKeeps(m: Machine, name: Name, right: u32, delta: int)
    requires Valid(m.space)
    ensures Valid(StepModRefs(m, name, right, delta).machine.space)
  {
    hide Valid, MembersValid;
    if name in m.space.ports {
      OwnMembers(m.space, name);
      UrefsOf(m.space, name);
      var updated := m.space.ports[name].sendUrefs + delta;
      if 0 <= updated <= UREFS_MAXIMUM {
        ChangedPort(m.space, name, m.space.ports[name].(sendUrefs := updated));
      }
    }
  }

  lemma MoveMemberKeeps(m: Machine, member: Name, set_: Name)
    requires Valid(m.space)
    ensures Valid(StepMoveMember(m, member, set_).machine.space)
  {
    hide Valid;
    var s := m.space;
    if set_ in s.ports && member in s.ports {
      OwnMembers(s, set_);
      UrefsOf(s, set_);
      if s.ports[member].hasReceiveRight && s.ports[member].kind != PortSet && member !in s.ports[set_].members {
        assert IsMember(s.ports, member);
        ChangedPort(s, set_, s.ports[set_].(members := s.ports[set_].members + [member]));
      }
    }
  }

  lemma TaskSelfKeeps(m: Machine)
    requires Valid(m.space)
    ensures Valid(StepTaskSelf(m).machine.space)
  {
    hide Valid, MembersValid;
    if TASK_SELF in m.space.ports {
      OwnMembers(m.space, TASK_SELF);
      UrefsOf(m.space, TASK_SELF);
      var p := m.space.ports[TASK_SELF];
      if p.sendUrefs < UREFS_MAXIMUM {
        ChangedPort(m.space, TASK_SELF, p.(sendUrefs := p.sendUrefs + 1));
      }
    }
  }

  lemma StepKeeps(m: Machine, t: Trap)
    requires Valid(m.space)
    ensures Valid(Step(m, t).machine.space)
  {
    hide Valid, AllocatePort, AllocateReceiveRight, CreateAndCopyOut, StepModRefs, StepMoveMember, StepTaskSelf,
      CopyoutHost, CopyoutThread, CopyoutBootstrap, CopyoutClock, DeallocateUref;
    if ForTask(t) {
      if t.Allocate? {
        CreateKeeps(m, ORDINARY.(kind := if t.right == 3 then PortSet else Ordinary), t.writable);
      } else if t.Deallocate? {
        DeallocateKeeps(m.space, t.name);
      } else if t.ModRefs? {
        ModRefsKeeps(m, t.name, t.right, t.delta);
      } else if t.MoveMember? {
        MoveMemberKeeps(m, t.member, t.set_);
      } else if t.Construct? {
        if t.options.Some? { CreateKeeps(m, ConstructedPort(t.options.value, t.context), t.writable); }
      } else if t.TaskSelf? {
        TaskSelfKeeps(m);
      } else if t.SemaphoreMessage? {
        AllocateKeeps(m.space, BLANK.(kind := Semaphore, sendUrefs := 1, context := t.value, optionFlags := t.policy));
      } else if t.ReplyPort? || t.SpecialReplyPort? {
        AllocateReceiveKeeps(m.space, ORDINARY.(kind := Reply));
      } else if t.TimerCreate? {
        AllocateReceiveKeeps(m.space, ORDINARY.(kind := Timer));
      } else {
        CopyoutsKeep(m.space, if t.ClockMessage? then t.clock else 0);
      }
    }
  }

  /** Every run from the initial namespace keeps the invariant. */
  lemma {:induction false} RunKeeps(m: Machine, traps: seq<Trap>)
    requires Valid(m.space)
    ensures Valid(Run(m, traps).0.space)
    decreases |traps|
  {
    hide Valid, Step;
    if traps != [] {
      StepKeeps(m, traps[0]);
      RunKeeps(Step(m, traps[0]).machine, traps[1..]);
    }
  }

  // ----- a freed name stays free

  /** New names come from above, and the next name never goes back. */
  ghost predicate NamesGrow(s: Space, t: Space) {
    t.nextSyntheticName >= s.nextSyntheticName && forall n | n in t.ports && n !in s.ports :: n >= s.nextSyntheticName
  }

  lemma AllocationGrows(s: Space, p: Port)
    requires Valid(s)
    ensures NamesGrow(s, AllocatePort(s, p).space)
  {
    hide Valid;
    NextOf(s);
    AllocationIs(s, p);
  }

  lemma CopyoutsGrow(s: Space, clock: u32)
    requires Valid(s)
    ensures NamesGrow(s, CopyoutHost(s, UREFS_MAXIMUM).space) && NamesGrow(s, CopyoutThread(s, UREFS_MAXIMUM).space)
    ensures NamesGrow(s, CopyoutBootstrap(s, UREFS_MAXIMUM).space) &&
      NamesGrow(s, CopyoutClock(s, clock, UREFS_MAXIMUM).space)
  {
    hide Valid, AllocatePort;
    AllocationGrows(s, BLANK.(kind := Host, sendUrefs := 1));
    AllocationGrows(s, BLANK.(kind := Thread, sendUrefs := 1));
    AllocationGrows(s, BLANK.(kind := Bootstrap, sendUrefs := 1));
    AllocationGrows(s, BLANK.(kind := Clock, context := clock, sendUrefs := 1));
  }

  lemma CreateGrows(m: Machine, p: Port, writable: bool)
    requires Valid(m.space) && Uncached(p.kind) && p.sendUrefs <= 1 && p.sendOnceUrefs == 0 && p.members == []
    ensures NamesGrow(m.space, CreateAndCopyOut(m, p, writable).machine.space)
  {
    hide Valid, AllocatePort, RollbackLastAllocation;
    CreateKeeps(m, p, writable);
    AllocationGrows(m.space, p.(hasReceiveRight := true));
  }

  lemma StepGrows(m: Machine, t: Trap)
    requires Valid(m.space)
    ensures NamesGrow(m.space, Step(m, t).machine.space)
  {
    hide Valid, AllocatePort, CreateAndCopyOut, CopyoutHost, CopyoutThread, CopyoutBootstrap, CopyoutClock;
    if ForTask(t) {
      if t.Allocate? {
        CreateGrows(m, ORDINARY.(kind := if t.right == 3 then PortSet else Ordinary), t.writable);
      } else if t.Construct? {
        if t.options.Some? { CreateGrows(m, ConstructedPort(t.options.value, t.context), t.writable); }
      } else if t.SemaphoreMessage? {
        AllocationGrows(m.space,
          BLANK.(kind := Semaphore, sendUrefs := 1, context := t.value, optionFlags := t.policy));
      } else if t.ReplyPort? || t.SpecialReplyPort? {
        AllocationGrows(m.space, ORDINARY.(kind := Reply, hasReceiveRight := true));
      } else if t.TimerCreate? {
        AllocationGrows(m.space, ORDINARY.(kind := Timer, hasReceiveRight := true));
      } else if t.HostSelf? || t.HostMessage? || t.ThreadSelf? || t.BootstrapMessage? || t.ClockMessage? {
        CopyoutsGrow(m.space, if t.ClockMessage? then t.clock else 0);
      }
    }
  }

  /** A name that was live before and is not any more is never issued again. */
  lemma {:induction false} FreedStaysFree(m: Machine, traps: seq<Trap>, n: Name)
    requires Valid(m.space) && n !in m.space.ports && n < m.space.nextSyntheticName
    ensures n !in Run(m, traps).0.space.ports
    decreases |traps|
  {
    hide Valid, Step;
    if traps != [] {
      StepKeeps(m, traps[0]);
      StepGrows(m, traps[0]);
      FreedStaysFree(Step(m, traps[0]).machine, traps[1..], n);
    }
  }

  /** Names that have ever been live lie below the next name. */
  lemma {:induction false} LiveBelowNext(m: Machine, traps: seq<Trap>, n: Name)
    requires Valid(m.space) && n in m.space.ports
    ensures n < Run(m, traps).0.space.nextSyntheticName
    decreases |traps|
  {
    hide Step;
    if traps != [] {
      var next := Step(m, traps[0]).machine;
      StepKeeps(m, traps[0]);
      StepGrows(m, traps[0]);
      NextCovers(m, next, traps[1..], n);
    }
  }

  lemma {:induction false} NextCovers(m: Machine, next: Machine, traps: seq<Trap>, n: Name)
    requires Valid(next.space) && n < next.space.nextSyntheticName
    ensures n < Run(next, traps).0.space.nextSyntheticName
    decreases |traps|
  {
    hide Valid, Step;
    if traps != [] {
      StepKeeps(next, traps[0]);
      StepGrows(next, traps[0]);
      NextCovers(next, Step(next, traps[0]).machine, traps[1..], n);
    }
  }

  // ----- references are conserved

  function Urefs(s: Space, n: Name): nat {
    if n in s.ports then s.ports[n].sendUrefs else 0
  }

  /** What a trap and its answer say about the send references of a name. */
  function Change(t: Trap, a: Answer, n: Name): int {
    match t
    case Deallocate(_, name) =>
      if a == Status(KERN_SUCCESS) && name == n && n != 0 && n != NAME_LIMIT - 1 then -1 else 0
    case ModRefs(_, name, _, delta) => if a == Status(KERN_SUCCESS) && name == n then delta else 0
    case Construct(_, options, _, _, _) =>
      if a == Gave(n) && options.Some? && options.value.insertSend && !options.value.reply then 1 else 0
    case ThreadSelf => if a == Gave(n) then 1 else 0
    case TaskSelf => if a == Gave(n) then 1 else 0
    case HostSelf => if a == Gave(n) then 1 else 0
    case HostMessage => if a == Gave(n) then 1 else 0
    case BootstrapMessage => if a == Gave(n) then 1 else 0
    case ClockMessage(_) => if a == Gave(n) then 1 else 0
    case SemaphoreMessage(_, _) => if a == Gave(n) then 1 else 0
    case _ => 0
  }

  function Changes(traps: seq<Trap>, answers: seq<Answer>, n: Name): int
    requires |answers| == |traps|
  {
    if traps == [] then 0 else Change(traps[0], answers[0], n) + Changes(traps[1..], answers[1..], n)
  }

  lemma AllocationUrefs(s: Space, p: Port, n: Name)
    requires Valid(s)
    ensures var made := AllocatePort(s, p);
      Urefs(made.space, n) == Urefs(s, n) + if made.name == Some(n) then p.sendUrefs else 0
  {
    hide Valid;
    NextOf(s);
    AllocationIs(s, p);
    if !Exhausted(s.nextSyntheticName) {
      NewName(s.ports, s.nextSyntheticName, p);
    }
  }

  lemma AddUrefUrefs(s: Space, name: Name, kind: PortType, n: Name)
    ensures var c := AddUref(s, name, kind, UREFS_MAXIMUM);
      Urefs(c.space, n) == Urefs(s, n) + if c.name == Some(n) then 1 else 0
  {
  }

  lemma CopyoutUrefs(s: Space, clock: u32, n: Name)
    requires Valid(s)
    ensures var c := CopyoutHost(s, UREFS_MAXIMUM);
      Urefs(c.space, n) == Urefs(s, n) + if c.name == Some(n) then 1 else 0
    ensures var c := CopyoutThread(s, UREFS_MAXIMUM);
      Urefs(c.space, n) == Urefs(s, n) + if c.name == Some(n) then 1 else 0
    ensures var c := CopyoutBootstrap(s, UREFS_MAXIMUM);
      Urefs(c.space, n) == Urefs(s, n) + if c.name == Some(n) then 1 else 0
    ensures var c := CopyoutClock(s, clock, UREFS_MAXIMUM);
      Urefs(c.space, n) == Urefs(s, n) + if c.name == Some(n) then 1 else 0
  {
    hide Valid, AllocatePort, AddUref;
    if s.hostSelf.Some? { AddUrefUrefs(s, s.hostSelf.value, Host, n); }
    if s.threadSelf.Some? { AddUrefUrefs(s, s.threadSelf.value, Thread, n); }
    if s.bootstrap.Some? { AddUrefUrefs(s, s.bootstrap.value, Bootstrap, n); }
    if clock in s.clocks { AddUrefUrefs(s, s.clocks[clock], Clock, n); }
    AllocationUrefs(s, BLANK.(kind := Host, sendUrefs := 1), n);
    AllocationUrefs(s, BLANK.(kind := Thread, sendUrefs := 1), n);
    AllocationUrefs(s, BLANK.(kind := Bootstrap, sendUrefs := 1), n);
    AllocationUrefs(s, BLANK.(kind := Clock, context := clock, sendUrefs := 1), n);
  }

  lemma CreateUrefs(m: Machine, p: Port, writable: bool, n: Name)
    requires Valid(m.space) && Uncached(p.kind) && p.sendUrefs <= 1 && p.sendOnceUrefs == 0 && p.members == []
    ensures var r := CreateAndCopyOut(m, p, writable);
      Urefs(r.machine.space, n) == Urefs(m.space, n) + if r.answer == Gave(n) then p.sendUrefs else 0
  {
    hide Valid, AllocatePort, RollbackLastAllocation;
    CreateKeeps(m, p, writable);
    AllocationUrefs(m.space, p.(hasReceiveRight := true), n);
  }

  lemma DeallocateUrefs(s: Space, name: Name, n: Name)
    requires Valid(s)
    ensures var d := DeallocateUref(s, name);
      Urefs(d.0, n) == Urefs(s, n) + if d.1.Success? && name == n && n != 0 && n != NAME_LIMIT - 1 then -1 else 0
  {
    hide Valid;
    if name in s.ports { UrefsOf(s, name); }
  }

  lemma StepConserves(m: Machine, t: Trap, n: Name)
    requires Valid(m.space)
    ensures Urefs(Step(m, t).machine.space, n) == Urefs(m.space, n) + Change(t, Step(m, t).answer, n)
  {
    hide Valid, AllocatePort, CreateAndCopyOut, CopyoutHost, CopyoutThread, CopyoutBootstrap, CopyoutClock,
      DeallocateUref;
    if ForTask(t) {
      if t.Allocate? {
        CreateUrefs(m, ORDINARY.(kind := if t.right == 3 then PortSet else Ordinary), t.writable, n);
      } else if t.Deallocate? {
        DeallocateUrefs(m.space, t.name, n);
      } else if t.Construct? {
        if t.options.Some? { CreateUrefs(m, ConstructedPort(t.options.value, t.context), t.writable, n); }
      } else if t.SemaphoreMessage? {
        AllocationUrefs(m.space,
          BLANK.(kind := Semaphore, sendUrefs := 1, context := t.value, optionFlags := t.policy), n);
      } else if t.ReplyPort? || t.SpecialReplyPort? {
        AllocationUrefs(m.space, ORDINARY.(kind := Reply, hasReceiveRight := true), n);
      } else if t.TimerCreate? {
        AllocationUrefs(m.space, ORDINARY.(kind := Timer, hasReceiveRight := true), n);
      } else if t.HostSelf? || t.HostMessage? || t.ThreadSelf? || t.BootstrapMessage? || t.ClockMessage? {
        CopyoutUrefs(m.space, if t.ClockMessage? then t.clock else 0, n);
      }
    }
  }

  /** Over any run, the send references of a name are the copy-outs minus the drops plus the
      adjustments that the guest saw succeed. */
  lemma {:induction false} RunConserves(m: Machine, traps: seq<Trap>, n: Name)
    requires Valid(m.space)
    ensures |Run(m, traps).1| == |traps|
    ensures Urefs(Run(m, traps).0.space, n) == Urefs(m.space, n) + Changes(traps, Run(m, traps).1, n)
    decreases |traps|
  {
    hide Valid, Step, Change;
    if traps != [] {
      StepKeeps(m, traps[0]);
      StepConserves(m, traps[0], n);
      RunConserves(Step(m, traps[0]).machine, traps[1..], n);
      assert Run(m, traps).1[1..] == Run(Step(m, traps[0]).machine, traps[1..]).1;
    }
  }

  // ----- a cached send right that trap 19 takes to zero

  /** The objects whose name is handed out again. */
  datatype Service = HostService | ThreadService | BootstrapService | ClockService(clock: u32)

  function Cached(s: Space, v: Service): Option<Name> {
    match v
    case HostService => s.hostSelf
    case ThreadService => s.threadSelf
    case BootstrapService => s.bootstrap
    case ClockService(clock) => if clock in s.clocks then Some(s.clocks[clock]) else None
  }

  function KindOf(v: Service): PortType {
    match v
    case HostService => Host
    case ThreadService => Thread
    case BootstrapService => Bootstrap
    case ClockService(_) => Clock
  }

  predicate Requests(t: Trap, v: Service) {
    match v
    case HostService => t.HostSelf? || t.HostMessage?
    case ThreadService => t.ThreadSelf?
    case BootstrapService => t.BootstrapMessage?
    case ClockService(clock) => t == ClockMessage(clock)
  }

  /** The object has a live port under its cached name, with no reference left. */
  predicate Stuck(s: Space, v: Service) {
    Cached(s, v).Some? && Cached(s, v).value in s.ports && s.ports[Cached(s, v).value].sendUrefs == 0
  }

  /** Trap 19 takes away exactly the references that the cached name has. */
  predicate Strands(m: Machine, t: Trap, v: Service) {
    Cached(m.space, v).Some? && Cached(m.space, v).value in m.space.ports &&
    t.ModRefs? && t.target == TASK_SELF && t.name == Cached(m.space, v).value && t.right == RIGHT_SEND &&
    t.delta == 0 - m.space.ports[t.name].sendUrefs
  }

  /** The cached name and its references are as they were. */
  predicate KeepsService(s: Space, t: Space, v: Service) {
    Cached(t, v) == Cached(s, v) && (Cached(s, v).Some? ==>
      var n := Cached(s, v).value; n in s.ports && n in t.ports && t.ports[n].sendUrefs == s.ports[n].sendUrefs)
  }

  predicate Concerns(s: Space, t: Trap, v: Service) {
    Requests(t, v) || (Cached(s, v).Some? && (t.Deallocate? || t.ModRefs?) && t.name == Cached(s, v).value)
  }

  lemma CachedPort(s: Space, v: Service)
    requires Valid(s) && Cached(s, v).Some?
    ensures var n := Cached(s, v).value;
      n in s.ports && n != TASK_SELF && n != 0 && n != NAME_LIMIT - 1 && s.ports[n].kind == KindOf(v) &&
        !s.ports[n].hasReceiveRight &&
      s.ports[n].sendOnceUrefs == 0 && s.ports[n].sendUrefs <= UREFS_MAXIMUM &&
      (v.ClockService? ==> s.ports[n].context == v.clock)
  {
    hide SetsValid;
  }

  lemma AllocationKeepsService(s: Space, p: Port, v: Service)
    requires Valid(s)
    ensures KeepsService(s, AllocatePort(s, p).space, v)
  {
    if Cached(s, v).Some? { CachedPort(s, v); }
    hide Valid;
    NextOf(s);
    AllocationIs(s, p);
  }

  lemma CreateKeepsService(m: Machine, p: Port, writable: bool, v: Service)
    requires Valid(m.space)
    requires Uncached(p.kind) && p.sendUrefs <= 1 && p.sendOnceUrefs == 0 && p.members == []
    ensures KeepsService(m.space, CreateAndCopyOut(m, p, writable).machine.space, v)
  {
    if Cached(m.space, v).Some? { CachedPort(m.space, v); }
    hide Valid, AllocatePort, RollbackLastAllocation;
    CreateKeeps(m, p, writable);
    AllocationKeepsService(m.space, p.(hasReceiveRight := true), v);
  }

  lemma AddUrefKeepsService(s: Space, name: Name, kind: PortType, v: Service)
    requires Valid(s) && Cached(s, v) != Some(name)
    ensures KeepsService(s, AddUref(s, name, kind, UREFS_MAXIMUM).space, v)
  {
    if Cached(s, v).Some? { CachedPort(s, v); }
    hide Valid;
  }

  /** Different objects have different names. */
  lemma CachedApart(s: Space, v: Service, w: Service)
    requires Valid(s) && v != w && Cached(s, v).Some? && Cached(s, w).Some?
    ensures Cached(s, v) != Cached(s, w)
  {
    CachedPort(s, v);
    CachedPort(s, w);
    hide Valid;
  }

  /** A copy-out leaves the other objects alone. */
  lemma CopyoutsKeepOthers(s: Space, clock: u32, v: Service)
    requires Valid(s)
    ensures v != HostService ==> KeepsService(s, CopyoutHost(s, UREFS_MAXIMUM).space, v)
    ensures v != ThreadService ==> KeepsService(s, CopyoutThread(s, UREFS_MAXIMUM).space, v)
    ensures v != BootstrapService ==> KeepsService(s, CopyoutBootstrap(s, UREFS_MAXIMUM).space, v)
    ensures v != ClockService(clock) ==> KeepsService(s, CopyoutClock(s, clock, UREFS_MAXIMUM).space, v)
  {
    if v != HostService { HostCopyoutKeeps(s, v); }
    if v != ThreadService { ThreadCopyoutKeeps(s, v); }
    if v != BootstrapService { BootstrapCopyoutKeeps(s, v); }
    if v != ClockService(clock) { ClockCopyoutKeeps(s, clock, v); }
  }

  lemma HostCopyoutKeeps(s: Space, v: Service)
    requires Valid(s) && v != HostService
    ensures KeepsService(s, CopyoutHost(s, UREFS_MAXIMUM).space, v)
  {
    hide Valid, AllocatePort, AddUref;
    if s.hostSelf.Some? {
      if Cached(s, v).Some? { CachedApart(s, v, HostService); }
      AddUrefKeepsService(s, s.hostSelf.value, Host, v);
    } else {
      AllocationKeepsService(s, BLANK.(kind := Host, sendUrefs := 1), v);
    }
  }

  lemma ThreadCopyoutKeeps(s: Space, v: Service)
    requires Valid(s) && v != ThreadService
    ensures KeepsService(s, CopyoutThread(s, UREFS_MAXIMUM).space, v)
  {
    hide Valid, AllocatePort, AddUref;
    if s.threadSelf.Some? {
      if Cached(s, v).Some? { CachedApart(s, v, ThreadService); }
      AddUrefKeepsService(s, s.threadSelf.value, Thread, v);
    } else {
      AllocationKeepsService(s, BLANK.(kind := Thread, sendUrefs := 1), v);
    }
  }

  lemma BootstrapCopyoutKeeps(s: Space, v: Service)
    requires Valid(s) && v != BootstrapService
    ensures KeepsService(s, CopyoutBootstrap(s, UREFS_MAXIMUM).space, v)
  {
    hide Valid, AllocatePort, AddUref;
    if s.bootstrap.Some? {
      if Cached(s, v).Some? { CachedApart(s, v, BootstrapService); }
      AddUrefKeepsService(s, s.bootstrap.value, Bootstrap, v);
    } else {
      AllocationKeepsService(s, BLANK.(kind := Bootstrap, sendUrefs := 1), v);
    }
  }

  lemma ClockCopyoutKeeps(s: Space, clock: u32, v: Service)
    requires Valid(s) && v != ClockService(clock)
    ensures KeepsService(s, CopyoutClock(s, clock, UREFS_MAXIMUM).space, v)
  {
    if Cached(s, v).Some? { CachedPort(s, v); }
    hide Valid, AllocatePort, AddUref;
    if clock in s.clocks {
      if Cached(s, v).Some? { CachedApart(s, v, ClockService(clock)); }
      AddUrefKeepsService(s, s.clocks[clock], Clock, v);
    } else {
      AllocationKeepsService(s, BLANK.(kind := Clock, context := clock, sendUrefs := 1), v);
    }
  }

  lemma EraseKeepsOthers(s: Space, name: Name, v: Service)
    requires name in s.ports && Cached(s, v) != Some(name) && (Cached(s, v).Some? ==> Cached(s, v).value in s.ports)
    requires s.ports[name].kind == Clock ==> NamesClock(s.ports, s.clocks, name)
    ensures KeepsService(s, Erase(s, name), v)
  {
  }

  lemma KeepsTwice(a: Space, b: Space, c: Space, v: Service)
    requires KeepsService(a, b, v) && KeepsService(b, c, v)
    ensures KeepsService(a, c, v)
  {
  }

  lemma DropKeepsOthers(s: Space, name: Name, v: Service)
    requires Valid(s) && Cached(s, v) != Some(name)
    ensures KeepsService(s, DeallocateUref(s, name).0, v)
  {
    if Cached(s, v).Some? { CachedPort(s, v); }
    assert name in s.ports && s.ports[name].kind == Clock ==> NamesClock(s.ports, s.clocks, name);
    hide Valid;
    SameKeepsService(s, v);
    if name in s.ports {
      var p := s.ports[name];
      var less := if p.sendUrefs != 0 then p.(sendUrefs := p.sendUrefs - 1) else p;
      var dropped := s.(ports := s.ports[name := less]);
      UpdateKeepsService(s, name, less, v);
      EraseKeepsOthers(dropped, name, v);
      KeepsTwice(s, dropped, Erase(dropped, name), v);
    }
    hide KeepsService, Cached, Erase;
  }

  lemma ModRefsKeepsService(m: Machine, name: Name, right: u32, delta: int, v: Service)
    requires Cached(m.space, v).Some? ==> Cached(m.space, v).value in m.space.ports
    requires Cached(m.space, v) != Some(name)
    ensures KeepsService(m.space, StepModRefs(m, name, right, delta).machine.space, v)
  {
    hide KeepsService, Cached;
    SameKeepsService(m.space, v);
    if name in m.space.ports {
      var updated := m.space.ports[name].sendUrefs + delta;
      if 0 <= updated <= UREFS_MAXIMUM {
        UpdateKeepsService(m.space, name, m.space.ports[name].(sendUrefs := updated), v);
      }
    }
  }

  lemma MoveMemberKeepsService(m: Machine, member: Name, set_: Name, v: Service)
    requires Cached(m.space, v).Some? ==> Cached(m.space, v).value in m.space.ports
    ensures KeepsService(m.space, StepMoveMember(m, member, set_).machine.space, v)
  {
    hide KeepsService, Cached;
    SameKeepsService(m.space, v);
    if set_ in m.space.ports {
      var s := m.space.ports[set_];
      UpdateKeepsService(m.space, set_, s.(members := s.members + [member]), v);
    }
  }

  lemma TaskSelfKeepsService(m: Machine, v: Service)
    requires Cached(m.space, v).Some? ==> Cached(m.space, v).value in m.space.ports
    requires Cached(m.space, v) != Some(TASK_SELF)
    ensures KeepsService(m.space, StepTaskSelf(m).machine.space, v)
  {
    hide KeepsService, Cached;
    SameKeepsService(m.space, v);
    if TASK_SELF in m.space.ports && m.space.ports[TASK_SELF].sendUrefs != UREFS_MAXIMUM {
      var p := m.space.ports[TASK_SELF];
      UpdateKeepsService(m.space, TASK_SELF, p.(sendUrefs := p.sendUrefs + 1), v);
    }
  }

  lemma SameKeepsService(s: Space, v: Service)
    requires Cached(s, v).Some? ==> Cached(s, v).value in s.ports
    ensures KeepsService(s, s, v)
  {
  }

  lemma UpdateKeepsService(s: Space, name: Name, p: Port, v: Service)
    requires name in s.ports && (Cached(s, v).Some? ==> Cached(s, v).value in s.ports)
    requires Cached(s, v) == Some(name) ==> p.sendUrefs == s.ports[name].sendUrefs
    ensures KeepsService(s, s.(ports := s.ports[name := p]), v)
  {
  }

  /** Only three kinds of traps touch a cached name or its references. */
  lemma OthersKeepService(m: Machine, t: Trap, v: Service)
    requires Valid(m.space) && !Concerns(m.space, t, v)
    ensures KeepsService(m.space, Step(m, t).machine.space, v)
  {
    hide Valid, AllocatePort, CreateAndCopyOut, CopyoutHost, CopyoutThread, CopyoutBootstrap, CopyoutClock,
      DeallocateUref, Cached, KeepsService, StepModRefs, StepMoveMember, StepTaskSelf;
    if Cached(m.space, v).Some? { CachedPort(m.space, v); }
    SameKeepsService(m.space, v);
    if ForTask(t) {
      if t.Allocate? {
        CreateKeepsService(m, ORDINARY.(kind := if t.right == 3 then PortSet else Ordinary), t.writable, v);
      } else if t.Deallocate? {
        DropKeepsOthers(m.space, t.name, v);
      } else if t.ModRefs? {
        ModRefsKeepsService(m, t.name, t.right, t.delta, v);
      } else if t.MoveMember? {
        MoveMemberKeepsService(m, t.member, t.set_, v);
      } else if t.TaskSelf? {
        TaskSelfKeepsService(m, v);
      } else if t.Construct? {
        if t.options.Some? { CreateKeepsService(m, ConstructedPort(t.options.value, t.context), t.writable, v); }
      } else if t.SemaphoreMessage? {
        AllocationKeepsService(m.space,
          BLANK.(kind := Semaphore, sendUrefs := 1, context := t.value, optionFlags := t.policy), v);
      } else if t.ReplyPort? || t.SpecialReplyPort? {
        AllocationKeepsService(m.space, ORDINARY.(kind := Reply, hasReceiveRight := true), v);
      } else if t.TimerCreate? {
        AllocationKeepsService(m.space, ORDINARY.(kind := Timer, hasReceiveRight := true), v);
      } else {
        CopyoutsKeepOthers(m.space, if t.ClockMessage? then t.clock else 0, v);
      }
    }
  }

  function Copyout(s: Space, v: Service): Named {
    match v
    case HostService => CopyoutHost(s, UREFS_MAXIMUM)
    case ThreadService => CopyoutThread(s, UREFS_MAXIMUM)
    case BootstrapService => CopyoutBootstrap(s, UREFS_MAXIMUM)
    case ClockService(clock) => CopyoutClock(s, clock, UREFS_MAXIMUM)
  }

  /** A copy-out makes a port with one reference, adds one, or, at none or at the maximum, fails. */
  lemma CopyoutOutcome(s: Space, v: Service)
    requires Valid(s)
    ensures Stuck(Copyout(s, v).space, v) <==> Stuck(s, v)
    ensures Stuck(s, v) ==> Copyout(s, v).name.None?
  {
    NextOf(s);
    if Cached(s, v).Some? {
      CachedPort(s, v);
      hide Valid, AllocatePort;
    } else {
      hide Valid, AllocatePort;
      AllocationIs(s, BLANK.(kind := KindOf(v), context := if v.ClockService? then v.clock else 0, sendUrefs := 1));
    }
  }

  lemma RequestOutcome(m: Machine, t: Trap, v: Service)
    requires Valid(m.space) && Requests(t, v)
    ensures Stuck(Step(m, t).machine.space, v) <==> Stuck(m.space, v)
    ensures Stuck(m.space, v) ==> !Step(m, t).answer.Gave?
  {
    CopyoutOutcome(m.space, v);
    hide Valid, CopyoutHost, CopyoutThread, CopyoutBootstrap, CopyoutClock, Stuck;
  }

  /** A drop erases the port together with the cached name when it takes the last reference. */
  lemma DropOutcome(m: Machine, t: Trap, v: Service)
    requires Valid(m.space) && t.Deallocate? && Cached(m.space, v) == Some(t.name)
    ensures Stuck(Step(m, t).machine.space, v) <==> Stuck(m.space, v)
  {
    CachedPort(m.space, v);
    hide Valid;
  }

  lemma AdjustOutcome(m: Machine, t: Trap, v: Service)
    requires Valid(m.space) && t.ModRefs? && Cached(m.space, v) == Some(t.name)
    ensures Stuck(Step(m, t).machine.space, v) <==> Stuck(m.space, v) || Strands(m, t, v)
  {
    CachedPort(m.space, v);
    hide Valid;
  }

  /** One trap leaves a cached name without references exactly if it was so before, or the trap is
      a call of trap 19 that takes away all it has. Drops never do that: they erase the name. */
  lemma StuckExactly(m: Machine, t: Trap, v: Service)
    requires Valid(m.space)
    ensures Stuck(Step(m, t).machine.space, v) <==> Stuck(m.space, v) || Strands(m, t, v)
    ensures Stuck(m.space, v) && Requests(t, v) ==> !Step(m, t).answer.Gave?
  {
    hide Valid, Step;
    if Requests(t, v) {
      RequestOutcome(m, t, v);
    } else if !Concerns(m.space, t, v) {
      OthersKeepService(m, t, v);
    } else if t.Deallocate? {
      DropOutcome(m, t, v);
    } else {
      AdjustOutcome(m, t, v);
    }
  }

  /** Some trap of the run takes away all references of the cached name. */
  predicate StrandsDuring(m: Machine, traps: seq<Trap>, v: Service)
    decreases |traps|
  {
    traps != [] && (Strands(m, traps[0], v) || StrandsDuring(Step(m, traps[0]).machine, traps[1..], v))
  }

  /** Over any run: at its end the cached name has no reference exactly if it had none before or
      some trap 19 of the run took them all. */
  lemma {:induction false} StuckAfterRun(m: Machine, traps: seq<Trap>, v: Service)
    requires Valid(m.space)
    ensures Stuck(Run(m, traps).0.space, v) <==> Stuck(m.space, v) || StrandsDuring(m, traps, v)
    decreases |traps|
  {
    hide Valid, Step, Stuck, Strands;
    if traps != [] {
      StepKeeps(m, traps[0]);
      StuckExactly(m, traps[0], v);
      StuckAfterRun(Step(m, traps[0]).machine, traps[1..], v);
    }
  }

  /** From the initial namespace only trap 19 brings it about. */
  lemma StuckFromStart(traps: seq<Trap>, v: Service)
    ensures var start := Machine(INITIAL, None);
      Stuck(Run(start, traps).0.space, v) <==> StrandsDuring(start, traps, v)
  {
    InitialIsValid();
    StuckAfterRun(Machine(INITIAL, None), traps, v);
  }

  /** And once it has happened no request for the object gives a port, however the run goes on. */
  lemma {:induction false} StrandedForever(m: Machine, traps: seq<Trap>, v: Service)
    requires Valid(m.space) && Stuck(m.space, v)
    ensures Stuck(Run(m, traps).0.space, v)
    ensures |Run(m, traps).1| == |traps|
    ensures forall i | 0 <= i < |traps| && Requests(traps[i], v) :: !Run(m, traps).1[i].Gave?
    decreases |traps|
  {
    hide Valid, Step, Stuck;
    if traps != [] {
      StepKeeps(m, traps[0]);
      StuckExactly(m, traps[0], v);
      StrandedForever(Step(m, traps[0]).machine, traps[1..], v);
    }
  }

  /** It does happen: two traps are enough for the host and the thread. */
  lemma StrandedRun(t: Trap, v: Service)
    requires (v == HostService && (t == HostSelf || t == HostMessage)) || (v == ThreadService && t == ThreadSelf)
    ensures var traps := [t, ModRefs(TASK_SELF, FIRST_NAME, RIGHT_SEND, -1)];
      Stuck(Run(Machine(INITIAL, None), traps).0.space, v)
  {
    var start := Machine(INITIAL, None);
    var m := Step(start, t).machine;
    var adjust := ModRefs(TASK_SELF, FIRST_NAME, RIGHT_SEND, -1);
    assert Cached(m.space, v) == Some(FIRST_NAME) && m.space.ports[FIRST_NAME].sendUrefs == 1;
    assert Strands(m, adjust, v);
    var traps := [t, adjust];
    assert traps[1..] == [adjust] && [adjust][1..] == [];
    assert StrandsDuring(m, [adjust], v);
    assert StrandsDuring(start, traps, v);
    StuckFromStart(traps, v);
  }
}
