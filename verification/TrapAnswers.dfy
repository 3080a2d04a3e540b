/** What each trap answers and changes, said on the ports alone, and the members of port sets over
    whole runs. */
module TrapAnswers {
  import opened Options
  import opened Words
  import opened PortSpace
  import opened PortTraps

  // ----- the pieces

  /** No name is left: the one after the next would not fit 32 bits. */
  predicate NoName(s: Space) { s.nextSyntheticName + 0x100 > 0xFFFF_FFFF }

  /** The space with one more port, under the next name. */
  function WithPort(s: Space, p: Port): Space
    requires !NoName(s)
  {
    s.(ports := s.ports[s.nextSyntheticName := p], nextSyntheticName := s.nextSyntheticName + 0x100)
  }

  /** A new port was made, under a name that was free, and nothing else has changed. */
  predicate Makes(m: Machine, r: Stepped, p: Port) {
    var n := m.space.nextSyntheticName;
    !NoName(m.space) && n !in m.space.ports && r == Stepped(m.(space := WithPort(m.space, p)), Gave(n))
  }

  /** Only this port has changed. */
  predicate Replaces(m: Machine, r: Stepped, n: Name, p: Port) {
    r.machine == m.(space := m.space.(ports := m.space.ports[n := p]))
  }

  function ReceiveRight(kind: PortType): Port { Port(kind, true, 0, 0, 0, 5, false, 0, false, 0, []) }

  function SendRight(kind: PortType, context: u64, flags: u32): Port {
    Port(kind, false, 1, 0, context, 0, false, 0, false, flags, [])
  }

  // ----- the traps that name a target task

  predicate AnswersAllocate(m: Machine, right: u32, writable: bool, r: Stepped) {
    var known := right == 1 || right == 3;
    (r.answer == Status(18) <==> !known) &&
    (r.answer == Status(3) <==> known && NoName(m.space)) &&
    (r.answer == Status(1) <==> known && !NoName(m.space) && !writable) &&
    (r.answer.Gave? <==> known && !NoName(m.space) && writable) &&
    (if r.answer.Gave? then Makes(m, r, ReceiveRight(if right == 3 then PortSet else Ordinary)) else r.machine == m)
  }

  predicate Holds(s: Space, n: Name) { n in s.ports && s.ports[n].sendUrefs > 0 }

  /** Zero and all ones are accepted and mean no port. */
  predicate IsNoName(n: Name) { n == 0 || n == 0xFFFF_FFFF }

  predicate AnswersDeallocate(m: Machine, name: Name, r: Stepped) {
    var s := m.space;
    (r.answer == Status(0) <==> IsNoName(name) || Holds(s, name)) &&
    (r.answer == Status(15) <==> !IsNoName(name) && name !in s.ports) &&
    (r.answer == Status(17) <==> !IsNoName(name) && name in s.ports && !Holds(s, name)) &&
    (if IsNoName(name) || !Holds(s, name) then r.machine == m
     else if IsLast(s, name) then r.machine == m.(space := Without(s, name))
     else Replaces(m, r, name, s.ports[name].(sendUrefs := s.ports[name].sendUrefs - 1)))
  }

  /** The last reference to a port that is neither the task nor received on. */
  predicate IsLast(s: Space, n: Name) {
    n != 0x103 && n in s.ports && !s.ports[n].hasReceiveRight && s.ports[n].sendUrefs == 1
  }

  function Forget(cached: Option<Name>, n: Name): Option<Name> { if cached == Some(n) then None else cached }

  /** Neither the port nor any cached name for it. */
  function Without(s: Space, n: Name): Space {
    Space(map k | k in s.ports && k != n :: s.ports[k], s.nextSyntheticName, Forget(s.hostSelf, n),
      Forget(s.threadSelf, n), Forget(s.bootstrap, n), map c | c in s.clocks && s.clocks[c] != n :: s.clocks[c])
  }

  predicate AnswersModRefs(m: Machine, name: Name, right: u32, delta: int, r: Stepped) {
    var held := Holds(m.space, name);
    var updated := if held then m.space.ports[name].sendUrefs + delta else 0;
    (r.answer == Status(18) <==> right >= 6 || (held && right == 0 && updated < 0)) &&
    (r.answer == Status(15) <==> right < 6 && !held) &&
    (r.answer == Status(17) <==> 0 < right < 6 && held) &&
    (r.answer == Status(19) <==> right == 0 && held && updated > 0xFFFF) &&
    (r.answer == Status(0) <==> right == 0 && held && 0 <= updated <= 0xFFFF) &&
    (if right == 0 && held && 0 <= updated <= 0xFFFF
     then Replaces(m, r, name, m.space.ports[name].(sendUrefs := updated))
     else r.machine == m)
  }

  /** Both names are live, the set is a set, and the member a receive right that is no set. */
  predicate CanJoin(s: Space, member: Name, set_: Name) {
    member in s.ports && set_ in s.ports &&
    s.ports[set_].kind == PortSet && s.ports[member].hasReceiveRight && s.ports[member].kind != PortSet
  }

  function Joined(members: seq<Name>, member: Name): seq<Name> {
    if member in members then members else members + [member]
  }

  predicate AnswersMoveMember(m: Machine, member: Name, set_: Name, r: Stepped) {
    var s := m.space;
    (r.answer == Status(15) <==> member !in s.ports || set_ !in s.ports) &&
    (r.answer == Status(17) <==> member in s.ports && set_ in s.ports && !CanJoin(s, member, set_)) &&
    (r.answer == Status(0) <==> CanJoin(s, member, set_)) &&
    (if CanJoin(s, member, set_)
     then Replaces(m, r, set_, s.ports[set_].(members := Joined(s.ports[set_].members, member)))
     else r.machine == m)
  }

  /** Only these combinations of options are built; all others end the run. */
  predicate IsBuilt(o: PortOptions) {
    !o.policy && (o.reply ==> !o.contextAsGuard && !o.queueLimited && !o.insertSend && !o.strict)
  }

  predicate AnswersConstruct(m: Machine, options: Option<PortOptions>, context: u64, accessible: bool, writable: bool,
                             r: Stepped)
  {
    var built := options.Some? && IsBuilt(options.value);
    (r.answer == Threw <==> options.Some? && !built) &&
    (r.answer == Status(3) <==> built && accessible && NoName(m.space)) &&
    (r.answer == Status(1) <==> options.None? || (built && (!accessible || (!NoName(m.space) && !writable)))) &&
    (r.answer.Gave? <==> built && accessible && !NoName(m.space) && writable) &&
    (if r.answer.Gave? then Makes(m, r, Built(options, context)) else r.machine == m)
  }

  function Built(options: Option<PortOptions>, context: u64): Port {
    if options.None? then BLANK
    else
      var o := options.value;
      Port(if o.reply then Reply else Ordinary, true, if o.insertSend then 1 else 0, 0, context,
        if o.queueLimited then o.queueLimit else 5, o.contextAsGuard, if o.contextAsGuard then context else 0,
        o.strict, o.flags, [])
  }

  // ----- the traps and messages that hand out a right

  /** A fresh right, or the failure answer if no name is left. */
  predicate AnswersFresh(m: Machine, p: Port, failure: Answer, r: Stepped) {
    if NoName(m.space) then r == Stepped(m, failure) else Makes(m, r, p)
  }

  /** A right to an object with a cached name: the first one makes the port, later ones add a
      reference, and none or the most that fit are failures. */
  predicate AnswersCopyout(m: Machine, cached: Option<Name>, p: Port, made: Space, failure: Answer, r: Stepped) {
    if cached.None? then
      if NoName(m.space) then r == Stepped(m, failure)
      else
        r == Stepped(m.(space := made), Gave(m.space.nextSyntheticName)) &&
        m.space.nextSyntheticName !in m.space.ports
    else
      var n := cached.value;
      n in m.space.ports && m.space.ports[n].kind == p.kind &&
      (p.kind == Clock ==> m.space.ports[n].context == p.context) &&
      var urefs := m.space.ports[n].sendUrefs;
      if urefs == 0 || urefs == 0xFFFF then r == Stepped(m, failure)
      else r.answer == Gave(n) && Replaces(m, r, n, m.space.ports[n].(sendUrefs := urefs + 1))
  }

  predicate AnswersHost(m: Machine, failure: Answer, r: Stepped) {
    var p, s := SendRight(Host, 0, 0), m.space;
    AnswersCopyout(m, s.hostSelf, p, if NoName(s) then s else WithPort(s, p).(hostSelf := Some(s.nextSyntheticName)),
      failure, r)
  }

  predicate AnswersThread(m: Machine, failure: Answer, r: Stepped) {
    var p, s := SendRight(Thread, 0, 0), m.space;
    AnswersCopyout(m, s.threadSelf, p,
      if NoName(s) then s else WithPort(s, p).(threadSelf := Some(s.nextSyntheticName)), failure, r)
  }

  predicate AnswersBootstrap(m: Machine, failure: Answer, r: Stepped) {
    var p, s := SendRight(Bootstrap, 0, 0), m.space;
    AnswersCopyout(m, s.bootstrap, p,
      if NoName(s) then s else WithPort(s, p).(bootstrap := Some(s.nextSyntheticName)), failure, r)
  }

  predicate AnswersClock(m: Machine, clock: u32, failure: Answer, r: Stepped) {
    var p, s := SendRight(Clock, clock, 0), m.space;
    AnswersCopyout(m, if clock in s.clocks then Some(s.clocks[clock]) else None, p,
      if NoName(s) then s else WithPort(s, p).(clocks := s.clocks[clock := s.nextSyntheticName]), failure, r)
  }

  predicate AnswersTaskSelf(m: Machine, r: Stepped) {
    0x103 in m.space.ports &&
    var p := m.space.ports[0x103];
    if p.sendUrefs == 0xFFFF then r == Stepped(m, NoPort)
    else r.answer == Gave(0x103) && Replaces(m, r, 0x103, p.(sendUrefs := p.sendUrefs + 1))
  }

  /** One special reply port for all calls. */
  predicate AnswersSpecialReply(m: Machine, r: Stepped) {
    if m.specialReplyPort.Some? then r == Stepped(m, Gave(m.specialReplyPort.value))
    else if NoName(m.space) then r == Stepped(m, NoPort)
    else
      var n := m.space.nextSyntheticName;
      n !in m.space.ports && r == Stepped(Machine(WithPort(m.space, ReceiveRight(Reply)), Some(n)), Gave(n))
  }

  // ----- all of them

  function Target(t: Trap): Option<u64> {
    if t.Allocate? || t.Deallocate? || t.ModRefs? || t.MoveMember? || t.Construct? then Some(t.target) else None
  }

  /** The answer of a trap and all that it changes. */
  predicate Answers(m: Machine, t: Trap, r: Stepped) {
    if Target(t).Some? && Target(t).value != 0x103 then r == Stepped(m, Status(0x1000_0003))
    else
      match t
      case Allocate(_, right, writable) => AnswersAllocate(m, right, writable, r)
      case Deallocate(_, name) => AnswersDeallocate(m, name, r)
      case ModRefs(_, name, right, delta) => AnswersModRefs(m, name, right, delta, r)
      case MoveMember(_, member, set_) => AnswersMoveMember(m, member, set_, r)
      case Construct(_, options, context, accessible, writable) =>
        AnswersConstruct(m, options, context, accessible, writable, r)
      case ReplyPort => AnswersFresh(m, ReceiveRight(Reply), NoPort, r)
      case ThreadSelf => AnswersThread(m, NoPort, r)
      case TaskSelf => AnswersTaskSelf(m, r)
      case HostSelf => AnswersHost(m, NoPort, r)
      case SpecialReplyPort => AnswersSpecialReply(m, r)
      case TimerCreate => AnswersFresh(m, ReceiveRight(Timer), Status(3), r)
      case HostMessage => AnswersHost(m, Threw, r)
      case BootstrapMessage => AnswersBootstrap(m, Threw, r)
      case ClockMessage(clock) => AnswersClock(m, clock, Threw, r)
      case SemaphoreMessage(policy, value) => AnswersFresh(m, SendRight(Semaphore, value, policy), Threw, r)
  }

  lemma FreshAnswers(m: Machine, p: Port, otherwise: Answer)
    requires Valid(m.space)
    ensures AnswersFresh(m, p, otherwise, Give(m, AllocatePort(m.space, p), otherwise))
  {
    hide Valid;
    NextOf(m.space);
    AllocationIs(m.space, p);
    hide AllocatePort;
  }

  lemma CreateAnswers(m: Machine, p: Port, writable: bool)
    requires Valid(m.space) && Uncached(p.kind) && p.sendUrefs <= 1 && p.sendOnceUrefs == 0 && p.members == []
    ensures var r := CreateAndCopyOut(m, p, writable);
      if NoName(m.space) then r == Stepped(m, Status(3))
      else if !writable then r == Stepped(m, Status(1))
      else Makes(m, r, p.(hasReceiveRight := true))
  {
    hide Valid;
    CreateKeeps(m, p, writable);
    NextOf(m.space);
    AllocationIs(m.space, p.(hasReceiveRight := true));
    hide AllocatePort, RollbackLastAllocation;
  }

  lemma CopyoutAnswers(m: Machine, v: Service, failure: Answer)
    requires Valid(m.space)
    ensures AnswersService(m, v, failure, Give(m, Copyout(m.space, v), failure))
  {
    hide Valid, AllocatePort;
    var s := m.space;
    if Cached(s, v).Some? { CachedPort(s, v); }
    NextOf(s);
    AllocationIs(s, SendRight(KindOf(v), if v.ClockService? then v.clock else 0, 0));
  }

  predicate AnswersService(m: Machine, v: Service, failure: Answer, r: Stepped) {
    match v
    case HostService => AnswersHost(m, failure, r)
    case ThreadService => AnswersThread(m, failure, r)
    case BootstrapService => AnswersBootstrap(m, failure, r)
    case ClockService(clock) => AnswersClock(m, clock, failure, r)
  }

  lemma DropAnswers(m: Machine, name: Name)
    requires Valid(m.space)
    ensures AnswersDeallocate(m, name, Step(m, Deallocate(TASK_SELF, name)))
  {
    var s := m.space;
    if name in s.ports { UrefsOf(s, name); }
    if Holds(s, name) && IsLast(s, name) {
      ErasedIs(s, name);
    }
    hide Valid, Erase, Without;
  }

  /** Erasing takes the cached names by what they are for, which under the invariant are exactly
      those that stand for the port. */
  lemma ErasedIs(s: Space, n: Name)
    requires Valid(s) && n in s.ports
    ensures forall p: Port | p.kind == s.ports[n].kind && p.context == s.ports[n].context ::
      Erase(s.(ports := s.ports[n := p]), n) == Without(s, n)
  {
    forall p: Port | p.kind == s.ports[n].kind && p.context == s.ports[n].context
      ensures Erase(s.(ports := s.ports[n := p]), n) == Without(s, n)
    {
      ClocksOf(s, n);
      assert s.ports[n := p] - {n} == map k | k in s.ports && k != n :: s.ports[k];
    }
  }

  lemma ClocksOf(s: Space, n: Name)
    requires Valid(s) && n in s.ports
    ensures (map c | c in s.clocks && s.clocks[c] != n :: s.clocks[c]) ==
      if s.ports[n].kind == Clock then s.clocks - {s.ports[n].context % NAME_LIMIT} else s.clocks
  {
    hide SetsValid, NamesValid, UrefsValid, CacheValid;
  }

  /** Every trap answers and changes what is written here, whatever the ports. */
  lemma StepAnswers(m: Machine, t: Trap)
    requires Valid(m.space)
    ensures Answers(m, t, Step(m, t))
  {
    hide Valid, AllocatePort, CreateAndCopyOut, DeallocateUref, AnswersDeallocate, AnswersHost, AnswersThread,
      AnswersBootstrap, AnswersClock, AnswersFresh, CopyoutHost, CopyoutThread, CopyoutBootstrap, CopyoutClock, Give;
    if ForTask(t) {
      if t.Allocate? {
        CreateAnswers(m, ORDINARY.(kind := if t.right == 3 then PortSet else Ordinary), t.writable);
      } else if t.Deallocate? {
        DropAnswers(m, t.name);
      } else if t.Construct? {
        if t.options.Some? { CreateAnswers(m, ConstructedPort(t.options.value, t.context), t.writable); }
      } else if t.ReplyPort? {
        FreshAnswers(m, ReceiveRight(Reply), NoPort);
      } else if t.TimerCreate? {
        FreshAnswers(m, ReceiveRight(Timer), Status(KERN_NO_SPACE));
      } else if t.SemaphoreMessage? {
        FreshAnswers(m, SendRight(Semaphore, t.value, t.policy), Threw);
      } else if t.SpecialReplyPort? {
        SpecialReplyAnswers(m);
      } else if t.TaskSelf? {
        NextOf(m.space);
      } else if t.HostSelf? {
        CopyoutAnswers(m, HostService, NoPort);
      } else if t.HostMessage? {
        CopyoutAnswers(m, HostService, Threw);
      } else if t.ThreadSelf? {
        CopyoutAnswers(m, ThreadService, NoPort);
      } else if t.BootstrapMessage? {
        CopyoutAnswers(m, BootstrapService, Threw);
      } else if t.ClockMessage? {
        CopyoutAnswers(m, ClockService(t.clock), Threw);
      }
    }
  }

  lemma SpecialReplyAnswers(m: Machine)
    requires Valid(m.space)
    ensures AnswersSpecialReply(m, StepSpecialReplyPort(m))
  {
    hide Valid;
    NextOf(m.space);
    AllocationIs(m.space, ReceiveRight(Reply));
    hide AllocatePort;
  }

  /** So at every point of every run. */
  lemma {:induction false} RunAnswers(m: Machine, traps: seq<Trap>, i: nat)
    requires Valid(m.space) && i < |traps|
    ensures |Run(m, traps).1| == |traps|
    ensures Answers(Run(m, traps[..i]).0, traps[i], Stepped(Run(m, traps[..i + 1]).0, Run(m, traps).1[i]))
    decreases |traps|
  {
    hide Valid, Step, Answers;
    AnswersCount(m, traps);
    StepAnswers(m, traps[0]);
    StepKeeps(m, traps[0]);
    var next := Step(m, traps[0]).machine;
    if i == 0 {
      assert traps[..1][1..] == [];
    } else {
      RunAnswers(next, traps[1..], i - 1);
      assert traps[..i][1..] == traps[1..][..i - 1] && traps[..i + 1][1..] == traps[1..][..i];
    }
  }

  lemma {:induction false} AnswersCount(m: Machine, traps: seq<Trap>)
    ensures |Run(m, traps).1| == |traps|
    decreases |traps|
  {
    hide Step;
    if traps != [] { AnswersCount(Step(m, traps[0]).machine, traps[1..]); }
  }

  // ----- the members of a set over a run

  function Members(s: Space, n: Name): seq<Name> {
    if n in s.ports then s.ports[n].members else []
  }

  /** A trap 22 on the set that succeeded. */
  predicate Joins(t: Trap, a: Answer, n: Name) { t.MoveMember? && t.set_ == n && a == Status(0) }

  /** The names whose trap 22 on the set succeeded, in order, each once, behind those there were. */
  function Gathered(members: seq<Name>, traps: seq<Trap>, answers: seq<Answer>, n: Name): seq<Name>
    requires |answers| == |traps|
    decreases |traps|
  {
    if traps == [] then members
    else
      var more := if Joins(traps[0], answers[0], n) then Joined(members, traps[0].member) else members;
      Gathered(more, traps[1..], answers[1..], n)
  }

  /** Only sets have members, and every set is received on. */
  predicate SetsReceived(s: Space) {
    forall n | n in s.ports :: SetReceived(s.ports[n])
  }

  predicate SetReceived(p: Port) {
    (p.members != [] ==> p.kind == PortSet) && (p.kind == PortSet ==> p.hasReceiveRight)
  }

  lemma StepKeepsSets(m: Machine, t: Trap)
    requires Valid(m.space) && SetsReceived(m.space)
    ensures SetsReceived(Step(m, t).machine.space)
  {
    hide Step, Valid;
    StepAnswers(m, t);
  }

  /** Nothing but trap 22 changes the members of a set. */
  lemma StepMembers(m: Machine, t: Trap, n: Name)
    requires Valid(m.space) && SetsReceived(m.space)
    ensures var r := Step(m, t);
      Members(r.machine.space, n) ==
        if Joins(t, r.answer, n) then Joined(Members(m.space, n), t.member) else Members(m.space, n)
  {
    hide Step, Valid;
    assert n in m.space.ports ==> SetReceived(m.space.ports[n]);
    StepAnswers(m, t);
  }

  /** Over any run the members of a set are those it had and then the names whose trap 22 on it
      succeeded, in order. */
  lemma {:induction false} RunMembers(m: Machine, traps: seq<Trap>, n: Name)
    requires Valid(m.space) && SetsReceived(m.space)
    ensures |Run(m, traps).1| == |traps|
    ensures Members(Run(m, traps).0.space, n) == Gathered(Members(m.space, n), traps, Run(m, traps).1, n)
    decreases |traps|
  {
    hide Valid, Step, Joins, Joined, SetsReceived;
    if traps != [] {
      StepKeeps(m, traps[0]);
      StepKeepsSets(m, traps[0]);
      StepMembers(m, traps[0], n);
      RunMembers(Step(m, traps[0]).machine, traps[1..], n);
      assert Run(m, traps).1[1..] == Run(Step(m, traps[0]).machine, traps[1..]).1;
    }
  }

  predicate JoinsAt(traps: seq<Trap>, answers: seq<Answer>, n: Name, i: nat, x: Name)
    requires |answers| == |traps|
  {
    i < |traps| && Joins(traps[i], answers[i], n) && traps[i].member == x
  }

  /** Exactly those names, and none twice. */
  lemma {:induction false} GatheredExactly(members: seq<Name>, traps: seq<Trap>, answers: seq<Answer>, n: Name, x: Name)
    requires |answers| == |traps| && forall i, j | 0 <= i < j < |members| :: members[i] != members[j]
    ensures var all := Gathered(members, traps, answers, n);
      (x in all <==> x in members || exists i: nat :: JoinsAt(traps, answers, n, i, x)) &&
      members <= all && forall i, j | 0 <= i < j < |all| :: all[i] != all[j]
    decreases |traps|
  {
    if traps != [] {
      var more := if Joins(traps[0], answers[0], n) then Joined(members, traps[0].member) else members;
      GatheredExactly(more, traps[1..], answers[1..], n, x);
      if exists i: nat :: JoinsAt(traps, answers, n, i, x) {
        var i: nat :| JoinsAt(traps, answers, n, i, x);
        if i > 0 { assert JoinsAt(traps[1..], answers[1..], n, i - 1, x); }
      }
      if exists i: nat :: JoinsAt(traps[1..], answers[1..], n, i, x) {
        var i: nat :| JoinsAt(traps[1..], answers[1..], n, i, x);
        var next := i + 1;
        assert JoinsAt(traps, answers, n, next, x);
      }
      assert Joins(traps[0], answers[0], n) && traps[0].member == x ==> JoinsAt(traps, answers, n, 0, x);
    }
  }

  /** From the initial namespace: exactly the names that a successful trap 22 has put into the set. */
  lemma MembersFromStart(traps: seq<Trap>, n: Name, x: Name)
    ensures var r := Run(Machine(INITIAL, None), traps);
      |r.1| == |traps| && Members(r.0.space, n) == Gathered([], traps, r.1, n) &&
      (x in Members(r.0.space, n) <==> exists i: nat :: JoinsAt(traps, r.1, n, i, x))
  {
    var start := Machine(INITIAL, None);
    InitialIsValid();
    RunMembers(start, traps, n);
    GatheredExactly([], traps, Run(start, traps).1, n, x);
  }
}
