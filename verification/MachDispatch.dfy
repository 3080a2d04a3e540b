/** The dispatcher of the port traps over the namespace object. */
module MachDispatch {
  import opened Options
  import opened Words
  import opened PortSpace
  import opened PortTraps
  import opened TrapAnswers

  class MachDispatcher {
    const portSpace: GuestPortSpace
    var specialReplyPort: Option<Name>

    ghost function State(): Machine
      reads this, portSpace
    {
      Machine(portSpace.State(), specialReplyPort)
    }

    constructor ()
      ensures State() == Machine(INITIAL, None) && Valid(State().space) && fresh(portSpace)
    {
      portSpace := new GuestPortSpace();
      specialReplyPort := None;
      InitialIsValid();
    }

    method Dispatch(t: Trap) returns (answer: Answer)
      modifies this, portSpace
      ensures Stepped(State(), answer) == Step(old(State()), t)
      ensures old(Valid(State().space)) ==> Valid(State().space) && Answers(old(State()), t, Stepped(State(), answer))
    {
      hide AllocatePort, AddUref, DeallocateUref, RollbackLastAllocation, Erase, Answers, Valid;
      ghost var sound := Valid(State().space);
      if sound {
        StepAnswers(State(), t);
        StepKeeps(State(), t);
      }
      if !ForTask(t) {
        return Status(SEND_INVALID_DESTINATION);
      }
      match t {
        case Allocate(_, right, writable) =>
          if right != 1 && right != 3 {
            return Status(KERN_INVALID_VALUE);
          }
          answer := Create(ORDINARY.(kind := if right == 3 then PortSet else Ordinary), writable);
        case Deallocate(_, name) =>
          var dropped := portSpace.Deallocate(name);
          answer := Status(if dropped.Success? then KERN_SUCCESS else if dropped.InvalidName? then KERN_INVALID_NAME
            else KERN_INVALID_RIGHT);
        case ModRefs(_, name, right, delta) =>
          answer := ModifyRefs(name, right, delta);
        case MoveMember(_, member, set_) =>
          answer := InsertMember(member, set_);
        case Construct(_, options, context, accessible, writable) =>
          if options.None? {
            return Status(KERN_INVALID_ADDRESS);
          }
          if !Modelled(options.value) {
            return Threw;
          }
          if !accessible {
            return Status(KERN_INVALID_ADDRESS);
          }
          answer := Create(ConstructedPort(options.value, context), writable);
        case ReplyPort =>
          var name := portSpace.AllocateReceive(ORDINARY.(kind := Reply));
          answer := if name.Some? then Gave(name.value) else NoPort;
        case ThreadSelf =>
          var name := portSpace.CopyoutThreadSendRight(UREFS_MAXIMUM);
          answer := if name.Some? then Gave(name.value) else NoPort;
        case TaskSelf =>
          answer := CopyoutTask();
        case HostSelf =>
          var name := portSpace.CopyoutHostSendRight(UREFS_MAXIMUM);
          answer := if name.Some? then Gave(name.value) else NoPort;
        case SpecialReplyPort =>
          if specialReplyPort.None? {
            var name := portSpace.AllocateReceive(ORDINARY.(kind := Reply));
            if name.None? {
              return NoPort;
            }
            specialReplyPort := name;
          }
          answer := Gave(specialReplyPort.value);
        case TimerCreate =>
          var name := portSpace.AllocateReceive(ORDINARY.(kind := Timer));
          answer := if name.Some? then Gave(name.value) else Status(KERN_NO_SPACE);
        case HostMessage =>
          var name := portSpace.CopyoutHostSendRight(UREFS_MAXIMUM);
          answer := if name.Some? then Gave(name.value) else Threw;
        case BootstrapMessage =>
          var name := portSpace.CopyoutBootstrapSendRight(UREFS_MAXIMUM);
          answer := if name.Some? then Gave(name.value) else Threw;
        case ClockMessage(clock) =>
          var name := portSpace.CopyoutClockSendRight(clock, UREFS_MAXIMUM);
          answer := if name.Some? then Gave(name.value) else Threw;
        case SemaphoreMessage(policy, value) =>
          var name := portSpace.AllocateSemaphoreSendRight(policy, value);
          answer := if name.Some? then Gave(name.value) else Threw;
      }
    }

    method Create(p: Port, writable: bool) returns (answer: Answer)
      modifies portSpace
      ensures Stepped(State(), answer) == CreateAndCopyOut(old(State()), p, writable)
    {
      hide AllocatePort, RollbackLastAllocation;
      var name := portSpace.AllocateReceive(p);
      if name.None? {
        return Status(KERN_NO_SPACE);
      }
      if !writable {
        portSpace.Rollback(name.value);
        return Status(KERN_INVALID_ADDRESS);
      }
      answer := Gave(name.value);
    }

    method ModifyRefs(name: Name, right: u32, delta: int) returns (answer: Answer)
      modifies portSpace
      ensures Stepped(State(), answer) == StepModRefs(old(State()), name, right, delta)
    {
      if right >= RIGHT_COUNT {
        return Status(KERN_INVALID_VALUE);
      }
      if name !in portSpace.ports || portSpace.ports[name].sendUrefs == 0 {
        return Status(KERN_INVALID_NAME);
      }
      if right != RIGHT_SEND {
        return Status(KERN_INVALID_RIGHT);
      }
      var updated := portSpace.ports[name].sendUrefs + delta;
      if updated < 0 {
        return Status(KERN_INVALID_VALUE);
      }
      if updated > UREFS_MAXIMUM {
        return Status(KERN_UREFS_OVERFLOW);
      }
      portSpace.ports := portSpace.ports[name := portSpace.ports[name].(sendUrefs := updated)];
      answer := Status(KERN_SUCCESS);
    }

    method InsertMember(member: Name, set_: Name) returns (answer: Answer)
      modifies portSpace
      ensures Stepped(State(), answer) == StepMoveMember(old(State()), member, set_)
    {
      if set_ !in portSpace.ports || member !in portSpace.ports {
        return Status(KERN_INVALID_NAME);
      }
      var p := portSpace.ports[set_];
      if p.kind != PortSet || !portSpace.ports[member].hasReceiveRight || portSpace.ports[member].kind == PortSet {
        return Status(KERN_INVALID_RIGHT);
      }
      if member !in p.members {
        portSpace.ports := portSpace.ports[set_ := p.(members := p.members + [member])];
      }
      answer := Status(KERN_SUCCESS);
    }

    method CopyoutTask() returns (answer: Answer)
      modifies portSpace
      ensures Stepped(State(), answer) == StepTaskSelf(old(State()))
    {
      if TASK_SELF !in portSpace.ports {
        return Threw;
      }
      var p := portSpace.ports[TASK_SELF];
      if p.sendUrefs == UREFS_MAXIMUM {
        return NoPort;
      }
      portSpace.ports := portSpace.ports[TASK_SELF := p.(sendUrefs := p.sendUrefs + 1)];
      answer := Gave(TASK_SELF);
    }
  }
}
