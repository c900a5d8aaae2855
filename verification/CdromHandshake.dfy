/** The interrupt and command handshake of the CD-ROM controller (src/core/cdrom.cpp): the interrupt
    flag, the pending asynchronous interrupt, the queued command and the event that executes it. */
module CdromHandshake {
  import opened Common

  const FIFO_SIZE: nat := 16
  const INTERRUPT_REGISTER_MASK: bv8 := 0x1F
  const RESET: nat := 0x0A
  const VIDEO_CD: nat := 0x1F
  const DATA_READY: Interrupt := 1
  const COMPLETE: Interrupt := 2
  const ACK: Interrupt := 3
  const DATA_END: Interrupt := 4
  const ERROR: Interrupt := 5
  const STAT_ERROR: Byte := 1

  type Interrupt = i: bv8 | 1 <= i <= 5 witness 1

  /** s_command_info: parameters that a command expects. */
  function ExpectedParameters(command: nat): nat {
    if command == 0x02 then 3
    else if command == 0x0D || command == 0x1D then 2
    else if command in {0x0E, 0x12, 0x14, 0x19} then 1
    else if command == VIDEO_CD then 6
    else 0
  }

  /** How a command body answers: acknowledged with a response, or refused. */
  datatype Reply = Accept(response: seq<Byte>) | Refuse(stat: Byte, reason: Byte)

  class CDROM {
    var command: Option<nat>
    var secondResponse: Option<nat>
    var armed: bool                    // the command event is active
    var flag: bv8
    var enable: bv8
    var pending: bv8
    var response: seq<Byte>
    var asyncResponse: seq<Byte>
    var parameters: seq<Byte>
    var requests: nat                  // interrupt requests to the CPU so far

    /** A pending asynchronous interrupt waits for a flag that is still set; the event is armed only for
        a queued command; a queued command is armed or waits for the flag. Both at once is left behind
        by the Reset command only. */
    predicate Valid()
      reads this
    {
      && flag <= INTERRUPT_REGISTER_MASK && pending <= INTERRUPT_REGISTER_MASK
      && (pending != 0 ==> flag != 0)
      && (armed ==> command.Some?)
      && (command.Some? ==> armed || flag != 0)
      && (armed && flag != 0 ==> command == Some(RESET))
    }

    constructor ()
      ensures Valid() && command.None? && flag == 0 && pending == 0
    {
      command, secondResponse, armed, flag, pending := None, None, false, 0, 0;
      enable := INTERRUPT_REGISTER_MASK;
      response, asyncResponse, parameters, requests := [], [], [], 0;
    }

    /** Reset of the whole controller. */
    method ResetController()
      modifies this
      ensures Valid() && command.None? && flag == 0 && pending == 0 && requests == old(requests)
      ensures parameters == response == asyncResponse == []
    {
      command, armed, secondResponse := None, false, None;
      enable := INTERRUPT_REGISTER_MASK;
      flag, pending := 0, 0;
      parameters, response, asyncResponse := [], [], [];
    }

    method UpdateInterruptRequest()
      modifies this`requests
      ensures requests == old(requests) + (if flag & enable != 0 then 1 else 0)
    {
      if flag & enable == 0 {
        return;
      }
      requests := requests + 1;
    }

    /** UpdateCommandEvent: with an interrupt to be acknowledged, the command waits. */
    method UpdateCommandEvent()
      modifies this`armed
      ensures armed == (command.Some? && flag == 0)
    {
      if command.None? || flag != 0 {
        armed := false;
      } else {
        armed := true;
      }
    }

    method SetInterrupt(interrupt: Interrupt)
      modifies this`flag, this`requests
      ensures flag == interrupt && requests == old(requests) + (if interrupt & enable != 0 then 1 else 0)
    {
      flag := interrupt;
      UpdateInterruptRequest();
    }

    /** DeliverAsyncInterrupt: the pending interrupt and its response become the current ones. */
    method DeliverAsyncInterrupt()
      modifies this`response, this`asyncResponse, this`flag, this`pending, this`armed, this`requests
      ensures flag == old(pending) && pending == 0 && response == old(asyncResponse) && asyncResponse == []
      ensures armed == (command.Some? && flag == 0)
      ensures requests == old(requests) + (if flag & enable != 0 then 1 else 0)
    {
      response := asyncResponse;
      asyncResponse := [];
      flag := pending;
      pending := 0;
      UpdateInterruptRequest();
      UpdateCommandEvent();
    }

    /** An asynchronous response: delivered at once if nothing is to be acknowledged; dropped if the same
        interrupt is still unacknowledged; else it waits. */
    method SendAsync(bytes: seq<Byte>, interrupt: Interrupt)
      requires Valid()
      modifies this`response, this`asyncResponse, this`flag, this`pending, this`armed, this`requests
      ensures Valid()
      ensures old(flag) == 0 ==>
                flag == interrupt && pending == 0 && response == old(asyncResponse) + bytes && asyncResponse == [] && !armed
      ensures old(flag) == interrupt ==>
                flag == interrupt && pending == old(pending) && asyncResponse == [] && response == old(response)
      ensures old(flag) != 0 && old(flag) != interrupt ==>
                flag == old(flag) && pending == interrupt && asyncResponse == old(asyncResponse) + bytes
                && response == old(response)
      ensures old(flag) != 0 ==> armed == old(armed) && requests == old(requests)
    {
      asyncResponse := asyncResponse + bytes;
      if flag == interrupt {
        asyncResponse := [];
        return;
      }
      pending := interrupt;
      if flag == 0 {
        DeliverAsyncInterrupt();
      }
    }

    method ClearAsyncInterrupt()
      requires Valid()
      modifies this`pending, this`asyncResponse
      ensures Valid() && pending == 0 && asyncResponse == []
    {
      pending := 0;
      asyncResponse := [];
    }

    /** Writing the interrupt flag register: acknowledging the last interrupt delivers the one that is
        pending, or else lets the queued command run. */
    method Acknowledge(value: bv8)
      requires Valid()
      modifies this`flag, this`response, this`asyncResponse, this`pending, this`armed, this`requests, this`parameters
      ensures Valid()
      ensures var left := old(flag) & !(value & INTERRUPT_REGISTER_MASK);
              if left != 0 then
                flag == left && pending == old(pending) && armed == old(armed) && response == old(response)
                && asyncResponse == old(asyncResponse) && requests == old(requests)
              else if old(pending) != 0 then
                flag == old(pending) && pending == 0 && response == old(asyncResponse) && asyncResponse == [] && !armed
                && requests == old(requests) + (if old(pending) & enable != 0 then 1 else 0)
              else
                flag == 0 && pending == 0 && armed == command.Some? && response == old(response)
      ensures parameters == if value & 0x40 != 0 then [] else old(parameters)
    {
      AcknowledgeKeepsReset(flag, value);
      ClearFlags(flag & !(value & INTERRUPT_REGISTER_MASK));
      if value & 0x40 != 0 {
        parameters := [];
      }
    }

    /** These flags are left. */
    method ClearFlags(left: bv8)
      requires Valid() && left <= INTERRUPT_REGISTER_MASK && (left != 0 ==> flag != 0)
      modifies this`flag, this`response, this`asyncResponse, this`pending, this`armed, this`requests, this`parameters
      ensures Valid() && parameters == old(parameters)
      ensures if left != 0 then
                flag == left && pending == old(pending) && armed == old(armed) && response == old(response)
                && asyncResponse == old(asyncResponse) && requests == old(requests)
              else if old(pending) != 0 then
                flag == old(pending) && pending == 0 && response == old(asyncResponse) && asyncResponse == [] && !armed
                && requests == old(requests) + (if old(pending) & enable != 0 then 1 else 0)
              else
                flag == 0 && pending == 0 && armed == command.Some? && response == old(response)
    {
      flag := left;
      if flag == 0 {
        if pending != 0 {
          DeliverAsyncInterrupt();
        } else {
          UpdateCommandEvent();
        }
      }
    }

    method WriteParameter(value: Byte)
      requires Valid() && |parameters| <= FIFO_SIZE
      modifies this`parameters
      ensures Valid() && |parameters| <= FIFO_SIZE
      ensures parameters == (if |old(parameters)| == FIFO_SIZE then old(parameters)[1..] else old(parameters)) + [value]
    {
      if |parameters| == FIFO_SIZE {
        parameters := parameters[1..];
      }
      parameters := parameters + [value];
    }

    /** BeginCommand. A queued command that expects more parameters stays, and loses those it has. */
    method BeginCommand(c: Byte)
      requires Valid()
      modifies this`command, this`armed, this`secondResponse, this`parameters
      ensures Valid()
      ensures if old(command).Some? && ExpectedParameters(old(command).value) > ExpectedParameters(c)
              then command == old(command) && armed == old(armed) && parameters == [] && secondResponse == old(secondResponse)
              else command == Some(c) && armed == (flag == 0) && parameters == old(parameters) && secondResponse.None?
    {
      if command.Some? {
        if ExpectedParameters(command.value) > ExpectedParameters(c) {
          parameters := [];
          return;
        }
        if armed {
          armed := false;
        }
      }
      if secondResponse.Some? {
        secondResponse := None;
      }
      command := Some(c);
      armed := true;
      UpdateCommandEvent();
    }

    method EndCommand()
      modifies this`command, this`armed, this`parameters
      ensures command.None? && !armed && parameters == []
    {
      parameters := [];
      command := None;
      armed := false;
    }

    method Answer(reply: Reply, status: Byte)
      modifies this`response, this`flag, this`requests
      ensures flag == if reply.Accept? then ACK else ERROR
      ensures requests == old(requests) + (if flag & enable != 0 then 1 else 0)
      ensures response == old(response) + if reply.Accept? then reply.response else [OrBits(status, reply.stat), reply.reason]
    {
      match reply
      case Accept(bytes) =>
        response := response + bytes;
        SetInterrupt(ACK);
      case Refuse(stat, reason) =>
        response := response + [OrBits(status, stat), reason];
        SetInterrupt(ERROR);
    }

    /** ExecuteCommand, when the event fires: the command is answered and ends. Only a first Reset stays
        queued, and armed, to be executed a second time. A command with too few parameters is refused
        behind what is left of the last response; any other response replaces it. */
    method ExecuteCommand(reply: Reply, second: Option<nat>, status: Byte)
      requires Valid() && armed
      modifies this
      ensures Valid() && flag != 0 && enable == old(enable)
      ensures requests == old(requests) + (if flag & enable != 0 then 1 else 0)
      ensures var c, enough := old(command).value, |old(parameters)| >= ExpectedParameters(old(command).value);
              if c == RESET && enough && old(secondResponse) != Some(RESET)
              then command == Some(RESET) && armed && pending == 0 && secondResponse == Some(RESET) && asyncResponse == []
              else command.None? && !armed && pending == old(pending) && asyncResponse == old(asyncResponse)
      ensures |old(parameters)| < ExpectedParameters(old(command).value) ==>
                flag == 5 && response == old(response) + [OrBits(status, 1), 0x20]
                && secondResponse == old(secondResponse) && parameters == []
      ensures |old(parameters)| >= ExpectedParameters(old(command).value) && old(command) == Some(RESET) ==>
                flag == 3 && response == [status] && secondResponse == Some(RESET) && parameters == []
      ensures |old(parameters)| >= ExpectedParameters(old(command).value) && old(command) != Some(RESET) && reply.Accept? ==>
                flag == 3 && response == reply.response
                && secondResponse == (if second.Some? && second != Some(RESET) then second else old(secondResponse))
      ensures |old(parameters)| >= ExpectedParameters(old(command).value) && old(command) != Some(RESET) && reply.Refuse? ==>
                flag == 5 && response == [OrBits(status, reply.stat), reply.reason] && secondResponse == old(secondResponse)
      ensures |old(parameters)| >= ExpectedParameters(old(command).value) && old(command) != Some(RESET) ==>
                parameters == if old(command) == Some(VIDEO_CD) then old(parameters) else []
    {
      hide OrBits, ExpectedParameters;
      var c := command.value;
      if |parameters| < ExpectedParameters(c) {
        Answer(Refuse(STAT_ERROR, 0x20), status);
        EndCommand();
        return;
      }
      response := [];
      if c == RESET {
        ExecuteReset(status);
      } else {
        ExecuteOther(reply, second, status);
      }
    }

    /** The Reset command returns without ending itself the first time. */
    method ExecuteReset(status: Byte)
      requires response == []
      modifies this
      ensures flag == ACK && response == [status] && enable == old(enable) && parameters == []
      ensures requests == old(requests) + (if flag & enable != 0 then 1 else 0)
      ensures secondResponse == Some(RESET)
      ensures if old(secondResponse) == Some(RESET)
              then command.None? && !armed && pending == old(pending) && asyncResponse == old(asyncResponse)
              else command == old(command) && armed == old(armed) && pending == 0 && asyncResponse == []
    {
      Answer(Accept([status]), status);
      if secondResponse == Some(RESET) {
        EndCommand();
        return;
      }
      SoftReset();
      secondResponse := Some(RESET);
    }

    /** Any other command; VideoCD leaves its parameters. */
    method ExecuteOther(reply: Reply, second: Option<nat>, status: Byte)
      requires response == [] && command.Some?
      modifies this
      ensures enable == old(enable) && command.None? && !armed && pending == old(pending)
      ensures asyncResponse == old(asyncResponse)
      ensures requests == old(requests) + (if flag & enable != 0 then 1 else 0)
      ensures flag == if reply.Accept? then ACK else ERROR
      ensures response == if reply.Accept? then reply.response else [OrBits(status, reply.stat), reply.reason]
      ensures secondResponse
              == if reply.Accept? && second.Some? && second != Some(RESET) then second else old(secondResponse)
      ensures parameters == if old(command) == Some(VIDEO_CD) then old(parameters) else []
    {
      hide OrBits;
      var c := command.value;
      Answer(reply, status);
      if reply.Accept? && second.Some? && second != Some(RESET) {
        secondResponse := second;
      }
      if c == VIDEO_CD {
        command, armed := None, false;
      } else {
        EndCommand();
      }
    }

    /** SoftReset leaves the command, its event and the flag alone. */
    method SoftReset()
      modifies this`secondResponse, this`pending, this`parameters, this`asyncResponse
      ensures pending == 0 && parameters == [] && asyncResponse == [] && secondResponse.None?
    {
      secondResponse := None;
      pending := 0;
      parameters, asyncResponse := [], [];
    }

    /** ExecuteCommandSecondResponse. */
    method ExecuteSecondResponse(bytes: seq<Byte>, interrupt: Interrupt)
      requires Valid()
      modifies this`response, this`asyncResponse, this`flag, this`pending, this`armed, this`requests,
               this`secondResponse
      ensures Valid() && secondResponse.None? && (old(secondResponse).Some? ==> flag != 0)
      ensures old(secondResponse).Some? && old(flag) == 0 ==>
                flag == interrupt && response == bytes && pending == 0 && asyncResponse == []
      ensures old(secondResponse).Some? && old(flag) != 0 && old(flag) != interrupt ==>
                flag == old(flag) && pending == interrupt && asyncResponse == bytes && response == old(response)
      ensures old(secondResponse).None? || old(flag) == interrupt ==>
                flag == old(flag) && pending == old(pending) && response == old(response) && armed == old(armed)
    {
      if secondResponse.Some? {
        asyncResponse := [];
        SendAsync(bytes, interrupt);
      }
      secondResponse := None;
    }

    /** RemoveMedia: the command is dropped, and an error interrupt takes the place of any pending one. */
    method RemoveMedia(status: Byte)
      requires Valid()
      modifies this
      ensures Valid() && command.None? && !armed && secondResponse.None? && flag != 0 && parameters == old(parameters)
      ensures flag == old(flag) || (old(flag) == 0 && flag == ERROR)
      ensures pending == if old(flag) == 0 || old(flag) == ERROR then 0 else ERROR
      ensures var sent := (if old(pending) == 0 then old(asyncResponse) else []) + [OrBits(status, 1), 0x08];
              if old(flag) == 0 then response == sent
              else response == old(response) && asyncResponse == if old(flag) == ERROR then [] else sent
    {
      secondResponse := None;
      command := None;
      armed := false;
      if pending != 0 {
        ClearAsyncInterrupt();
      }
      SendAsync([OrBits(status, STAT_ERROR), 0x08], ERROR);
    }
  }

  function OrBits(a: Byte, b: Byte): Byte {
    ((a as bv8) | (b as bv8)) as nat
  }

  /** Clearing flag bits cannot set any. */
  lemma AcknowledgeKeepsReset(flag: bv8, value: bv8)
    ensures flag & !(value & INTERRUPT_REGISTER_MASK) != 0 ==> flag != 0
    ensures flag <= INTERRUPT_REGISTER_MASK ==> flag & !(value & INTERRUPT_REGISTER_MASK) <= INTERRUPT_REGISTER_MASK
  {
  }

  // ---------------------------------------------------------------- runs

  datatype Op =
    | WriteCommand(c: Byte)
    | WriteParam(value: Byte)
    | WriteFlag(bits: bv8)
    | WriteEnable(bits: bv8)
    | CommandEvent(reply: Reply, second: Option<nat>, status: Byte)
    | SecondResponseEvent(bytes: seq<Byte>, interrupt: Interrupt)
    | DriveResponse(bytes: seq<Byte>, interrupt: Interrupt)
    | DriveClear
    | EjectDisc(status: Byte)
    | PowerReset

  /** One event from the CPU, the drive or the timers; the command event fires only if it is armed. */
  method Step(cd: CDROM, op: Op)
    requires cd.Valid() && |cd.parameters| <= FIFO_SIZE
    modifies cd
    ensures cd.Valid() && |cd.parameters| <= FIFO_SIZE
    ensures op.WriteCommand? && old(cd.command).None? ==>
              cd.command == Some(op.c) && cd.armed == (old(cd.flag) == 0) && cd.parameters == old(cd.parameters)
    ensures op.WriteCommand? || op.WriteParam? || op.WriteEnable? ==>
              cd.flag == old(cd.flag) && cd.pending == old(cd.pending) && cd.response == old(cd.response)
    ensures op.WriteParam? ==>
              cd.parameters != [] && cd.parameters[|cd.parameters| - 1] == op.value
              && cd.command == old(cd.command) && cd.armed == old(cd.armed)
    ensures op.WriteFlag? && old(cd.flag) & !(op.bits & 0x1F) == 0 && old(cd.pending) != 0 ==>
              cd.flag == old(cd.pending) && cd.pending == 0 && cd.response == old(cd.asyncResponse) && !cd.armed
    ensures op.WriteFlag? && old(cd.flag) & !(op.bits & 0x1F) == 0 && old(cd.pending) == 0 ==>
              cd.flag == 0 && cd.armed == cd.command.Some? && cd.command == old(cd.command) && cd.response == old(cd.response)
    ensures op.CommandEvent? && !old(cd.armed) ==>
              cd.flag == old(cd.flag) && cd.command == old(cd.command) && cd.response == old(cd.response)
    ensures op.CommandEvent? && old(cd.armed) && |old(cd.parameters)| < ExpectedParameters(old(cd.command).value) ==>
              cd.flag == 5 && cd.command.None? && cd.response == old(cd.response) + [OrBits(op.status, 1), 0x20]
    ensures op.CommandEvent? && old(cd.armed) && |old(cd.parameters)| >= ExpectedParameters(old(cd.command).value)
            && old(cd.command) == Some(RESET) ==>
              cd.flag == 3 && cd.response == [op.status] && cd.armed == (old(cd.secondResponse) != Some(RESET))
    ensures op.CommandEvent? && old(cd.armed) && |old(cd.parameters)| >= ExpectedParameters(old(cd.command).value)
            && old(cd.command) != Some(RESET) ==>
              cd.command.None? && !cd.armed && cd.pending == old(cd.pending)
              && if op.reply.Accept? then cd.flag == 3 && cd.response == op.reply.response
                 else cd.flag == 5 && cd.response == [OrBits(op.status, op.reply.stat), op.reply.reason]
    ensures op.DriveResponse? && old(cd.flag) == 0 ==>
              cd.flag == op.interrupt && cd.pending == 0 && cd.response == old(cd.asyncResponse) + op.bytes && !cd.armed
    ensures op.DriveResponse? && old(cd.flag) != 0 ==>
              cd.flag == old(cd.flag) && cd.response == old(cd.response) && cd.armed == old(cd.armed)
              && cd.pending == if old(cd.flag) == op.interrupt then old(cd.pending) else op.interrupt
    ensures op.SecondResponseEvent? && old(cd.secondResponse).Some? && old(cd.flag) == 0 ==>
              cd.flag == op.interrupt && cd.response == op.bytes && cd.secondResponse.None?
    ensures op.EjectDisc? ==>
              cd.command.None? && !cd.armed && cd.secondResponse.None?
              && cd.flag == if old(cd.flag) == 0 then 5 else old(cd.flag)
    ensures op.PowerReset? ==> cd.command.None? && cd.flag == 0 && cd.pending == 0 && cd.response == []
  {
    hide OrBits, ExpectedParameters;
    match op
    case WriteCommand(c) => cd.BeginCommand(c);
    case WriteParam(value) => cd.WriteParameter(value);
    case WriteFlag(value) => cd.Acknowledge(value);
    case WriteEnable(value) =>
      cd.enable := value & INTERRUPT_REGISTER_MASK;
      cd.UpdateInterruptRequest();
    case CommandEvent(reply, second, status) =>
      if cd.armed {
        cd.ExecuteCommand(reply, second, status);
      }
    case SecondResponseEvent(bytes, interrupt) => cd.ExecuteSecondResponse(bytes, interrupt);
    case DriveResponse(bytes, interrupt) => cd.SendAsync(bytes, interrupt);
    case DriveClear => cd.ClearAsyncInterrupt();
    case EjectDisc(status) => cd.RemoveMedia(status);
    case PowerReset => cd.ResetController();
  }

  /** In every run, from power on: once all interrupt flags are acknowledged, either the pending
      asynchronous interrupt has been delivered, or a queued command is armed. Nothing stays stuck. */
  method Run(ops: seq<Op>) returns (cd: CDROM, delivered: bool)
    ensures fresh(cd) && cd.Valid()
    ensures delivered ==> cd.flag != 0 && cd.pending == 0
    ensures !delivered ==> cd.flag == 0 && cd.pending == 0 && cd.armed == cd.command.Some?
  {
    cd := new CDROM();
    cd.parameters := [];
    for i := 0 to |ops|
      invariant cd.Valid() && |cd.parameters| <= FIFO_SIZE && fresh(cd)
    {
      Step(cd, ops[i]);
    }
    delivered := cd.pending != 0;
    cd.Acknowledge(0x1F);
  }

  /** Parameters are queued one by one. */
  method WriteParameters(cd: CDROM, values: seq<Byte>)
    requires cd.Valid() && |cd.parameters| + |values| <= FIFO_SIZE
    modifies cd`parameters
    ensures cd.Valid() && cd.parameters == old(cd.parameters) + values
  {
    for i := 0 to |values|
      invariant cd.Valid() && cd.parameters == old(cd.parameters) + values[..i]
    {
      cd.WriteParameter(values[i]);
    }
    assert values[..|values|] == values;
  }

  /** The whole exchange for any command but Reset, on an idle controller: parameters, command, the event,
      and the acknowledgement. The CPU gets the answer of the command, or the refusal of one with too few
      parameters, and then the controller is idle again. */
  method Exchange(cd: CDROM, values: seq<Byte>, c: Byte, reply: Reply, second: Option<nat>, status: Byte)
    returns (interrupt: bv8, answer: seq<Byte>)
    requires cd.Valid() && cd.flag == 0 && cd.pending == 0 && cd.command.None? && cd.parameters == [] && cd.response == []
    requires |values| <= FIFO_SIZE && c != RESET && c != VIDEO_CD
    modifies cd
    ensures |values| < ExpectedParameters(c) ==> interrupt == 5 && answer == [OrBits(status, 1), 0x20]
    ensures |values| >= ExpectedParameters(c) && reply.Accept? ==> interrupt == 3 && answer == reply.response
    ensures |values| >= ExpectedParameters(c) && reply.Refuse? ==>
              interrupt == 5 && answer == [OrBits(status, reply.stat), reply.reason]
    ensures cd.Valid() && cd.flag == 0 && cd.pending == 0 && cd.command.None? && !cd.armed && cd.parameters == []
  {
    WriteParameters(cd, values);
    cd.BeginCommand(c);
    cd.ExecuteCommand(reply, second, status);
    interrupt, answer := cd.flag, cd.response;
    cd.Acknowledge(0x1F);
  }
}
