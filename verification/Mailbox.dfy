/**
 The PECI OS mailbox protocol of src/sst_mailbox.cpp: register access with wake-and-retry,
 the bounded busy-bit handshake, and the wake bit's lifecycle.

 The processor is the class `Device`. Its behaviour is two arbitrary functions: how transaction
 number k goes (`react`) and what the n-th submitted command answers (`answer`), so every
 result below holds for all devices. A transaction that does not report success has no effect
 on the mailbox; a running command finishes at any later successful transaction, or never.
 */
module Mailbox {
  import opened Common
  import opened Bytes

  // ----- PECI transactions ----------------------------------------------------------

  /** Library status and completion code. */
  datatype Reply = Reply(libOk: bool, cc: Byte)

  /** The replies that mean something, by libpeci's numbers: the transaction was carried out, or
      the package is asleep. */
  predicate Carried(r: Reply)
  {
    r.libOk && r.cc == 0x40
  }

  predicate Slept(r: Reply)
  {
    !r.libOk && r.cc == 0x82
  }

  datatype Reg = DataReg | InterfaceReg

  /** One transaction: what was asked and the reply; `busy` is bit 31 of the value read. */
  datatype Event =
    | RegRead(reg: Reg, busy: bool, reply: Reply)
    | RegWrite(reg: Reg, reply: Reply)
    | WakeWrite(enable: bool, reply: Reply)

  predicate Succeeds(e: Event)
  {
    Carried(e.reply)
  }

  // ----- Packing --------------------------------------------------------------------

  const BUSY: bv32 := 0x8000_0000

  datatype Command = Command(command: bv8, subCommand: bv8, input: bv32)
  datatype Answer = Answer(status: bv8, data: bv32)

  predicate Busy(w: bv32)
  {
    w & BUSY != 0
  }

  function InterfaceWord(command: bv8, subCommand: bv8): (w: bv32)
    ensures Busy(w) && w & 0x8000_0000 != 0 && w & 0x7fff_0000 == 0
    ensures LowByte(w) == command && w & 0xff == command as bv32
    ensures LowByte(w >> 8) == subCommand && (w >> 8) & 0xff == subCommand as bv32
  {
    BUSY | ((subCommand as bv32) << 8) | (command as bv32)
  }

  function LowByte(w: bv32): (b: bv8)
  {
    (w & 0xff) as bv8
  }

  /** OsMailboxCommand packs up to four one-byte parameters into the input word. */
  function PackParams(p1: bv8, p2: bv8, p3: bv8, p4: bv8): (w: bv32)
    ensures w & 0xff == p1 as bv32 && (w >> 8) & 0xff == p2 as bv32
    ensures (w >> 16) & 0xff == p3 as bv32 && (w >> 24) & 0xff == p4 as bv32
  {
    ((p4 as bv32) << 24) | ((p3 as bv32) << 16) | ((p2 as bv32) << 8) | (p1 as bv32)
  }

  // ----- The device -----------------------------------------------------------------

  /** How a transaction goes: its reply, whether it takes effect, whether a running command has
      finished by then, and the register bits nobody promised anything about. */
  datatype Reaction = Reaction(reply: Reply, takesEffect: bool, finish: bool, noise: bv32)

  /** The assumption on devices: a transaction takes effect if and only if the reply says so. */
  ghost predicate Truthful(react: nat -> Reaction)
  {
    forall k: nat :: react(k).takesEffect <==> react(k).reply.libOk && react(k).reply.cc == 0x40
  }

  /** The mailbox: idle with the last status and data, or running the last command submitted. */
  datatype Box = Idle(status: bv8, data: bv32) | Running

  /** What a register holds; bits nobody promised anything about come from `noise`. */
  function RegisterValue(box: Box, reg: Reg, noise: bv32): (v: bv32)
    ensures reg == DataReg && box.Idle? ==> v == box.data
    ensures reg == InterfaceReg ==> (Busy(v) <==> box.Running?) && (box.Idle? ==> LowByte(v) == box.status)
  {
    match reg
    case DataReg => if box.Idle? then box.data else noise
    case InterfaceReg =>
      if box.Running? then BUSY | (noise & 0x7fff_ffff) else (noise & 0x7fff_ff00) | (box.status as bv32)
  }

  class Device {
    const react: nat -> Reaction
    const answer: (nat, Command) -> Answer
    var clock: nat
    var box: Box
    var submitted: seq<Command>
    var clobbered: bool  // a register was written while a command was running
    var wake: bool
    ghost var trace: seq<Event>  // every transaction, with its reply; only the device adds to it

    constructor (react: nat -> Reaction, answer: (nat, Command) -> Answer, status: bv8, data: bv32)
      requires Truthful(react)
      ensures Valid() && this.react == react && this.answer == answer && submitted == []
    {
      this.react, this.answer := react, answer;
      clock, box, submitted, clobbered, wake, trace := 0, Idle(status, data), [], false, false, [];
    }

    ghost predicate Valid()
      reads this
    {
      Truthful(react) && !clobbered && (box.Running? ==> submitted != []) && |trace| == clock
    }

    /** The mailbox with the running command, if any, answered. */
    function Answered(): (b: Box)
      reads this`box, this`submitted
    {
      if box.Running? && submitted != [] then
        var a := answer(|submitted| - 1, submitted[|submitted| - 1]);
        Idle(a.status, a.data)
      else box
    }

    /** One transaction: time passes, and one that takes effect may find the command finished. */
    method Transact() returns (reply: Reply, noise: bv32, takesEffect: bool)
      requires Valid()
      modifies this`clock, this`box
      ensures clock == old(clock) + 1
      ensures takesEffect <==> Carried(reply)
      ensures Answered() == old(Answered()) && (box == old(box) || (takesEffect && box == old(Answered())))
      ensures box.Running? ==> submitted != []
    {
      var r := react(clock);
      clock := clock + 1;
      if r.takesEffect && r.finish {
        box := Answered();
      }
      return r.reply, r.noise, r.takesEffect;
    }

    method Read(reg: Reg) returns (reply: Reply, value: bv32)
      requires Valid()
      modifies this`clock, this`box, this`trace
      ensures Valid()
      ensures clock == old(clock) + 1 && trace == old(trace) + [RegRead(reg, Busy(value), reply)]
      ensures Answered() == old(Answered()) && (box == old(box) || box == old(Answered()))
      ensures Carried(reply) && reg == InterfaceReg ==>
                (Busy(value) <==> box.Running?) && (box.Idle? ==> LowByte(value) == box.status)
      ensures Carried(reply) && reg == DataReg && box.Idle? ==> value == box.data
    {
      hide Truthful, Busy, LowByte, RegisterValue, Answered;
      var noise, takesEffect;
      reply, noise, takesEffect := Transact();
      value := if takesEffect then RegisterValue(box, reg, noise) else noise;
      trace := trace + [RegRead(reg, Busy(value), reply)];
    }

    /** A write to the interface register with the busy bit submits a command whose input is what
        the data register holds. */
    method Write(reg: Reg, data: bv32) returns (reply: Reply)
      requires Valid()
      modifies this`clock, this`box, this`submitted, this`clobbered, this`trace
      ensures old(box).Idle? ==> Valid()
      ensures clock == old(clock) + 1 && trace == old(trace) + [RegWrite(reg, reply)]
      ensures !Carried(reply) ==>
                box == old(box) && submitted == old(submitted) && clobbered == old(clobbered)
      ensures Carried(reply) && old(box).Idle? ==>
                && clobbered == old(clobbered)
                && (reg == DataReg ==> submitted == old(submitted) && box == Idle(old(box).status, data))
                && (reg == InterfaceReg && Busy(data) ==>
                      && submitted == old(submitted) + [Command(LowByte(data), LowByte(data >> 8), old(box).data)]
                      && box == Running)
                && (reg == InterfaceReg && !Busy(data) ==> submitted == old(submitted) && box == old(box))
    {
      hide Truthful;
      var noise, takesEffect;
      reply, noise, takesEffect := Transact();
      if takesEffect {
        if box.Running? {
          clobbered := true;
        }
        if reg == DataReg {
          box := if box.Idle? then Idle(box.status, data) else box;
        } else if Busy(data) {
          var input := if box.Idle? then box.data else noise;
          submitted := submitted + [Command(LowByte(data), LowByte(data >> 8), input)];
          box := Running;
        }
      }
      trace := trace + [RegWrite(reg, reply)];
    }

    method WriteWake(enable: bool) returns (reply: Reply)
      requires Valid()
      modifies this`clock, this`box, this`wake, this`trace
      ensures Valid()
      ensures clock == old(clock) + 1 && trace == old(trace) + [WakeWrite(enable, reply)]
      ensures Answered() == old(Answered()) && (box == old(box) || box == old(Answered()))
      ensures wake == if Carried(reply) then enable else old(wake)
    {
      hide Truthful;
      var noise, takesEffect;
      reply, noise, takesEffect := Transact();
      if takesEffect {
        wake := enable;
      }
      trace := trace + [WakeWrite(enable, reply)];
    }
  }

  // ----- The manager ----------------------------------------------------------------

  const CC_SUCCESS: Byte := 0x40
  const CC_UNAVAIL_RESOURCE: Byte := 0x82

  /** checkPECIStatus. */
  predicate CheckStatus(r: Reply)
  {
    r.libOk && r.cc == CC_SUCCESS
  }

  predicate IsSleeping(r: Reply)
  {
    !r.libOk && r.cc == CC_UNAVAIL_RESOURCE
  }

  /** The manager's tests read replies as they are meant. */
  lemma StatusExactly(r: Reply)
    ensures CheckStatus(r) <==> Carried(r)
    ensures IsSleeping(r) <==> Slept(r)
    ensures Slept(r) ==> !Carried(r)
  {
  }

  datatype PeciError =
    | WakeFailed | WriteFailed | ReadFailed | NotFree | DidNotReturn | BadStatus(status: bv8)

  datatype Result<T> = Ok(value: T) | Err(error: PeciError)

  function Thrown<T>(r: Result<T>): (e: Option<PeciError>)
  {
    match r
    case Ok(_) => None
    case Err(e) => Some(e)
  }

  ghost predicate SetsWake(e: Event)
  {
    e.WakeWrite? && e.enable && Succeeds(e)
  }

  ghost predicate Woke(log: seq<Event>)
  {
    exists i :: 0 <= i < |log| && SetsWake(log[i])
  }

  ghost predicate NoWakeWrites(log: seq<Event>)
  {
    forall i :: 0 <= i < |log| ==> !log[i].WakeWrite?
  }

  /** The busy bits of the successful reads of the interface register, in order. */
  ghost function Polls(log: seq<Event>): (bits: seq<bool>)
  {
    if log == [] then []
    else
      var e, rest := log[|log| - 1], Polls(log[..|log| - 1]);
      rest + PolledBy(e)
  }

  ghost function PolledBy(e: Event): (bits: seq<bool>)
  {
    if e.RegRead? && e.reg == InterfaceReg && Succeeds(e) then [e.busy] else []
  }

  lemma {:induction false} PollsConcat(a: seq<Event>, b: seq<Event>)
    ensures Polls(a + b) == Polls(a) + Polls(b)
    decreases |b|
  {
    if b == [] {
      assert a + b == a;
    } else {
      assert (a + b)[..|a + b| - 1] == a + b[..|b| - 1];
      PollsConcat(a, b[..|b| - 1]);
    }
  }

  lemma EmptyPolls()
    ensures Polls([]) == []
  {
  }

  const MB_RETRIES := 10

  /** The polls of one wait: it goes on after a busy poll only, and ten times at most. */
  ghost predicate Waited(polls: seq<bool>)
  {
    |polls| <= 10 && forall i :: 0 <= i < |polls| - 1 ==> polls[i]
  }

  /** What one register access asks the device. */
  datatype Target = Get(reg: Reg) | Put(reg: Reg)

  ghost predicate Asks(e: Event, t: Target)
  {
    match t
    case Get(reg) => e.RegRead? && e.reg == reg
    case Put(reg) => e.RegWrite? && e.reg == reg
  }

  /** The transactions of one access: the access itself; if it finds the package asleep and
      waking is allowed, a write of the wake bit; and if that succeeds, the access once more. */
  ghost predicate IsAccess(es: seq<Event>, t: Target, wakeAllowed: bool)
  {
    && es != [] && Asks(es[0], t)
    && if wakeAllowed && Slept(es[0].reply) then
         && |es| >= 2 && es[1].WakeWrite? && es[1].enable
         && if Succeeds(es[1]) then |es| == 3 && Asks(es[2], t) else |es| == 2
       else |es| == 1
  }

  /** The first two transactions of an access that wakes the package. */
  ghost predicate Woken(es: seq<Event>, t: Target)
  {
    && |es| == 2 && Asks(es[0], t) && Slept(es[0].reply)
    && es[1].WakeWrite? && es[1].enable && Succeeds(es[1])
  }

  /** The error for a failed transaction. */
  function ErrorOf(e: Event): (err: PeciError)
  {
    match e
    case RegRead(_, _, _) => ReadFailed
    case RegWrite(_, _) => WriteFailed
    case WakeWrite(_, _) => WakeFailed
  }

  predicate AccessError(err: PeciError)
  {
    err.ReadFailed? || err.WriteFailed? || err.WakeFailed?
  }

  /** A call that added to `before` fails with an access error if and only if its last
      transaction failed, and with the error for it. */
  ghost predicate FailsAsLast(before: seq<Event>, log: seq<Event>, error: Option<PeciError>)
  {
    && before < log
    && var last := log[|log| - 1];
       if Succeeds(last) then error.None? || !AccessError(error.value) else error == Some(ErrorOf(last))
  }

  class PECIManager {
    const dev: Device
    const wakeAllowed: bool
    var peciWoken: bool
    ghost const from: nat      // where the device's trace was when this manager was created
    ghost var log: seq<Event>  // the device's trace from there on

    constructor (dev: Device, wakeAllowed: bool)
      requires dev.Valid()
      ensures Valid() && this.dev == dev && this.wakeAllowed == wakeAllowed && log == [] && !peciWoken
    {
      this.dev, this.wakeAllowed := dev, wakeAllowed;
      peciWoken, log, from := false, [], |dev.trace|;
    }

    /** The flag says exactly whether this manager set the bit, and it never writes the bit
        under the policy that forbids waking. */
    ghost predicate FlagOk()
      reads this
    {
      && (peciWoken <==> Woke(log))
      && (!wakeAllowed ==> NoWakeWrites(log))
    }

    /** The log is what the device has seen since this manager was created. */
    ghost predicate Valid()
      reads this, dev
    {
      FlagOk() && from <= |dev.trace| && dev.trace[from..] == log && dev.Valid()
    }

    /** Transactions one register access may cost. */
    ghost function PerAccess(): (n: nat)
    {
      if wakeAllowed then 3 else 1
    }

    method SetWakeOnPECI(enable: bool) returns (ok: bool)
      requires Valid() && (enable ==> wakeAllowed) && (!enable ==> peciWoken)
      modifies this, dev`clock, dev`box, dev`wake, dev`trace
      ensures Valid()
      ensures dev.Answered() == old(dev.Answered()) && (dev.box == old(dev.box) || dev.box == old(dev.Answered()))
      ensures |log| == |old(log)| + 1 && old(log) <= log
      ensures var e := log[|old(log)|];
              && dev.trace == old(dev.trace) + [e]
              && e.WakeWrite? && e.enable == enable && (ok <==> Succeeds(e))
      ensures dev.wake == if ok then enable else old(dev.wake)
    {
      var reply := dev.WriteWake(enable);
      ok := CheckStatus(reply);
      StatusExactly(reply);
      log := log + [WakeWrite(enable, reply)];
      assert dev.trace[from..] == log;
      if ok && enable {
        peciWoken := true;
        assert SetsWake(log[|log| - 1]);
      }
      assert forall i :: 0 <= i < |old(log)| ==> log[i] == old(log)[i];
    }

    /** The destructor: the device gets a clearing write if and only if this manager set the
        bit; errors are swallowed. */
    method Destroy()
      requires Valid()
      modifies this, dev`clock, dev`box, dev`wake, dev`trace
      ensures Valid()
      ensures Woke(old(log)) ==> exists reply ::
                && dev.trace == old(dev.trace) + [WakeWrite(false, reply)]
                && dev.wake == if Carried(reply) then false else old(dev.wake)
      ensures !Woke(old(log)) ==> dev.trace == old(dev.trace) && dev.wake == old(dev.wake)
    {
      if peciWoken {
        var _ := SetWakeOnPECI(false);
        assert dev.trace == old(dev.trace) + [WakeWrite(false, log[|old(log)|].reply)];
      }
    }

    /** One register write, with at most one wake-and-retry. Its precondition is the
        protocol's rule: no register is written while a command is running. */
    method WrMailboxReg(reg: Reg, data: bv32) returns (r: Result<()>)
      requires Valid() && dev.box.Idle?
      modifies this, dev`clock, dev`box, dev`submitted, dev`clobbered, dev`wake, dev`trace
      ensures Valid()
      ensures Appends(old(log), log, PerAccess(), [])
      ensures IsAccess(log[|old(log)|..], Put(reg), wakeAllowed) && FailsAsLast(old(log), log, Thrown(r))
      ensures r.Err? ==> AccessError(r.error) && dev.box == old(dev.box) && dev.submitted == old(dev.submitted)
      ensures r.Ok? && reg == DataReg ==>
                dev.submitted == old(dev.submitted) && dev.box == Idle(old(dev.box).status, data)
      ensures r.Ok? && reg == InterfaceReg && Busy(data) ==>
                && dev.submitted == old(dev.submitted)
                                    + [Command(LowByte(data), LowByte(data >> 8), old(dev.box).data)]
                && dev.box == Running
    {
      hide Busy, LowByte, Appends, IsAccess, Woken, FailsAsLast, Woke, NoWakeWrites, CheckStatus, IsSleeping, Carried,
        Slept, Truthful;
      ghost var target, es: seq<Event> := Put(reg), [];
      var tryWaking := wakeAllowed;
      while true
        invariant Valid() && log == old(log) + es
        invariant dev.box == old(dev.box) && dev.submitted == old(dev.submitted)
        invariant tryWaking ==> wakeAllowed
        invariant if wakeAllowed && !tryWaking then Woken(es, target) else es == []
        decreases tryWaking
      {
        var reply := TryWrite(reg, data);
        StatusExactly(reply);
        ghost var e := log[|log| - 1];
        if tryWaking && IsSleeping(reply) {
          ghost var before := log;
          var ok := SetWakeOnPECI(true);
          ghost var w := log[|before|];
          WakeTried(old(log), e, w, target);
          es := [e, w];
          assert log == old(log) + es;
          if !ok {
            return Err(WakeFailed);
          }
          tryWaking := false;
          continue;
        }
        AccessEnds(old(log), es, e, target, wakeAllowed);
        assert log == old(log) + (es + [e]);
        if !CheckStatus(reply) {
          return Err(WriteFailed);
        }
        return Ok(());
      }
    }

    /** One register read, with at most one wake-and-retry. */
    method RdMailboxReg(reg: Reg) returns (r: Result<bv32>, ghost polls: seq<bool>)
      requires Valid()
      modifies this, dev`clock, dev`box, dev`wake, dev`trace
      ensures Valid()
      ensures dev.Answered() == old(dev.Answered()) && (dev.box == old(dev.box) || dev.box == old(dev.Answered()))
      ensures Appends(old(log), log, PerAccess(), polls)
      ensures IsAccess(log[|old(log)|..], Get(reg), wakeAllowed) && FailsAsLast(old(log), log, Thrown(r))
      ensures polls == if r.Ok? && reg == InterfaceReg then [Busy(r.value)] else []
      ensures r.Err? ==> AccessError(r.error)
      ensures r.Ok? && reg == InterfaceReg ==>
                (Busy(r.value) <==> dev.box.Running?) && (dev.box.Idle? ==> LowByte(r.value) == dev.box.status)
      ensures r.Ok? && reg == DataReg && dev.box.Idle? ==> r.value == dev.box.data
    {
      hide Busy, LowByte, Appends, IsAccess, Woken, FailsAsLast, Woke, NoWakeWrites, CheckStatus, IsSleeping, Carried,
        Slept, Truthful, Device.Answered;
      ghost var target, es: seq<Event> := Get(reg), [];
      var tryWaking := wakeAllowed;
      while true
        invariant Valid() && log == old(log) + es
        invariant dev.Answered() == old(dev.Answered()) && (dev.box == old(dev.box) || dev.box == old(dev.Answered()))
        invariant tryWaking ==> wakeAllowed
        invariant if wakeAllowed && !tryWaking then Woken(es, target) else es == []
        decreases tryWaking
      {
        var reply, value := TryRead(reg);
        StatusExactly(reply);
        ghost var e := log[|log| - 1];
        if tryWaking && IsSleeping(reply) {
          ghost var before := log;
          var ok := SetWakeOnPECI(true);
          ghost var w := log[|before|];
          WakeTried(old(log), e, w, target);
          es := [e, w];
          assert log == old(log) + es;
          if !ok {
            return Err(WakeFailed), [];
          }
          tryWaking := false;
          continue;
        }
        AccessEnds(old(log), es, e, target, wakeAllowed);
        assert log == old(log) + (es + [e]);
        if !CheckStatus(reply) {
          return Err(ReadFailed), [];
        }
        return Ok(value), if reg == InterfaceReg then [Busy(value)] else [];
      }
    }

    /** sendPECIOSMailboxCmd. `before` and `after` are the busy bits polled before and after
        the command is submitted. */
    method SendPECIOSMailboxCmd(command: bv8, subCommand: bv8, input: bv32, wantStatus: bool)
      returns (r: Result<Answer>, ghost before: seq<bool>, ghost after: seq<bool>)
      requires Valid()
      modifies this, dev`clock, dev`box, dev`submitted, dev`clobbered, dev`wake, dev`trace
      ensures Valid()
      // At most one command is submitted, and it is this one.
      ensures dev.submitted == old(dev.submitted)
           || dev.submitted == old(dev.submitted) + [Command(command, subCommand, input)]
      // A normal return is the device's answer to it.
      ensures r.Ok? ==>
                && dev.submitted == old(dev.submitted) + [Command(command, subCommand, input)]
                && r.value == dev.answer(|old(dev.submitted)|, Command(command, subCommand, input))
                && (wantStatus || r.value.status == 0)
      ensures r.Err? && r.error.BadStatus? ==>
                && !wantStatus && r.error.status != 0
                && dev.submitted == old(dev.submitted) + [Command(command, subCommand, input)]
                && r.error.status == dev.answer(|old(dev.submitted)|, Command(command, subCommand, input)).status
      // The two timeouts are reported exactly when ten polls in a row were busy.
      ensures r == Err(NotFree) <==> before == AllBusy(10)
      ensures r == Err(DidNotReturn) <==> after == AllBusy(10)
      ensures Waited(before) && Waited(after)
      ensures after != [] ==> dev.submitted == old(dev.submitted) + [Command(command, subCommand, input)]
      // A failed transaction is the last one, and only that makes the call fail with its error.
      ensures FailsAsLast(old(log), log, Thrown(r))
      // Cost.
      ensures Appends(old(log), log, 23 * PerAccess(), before + after)
      ensures dev.clock <= old(dev.clock) + 23 * PerAccess()
    {
      hide Busy, LowByte, Appends, AllBusy, FailsAsLast, Waited, IsAccess, Woke, NoWakeWrites, Truthful;
      after := [];
      assert Waited([]) by { NoWait(); }
      ghost var log0, cost := log, PerAccess();
      var free, err;
      free, err, before := WaitFree();
      assert before + [] == before;
      AppendsUpTo(log0, log, 10 * cost, 23 * cost, before);
      if !free {
        return Err(err), before, [];
      }
      ghost var log1 := log;
      var w := Submit(command, subCommand, input);
      FailsLater(log0, log1, log, 10 * cost, before, Thrown(w));
      AppendsTwice(log0, log1, log, 10 * cost, 2 * cost, before, []);
      AppendsUpTo(log0, log, 12 * cost, 23 * cost, before + []);
      if w.Err? {
        return Err(w.error), before, [];
      }
      ghost var log2 := log;
      var v;
      v, after := WaitDone();
      FailsLater(log0, log2, log, 12 * cost, before + [], Thrown(v));
      AppendsTwice(log0, log2, log, 12 * cost, 10 * cost, before + [], after);
      AppendsUpTo(log0, log, 22 * cost, 23 * cost, before + after);
      if v.Err? {
        return Err(v.error), before, after;
      }
      var status := LowByte(v.value);
      if !wantStatus && status != 0 {
        StillSucceeds(log0, log, BadStatus(status));
        return Err(BadStatus(status)), before, after;
      }
      ghost var log3 := log;
      var d, none := RdMailboxReg(DataReg);
      FailsLater(log0, log3, log, 22 * cost, before + after, Thrown(d));
      AppendsTwice(log0, log3, log, 22 * cost, cost, before + after, []);
      assert before + after + [] == before + after;
      if d.Err? {
        return Err(d.error), before, after;
      }
      return Ok(Answer(status, d.value)), before, after;
    }

    /** Write the input, then the command with RUN_BUSY set. */
    method Submit(command: bv8, subCommand: bv8, input: bv32) returns (r: Result<()>)
      requires Valid() && dev.box.Idle?
      modifies this, dev`clock, dev`box, dev`submitted, dev`clobbered, dev`wake, dev`trace
      ensures Valid()
      ensures r.Ok? ==> dev.submitted == old(dev.submitted) + [Command(command, subCommand, input)] && dev.box == Running
      ensures r.Err? ==> AccessError(r.error) && dev.submitted == old(dev.submitted)
      ensures FailsAsLast(old(log), log, Thrown(r))
      ensures Appends(old(log), log, 2 * PerAccess(), [])
    {
      hide Busy, LowByte, Appends, FailsAsLast, IsAccess, Woke, NoWakeWrites, Truthful;
      r := WrMailboxReg(DataReg, input);
      ghost var log1 := log;
      AppendsUpTo(old(log), log, PerAccess(), 2 * PerAccess(), []);
      if r.Err? {
        return;
      }
      r := WrMailboxReg(InterfaceReg, InterfaceWord(command, subCommand));
      FailsLater(old(log), log1, log, PerAccess(), [], Thrown(r));
      AppendsTwice(old(log), log1, log, PerAccess(), PerAccess(), [], []);
      ghost var none: seq<bool> := [];
      assert none + none == none;
    }

    /** Wait until RUN_BUSY is clear, giving up after ten busy polls. */
    method WaitFree() returns (free: bool, err: PeciError, ghost polls: seq<bool>)
      requires Valid()
      modifies this, dev`clock, dev`box, dev`wake, dev`trace
      ensures Valid()
      ensures free ==> dev.box.Idle?
      ensures !free ==> (err == NotFree <==> polls == AllBusy(MB_RETRIES))
      ensures !free ==> err == NotFree || AccessError(err)
      ensures free ==> polls != AllBusy(MB_RETRIES)
      ensures Waited(polls)
      ensures FailsAsLast(old(log), log, if free then None else Some(err))
      ensures Appends(old(log), log, 10 * PerAccess(), polls)
    {
      hide Busy, LowByte, Appends, IsAccess, Woke, NoWakeWrites, Truthful;
      AppendsNothing(log);
      polls := [];
      var attempts := MB_RETRIES;
      while true
        invariant Valid()
        invariant 1 <= attempts <= MB_RETRIES
        invariant polls == AllBusy(MB_RETRIES - attempts)
        invariant Appends(old(log), log, (MB_RETRIES - attempts) * PerAccess(), polls)
        decreases attempts
      {
        ghost var log0 := log;
        var v, bits := RdMailboxReg(InterfaceReg);
        FailsLater(old(log), log0, log, (MB_RETRIES - attempts) * PerAccess(), polls, Thrown(v));
        AppendsTwice(old(log), log0, log, (MB_RETRIES - attempts) * PerAccess(), PerAccess(), polls, bits);
        AppendsUpTo(old(log), log, (MB_RETRIES - attempts) * PerAccess() + PerAccess(), 10 * PerAccess(), polls + bits);
        polls := polls + bits;
        if v.Err? {
          return false, v.error, polls;
        }
        if !Busy(v.value) {
          assert !polls[|polls| - 1];
          return true, NotFree, polls;
        }
        attempts := attempts - 1;
        if attempts == 0 {
          return false, NotFree, polls;
        }
      }
    }

    /** Wait until the submitted command has returned, giving up after ten busy polls. */
    method WaitDone() returns (r: Result<bv32>, ghost polls: seq<bool>)
      requires Valid() && dev.box.Running?
      modifies this, dev`clock, dev`box, dev`wake, dev`trace
      ensures Valid()
      ensures r.Ok? ==> dev.box == old(dev.Answered()) && dev.box.Idle? && LowByte(r.value) == dev.box.status
      ensures r == Err(DidNotReturn) <==> polls == AllBusy(MB_RETRIES)
      ensures r.Err? ==> r.error == DidNotReturn || AccessError(r.error)
      ensures Waited(polls)
      ensures FailsAsLast(old(log), log, Thrown(r))
      ensures Appends(old(log), log, 10 * PerAccess(), polls)
    {
      hide Busy, LowByte, Appends, IsAccess, Woke, NoWakeWrites, Truthful;
      AppendsNothing(log);
      polls := [];
      var attempts := MB_RETRIES;
      while true
        invariant Valid()
        invariant dev.Answered() == old(dev.Answered()) && (dev.box == old(dev.box) || dev.box == old(dev.Answered()))
        invariant 1 <= attempts <= MB_RETRIES
        invariant polls == AllBusy(MB_RETRIES - attempts)
        invariant Appends(old(log), log, (MB_RETRIES - attempts) * PerAccess(), polls)
        decreases attempts
      {
        ghost var log0 := log;
        var v, bits := RdMailboxReg(InterfaceReg);
        FailsLater(old(log), log0, log, (MB_RETRIES - attempts) * PerAccess(), polls, Thrown(v));
        AppendsTwice(old(log), log0, log, (MB_RETRIES - attempts) * PerAccess(), PerAccess(), polls, bits);
        AppendsUpTo(old(log), log, (MB_RETRIES - attempts) * PerAccess() + PerAccess(), 10 * PerAccess(), polls + bits);
        polls := polls + bits;
        if v.Err? {
          return v, polls;
        }
        if !Busy(v.value) {
          assert !polls[|polls| - 1];
          return v, polls;
        }
        attempts := attempts - 1;
        if attempts == 0 {
          return Err(DidNotReturn), polls;
        }
      }
    }

    method TryRead(reg: Reg) returns (reply: Reply, value: bv32)
      requires Valid()
      modifies this`log, dev`clock, dev`box, dev`trace
      ensures Valid() && log == old(log) + [RegRead(reg, Busy(value), reply)]
      ensures dev.Answered() == old(dev.Answered()) && (dev.box == old(dev.box) || dev.box == old(dev.Answered()))
      ensures Carried(reply) && reg == InterfaceReg ==>
                (Busy(value) <==> dev.box.Running?) && (dev.box.Idle? ==> LowByte(value) == dev.box.status)
      ensures Carried(reply) && reg == DataReg && dev.box.Idle? ==> value == dev.box.data
    {
      hide Busy, LowByte, Woke, NoWakeWrites, Truthful;
      ghost var was := dev.trace;
      reply, value := dev.Read(reg);
      ExtendLog(was, RegRead(reg, Busy(value), reply));
    }

    method TryWrite(reg: Reg, data: bv32) returns (reply: Reply)
      requires Valid() && dev.box.Idle?
      modifies this`log, dev`clock, dev`box, dev`submitted, dev`clobbered, dev`trace
      ensures Valid() && log == old(log) + [RegWrite(reg, reply)]
      ensures !Carried(reply) ==> dev.box == old(dev.box) && dev.submitted == old(dev.submitted)
      ensures Carried(reply) && reg == DataReg ==>
                dev.submitted == old(dev.submitted) && dev.box == Idle(old(dev.box).status, data)
      ensures Carried(reply) && reg == InterfaceReg && Busy(data) ==>
                && dev.submitted == old(dev.submitted)
                                    + [Command(LowByte(data), LowByte(data >> 8), old(dev.box).data)]
                && dev.box == Running
    {
      hide Busy, LowByte, Woke, NoWakeWrites, Truthful;
      ghost var was := dev.trace;
      reply := dev.Write(reg, data);
      ExtendLog(was, RegWrite(reg, reply));
    }

    /** Record the device's latest transaction, one that does not touch the wake bit. */
    ghost method ExtendLog(was: seq<Event>, e: Event)
      requires FlagOk() && dev.Valid() && !e.WakeWrite?
      requires from <= |was| && was[from..] == log && dev.trace == was + [e]
      modifies this`log
      ensures Valid() && log == old(log) + [e]
    {
      assert dev.trace[from..] == log + [e];
      log := log + [e];
      assert forall i :: 0 <= i < |old(log)| ==> log[i] == old(log)[i];
      assert !SetsWake(e);
    }
  }

  datatype Call = Call(command: Command, wantStatus: bool)

  /** A normal result is what the device answered to submission number `n`, which is this
      command. */
  ghost predicate AnsweredBy(dev: Device, submitted: seq<Command>, call: Call, r: Result<Answer>, n: nat)
  {
    r.Ok? ==> n < |submitted| && submitted[n] == call.command && r.value == dev.answer(n, call.command)
  }

  /** Any sequence of commands, whatever fails or times out on the way: the device is never
      written to while a command runs, each call submits at most one command, every normal
      result answers its own call's submission, a call fails with an access error exactly when
      its last transaction fails, and it costs the device at most 69 transactions (23 when waking
      is not allowed, and then none of them writes the wake bit). `serials` are the submission
      numbers, one per call: a call that returns normally has one that no later call shares.
      Call i made the transactions from `marks[i]` to `marks[i + 1]`. */
  method RunCalls(pm: PECIManager, calls: seq<Call>)
    returns (results: seq<Result<Answer>>, ghost serials: seq<nat>, ghost marks: seq<nat>)
    requires pm.Valid()
    modifies pm, pm.dev`clock, pm.dev`box, pm.dev`submitted, pm.dev`clobbered, pm.dev`wake, pm.dev`trace
    ensures pm.Valid() && !pm.dev.clobbered
    ensures |results| == |calls| == |serials|
    ensures forall i :: 0 <= i < |calls| ==> AnsweredBy(pm.dev, pm.dev.submitted, calls[i], results[i], serials[i])
    ensures forall i, j :: 0 <= i < j < |calls| && results[i].Ok? ==> serials[i] < serials[j]
    ensures forall i :: 0 <= i < |calls| ==> |old(pm.dev.submitted)| <= serials[i]
    ensures old(pm.dev.submitted) <= pm.dev.submitted
    ensures |pm.dev.submitted| <= |old(pm.dev.submitted)| + |calls|
    ensures Marked(pm.log, marks, results) && marks[0] == |old(pm.log)| && marks[|calls|] == |pm.log|
    ensures pm.dev.clock <= old(pm.dev.clock) + |calls| * if pm.wakeAllowed then 69 else 23
    ensures !pm.wakeAllowed ==> NoWakeWrites(pm.dev.trace[pm.from..])
  {
    hide Busy, LowByte, Polls, FailsAsLast, Waited, Appends, Woke, Truthful;
    results, serials, marks := [], [], [|pm.log|];
    for i := 0 to |calls|
      invariant pm.Valid()
      invariant |results| == |serials| == i
      invariant forall k :: 0 <= k < i ==> AnsweredBy(pm.dev, pm.dev.submitted, calls[k], results[k], serials[k])
      invariant forall j, k :: 0 <= j < k < i && results[j].Ok? ==> serials[j] < serials[k]
      invariant forall k :: 0 <= k < i ==> |old(pm.dev.submitted)| <= serials[k] <= |pm.dev.submitted|
      invariant forall k :: 0 <= k < i && results[k].Ok? ==> serials[k] < |pm.dev.submitted|
      invariant old(pm.dev.submitted) <= pm.dev.submitted
      invariant |pm.dev.submitted| <= |old(pm.dev.submitted)| + i
      invariant Marked(pm.log, marks, results) && marks[0] == |old(pm.log)| && marks[i] == |pm.log|
      invariant pm.dev.clock <= old(pm.dev.clock) + i * if pm.wakeAllowed then 69 else 23
    {
      var c := calls[i].command;
      ghost var n, before := |pm.dev.submitted|, pm.log;
      var r, polls, more := pm.SendPECIOSMailboxCmd(c.command, c.subCommand, c.input, calls[i].wantStatus);
      MarkCall(before, pm.log, marks, results, r);
      results, serials, marks := results + [r], serials + [n], marks + [|pm.log|];
    }
  }

  /** Each call fails as its last transaction does. */
  ghost predicate Marked<T>(log: seq<Event>, marks: seq<nat>, results: seq<Result<T>>)
  {
    && |marks| == |results| + 1
    && (forall i :: 0 <= i < |marks| ==> marks[i] <= |log|)
    && forall i :: 0 <= i < |results| ==> FailsAsLast(log[..marks[i]], log[..marks[i + 1]], Thrown(results[i]))
  }

  lemma MarkCall<T>(before: seq<Event>, log: seq<Event>, marks: seq<nat>, results: seq<Result<T>>, r: Result<T>)
    requires Marked(before, marks, results) && marks[|results|] == |before| && FailsAsLast(before, log, Thrown(r))
    ensures Marked(log, marks + [|log|], results + [r])
  {
    assert before < log by { FailsGrows(before, log, Thrown(r)); }
    hide FailsAsLast;
    var marks', results' := marks + [|log|], results + [r];
    assert log[..|log|] == log && log[..|before|] == before;
    forall i | 0 <= i < |results| ensures FailsAsLast(log[..marks'[i]], log[..marks'[i + 1]], Thrown(results'[i])) {
      assert log[..marks[i]] == before[..marks[i]] && log[..marks[i + 1]] == before[..marks[i + 1]];
    }
  }

  lemma FailsGrows(before: seq<Event>, log: seq<Event>, e: Option<PeciError>)
    requires FailsAsLast(before, log, e)
    ensures before < log
  {
  }

  lemma FailsLater(a: seq<Event>, b: seq<Event>, c: seq<Event>, m: nat, p: seq<bool>, e: Option<PeciError>)
    requires Appends(a, b, m, p) && FailsAsLast(b, c, e)
    ensures FailsAsLast(a, c, e)
  {
  }

  /** An error of the mailbox's own, after the last access succeeded. */
  lemma StillSucceeds(a: seq<Event>, b: seq<Event>, e: PeciError)
    requires FailsAsLast(a, b, None) && !AccessError(e)
    ensures FailsAsLast(a, b, Some(e))
  {
  }

  lemma NoWait()
    ensures Waited([])
  {
  }

  ghost function AllBusy(n: nat): (bits: seq<bool>)
    ensures |bits| == n && forall i :: 0 <= i < n ==> bits[i]
  {
    seq(n, _ => true)
  }

  /** `log` extends `before` by at most `max` transactions, which polled `polls`. */
  ghost predicate Appends(before: seq<Event>, log: seq<Event>, max: nat, polls: seq<bool>)
  {
    && before <= log && |log| - |before| <= max
    && Polls(log[|before|..]) == polls
  }

  lemma AppendsNothing(a: seq<Event>)
    ensures Appends(a, a, 0, [])
  {
    assert a[|a|..] == [];
  }

  lemma AppendsUpTo(a: seq<Event>, b: seq<Event>, m: nat, n: nat, p: seq<bool>)
    requires Appends(a, b, m, p) && m <= n
    ensures Appends(a, b, n, p) && |b| <= |a| + n
  {
  }

  lemma AppendsTwice(a: seq<Event>, b: seq<Event>, c: seq<Event>, m: nat, n: nat, p: seq<bool>, q: seq<bool>)
    requires Appends(a, b, m, p) && Appends(b, c, n, q)
    ensures Appends(a, c, m + n, p + q) && |c| <= |a| + m + n
  {
    hide Polls;
    assert c[|a|..] == b[|a|..] + c[|b|..];
    PollsConcat(b[|a|..], c[|b|..]);
  }

  /** An access whose first transaction found the package asleep. */
  lemma WakeTried(before: seq<Event>, e: Event, w: Event, t: Target)
    requires Asks(e, t) && Slept(e.reply) && w.WakeWrite? && w.enable
    ensures Succeeds(w) ==> Woken([e, w], t)
    ensures !Succeeds(w) ==>
              var log := before + [e, w];
              && IsAccess(log[|before|..], t, true) && Appends(before, log, 3, [])
              && FailsAsLast(before, log, Some(WakeFailed))
  {
    assert (before + [e, w])[|before|..] == [e, w];
    QuietPolls([e, w]);
  }

  /** An access ends with the transaction `e`, its first or the one after waking. */
  lemma AccessEnds(before: seq<Event>, es: seq<Event>, e: Event, t: Target, wakeAllowed: bool)
    requires Asks(e, t)
    requires (es == [] && !(wakeAllowed && Slept(e.reply))) || (wakeAllowed && Woken(es, t))
    ensures var log := before + (es + [e]);
            && IsAccess(log[|before|..], t, wakeAllowed)
            && Appends(before, log, if wakeAllowed then 3 else 1, PolledBy(e))
            && FailsAsLast(before, log, if Succeeds(e) then None else Some(ErrorOf(e)))
  {
    var log := before + (es + [e]);
    assert log[|before|..] == es + [e];
    QuietPolls(es);
    assert (es + [e])[..|es|] == es;
  }

  lemma {:induction false} QuietPolls(es: seq<Event>)
    requires forall i :: 0 <= i < |es| ==> PolledBy(es[i]) == []
    ensures Polls(es) == []
    decreases |es|
  {
    if es != [] {
      QuietPolls(es[..|es| - 1]);
    }
  }
}
