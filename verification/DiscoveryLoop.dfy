/**
 The discovery code of src/speed_select.cpp in its own form: discoverCPUsAndConfigs runs the
 event loop before each address, the event loop can call discoverOrWait, and that calls
 discoverCPUsAndConfigs again.

 The outside world is a script of inputs. The class is tied to the machine of Discovery.dfy by
 the ghost list of steps taken: the fields show the machine's state after those steps, and the
 steps are exactly what the consumed part of the script calls for.
 */
module DiscoveryLoop {
  import opened Common
  import HostState
  import Levels
  import opened Discovery

  /** Work for the event loop, or the answer of the next address asked. */
  datatype Input = Change(event: HostState.Event) | TimerFires | Answer(probe: Probe)

  datatype Outcome = Completed | Incomplete | PeciError

  // ----- Following a script ---------------------------------------------------------

  /** What is left of `left` after the step `a`, if the script calls for that step: waiting
      work goes first; an attempt that sees the host off asks for no answer; an address the
      script says nothing about is absent. */
  ghost function TakeInput(sys: Sys, left: seq<Input>, a: Action): (r: Option<seq<Input>>)
  {
    match a
    case HostEvent(e) => if left != [] && left[0] == Change(e) then Some(left[1..]) else None
    case Retry => if left != [] && left[0] == TimerFires then Some(left[1..]) else None
    case Advance(p) =>
      if sys.stack == [] || (left != [] && !left[0].Answer?) then None
      else if sys.host.host == HostState.HostOff || left == [] then (if p == Absent then Some(left) else None)
      else if p == left[0].probe then Some(left[1..])
      else None
  }

  /** What is left of the script after the steps `acts`, if it calls for them. */
  ghost function Left(script: seq<Input>, acts: seq<Action>): (r: Option<seq<Input>>)
  {
    if acts == [] then Some(script)
    else
      match Left(script, acts[..|acts| - 1])
      case Some(left) => TakeInput(Run(acts[..|acts| - 1]), left, acts[|acts| - 1])
      case None => None
  }

  lemma LeftAppend(script: seq<Input>, acts: seq<Action>, a: Action)
    ensures Left(script, acts + [a]) ==
            match Left(script, acts)
            case Some(left) => TakeInput(Run(acts), left, a)
            case None => None
    ensures Run(acts + [a]) == Step(Run(acts), a)
  {
    hide TakeInput, Step;
    assert (acts + [a])[..|acts|] == acts;
  }

  ghost function Events(acts: seq<Action>): (r: seq<Action>)
  {
    if acts == [] then []
    else
      var last := acts[|acts| - 1];
      Events(acts[..|acts| - 1]) + if last.Advance? then [] else [last]
  }

  ghost function Called(inputs: seq<Input>): (r: seq<Action>)
  {
    if inputs == [] then []
    else
      var rest := Called(inputs[..|inputs| - 1]);
      match inputs[|inputs| - 1]
      case Change(e) => rest + [HostEvent(e)]
      case TimerFires => rest + [Retry]
      case Answer(_) => rest
  }

  lemma InputCallsAction(sys: Sys, left: seq<Input>, a: Action)
    requires TakeInput(sys, left, a).Some?
    ensures var rest := TakeInput(sys, left, a).value;
            || (rest == left && a.Advance?)
            || (left != [] && rest == left[1..] && Called([left[0]]) == if a.Advance? then [] else [a])
  {
    if left != [] {
      assert Called([]) == [] && [left[0]][..0] == [];
    }
  }

  lemma CalledAppend(used: seq<Input>, x: Input)
    ensures Called(used + [x]) == Called(used) + Called([x])
  {
    assert (used + [x])[..|used|] == used && [x][..0] == [];
  }

  /** Following a script means: the events and retries among the steps are, in order, the ones
      in the consumed part of the script. */
  lemma {:induction false} EventsFollowScript(script: seq<Input>, acts: seq<Action>) returns (used: seq<Input>)
    requires Left(script, acts).Some?
    ensures script == used + Left(script, acts).value
    ensures Events(acts) == Called(used)
    decreases |acts|
  {
    hide Run, TakeInput, Called;
    if acts == [] {
      used := [];
      assert Called([]) == [] by { NothingCalled(); }
    } else {
      var init, last := acts[..|acts| - 1], acts[|acts| - 1];
      used := EventsFollowScript(script, init);
      var left, rest := Left(script, init).value, Left(script, acts).value;
      InputCallsAction(Run(init), left, last);
      if rest != left {
        CalledAppend(used, left[0]);
        assert used + left == (used + [left[0]]) + rest;
        used := used + [left[0]];
      }
    }
  }

  lemma NothingCalled()
    ensures Called([]) == []
  {
  }

  // ----- The code -------------------------------------------------------------------

  class SstDiscovery {
    var host: HostState.Globals
    var cpus: seq<Cpu>       // the persistent list
    var peciErrorCount: nat
    var timerArmed: bool
    var script: seq<Input>   // what is still to come
    ghost const whole: seq<Input>
    ghost var acts: seq<Action>

    constructor (script: seq<Input>)
      ensures Valid() && acts == [] && this.script == script == whole
    {
      host, cpus, peciErrorCount, timerArmed := HostState.INITIAL, [], 0, false;
      this.script, whole := script, script;
      acts := [];
    }

    ghost predicate Shows(sys: Sys)
      reads this
    {
      host == sys.host && cpus == sys.cpus && peciErrorCount == sys.errors && timerArmed == sys.armed
    }

    /** The fields are what the machine has after `acts`, which is what the script calls for. */
    ghost predicate Valid()
      reads this
    {
      Shows(Run(acts)) && Left(whole, acts) == Some(script)
    }

    /** The input for step `a` has been taken from the script, the step itself is still owed. */
    ghost predicate Owes(a: Action)
      reads this
    {
      Left(whole, acts).Some? && TakeInput(Run(acts), Left(whole, acts).value, a) == Some(script)
    }

    /** What every method keeps: no step is taken back, and no input is put back. */
    twostate predicate Proceeds()
      reads this
    {
      old(acts) <= acts && |script| <= |old(script)|
    }

    ghost method Take(a: Action)
      requires Owes(a)
      modifies this`acts
      ensures acts == old(acts) + [a] && Run(acts) == Step(Run(old(acts)), a)
      ensures Left(whole, acts) == Some(script)
    {
      hide TakeInput, Step;
      LeftAppend(whole, acts, a);
      acts := acts + [a];
    }

    /** ioc.poll(): all work waiting is done when it returns, and so are the attempts it started. */
    method Poll()
      requires Valid()
      modifies this
      ensures Valid() && Proceeds()
      ensures script == [] || script[0].Answer?
      ensures Run(acts).stack == old(Run(acts).stack)
      decreases |script|, 0
    {
      hide Run, Step, Left;
      while |script| > 0 && !script[0].Answer?
        invariant Valid() && Proceeds() && Run(acts).stack == old(Run(acts).stack)
        decreases |script|
      {
        var input := script[0];
        script := script[1..];
        if input.Change? {
          HandleChange(input.event);
        } else {
          BeginsStarts(Run(acts), Retry);
          DiscoverOrWait(Retry);
        }
      }
    }

    /** A host-state update and its callback: one step of the machine, and if that starts an
        attempt, everything up to its end. */
    method HandleChange(e: HostState.Event)
      requires Shows(Run(acts)) && Owes(HostEvent(e))
      modifies this
      ensures Valid() && Proceeds()
      ensures old(acts) + [HostEvent(e)] <= acts
      ensures !Departs(Run(old(acts)), HostEvent(e)) ==> acts == old(acts) + [HostEvent(e)]
      ensures Run(acts).stack == old(Run(acts).stack)
      decreases |script|, 4
    {
      hide Run, Left;
      var prevState := host.host;
      host := HostState.Step(host, e);
      if prevState == HostState.HostOff && host.host != HostState.HostOff {
        DiscoverOrWait(HostEvent(e));
      } else {
        Take(HostEvent(e));
      }
    }

    /** One whole attempt: the step `why` that starts it, and every step up to its end. */
    method DiscoverOrWait(ghost why: Action)
      requires Owes(why)
      requires Begins(Run(acts), why) && host == Step(Run(acts), why).host
      requires cpus == Run(acts).cpus && peciErrorCount == Run(acts).errors && timerArmed == Run(acts).armed
      modifies this
      ensures Valid() && Proceeds()
      ensures old(acts) + [why] <= acts && Run(acts).stack == old(Run(acts).stack)
      ensures old(Run(acts).nextId) in Run(acts).ended
      decreases |script|, 3
    {
      hide Run, Step, Left, AdvanceTop, EndsNow, TakeInput, Begins;
      timerArmed := false;
      cpus := [];
      BeginsStarts(Run(acts), why);
      Take(why);
      var outcome, p := DiscoverCPUsAndConfigs();
      ghost var sys := Run(acts);
      Take(Advance(p));
      AdvancePops(sys, p, outcome);
      if outcome.PeciError? {
        peciErrorCount := peciErrorCount + 1;
        if peciErrorCount >= MAX_PECI_ERRORS {
          return;
        }
      }
      if !outcome.Completed? {
        timerArmed := true;
      }
    }

    /** Poll, then query one address. `stop` says how the attempt ends here, if it does;
        otherwise `staged` is what the address adds to its list. */
    method VisitAddress(i: nat) returns (stop: Option<Outcome>, staged: seq<Cpu>, ghost p: Probe)
      requires Valid() && Run(acts).stack != []
      modifies this
      ensures Shows(Run(acts)) && Owes(Advance(p)) && Proceeds()
      ensures Run(acts).stack == old(Run(acts).stack)
      ensures stop == if host.host == HostState.HostOff then Some(Incomplete)
                      else if Throws(p) then Some(PeciError)
                      else if p.NotReady? then Some(Incomplete)
                      else None
      ensures stop.None? ==> staged == Staged(p, i)
      decreases |script|, 1
    {
      hide Run, Step, Left;
      staged, p := [], Absent;
      Poll();
      if host.host == HostState.HostOff {
        return Some(Incomplete), [], p;
      }
      var probe := Absent;
      if |script| > 0 {
        probe := script[0].probe;
        script := script[1..];
      }
      p := probe;
      match probe {
        case TimedOut => return Some(PeciError), [], p;
        case NotReady => return Some(Incomplete), [], p;
        case QueryThrows => return Some(PeciError), [], p;
        case Sst(currentLevel, answers) =>
          var v := Levels.QueryLevels(answers, currentLevel);
          match v {
            case LoopThrows => return Some(PeciError), [], p;
            case NoCurrentConfig => return None, [], p;
            case Configs(levels) => return None, [Cpu(i, currentLevel, levels)], p;
          }
        case _ => return None, [], p;
      }
    }

    /** One attempt, from the cleared list on. The step that ends it, with the answer `p`, is
        the caller's to take; all but the list is still as before that step. */
    method DiscoverCPUsAndConfigs() returns (outcome: Outcome, ghost p: Probe)
      requires Valid()
      requires var st := Run(acts).stack; st != [] && st[|st| - 1].log == [] && st[|st| - 1].staging == []
      modifies this
      ensures Owes(Advance(p)) && Proceeds()
      ensures var st := old(Run(acts).stack);
              Tops(Run(acts), st[..|st| - 1]) && Run(acts).stack[|st| - 1].id == st[|st| - 1].id
      ensures EndsNow(Run(acts), p, outcome)
      ensures Shows(Run(acts).(cpus := if outcome.Completed? then AdvanceTop(Run(acts), p).cpus else Run(acts).cpus))
      decreases |script|, 2
    {
      hide Run, Step, Left, AdvanceTop, HostState.Step, TakeInput, Throws, Staged;
      ghost var below := Run(acts).stack[..|Run(acts).stack| - 1];
      ghost var top := Run(acts).stack[|Run(acts).stack| - 1];
      var cpuList: seq<Cpu> := [];
      p := Absent;
      var i := 0;
      while i < CLIENT_ADDRESSES
        invariant 0 <= i <= CLIENT_ADDRESSES && Shows(Run(acts)) && Proceeds()
        invariant top.id == old(Run(acts).stack)[|below|].id && top.staging == cpuList
        invariant i < CLIENT_ADDRESSES ==>
          Left(whole, acts) == Some(script) && |top.log| == i && Run(acts).stack == below + [top]
        invariant i == CLIENT_ADDRESSES ==>
          && Owes(Advance(p)) && Tops(Run(acts), below) && Run(acts).stack[|below|].id == top.id
          && EndsNow(Run(acts), p, Completed) && AdvanceTop(Run(acts), p).cpus == cpuList
      {
        var stop, staged, probe := VisitAddress(i);
        p := probe;
        assert Tops(Run(acts), below);
        if stop.Some? {
          return stop.value, p;
        }
        AdvanceGrows(Run(acts), probe, below, top);
        cpuList := cpuList + staged;
        top := top.(log := top.log + [probe], staging := cpuList);
        i := i + 1;
        if i < CLIENT_ADDRESSES {
          Take(Advance(probe));
        }
      }
      cpus := cpuList;
      return Completed, p;
    }
  }

  /** The step starts an attempt: a retry, or the host leaving the off state. */
  ghost predicate Begins(sys: Sys, a: Action)
  {
    a.Retry? || Departs(sys, a)
  }

  lemma BeginsStarts(sys: Sys, a: Action)
    requires Begins(sys, a)
    ensures var r := Step(sys, a);
            && r.cpus == [] && !r.armed && r.errors == sys.errors
            && r.stack == sys.stack + [Attempt(sys.nextId, [], [], r.departures)]
            && (a.Retry? ==> r.host == sys.host)
  {
  }

  /** The top attempt's next step ends it, the way `outcome` says. */
  ghost predicate EndsNow(sys: Sys, p: Probe, outcome: Outcome)
    requires sys.stack != []
  {
    if sys.host.host == HostState.HostOff then outcome == Incomplete
    else if Throws(p) then outcome == PeciError
    else if p.NotReady? then outcome == Incomplete
    else outcome == Completed && |sys.stack[|sys.stack| - 1].log| + 1 == CLIENT_ADDRESSES
  }

  lemma AdvancePops(sys: Sys, p: Probe, outcome: Outcome)
    requires sys.stack != [] && EndsNow(sys, p, outcome)
    ensures Step(sys, Advance(p)) == AdvanceTop(sys, p)
    ensures AdvanceTop(sys, p).stack == sys.stack[..|sys.stack| - 1]
    ensures sys.stack[|sys.stack| - 1].id in AdvanceTop(sys, p).ended
    ensures var r := AdvanceTop(sys, p);
            && r.host == sys.host && (!outcome.Completed? ==> r.cpus == sys.cpus)
            && r.errors == sys.errors + (if outcome.PeciError? then 1 else 0)
            && r.armed == (sys.armed || outcome.Incomplete? || (outcome.PeciError? && r.errors < MAX_PECI_ERRORS))
  {
  }
}
