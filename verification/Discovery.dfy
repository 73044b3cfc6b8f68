/**
 SST discovery of src/speed_select.cpp. An attempt visits every PECI address and publishes
 its list only at the end; before each address it runs the event loop, from which a host-state
 callback or a retry timer can start another attempt inside it.

 `Step` is the machine: a stack of attempts under way, the persistent list, the retry timer,
 and a count of the departures from the off state. The lemmas hold of every run; the code's own
 recursion is proved to make only steps of the machine in DiscoveryLoop.dfy.
 */
module Discovery {
  import opened Common
  import opened Bytes
  import Levels
  import HostState

  const CLIENT_ADDRESSES := 8  // MIN_CLIENT_ADDR .. MAX_CLIENT_ADDR of libpeci
  const MAX_PECI_ERRORS := 50

  /** A staged CPU: address index, current level, config levels. */
  datatype Cpu = Cpu(index: nat, currentLevel: Byte, levels: seq<nat>)

  /** What one address answers. `QueryThrows` is a PECIError before the level loop; `Sst` is a
      CPU with SST-PP, its current level and what it answers in the level loop. */
  datatype Probe =
    | TimedOut | Absent | BadReply | NoBackend | NotReady | NoSstPp | QueryThrows
    | Sst(currentLevel: Byte, answers: Levels.Answers)

  ghost function JudgeProbe(p: Probe): (v: Levels.Verdict)
    requires p.Sst?
  {
    Levels.Judge(p.answers, p.currentLevel)
  }

  ghost predicate Throws(p: Probe)
  {
    p.TimedOut? || p.QueryThrows? || (p.Sst? && JudgeProbe(p).LoopThrows?)
  }

  ghost predicate Passes(p: Probe)
  {
    !Throws(p) && !p.NotReady?
  }

  /** What the answer of address `i` adds to the staging list. */
  ghost function Staged(p: Probe, i: nat): (cpus: seq<Cpu>)
  {
    if p.Sst? && JudgeProbe(p).Configs? then [Cpu(i, p.currentLevel, JudgeProbe(p).levels)] else []
  }

  /** The staging list of an attempt that has seen `log`. */
  ghost function Collect(log: seq<Probe>): (cpus: seq<Cpu>)
  {
    if log == [] then []
    else Collect(log[..|log| - 1]) + Staged(log[|log| - 1], |log| - 1)
  }

  // ----- The machine ----------------------------------------------------------------

  /** An attempt under way: it has seen `log`, one probe per address, and `started` is how
      often the host had left the off state when it started. */
  datatype Attempt = Attempt(id: nat, log: seq<Probe>, staging: seq<Cpu>, started: nat)

  /** How an attempt ended; a finished one notes the departures counted at its start and end. */
  datatype End = Finished(log: seq<Probe>, started: nat, finished: nat) | SawOff | WasNotReady | Threw

  datatype Sys = Sys(host: HostState.Globals, departures: nat, cpus: seq<Cpu>, stack: seq<Attempt>,
                     errors: nat, armed: bool, nextId: nat, ended: map<nat, End>, owner: Option<nat>,
                     last: Option<End>)

  /** The event loop handles a property change or a retry; or the top attempt takes its next
      address. A retry already queued when the timer is cancelled still runs, so a retry is
      possible at any time. */
  datatype Action = HostEvent(event: HostState.Event) | Retry | Advance(probe: Probe)

  ghost function Start(sys: Sys): (r: Sys)
  {
    sys.(cpus := [], owner := None, armed := false, nextId := sys.nextId + 1,
         stack := sys.stack + [Attempt(sys.nextId, [], [], sys.departures)])
  }

  ghost function Pop(sys: Sys, end: End): (r: Sys)
    requires sys.stack != []
  {
    var n := |sys.stack| - 1;
    sys.(stack := sys.stack[..n], ended := sys.ended[sys.stack[n].id := end], last := Some(end))
  }

  ghost function AdvanceTop(sys: Sys, p: Probe): (r: Sys)
    requires sys.stack != []
  {
    var n := |sys.stack| - 1;
    var top := sys.stack[n];
    if sys.host.host == HostState.HostOff then Pop(sys, SawOff).(armed := true)
    else if Throws(p) then
      Pop(sys, Threw).(errors := sys.errors + 1, armed := sys.armed || sys.errors + 1 < MAX_PECI_ERRORS)
    else if p.NotReady? then Pop(sys, WasNotReady).(armed := true)
    else
      var log := top.log + [p];
      var staging := top.staging + Staged(p, |top.log|);
      if |log| < CLIENT_ADDRESSES then sys.(stack := sys.stack[..n] + [top.(log := log, staging := staging)])
      else Pop(sys, Finished(log, top.started, sys.departures)).(cpus := staging, owner := Some(top.id))
  }

  /** The action is a host-state change that takes the host out of the off state, which starts
      an attempt. */
  ghost predicate Departs(sys: Sys, a: Action)
  {
    && a.HostEvent? && sys.host.host == HostState.HostOff
    && HostState.Step(sys.host, a.event).host != HostState.HostOff
  }

  ghost function Step(sys: Sys, a: Action): (r: Sys)
  {
    match a
    case HostEvent(e) =>
      var s := sys.(host := HostState.Step(sys.host, e));
      if Departs(sys, a) then Start(s.(departures := sys.departures + 1)) else s
    case Retry => Start(sys)
    case Advance(p) => if sys.stack == [] then sys else AdvanceTop(sys, p)
  }

  ghost const INITIAL := Sys(HostState.INITIAL, 0, [], [], 0, false, 0, map[], None, None)

  ghost function Run(acts: seq<Action>): (sys: Sys)
  {
    if acts == [] then INITIAL else Step(Run(acts[..|acts| - 1]), acts[|acts| - 1])
  }

  // ----- All or nothing -------------------------------------------------------------

  ghost predicate AllPass(log: seq<Probe>)
  {
    forall i :: 0 <= i < |log| ==> Passes(log[i])
  }

  ghost predicate AttemptOk(a: Attempt, nextId: nat, ended: map<nat, End>)
  {
    && a.id < nextId && a.id !in ended
    && |a.log| < CLIENT_ADDRESSES && AllPass(a.log) && a.staging == Collect(a.log)
  }

  ghost predicate StackOk(stack: seq<Attempt>, nextId: nat, ended: map<nat, End>)
  {
    && (forall i :: 0 <= i < |stack| ==> AttemptOk(stack[i], nextId, ended))
    && (forall i, j :: 0 <= i < j < |stack| ==> stack[i].id < stack[j].id)
  }

  ghost predicate EndOk(end: End)
  {
    end.Finished? ==> |end.log| == CLIENT_ADDRESSES && AllPass(end.log)
  }

  ghost predicate EndedOk(ended: map<nat, End>, nextId: nat)
  {
    forall id :: id in ended ==> id < nextId && EndOk(ended[id])
  }

  /** The persistent list is empty, or the staging list of its owner, which finished. */
  ghost predicate OwnerOk(cpus: seq<Cpu>, owner: Option<nat>, ended: map<nat, End>)
  {
    match owner
    case None => cpus == []
    case Some(id) => id in ended && ended[id].Finished? && cpus == Collect(ended[id].log)
  }

  ghost predicate RetryOk(sys: Sys)
  {
    sys.stack == [] && sys.last.Some? && !sys.last.value.Finished? ==> sys.armed || sys.errors >= MAX_PECI_ERRORS
  }

  ghost predicate Inv(sys: Sys)
  {
    && StackOk(sys.stack, sys.nextId, sys.ended)
    && EndedOk(sys.ended, sys.nextId)
    && OwnerOk(sys.cpus, sys.owner, sys.ended)
    && RetryOk(sys)
  }

  lemma StartKeepsInv(sys: Sys)
    requires Inv(sys)
    ensures Inv(Start(sys))
  {
    hide Collect;
    var r := Start(sys);
    assert Collect([]) == [] by { CollectEmpty(); }
    forall i | 0 <= i < |r.stack| ensures AttemptOk(r.stack[i], r.nextId, r.ended) {
      assert i < |sys.stack| ==> AttemptOk(sys.stack[i], sys.nextId, sys.ended);
    }
  }

  lemma CollectEmpty()
    ensures Collect([]) == []
  {
  }

  lemma CollectAppend(log: seq<Probe>, p: Probe)
    ensures Collect(log + [p]) == Collect(log) + Staged(p, |log|)
  {
    hide Staged;
    assert (log + [p])[..|log|] == log;
  }

  /** Ending the top attempt; the list may become its own only if it finished. */
  lemma PopKeepsInv(sys: Sys, end: End)
    requires Inv(sys) && sys.stack != [] && EndOk(end)
    ensures var r := Pop(sys, end);
            && StackOk(r.stack, r.nextId, r.ended) && EndedOk(r.ended, r.nextId)
            && OwnerOk(sys.cpus, sys.owner, r.ended)
            && (end.Finished? ==> OwnerOk(Collect(end.log), Some(sys.stack[|sys.stack| - 1].id), r.ended))
  {
    hide Collect, AllPass;
    var n := |sys.stack| - 1;
    var top, r := sys.stack[n], Pop(sys, end);
    assert AttemptOk(top, sys.nextId, sys.ended);
    forall i | 0 <= i < n ensures AttemptOk(r.stack[i], r.nextId, r.ended) {
      assert AttemptOk(sys.stack[i], sys.nextId, sys.ended);
    }
  }

  lemma GrowKeepsStack(stack: seq<Attempt>, p: Probe, nextId: nat, ended: map<nat, End>, staging: seq<Cpu>)
    requires stack != [] && StackOk(stack, nextId, ended) && Passes(p)
    requires |stack[|stack| - 1].log| + 1 < CLIENT_ADDRESSES
    requires staging == Collect(stack[|stack| - 1].log + [p])
    ensures var n := |stack| - 1;
            StackOk(stack[..n] + [stack[n].(log := stack[n].log + [p], staging := staging)], nextId, ended)
  {
    hide Collect;
    var n := |stack| - 1;
    var after := stack[..n] + [stack[n].(log := stack[n].log + [p], staging := staging)];
    assert AttemptOk(stack[n], nextId, ended);
    forall i | 0 <= i < |after| ensures AttemptOk(after[i], nextId, ended) {
      assert i < n ==> AttemptOk(stack[i], nextId, ended);
    }
  }

  lemma AdvanceKeepsInv(sys: Sys, p: Probe)
    requires Inv(sys) && sys.stack != []
    ensures Inv(AdvanceTop(sys, p))
  {
    hide Collect, StackOk, EndedOk;
    var top := sys.stack[|sys.stack| - 1];
    assert AttemptOk(top, sys.nextId, sys.ended) by { TopOk(sys.stack, sys.nextId, sys.ended); }
    CollectAppend(top.log, p);
    if sys.host.host == HostState.HostOff {
      PopKeepsInv(sys, SawOff);
    } else if Throws(p) {
      PopKeepsInv(sys, Threw);
    } else if p.NotReady? {
      PopKeepsInv(sys, WasNotReady);
    } else if |top.log| + 1 == CLIENT_ADDRESSES {
      PopKeepsInv(sys, Finished(top.log + [p], top.started, sys.departures));
    } else {
      GrowKeepsStack(sys.stack, p, sys.nextId, sys.ended, Collect(top.log + [p]));
    }
  }

  lemma TopOk(stack: seq<Attempt>, nextId: nat, ended: map<nat, End>)
    requires stack != [] && StackOk(stack, nextId, ended)
    ensures AttemptOk(stack[|stack| - 1], nextId, ended)
  {
  }

  lemma StepKeepsInv(sys: Sys, a: Action)
    requires Inv(sys)
    ensures Inv(Step(sys, a))
  {
    hide StackOk, EndedOk, OwnerOk, AdvanceTop, Start;
    match a
    case HostEvent(e) =>
      var s := sys.(host := HostState.Step(sys.host, e));
      StartKeepsInv(s.(departures := sys.departures + 1));
    case Retry => StartKeepsInv(sys);
    case Advance(p) =>
      if sys.stack != [] {
        AdvanceKeepsInv(sys, p);
      }
  }

  lemma {:induction false} RunKeepsInv(acts: seq<Action>)
    ensures Inv(Run(acts))
    decreases |acts|
  {
    if acts != [] {
      RunKeepsInv(acts[..|acts| - 1]);
      StepKeepsInv(Run(acts[..|acts| - 1]), acts[|acts| - 1]);
    }
  }

  /** In every run, nested attempts included: the persistent list is empty, or it is the whole
      staging list of one attempt that passed every address. */
  lemma DiscoveryIsAllOrNothing(acts: seq<Action>)
    ensures var sys := Run(acts);
            sys.cpus == [] || exists id :: id in sys.ended && sys.ended[id].Finished? && sys.owner == Some(id)
                                && |sys.ended[id].log| == CLIENT_ADDRESSES && AllPass(sys.ended[id].log)
                                && sys.cpus == Collect(sys.ended[id].log)
  {
    RunKeepsInv(acts);
  }

  lemma {:induction false} CollectSound(log: seq<Probe>, i: nat)
    requires i < |Collect(log)|
    ensures var c := Collect(log)[i];
            c.index < |log| && log[c.index].Sst? && Staged(log[c.index], c.index) == [c]
    decreases |log|
  {
    var init := log[..|log| - 1];
    if i < |Collect(init)| {
      CollectSound(init, i);
    }
  }

  /** In every run, every published CPU has strictly increasing 8-bit config levels: exactly the
      ones the device said it supports, up to the maximum it reported, with the level recorded
      for the CPU among them. `a` is what its device answered to the attempt that owns the list,
      and `n` where the level loop ended. */
  lemma PublishedLevels(acts: seq<Action>, i: nat) returns (a: Levels.Answers, n: nat)
    requires i < |Run(acts).cpus|
    ensures var sys := Run(acts);
            var c := sys.cpus[i];
            && sys.owner.Some? && sys.owner.value in sys.ended && sys.ended[sys.owner.value].Finished?
            && c.index < CLIENT_ADDRESSES == |sys.ended[sys.owner.value].log|
            && sys.ended[sys.owner.value].log[c.index] == Sst(c.currentLevel, a)
            && Levels.EndsAt(a, n) && n <= 0x100 && c.levels == Levels.SupportedBelow(a, n)
            && Increasing(c.levels) && c.currentLevel in c.levels
            && forall x: nat :: x in c.levels <==> x < n && a.supported(x) == Some(true)
  {
    hide Levels.Judge, Run;
    RunKeepsInv(acts);
    var sys := Run(acts);
    var log := sys.ended[sys.owner.value].log;
    CollectSound(log, i);
    var c := sys.cpus[i];
    var p := log[c.index];
    a := p.answers;
    n := Levels.ConfigsExact(a, p.currentLevel, 0);
    forall x: nat ensures x in c.levels <==> x < n && a.supported(x) == Some(true) {
      Levels.SupportedBelowExact(a, n, x);
    }
  }

  lemma StepKeepsEnded(sys: Sys, a: Action, id: nat)
    requires Inv(sys) && id in sys.ended
    ensures var r := Step(sys, a); id in r.ended && r.ended[id] == sys.ended[id]
  {
    hide Collect;
    if sys.stack != [] {
      TopOk(sys.stack, sys.nextId, sys.ended);
    }
  }

  /** How an attempt ended is never rewritten, and an attempt that threw, saw the host off or
      found a CPU not ready never owns the list, at that time or later. */
  lemma {:induction false} FailedNeverInstalls(acts: seq<Action>, more: seq<Action>, id: nat)
    requires id in Run(acts).ended
    ensures var sys := Run(acts + more);
            && id in sys.ended && sys.ended[id] == Run(acts).ended[id]
            && (!Run(acts).ended[id].Finished? ==> sys.owner != Some(id))
    decreases |more|
  {
    hide Step, StackOk, EndedOk;
    RunKeepsInv(acts + more);
    if more == [] {
      assert acts + more == acts;
    } else {
      var init := acts + more[..|more| - 1];
      FailedNeverInstalls(acts, more[..|more| - 1], id);
      assert (acts + more)[..|acts + more| - 1] == init;
      RunKeepsInv(init);
      StepKeepsEnded(Run(init), more[|more| - 1], id);
    }
  }

  /** Discovery is not silently given up: when no attempt is under way and the last one did
      not finish, a retry is pending, unless fifty PECI errors have been counted. */
  lemma RetryIsPending(acts: seq<Action>)
    ensures var sys := Run(acts);
            sys.stack == [] && sys.last.Some? && !sys.last.value.Finished? ==>
              sys.armed || sys.errors >= MAX_PECI_ERRORS
  {
    RunKeepsInv(acts);
  }

  /** Exactly one attempt on top of `below`. */
  ghost predicate Tops(sys: Sys, below: seq<Attempt>)
  {
    sys.stack != [] && sys.stack[..|sys.stack| - 1] == below
  }

  lemma AdvanceGrows(sys: Sys, p: Probe, below: seq<Attempt>, top: Attempt)
    requires sys.stack == below + [top] && Passes(p) && sys.host.host != HostState.HostOff
    ensures |top.log| + 1 < CLIENT_ADDRESSES ==>
              Step(sys, Advance(p)) == sys.(stack := below + [top.(log := top.log + [p], staging := top.staging + Staged(p, |top.log|))])
    ensures |top.log| + 1 == CLIENT_ADDRESSES ==>
              && Step(sys, Advance(p)) == AdvanceTop(sys, p)
              && AdvanceTop(sys, p).cpus == top.staging + Staged(p, |top.log|)
              && AdvanceTop(sys, p).ended == sys.ended[top.id := Finished(top.log + [p], top.started, sys.departures)]
  {
    assert sys.stack[..|sys.stack| - 1] == below;
  }

  // ----- A power cycle inside one poll ----------------------------------------------

  ghost function Continue(sys: Sys, acts: seq<Action>): (r: Sys)
    decreases |acts|
  {
    if acts == [] then sys else Continue(Step(sys, acts[0]), acts[1..])
  }

  ghost function Advances(log: seq<Probe>): (acts: seq<Action>)
    ensures |acts| == |log|
    decreases |log|
  {
    if log == [] then [] else [Advance(log[0])] + Advances(log[1..])
  }

  /** An undisturbed attempt installs everything it saw. */
  lemma {:induction false} UndisturbedAttemptInstalls(sys: Sys, rest: seq<Probe>)
    requires Inv(sys) && sys.stack != [] && sys.host.host != HostState.HostOff
    requires rest != [] && AllPass(rest)
    requires |sys.stack[|sys.stack| - 1].log| + |rest| == CLIENT_ADDRESSES
    ensures var r, top := Continue(sys, Advances(rest)), sys.stack[|sys.stack| - 1];
            && r.cpus == Collect(top.log + rest)
            && top.id in r.ended && r.ended[top.id] == Finished(top.log + rest, top.started, sys.departures)
    decreases |rest|
  {
    hide StackOk, EndedOk, OwnerOk, Collect, AdvanceTop, Passes;
    var top, below := sys.stack[|sys.stack| - 1], sys.stack[..|sys.stack| - 1];
    TopOk(sys.stack, sys.nextId, sys.ended);
    assert sys.stack == below + [top];
    AdvanceGrows(sys, rest[0], below, top);
    CollectAppend(top.log, rest[0]);
    var next := Step(sys, Advance(rest[0]));
    StepKeepsInv(sys, Advance(rest[0]));
    assert Advances(rest)[0] == Advance(rest[0]) && Advances(rest)[1..] == Advances(rest[1..]);
    if |rest| == 1 {
      assert rest == [rest[0]] && Advances(rest[1..]) == [];
    } else {
      assert (top.log + [rest[0]]) + rest[1..] == top.log + rest;
      UndisturbedAttemptInstalls(next, rest[1..]);
    }
  }

  /** The host check samples the state only after a poll. If the power goes off and on again
      within one, and the attempt started by that gives up, the older attempt carries on and
      publishes what it staged before the power cycle. */
  lemma AttemptSurvivesPowerCycle(sys: Sys, rest: seq<Probe>, on: string)
    requires Inv(sys) && sys.stack != [] && sys.host.host != HostState.HostOff
    requires rest != [] && AllPass(rest)
    requires |sys.stack[|sys.stack| - 1].log| + |rest| == CLIENT_ADDRESSES
    ensures var cycle := [HostEvent(HostState.PowerChange(HostState.PowerOff)),
                          HostEvent(HostState.PowerChange(HostState.PowerOther(on))), Advance(NotReady)];
            var r, top := Continue(Continue(sys, cycle), Advances(rest)), sys.stack[|sys.stack| - 1];
            && r.cpus == Collect(top.log + rest)
            && top.id in r.ended && r.ended[top.id] == Finished(top.log + rest, top.started, sys.departures + 1)
  {
    hide Inv, Collect;
    var off, on' := HostState.PowerChange(HostState.PowerOff), HostState.PowerChange(HostState.PowerOther(on));
    var s1 := Step(sys, HostEvent(off));
    var s2 := Step(s1, HostEvent(on'));
    var s3 := Step(s2, Advance(NotReady));
    StepKeepsInv(sys, HostEvent(off));
    StepKeepsInv(s1, HostEvent(on'));
    StepKeepsInv(s2, Advance(NotReady));
    assert s1.host.host == HostState.HostOff && s2.host.host == HostState.PostInProgress;
    assert s3.stack == sys.stack && s3.host == s2.host;
    assert Continue(sys, [HostEvent(off), HostEvent(on'), Advance(NotReady)]) == s3 by {
      assert Continue(s2, [Advance(NotReady)]) == Continue(s3, []);
      assert Continue(s1, [HostEvent(on'), Advance(NotReady)]) == Continue(s2, [Advance(NotReady)]);
    }
    UndisturbedAttemptInstalls(s3, rest);
  }

  lemma {:induction false} ContinueConcat(sys: Sys, a: seq<Action>, b: seq<Action>)
    ensures Continue(sys, a + b) == Continue(Continue(sys, a), b)
    decreases |a|
  {
    hide Step;
    if a == [] {
      assert a + b == b;
    } else {
      assert (a + b)[0] == a[0] && (a + b)[1..] == a[1..] + b;
      ContinueConcat(Step(sys, a[0]), a[1..], b);
    }
  }

  lemma {:induction false} RunIsContinue(acts: seq<Action>)
    ensures Run(acts) == Continue(INITIAL, acts)
    decreases |acts|
  {
    hide Step;
    if acts != [] {
      var init, last := acts[..|acts| - 1], acts[|acts| - 1];
      RunIsContinue(init);
      assert acts == init + [last];
      ContinueConcat(INITIAL, init, [last]);
      assert Continue(Run(init), [last]) == Continue(Step(Run(init), last), []);
    }
  }

  /** A device with one config level, level 0. */
  const ONE_LEVEL := Levels.Answers(_ => Some(0), _ => Some(true), _ => true)

  lemma OneLevelJudged()
    ensures Levels.Judge(ONE_LEVEL, 0) == Levels.Configs([0])
  {
    assert Levels.Goes(ONE_LEVEL, 0) && Levels.EndsAt(ONE_LEVEL, 1);
    Levels.JudgeAt(ONE_LEVEL, 0, 1);
    assert Levels.SupportedBelow(ONE_LEVEL, 1) == [0];
  }

  const POWER_ON := HostEvent(HostState.PowerChange(HostState.PowerOther("Running")))
  const POWER_OFF := HostEvent(HostState.PowerChange(HostState.PowerOff))

  lemma FirstCpuStaged()
    ensures var s1 := Step(INITIAL, POWER_ON);
            var s2 := Step(s1, Advance(Sst(0, ONE_LEVEL)));
            && s1.stack == [Attempt(0, [], [], 1)] && s1.host.host == HostState.PostInProgress && s1.departures == 1
            && s2 == s1.(stack := [Attempt(0, [Sst(0, ONE_LEVEL)], [Cpu(0, 0, [0])], 1)])
            && Inv(s2)
  {
    hide Levels.Judge, Inv, AdvanceTop;
    var first := Sst(0, ONE_LEVEL);
    OneLevelJudged();
    assert JudgeProbe(first) == Levels.Configs([0]);
    var s1 := Step(INITIAL, POWER_ON);
    assert s1.stack == [] + [Attempt(0, [], [], 1)];
    AdvanceGrows(s1, first, [], Attempt(0, [], [], 1));
    assert Staged(first, 0) == [Cpu(0, 0, [0])] && [] + [first] == [first];
    assert [] + Staged(first, 0) == Staged(first, 0);
    RunKeepsInv([]);
    StepKeepsInv(INITIAL, POWER_ON);
    StepKeepsInv(s1, Advance(first));
  }

  lemma ContinueTwo(sys: Sys, a: Action, b: Action)
    ensures Continue(sys, [a, b]) == Step(Step(sys, a), b)
  {
    hide Step;
    var s := Step(sys, a);
    assert Continue(s, [b]) == Continue(Step(s, b), []);
    assert [a, b][1..] == [b];
  }

  /** A run from the start: the host powers on, the first CPU is staged, the power goes off and
      on within the next poll, the attempt this starts gives up, and the first one finishes.
      The published CPU was queried before the power cycle, and the record says so. */
  lemma StaleListExample()
    ensures var first, rest := Sst(0, ONE_LEVEL), seq(7, _ => Absent);
            var r := Run([POWER_ON, Advance(first)] + [POWER_OFF, POWER_ON, Advance(NotReady)] + Advances(rest));
            r.cpus == [Cpu(0, 0, [0])] && 0 in r.ended && r.ended[0] == Finished([first] + rest, 1, 2)
  {
    hide Levels.Judge, Step, Continue, Run, Inv, Collect, Advances;
    var first, rest := Sst(0, ONE_LEVEL), seq(7, _ => Absent);
    var open, cycle := [POWER_ON, Advance(first)], [POWER_OFF, POWER_ON, Advance(NotReady)];
    var s2 := Continue(INITIAL, open);
    ContinueTwo(INITIAL, POWER_ON, Advance(first));
    FirstCpuStaged();
    AttemptSurvivesPowerCycle(s2, rest, "Running");
    ContinueConcat(INITIAL, open, cycle);
    ContinueConcat(INITIAL, open + cycle, Advances(rest));
    RunIsContinue(open + cycle + Advances(rest));
    CollectOneThenAbsent(first, rest);
    OneLevelJudged();
    assert JudgeProbe(first) == Levels.Configs([0]);
  }

  lemma {:induction false} CollectOneThenAbsent(first: Probe, rest: seq<Probe>)
    requires forall i :: 0 <= i < |rest| ==> rest[i] == Absent
    ensures Collect([first] + rest) == Staged(first, 0)
    decreases |rest|
  {
    hide Staged;
    if rest == [] {
      CollectAppend([], first);
      assert [first] + rest == [] + [first];
      CollectEmpty();
      assert [] + Staged(first, 0) == Staged(first, 0);
    } else {
      var init := rest[..|rest| - 1];
      assert [first] + rest == ([first] + init) + [Absent];
      CollectOneThenAbsent(first, init);
      CollectAppend([first] + init, Absent);
      AbsentStagesNothing(|[first] + init|);
    }
  }

  lemma AbsentStagesNothing(i: nat)
    ensures Staged(Absent, i) == []
  {
  }

  // ----- When a finished list belongs to the current power-on -----------------------

  /** Departures are counted exactly when they happen. */
  lemma {:induction false} DeparturesBetween(acts: seq<Action>, i: nat, j: nat)
    requires i <= j <= |acts|
    ensures var m, n := Run(acts[..i]).departures, Run(acts[..j]).departures;
            m <= n && (m == n <==> forall k :: i <= k < j ==> !Departs(Run(acts[..k]), acts[k]))
    decreases j - i
  {
    hide Departs, Step, Run;
    if i < j {
      DeparturesBetween(acts, i, j - 1);
      RunUnfold(acts[..j]);
      assert acts[..j][..j - 1] == acts[..j - 1] && acts[..j][j - 1] == acts[j - 1];
      StepCounts(Run(acts[..j - 1]), acts[j - 1]);
    }
  }

  lemma StepCounts(sys: Sys, a: Action)
    ensures Step(sys, a).departures == sys.departures + if Departs(sys, a) then 1 else 0
  {
  }

  /** Action `i` starts attempt `id`. */
  ghost predicate StartsAt(acts: seq<Action>, id: nat, i: nat)
  {
    i < |acts| && Run(acts[..i]).nextId == id && Run(acts[..i + 1]).nextId == id + 1
  }

  /** An attempt on the stack notes the departures counted when it started. */
  lemma {:induction false} StackStarted(acts: seq<Action>, m: nat) returns (i: nat)
    requires m < |Run(acts).stack|
    ensures var a := Run(acts).stack[m];
            StartsAt(acts, a.id, i) && a.started == Run(acts[..i + 1]).departures
    decreases |acts|
  {
    hide Run, Step;
    RunUnfold(acts);
    var n := |acts| - 1;
    var init, sys := acts[..n], Run(acts[..n]);
    assert acts[..n + 1] == acts;
    StackAfter(sys, acts[n], m);
    var a := Run(acts).stack[m];
    if m < |sys.stack| && sys.stack[m].id == a.id && sys.stack[m].started == a.started {
      i := StackStarted(init, m);
      assert init[..i] == acts[..i] && init[..i + 1] == acts[..i + 1];
    } else {
      i := n;
    }
  }

  lemma RunUnfold(acts: seq<Action>)
    ensures if acts == [] then Run(acts) == INITIAL
            else Run(acts) == Step(Run(acts[..|acts| - 1]), acts[|acts| - 1])
  {
  }

  /** Where an attempt on the stack after a step comes from. */
  lemma StackAfter(sys: Sys, a: Action, m: nat)
    requires m < |Step(sys, a).stack|
    ensures var r := Step(sys, a);
            || (m < |sys.stack| && r.stack[m].id == sys.stack[m].id && r.stack[m].started == sys.stack[m].started)
            || (r.stack[m].id == sys.nextId && r.nextId == sys.nextId + 1 && r.stack[m].started == r.departures)
  {
    hide Throws, Staged, HostState.Step;
  }

  /** Over every run: a finished attempt's list was gathered in one power-on, by the counts it
      notes, if and only if no attempt was started by the host leaving off while it was under
      way. `i` and `j` are the actions that start and finish it. */
  lemma {:induction false} FinishedListIsCurrent(acts: seq<Action>, id: nat) returns (i: nat, j: nat)
    requires id in Run(acts).ended && Run(acts).ended[id].Finished?
    ensures i < j < |acts| && StartsAt(acts, id, i)
    ensures id !in Run(acts[..j]).ended && id in Run(acts[..j + 1]).ended
    ensures var e := Run(acts).ended[id];
            && e.started == Run(acts[..i + 1]).departures && e.finished == Run(acts[..j + 1]).departures
            && (e.started == e.finished <==> forall k :: i < k < j ==> !Departs(Run(acts[..k]), acts[k]))
    decreases |acts|
  {
    hide Run, Step, Departs, Inv;
    RunUnfold(acts);
    var n := |acts| - 1;
    var init, sys, last := acts[..n], Run(acts[..n]), acts[n];
    assert acts[..n + 1] == acts;
    RunKeepsInv(init);
    if id in sys.ended {
      StepKeepsEnded(sys, last, id);
      i, j := FinishedListIsCurrent(init, id);
      assert forall k :: 0 <= k <= n ==> init[..k] == acts[..k];
    } else {
      j := n;
      EndsFromTop(sys, last, id);
      i := StackStarted(init, |sys.stack| - 1);
      assert forall k :: 0 <= k <= n ==> init[..k] == acts[..k];
      StepCounts(sys, last);
      assert !Departs(sys, last) by { AdvanceIsNoDeparture(sys, last); }
      DeparturesBetween(acts, i + 1, n);
    }
  }

  lemma AdvanceIsNoDeparture(sys: Sys, a: Action)
    requires a.Advance?
    ensures !Departs(sys, a)
  {
  }

  lemma EndsFromTop(sys: Sys, a: Action, id: nat)
    requires id !in sys.ended && id in Step(sys, a).ended
    ensures a.Advance? && sys.stack != [] && sys.stack[|sys.stack| - 1].id == id
    ensures Step(sys, a).ended[id].Finished? ==>
              && Step(sys, a).ended[id].started == sys.stack[|sys.stack| - 1].started
              && Step(sys, a).ended[id].finished == sys.departures
  {
  }

  /** Action `n` is the next address of attempt `id`. */
  ghost predicate AdvancesAttempt(acts: seq<Action>, id: nat, n: nat)
  {
    && n < |acts| && acts[n].Advance?
    && var stack := Run(acts[..n]).stack;
       stack != [] && stack[|stack| - 1].id == id
  }

  ghost predicate OffAt(acts: seq<Action>, n: nat)
    requires n <= |acts|
  {
    Run(acts[..n]).host.host == HostState.HostOff
  }

  /** An attempt that finishes never takes an address while the host is off. */
  lemma FinishedSkipsOff(acts: seq<Action>, id: nat, n: nat)
    requires id in Run(acts).ended && Run(acts).ended[id].Finished?
    requires n < |acts| && OffAt(acts, n)
    ensures !AdvancesAttempt(acts, id, n)
  {
    hide Run, Step;
    assert acts[..n + 1] + acts[n + 1..] == acts;
    if AdvancesAttempt(acts, id, n) {
      var sys := Run(acts[..n]);
      RunUnfold(acts[..n + 1]);
      assert acts[..n + 1][..n] == acts[..n];
      AdvanceSeesOff(sys, acts[n], id);
      FailedNeverInstalls(acts[..n + 1], acts[n + 1..], id);
      assert false;
    }
  }

  lemma AdvanceSeesOff(sys: Sys, a: Action, id: nat)
    requires a.Advance? && sys.stack != [] && sys.stack[|sys.stack| - 1].id == id
    requires sys.host.host == HostState.HostOff
    ensures id in Step(sys, a).ended && Step(sys, a).ended[id] == SawOff
  {
  }

  /** The off period that ends at `k`, cut at `i`. */
  lemma {:induction false} OffPeriod(acts: seq<Action>, i: nat, k: nat) returns (m: nat)
    requires i < k <= |acts| && OffAt(acts, k)
    ensures i < m <= k && (forall n :: m <= n <= k ==> OffAt(acts, n))
    ensures m == i + 1 || !OffAt(acts, m - 1)
    decreases k
  {
    hide OffAt;
    m := k;
    if k > i + 1 && OffAt(acts, k - 1) {
      m := OffPeriod(acts, i, k - 1);
    }
  }

  /** Why a finished attempt can miss a power cycle: whenever the host leaves off during it, at
      action `k`, the attempt took no address in the whole off period before that, from `m` on.
      The period began with an arrival at off during the attempt, or it was under way when a
      retry started the attempt. So both changes fall between two addresses, within one poll. */
  lemma DepartureWithinPoll(acts: seq<Action>, id: nat, i: nat, k: nat) returns (m: nat)
    requires id in Run(acts).ended && Run(acts).ended[id].Finished?
    requires StartsAt(acts, id, i) && i < k < |acts| && Departs(Run(acts[..k]), acts[k])
    ensures i < m <= k
    ensures forall n :: m <= n <= k ==> OffAt(acts, n)
    ensures forall n :: m <= n < k ==> !AdvancesAttempt(acts, id, n)
    ensures !OffAt(acts, m - 1) || (m == i + 1 && acts[i].Retry?)
  {
    hide Run, Step, AdvancesAttempt;
    m := OffPeriod(acts, i, k);
    forall n | m <= n < k ensures !AdvancesAttempt(acts, id, n) {
      FinishedSkipsOff(acts, id, n);
    }
    if m == i + 1 {
      RunUnfold(acts[..i + 1]);
      assert acts[..i + 1][..i] == acts[..i] && OffAt(acts, i + 1);
      StartedOff(Run(acts[..i]), acts[i]);
    }
  }

  lemma StartedOff(sys: Sys, a: Action)
    requires Step(sys, a).nextId != sys.nextId && Step(sys, a).host.host == HostState.HostOff
    ensures a.Retry?
  {
  }
}
