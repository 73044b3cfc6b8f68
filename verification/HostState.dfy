/**
 The host-state machine of src/cpuinfo_utils.cpp: three D-Bus properties from different
 services, arriving in any order, folded into one state that the CPU features act on.
 */
module HostState {

  datatype Host = HostOff | PostInProgress | PostComplete

  /** Power and operating-system states; only `PowerOff` and `Inactive` are told apart. */
  datatype Power = PowerOff | PowerOther(name: string)
  datatype Os = Inactive | OsOther(name: string)

  /** A property change. A power string that does not parse throws before anything is
      assigned; an operating-system string that does not parse counts as inactive. */
  datatype Event = PowerChange(power: Power) | PowerUnparsed | BiosDone(done: bool) | OsChange(os: Os) | OsUnparsed

  datatype Globals = Globals(host: Host, power: Power, os: Os, biosDone: bool)

  const INITIAL := Globals(HostOff, PowerOff, Inactive, false)

  function Updated(g: Globals): (r: Globals)
  {
    if g.power == PowerOff then Globals(HostOff, PowerOff, Inactive, false)
    else if !g.biosDone && g.os == Inactive then g.(host := PostInProgress)
    else g.(host := PostComplete)
  }

  function Step(g: Globals, e: Event): (r: Globals)
  {
    match e
    case PowerChange(p) => Updated(g.(power := p))
    case PowerUnparsed => g
    case BiosDone(d) => Updated(g.(biosDone := d))
    case OsChange(o) => Updated(g.(os := o))
    case OsUnparsed => Updated(g.(os := Inactive))
  }

  /** A callback: the state before and after. */
  datatype Change = Change(prev: Host, now: Host)

  class HostMonitor {
    var hostState: Host
    var powerState: Power
    var osState: Os
    var biosDone: bool
    var calls: seq<Change>  // what the registered callback has been told

    constructor ()
      ensures View() == INITIAL && calls == []
    {
      hostState, powerState, osState, biosDone, calls := HostOff, PowerOff, Inactive, false, [];
    }

    ghost function View(): (g: Globals)
      reads this
    {
      Globals(hostState, powerState, osState, biosDone)
    }

    method UpdateHostState()
      modifies this
      ensures View() == Updated(old(View()))
      ensures calls == old(calls) + if hostState != old(hostState) then [Change(old(hostState), hostState)] else []
    {
      var prevState := hostState;
      if powerState == PowerOff {
        hostState := HostOff;
        biosDone := false;
        osState := Inactive;
      } else if !biosDone && osState == Inactive {
        hostState := PostInProgress;
      } else {
        hostState := PostComplete;
      }
      if prevState != hostState {
        calls := calls + [Change(prevState, hostState)];
      }
    }

    method Handle(e: Event)
      modifies this
      ensures View() == Step(old(View()), e)
      ensures calls == old(calls) + if hostState != old(hostState) then [Change(old(hostState), hostState)] else []
    {
      match e {
        case PowerChange(p) =>
          powerState := p;
          UpdateHostState();
        case PowerUnparsed =>
        case BiosDone(d) =>
          biosDone := d;
          UpdateHostState();
        case OsChange(o) =>
          osState := o;
          UpdateHostState();
        case OsUnparsed =>
          osState := Inactive;
          UpdateHostState();
      }
    }
  }

  // ----- Every event sequence -------------------------------------------------------

  ghost function Run(es: seq<Event>): (g: Globals)
  {
    if es == [] then INITIAL else Step(Run(es[..|es| - 1]), es[|es| - 1])
  }

  /** The callbacks of a run. */
  ghost function Calls(es: seq<Event>): (cs: seq<Change>)
  {
    if es == [] then []
    else
      var before, after := Run(es[..|es| - 1]).host, Run(es).host;
      Calls(es[..|es| - 1]) + if before != after then [Change(before, after)] else []
  }

  ghost predicate Consistent(g: Globals)
  {
    && (g.host == HostOff <==> g.power == PowerOff)
    && (g.power == PowerOff ==> !g.biosDone && g.os == Inactive)
    && (g.host == PostComplete <==> g.biosDone || g.os != Inactive)
  }

  /** Power off always means host off with both POST-done indicators cleared. */
  lemma {:induction false} RunConsistent(es: seq<Event>)
    ensures Consistent(Run(es))
    decreases |es|
  {
    if es != [] {
      RunConsistent(es[..|es| - 1]);
    }
  }

  /** No single event takes the host from off to POST complete. */
  lemma NeverStraightToComplete(es: seq<Event>, e: Event)
    requires Run(es).host == HostOff
    ensures Run(es + [e]).host != PostComplete
  {
    assert (es + [e])[..|es|] == es;
    RunConsistent(es);
  }

  predicate PostDone(e: Event)
  {
    (e.BiosDone? && e.done) || (e.OsChange? && e.os != Inactive)
  }

  /** POST complete is always owed to a POST-done event that came after the latest power-on:
      the power was on when it arrived and has been on ever since. */
  lemma {:induction false} CompleteIsEarned(es: seq<Event>) returns (j: nat)
    requires Run(es).host == PostComplete
    ensures j < |es| && PostDone(es[j])
    ensures forall k :: j <= k <= |es| ==> Run(es[..k]).power != PowerOff
    decreases |es|
  {
    var init, n := es[..|es| - 1], |es| - 1;
    RunConsistent(init);
    RunConsistent(es);
    assert es[..n] == init && es[..n + 1] == es;
    if Run(init).host == PostComplete {
      j := CompleteIsEarned(init);
      assert forall k :: j <= k <= n ==> es[..k] == init[..k];
    } else {
      j := n;
    }
  }

  /** The callback history is a path: it starts at off, each change starts where the last
      one ended, and it ends at the current state. So between two departures from off there is
      an arrival at off, and discovery is started once per departure. */
  lemma {:induction false} CallsFormPath(es: seq<Event>)
    ensures var cs := Calls(es);
            && (cs != [] ==> cs[0].prev == HostOff && cs[|cs| - 1].now == Run(es).host)
            && (cs == [] ==> Run(es).host == HostOff)
            && (forall i :: 0 <= i < |cs| ==> cs[i].prev != cs[i].now)
            && (forall i :: 0 <= i < |cs| - 1 ==> cs[i].now == cs[i + 1].prev)
    decreases |es|
  {
    if es != [] {
      CallsFormPath(es[..|es| - 1]);
    }
  }

  ghost function Departures(es: seq<Event>): (n: nat)
  {
    if es == [] then 0
    else Departures(es[..|es| - 1]) + if Run(es[..|es| - 1]).host == HostOff && Run(es).host != HostOff then 1 else 0
  }

  ghost function FromOff(cs: seq<Change>): (n: nat)
  {
    if cs == [] then 0 else FromOff(cs[..|cs| - 1]) + if cs[|cs| - 1].prev == HostOff then 1 else 0
  }

  /** The callback sees "previous state off" exactly once per departure from off. */
  lemma {:induction false} OneCallPerDeparture(es: seq<Event>)
    ensures FromOff(Calls(es)) == Departures(es)
    decreases |es|
  {
    hide Run, FromOff;
    if es == [] {
      assert FromOff([]) == 0 by { NoneFromOff(); }
    } else {
      var init := es[..|es| - 1];
      OneCallPerDeparture(init);
      FromOffAppend(Calls(init), Change(Run(init).host, Run(es).host));
      assert Calls(init) + [] == Calls(init);
    }
  }

  lemma NoneFromOff()
    ensures FromOff([]) == 0
  {
  }

  lemma FromOffAppend(cs: seq<Change>, c: Change)
    ensures FromOff(cs + [c]) == FromOff(cs) + if c.prev == HostOff then 1 else 0
  {
    assert (cs + [c])[..|cs|] == cs;
  }

  // ----- The state from the events alone --------------------------------------------

  /** The latest power state received. */
  ghost function LatestPower(es: seq<Event>): (p: Power)
  {
    if es == [] then PowerOff
    else
      var last := es[|es| - 1];
      if last.PowerChange? then last.power else LatestPower(es[..|es| - 1])
  }

  /** Both are BIOS reports, or both are operating-system reports. */
  predicate SameSource(d: Event, e: Event)
  {
    (d.BiosDone? && e.BiosDone?) || ((d.OsChange? || d.OsUnparsed?) && (e.OsChange? || e.OsUnparsed?))
  }

  ghost predicate Unreplaced(es: seq<Event>, j: nat)
    requires j < |es|
  {
    forall k :: j < k < |es| ==> !SameSource(es[j], es[k])
  }

  ghost predicate OnSince(es: seq<Event>, j: nat)
  {
    forall k :: j < k <= |es| ==> LatestPower(es[..k]) != PowerOff
  }

  /** Report `j` is still in force: no newer one from its source, and power on ever since. */
  ghost predicate Stands(es: seq<Event>, j: nat)
  {
    j < |es| && Unreplaced(es, j) && OnSince(es, j)
  }

  ghost predicate DoneStands(es: seq<Event>, j: nat)
  {
    Stands(es, j) && PostDone(es[j])
  }

  lemma OnSinceAppend(es: seq<Event>, e: Event, j: nat)
    requires j <= |es|
    ensures OnSince(es + [e], j) <==> OnSince(es, j) && LatestPower(es + [e]) != PowerOff
  {
    hide LatestPower;
    var more := es + [e];
    assert more[..|es| + 1] == more;
    assert forall k :: 0 <= k <= |es| ==> more[..k] == es[..k];
    if OnSince(more, j) {
      forall k | j < k <= |es| ensures LatestPower(es[..k]) != PowerOff {
        assert LatestPower(more[..k]) != PowerOff;
      }
      assert LatestPower(more[..|es| + 1]) != PowerOff;
    }
  }

  /** One more event keeps a report in force unless it replaces it or leaves the power off. */
  lemma StandsAppend(es: seq<Event>, e: Event, j: nat)
    requires j < |es|
    ensures Stands(es + [e], j) <==> Stands(es, j) && !SameSource(es[j], e) && LatestPower(es + [e]) != PowerOff
  {
    hide LatestPower, OnSince;
    OnSinceAppend(es, e, j);
    var more := es + [e];
    if Unreplaced(more, j) {
      assert !SameSource(more[j], more[|es|]);
      forall k | j < k < |es| ensures !SameSource(es[j], es[k]) {
        assert !SameSource(more[j], more[k]);
      }
    }
  }

  lemma StandsLast(es: seq<Event>, e: Event)
    ensures Stands(es + [e], |es|) <==> LatestPower(es + [e]) != PowerOff
  {
    hide LatestPower;
    OnSinceAppend(es, e, |es|);
  }

  lemma {:induction false} PowerIsLatest(es: seq<Event>)
    ensures Run(es).power == LatestPower(es)
    decreases |es|
  {
    if es != [] {
      PowerIsLatest(es[..|es| - 1]);
    }
  }

  /** Each indicator is what the report still in force from its source says, and cleared if
      there is none. */
  lemma {:induction false} IndicatorsStand(es: seq<Event>, j: nat)
    ensures Stands(es, j) && es[j].BiosDone? ==> Run(es).biosDone == es[j].done
    ensures Stands(es, j) && es[j].OsChange? ==> Run(es).os == es[j].os
    ensures Stands(es, j) && es[j].OsUnparsed? ==> Run(es).os == Inactive
    decreases |es|
  {
    if es != [] && j < |es| {
      var init, last := es[..|es| - 1], es[|es| - 1];
      assert es == init + [last];
      PowerIsLatest(es);
      if j < |init| {
        IndicatorsStand(init, j);
        StandsAppend(init, last, j);
      } else {
        StandsLast(init, last);
      }
    }
  }

  lemma {:induction false} BiosIsReported(es: seq<Event>) returns (j: nat)
    requires Run(es).biosDone
    ensures Stands(es, j) && es[j] == BiosDone(true)
    decreases |es|
  {
    var init, last := es[..|es| - 1], es[|es| - 1];
    assert es == init + [last];
    PowerIsLatest(es);
    RunConsistent(es);
    if last.BiosDone? {
      j := |init|;
      StandsLast(init, last);
    } else {
      j := BiosIsReported(init);
      StandsAppend(init, last, j);
    }
  }

  lemma {:induction false} OsIsReported(es: seq<Event>) returns (j: nat)
    requires Run(es).os != Inactive
    ensures Stands(es, j) && es[j] == OsChange(Run(es).os)
    decreases |es|
  {
    var init, last := es[..|es| - 1], es[|es| - 1];
    assert es == init + [last];
    PowerIsLatest(es);
    RunConsistent(es);
    if last.OsChange? {
      j := |init|;
      StandsLast(init, last);
    } else {
      j := OsIsReported(init);
      StandsAppend(init, last, j);
    }
  }

  /** The host state from the events alone, whatever their order: off exactly when the latest
      power state is off; POST complete exactly when a POST-done report is in force. */
  lemma HostStateExactly(es: seq<Event>)
    ensures Run(es).host == HostOff <==> LatestPower(es) == PowerOff
    ensures Run(es).host == PostComplete <==> exists j: nat :: DoneStands(es, j)
  {
    hide Stands, Run;
    RunConsistent(es);
    PowerIsLatest(es);
    if Run(es).host == PostComplete {
      if Run(es).biosDone {
        var j := BiosIsReported(es);
        assert DoneStands(es, j);
      } else {
        var j := OsIsReported(es);
        assert DoneStands(es, j);
      }
    }
    forall j: nat | DoneStands(es, j) ensures Run(es).host == PostComplete {
      IndicatorsStand(es, j);
    }
  }

  /** A fresh monitor that handles a sequence of events is in the state of that run, and its
      callback has been told exactly the changes of that run. */
  method HandleAll(es: seq<Event>) returns (m: HostMonitor)
    ensures m.View() == Run(es) && m.calls == Calls(es)
    ensures m.hostState == HostOff <==> LatestPower(es) == PowerOff
    ensures m.hostState == PostComplete <==> exists j: nat :: DoneStands(es, j)
    ensures FromOff(m.calls) == Departures(es)
  {
    m := new HostMonitor();
    for i := 0 to |es|
      invariant fresh(m)
      invariant m.View() == Run(es[..i]) && m.calls == Calls(es[..i])
    {
      m.Handle(es[i]);
      assert es[..i + 1][..i] == es[..i];
    }
    assert es[..|es|] == es;
    OneCallPerDeparture(es);
    HostStateExactly(es);
  }
}
