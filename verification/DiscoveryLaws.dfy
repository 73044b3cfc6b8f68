/**
 What a run of the discovery machine comes to, said from its actions and from the answers of the
 devices: which CPUs are published, which attempts there are and how they end, who owns the list,
 and when a retry is pending.
 */
module DiscoveryLaws {
  import opened Common
  import opened Bytes
  import Levels
  import HostState
  import opened Discovery

  // ----- Which CPUs are published ---------------------------------------------------

  /** The CPU has SST-PP, its level loop ends, and its current level is one of the supported
      levels the loop visits. */
  ghost predicate Publishable(p: Probe)
  {
    p.Sst? && exists n: nat ::
      Levels.EndsAt(p.answers, n) && p.currentLevel < n && p.answers.supported(p.currentLevel) == Some(true)
  }

  lemma StagedExactly(p: Probe, i: nat)
    ensures Staged(p, i) != [] <==> Publishable(p)
    ensures Publishable(p) ==> |Staged(p, i)| == 1 && Staged(p, i)[0].index == i
  {
    hide Levels.Judge;
    if p.Sst? {
      if n: nat :| Levels.EndsAt(p.answers, n) {
        Levels.JudgeAt(p.answers, p.currentLevel, n);
        Levels.SupportedBelowExact(p.answers, n, p.currentLevel);
        forall m: nat | Levels.EndsAt(p.answers, m) ensures m == n {
          Levels.EndsOnce(p.answers, m, n);
        }
      } else {
        Levels.NeverEnds(p.answers, p.currentLevel);
      }
    }
  }

  ghost predicate HasIndex(cpus: seq<Cpu>, i: nat)
  {
    exists c :: 0 <= c < |cpus| && cpus[c].index == i
  }

  ghost predicate IndicesIncrease(cpus: seq<Cpu>)
  {
    forall c, d :: 0 <= c < d < |cpus| ==> cpus[c].index < cpus[d].index
  }

  lemma {:induction false} CollectExactly(log: seq<Probe>, i: nat)
    ensures IndicesIncrease(Collect(log)) && forall c :: 0 <= c < |Collect(log)| ==> Collect(log)[c].index < |log|
    ensures HasIndex(Collect(log), i) <==> i < |log| && Publishable(log[i])
    decreases |log|
  {
    hide Staged, Publishable;
    if log != [] {
      var init, n := log[..|log| - 1], |log| - 1;
      CollectExactly(init, i);
      StagedExactly(log[n], n);
      var old', all := Collect(init), Collect(log);
      assert all == old' + Staged(log[n], n);
      if HasIndex(old', i) {
        var c :| 0 <= c < |old'| && old'[c].index == i;
        assert all[c].index == i;
      }
      if i == n && Publishable(log[n]) {
        assert all[|old'|].index == i;
      }
    }
  }

  /** In every run: while an attempt owns the list, address `i` has a published CPU if and only if
      the answer that attempt got from it is publishable; CPUs come in the order of addresses. While
      none does, nothing is published. */
  lemma PublishedExactly(acts: seq<Action>, i: nat)
    ensures var sys := Run(acts);
            && IndicesIncrease(sys.cpus)
            && match sys.owner
               case None => sys.cpus == []
               case Some(id) =>
                 && id in sys.ended && sys.ended[id].Finished? && |sys.ended[id].log| == 8
                 && (HasIndex(sys.cpus, i) <==> i < 8 && Publishable(sys.ended[id].log[i]))
  {
    hide Publishable, Run;
    RunKeepsInv(acts);
    var sys := Run(acts);
    if sys.owner.Some? {
      CollectExactly(sys.ended[sys.owner.value].log, i);
    }
  }

  // ----- Which attempts there are ---------------------------------------------------

  ghost function HostEvents(acts: seq<Action>): (es: seq<HostState.Event>)
  {
    if acts == [] then []
    else
      var init, last := HostEvents(acts[..|acts| - 1]), acts[|acts| - 1];
      if last.HostEvent? then init + [last.event] else init
  }

  /** The host is off after the first `n` actions: the latest power state reported is off. */
  ghost predicate Off(acts: seq<Action>, n: nat)
    requires n <= |acts|
  {
    HostState.LatestPower(HostEvents(acts[..n])) == HostState.PowerOff
  }

  lemma {:induction false} HostFollowsEvents(acts: seq<Action>)
    ensures Run(acts).host == HostState.Run(HostEvents(acts))
    decreases |acts|
  {
    hide AdvanceTop, HostState.Step;
    if acts != [] {
      var init, last := acts[..|acts| - 1], acts[|acts| - 1];
      HostFollowsEvents(init);
      StepHost(Run(init), last);
      if last.HostEvent? {
        assert (HostEvents(init) + [last.event])[..|HostEvents(init)|] == HostEvents(init);
      }
    }
  }

  lemma StepHost(sys: Sys, a: Action)
    ensures Step(sys, a).host == if a.HostEvent? then HostState.Step(sys.host, a.event) else sys.host
  {
    hide HostState.Step, Throws, Staged;
  }

  lemma OffExactly(acts: seq<Action>, n: nat)
    requires n <= |acts|
    ensures Off(acts, n) <==> Run(acts[..n]).host.host == HostState.HostOff
  {
    hide Run, HostState.Run;
    HostFollowsEvents(acts[..n]);
    HostState.HostStateExactly(HostEvents(acts[..n]));
  }

  lemma RunAt(acts: seq<Action>, n: nat)
    requires n < |acts|
    ensures Run(acts[..n + 1]) == Step(Run(acts[..n]), acts[n])
  {
    hide Step;
    assert acts[..n + 1][..n] == acts[..n];
  }

  /** Action `n` starts an attempt: it is a retry, or the host leaves off. */
  ghost predicate StartsAttempt(acts: seq<Action>, n: nat)
    requires n < |acts|
  {
    acts[n].Retry? || (acts[n].HostEvent? && Off(acts, n) && !Off(acts, n + 1))
  }

  lemma StartsAsMachine(acts: seq<Action>, n: nat)
    requires n < |acts|
    ensures StartsAttempt(acts, n) <==> acts[n].Retry? || Departs(Run(acts[..n]), acts[n])
  {
    hide Run, Off, Step, HostState.Step;
    OffExactly(acts, n);
    OffExactly(acts, n + 1);
    RunAt(acts, n);
    StepHost(Run(acts[..n]), acts[n]);
  }

  /** An attempt starts, on top of those under way, exactly on a retry or when the host leaves off;
      starting empties the list and cancels the timer. */
  lemma StartsExactly(acts: seq<Action>, n: nat)
    requires n < |acts|
    ensures var before, after := Run(acts[..n]), Run(acts[..n + 1]);
            if StartsAttempt(acts, n) then
              && after.nextId == before.nextId + 1 && after.cpus == [] && after.owner == None && !after.armed
              && after.stack == before.stack + [Attempt(before.nextId, [], [], after.departures)]
              && after.ended == before.ended && after.errors == before.errors
            else
              after.nextId == before.nextId
              && (!acts[n].Advance? ==> after == before.(host := after.host))
  {
    hide Run, StartsAttempt, HostState.Step, Throws, Staged;
    StartsAsMachine(acts, n);
    RunAt(acts, n);
  }

  // ----- How attempts end -----------------------------------------------------------

  /** The query of the CPU fails: before the level loop, or in it. */
  ghost predicate Fails(p: Probe)
  {
    p.TimedOut? || p.QueryThrows? || (p.Sst? && forall n: nat :: !Levels.EndsAt(p.answers, n))
  }

  lemma FailsExactly(p: Probe)
    ensures Throws(p) <==> Fails(p)
  {
    hide Levels.EndsAt;
    if p.Sst? {
      if n: nat :| Levels.EndsAt(p.answers, n) {
        Levels.JudgeAt(p.answers, p.currentLevel, n);
      } else {
        Levels.NeverEnds(p.answers, p.currentLevel);
      }
    }
  }

  /** How the newest attempt's next address ends it, if it does. */
  ghost function EndedBy(acts: seq<Action>, n: nat): (e: Option<End>)
    requires n < |acts| && acts[n].Advance? && Run(acts[..n]).stack != []
  {
    var sys, p := Run(acts[..n]), acts[n].probe;
    var top := sys.stack[|sys.stack| - 1];
    if Off(acts, n) then Some(SawOff)
    else if Fails(p) then Some(Threw)
    else if p.NotReady? then Some(WasNotReady)
    else if |top.log| == 7 then Some(Finished(top.log + [p], top.started, sys.departures))
    else None
  }

  /** An attempt ends at the first address it finds the host off at, that fails or that is not
      ready, or at the eighth; until then it goes on with the answer noted. */
  lemma EndsExactly(acts: seq<Action>, n: nat)
    requires n < |acts| && acts[n].Advance? && Run(acts[..n]).stack != []
    ensures var before, after := Run(acts[..n]), Run(acts[..n + 1]);
            var top, below := before.stack[|before.stack| - 1], before.stack[..|before.stack| - 1];
            match EndedBy(acts, n)
            case Some(e) =>
              && after.stack == below && after.ended == before.ended[top.id := e]
              && after.owner == (if e.Finished? then Some(top.id) else before.owner)
              && after.errors == before.errors + (if e == Threw then 1 else 0)
              && (after.armed <==> before.armed || e == SawOff || e == WasNotReady || (e == Threw && after.errors < 50))
            case None =>
              && |after.stack| == |before.stack| && after.stack[..|below|] == below
              && after.stack[|below|].id == top.id && after.stack[|below|].log == top.log + [acts[n].probe]
              && after.ended == before.ended && after.owner == before.owner
              && after.errors == before.errors && after.armed == before.armed
  {
    hide Run, Off, Fails, Throws, Staged;
    OffExactly(acts, n);
    RunAt(acts, n);
    FailsExactly(acts[n].probe);
    assert |Run(acts[..n]).stack[|Run(acts[..n]).stack| - 1].log| < 8 by { TopLog(acts[..n]); }
  }

  lemma TopLog(acts: seq<Action>)
    requires Run(acts).stack != []
    ensures var st := Run(acts).stack; |st[|st| - 1].log| < 8
  {
    hide Run;
    RunKeepsInv(acts);
    TopOk(Run(acts).stack, Run(acts).nextId, Run(acts).ended);
  }

  /** Action `n` is an address of the attempt on top. */
  ghost predicate TakesAddress(acts: seq<Action>, n: nat)
    requires n < |acts|
  {
    acts[n].Advance? && Run(acts[..n]).stack != []
  }

  ghost predicate Finishes(acts: seq<Action>, n: nat)
    requires n < |acts|
  {
    TakesAddress(acts, n) && EndedBy(acts, n).Some? && EndedBy(acts, n).value.Finished?
  }

  ghost predicate ThrowsAt(acts: seq<Action>, n: nat)
    requires n < |acts|
  {
    TakesAddress(acts, n) && EndedBy(acts, n) == Some(Threw)
  }

  /** The attempts among the first `n` actions that a failed query ended. */
  ghost function ThrowCount(acts: seq<Action>, n: nat): (c: nat)
    requires n <= |acts|
  {
    if n == 0 then 0 else ThrowCount(acts, n - 1) + if ThrowsAt(acts, n - 1) then 1 else 0
  }

  /** An action that is neither a start nor an address of an attempt changes none of these. */
  lemma OtherActions(acts: seq<Action>, n: nat)
    requires n < |acts| && !StartsAttempt(acts, n) && !TakesAddress(acts, n)
    ensures var before, after := Run(acts[..n]), Run(acts[..n + 1]);
            after.owner == before.owner && after.errors == before.errors && after.armed == before.armed
  {
    hide Run, StartsAttempt;
    StartsExactly(acts, n);
    if acts[n].Advance? {
      RunAt(acts, n);
    }
  }

  lemma StartIsNoAddress(acts: seq<Action>, n: nat)
    requires n < |acts| && StartsAttempt(acts, n)
    ensures !TakesAddress(acts, n) && !Finishes(acts, n) && !ThrowsAt(acts, n)
  {
  }

  lemma {:induction false} ErrorsCounted(acts: seq<Action>, n: nat)
    requires n <= |acts|
    ensures Run(acts[..n]).errors == ThrowCount(acts, n)
    decreases n
  {
    hide Run, StartsAttempt, EndedBy;
    if n == 0 {
      RunUnfold([]);
      assert acts[..0] == [];
    } else {
      ErrorsCounted(acts, n - 1);
      if StartsAttempt(acts, n - 1) {
        StartsExactly(acts, n - 1);
        StartIsNoAddress(acts, n - 1);
      } else if TakesAddress(acts, n - 1) {
        EndsExactly(acts, n - 1);
      } else {
        OtherActions(acts, n - 1);
      }
    }
  }

  // ----- Who owns the list ----------------------------------------------------------

  ghost predicate FinishedBy(acts: seq<Action>, n: nat, id: nat)
    requires n < |acts|
  {
    Finishes(acts, n) && Run(acts[..n]).stack[|Run(acts[..n]).stack| - 1].id == id
  }

  /** Attempt `id` finished at `j`, and before `n` no attempt has started or finished since. */
  ghost predicate OwnsSince(acts: seq<Action>, j: nat, n: nat, id: nat)
    requires n <= |acts|
  {
    j < n && FinishedBy(acts, j, id) && forall k :: j < k < n ==> !StartsAttempt(acts, k) && !Finishes(acts, k)
  }

  lemma OwnsStep(acts: seq<Action>, j: nat, n: nat, id: nat)
    requires n < |acts|
    ensures OwnsSince(acts, j, n + 1, id) <==>
            (j == n && FinishedBy(acts, n, id))
            || (OwnsSince(acts, j, n, id) && !StartsAttempt(acts, n) && !Finishes(acts, n))
  {
    hide FinishedBy, StartsAttempt, Finishes;
  }

  ghost predicate Owned(acts: seq<Action>, n: nat, id: nat)
    requires n <= |acts|
  {
    exists j: nat :: OwnsSince(acts, j, n, id)
  }

  lemma OwnedStep(acts: seq<Action>, n: nat, id: nat)
    requires n < |acts|
    ensures Owned(acts, n + 1, id) <==>
            FinishedBy(acts, n, id) || (Owned(acts, n, id) && !StartsAttempt(acts, n) && !Finishes(acts, n))
  {
    hide FinishedBy, StartsAttempt, Finishes, OwnsSince;
    if Owned(acts, n + 1, id) {
      var j: nat :| OwnsSince(acts, j, n + 1, id);
      OwnsStep(acts, j, n, id);
    }
    if Owned(acts, n, id) {
      var j: nat :| OwnsSince(acts, j, n, id);
      OwnsStep(acts, j, n, id);
    }
    OwnsStep(acts, n, n, id);
  }

  /** In every run the list belongs to the attempt that finished last, if none has started since,
      and to nobody otherwise. */
  lemma {:induction false} OwnerExactly(acts: seq<Action>, n: nat, id: nat)
    requires n <= |acts|
    ensures Run(acts[..n]).owner == Some(id) <==> Owned(acts, n, id)
    decreases n
  {
    hide Run, StartsAttempt, EndedBy, Owned;
    if n == 0 {
      RunUnfold([]);
      assert acts[..0] == [];
      assert !Owned(acts, 0, id) by { NeverOwned(acts, id); }
    } else {
      OwnerExactly(acts, n - 1, id);
      OwnedStep(acts, n - 1, id);
      if StartsAttempt(acts, n - 1) {
        StartsExactly(acts, n - 1);
        StartIsNoAddress(acts, n - 1);
      } else if TakesAddress(acts, n - 1) {
        EndsExactly(acts, n - 1);
      } else {
        OtherActions(acts, n - 1);
      }
    }
  }

  lemma NeverOwned(acts: seq<Action>, id: nat)
    ensures !Owned(acts, 0, id)
  {
  }

  // ----- When a retry is pending ----------------------------------------------------

  /** Action `n` ends an attempt that asks for a retry: the host was off, a CPU was not ready, or a
      query failed and fewer than fifty have. */
  ghost predicate Arms(acts: seq<Action>, n: nat)
    requires n < |acts|
  {
    && TakesAddress(acts, n) && EndedBy(acts, n).Some?
    && var e := EndedBy(acts, n).value;
       e == SawOff || e == WasNotReady || (e == Threw && ThrowCount(acts, n + 1) < 50)
  }

  ghost predicate ArmedSince(acts: seq<Action>, j: nat, n: nat)
    requires n <= |acts|
  {
    j < n && Arms(acts, j) && forall k :: j < k < n ==> !StartsAttempt(acts, k)
  }

  ghost predicate Pending(acts: seq<Action>, n: nat)
    requires n <= |acts|
  {
    exists j: nat :: ArmedSince(acts, j, n)
  }

  lemma PendingStep(acts: seq<Action>, n: nat)
    requires n < |acts|
    ensures Pending(acts, n + 1) <==> Arms(acts, n) || (Pending(acts, n) && !StartsAttempt(acts, n))
  {
    hide Arms, StartsAttempt;
    if Pending(acts, n + 1) {
      var j: nat :| ArmedSince(acts, j, n + 1);
      assert j < n ==> ArmedSince(acts, j, n);
    }
    if Pending(acts, n) && !StartsAttempt(acts, n) {
      var j: nat :| ArmedSince(acts, j, n);
      assert ArmedSince(acts, j, n + 1);
    }
    if Arms(acts, n) {
      assert ArmedSince(acts, n, n + 1);
    }
  }

  /** In every run a retry is pending if and only if some attempt asked for one and none has started
      since. So a failed query is retried until fifty have failed, and then no more. */
  lemma {:induction false} RetryExactly(acts: seq<Action>, n: nat)
    requires n <= |acts|
    ensures Run(acts[..n]).armed <==> Pending(acts, n)
    decreases n
  {
    hide Run, StartsAttempt, EndedBy, Pending, ThrowCount;
    if n == 0 {
      RunUnfold([]);
      assert acts[..0] == [];
      assert !Pending(acts, 0) by { NeverPending(acts); }
    } else {
      RetryExactly(acts, n - 1);
      PendingStep(acts, n - 1);
      ErrorsCounted(acts, n);
      if StartsAttempt(acts, n - 1) {
        StartsExactly(acts, n - 1);
        StartIsNoAddress(acts, n - 1);
      } else if TakesAddress(acts, n - 1) {
        EndsExactly(acts, n - 1);
      } else {
        OtherActions(acts, n - 1);
      }
    }
  }

  lemma NeverPending(acts: seq<Action>)
    ensures !Pending(acts, 0)
  {
  }
}
