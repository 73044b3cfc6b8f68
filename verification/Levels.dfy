/**
 The config levels of one CPU: the level loop of discoverCPUsAndConfigs in src/speed_select.cpp.
 */
module Levels {
  import opened Common
  import opened Bytes

  /** The device's answers while the loop runs; `None` and a failed `config` are PECIErrors. The
      maximum level is read again before every level and is an 8-bit field each time. */
  datatype Answers = Answers(maxLevel: nat -> Option<Byte>, supported: nat -> Option<bool>, config: nat -> bool)

  /** What the loop makes of a CPU: a PECIError, a CPU whose current level is not among its
      configs, or its config levels. */
  datatype Verdict = LoopThrows | NoCurrentConfig | Configs(levels: seq<nat>)

  /** The levels below `n` that the device says it supports. */
  function SupportedBelow(a: Answers, n: nat): (ls: seq<nat>)
  {
    if n == 0 then []
    else if a.supported(n - 1) == Some(true) then SupportedBelow(a, n - 1) + [n - 1]
    else SupportedBelow(a, n - 1)
  }

  /** No query about level `k` fails, and `k` is not above the maximum as read just then. */
  ghost predicate Goes(a: Answers, k: nat)
  {
    && a.maxLevel(k).Some? && k <= a.maxLevel(k).value
    && a.supported(k).Some? && (a.supported(k).value ==> a.config(k))
  }

  /** The loop ends normally at `n`: the first level above the maximum as read just then. */
  ghost predicate EndsAt(a: Answers, n: nat)
  {
    && a.maxLevel(n).Some? && n > a.maxLevel(n).value
    && forall k :: 0 <= k < n ==> Goes(a, k)
  }

  lemma EndsOnce(a: Answers, m: nat, n: nat)
    requires EndsAt(a, m) && EndsAt(a, n)
    ensures m == n <= 0x100
  {
    assert (m < n ==> Goes(a, m)) && (n < m ==> Goes(a, n));
    assert n > 0 ==> Goes(a, n - 1);
  }

  ghost predicate Ends(a: Answers)
  {
    exists n: nat :: EndsAt(a, n)
  }

  /** The verdict, from where the loop ends, if it does. */
  ghost function Judge(a: Answers, currentLevel: Byte): (v: Verdict)
  {
    if !Ends(a) then LoopThrows
    else
      var n: nat :| EndsAt(a, n);
      if currentLevel in SupportedBelow(a, n) then Configs(SupportedBelow(a, n)) else NoCurrentConfig
  }

  lemma {:induction false} SupportedBelowExact(a: Answers, n: nat, x: nat)
    ensures Increasing(SupportedBelow(a, n))
    ensures x in SupportedBelow(a, n) <==> x < n && a.supported(x) == Some(true)
    ensures forall i :: 0 <= i < |SupportedBelow(a, n)| ==> SupportedBelow(a, n)[i] < n
    decreases n
  {
    if n > 0 {
      SupportedBelowExact(a, n - 1, x);
    }
  }

  /** What a positive verdict is worth: 8-bit levels in strictly increasing order, exactly the
      supported ones up to where the loop ended, and the current level among them. */
  lemma ConfigsExact(a: Answers, currentLevel: Byte, x: nat) returns (n: nat)
    requires Judge(a, currentLevel).Configs?
    ensures var ls := Judge(a, currentLevel).levels;
            && EndsAt(a, n) && n <= 0x100 && ls == SupportedBelow(a, n)
            && Increasing(ls) && currentLevel in ls
            && (x in ls <==> x < n && a.supported(x) == Some(true))
  {
    n :| EndsAt(a, n) && Judge(a, currentLevel).levels == SupportedBelow(a, n);
    EndsOnce(a, n, n);
    SupportedBelowExact(a, n, x);
  }

  lemma JudgeAt(a: Answers, currentLevel: Byte, n: nat)
    requires EndsAt(a, n)
    ensures Judge(a, currentLevel) ==
            if currentLevel in SupportedBelow(a, n) then Configs(SupportedBelow(a, n)) else NoCurrentConfig
  {
    assert Ends(a);
    forall m: nat | EndsAt(a, m) ensures m == n {
      EndsOnce(a, m, n);
    }
  }

  lemma NeverEnds(a: Answers, currentLevel: Byte)
    requires forall n: nat :: !EndsAt(a, n)
    ensures Judge(a, currentLevel) == LoopThrows
  {
  }

  /** A query that fails at a level the loop reaches: it can end nowhere. */
  lemma Stuck(a: Answers, level: nat, currentLevel: Byte)
    requires (forall k :: 0 <= k < level ==> Goes(a, k)) && !Goes(a, level) && !EndsAt(a, level)
    ensures Judge(a, currentLevel) == LoopThrows
  {
    forall n: nat ensures !EndsAt(a, n) {
      if n < level {
        assert Goes(a, n);
      }
    }
  }

  /** A query the loop makes at level `k` fails: the maximum, then, up to that maximum, whether the
      level is supported, then, if it is, its config. */
  ghost predicate FailsAt(a: Answers, k: nat)
  {
    || a.maxLevel(k) == None
    || (k <= a.maxLevel(k).value
        && (a.supported(k) == None || (a.supported(k) == Some(true) && a.config(k) == false)))
  }

  /** No query fails below `k`, and no maximum read there ends the loop. */
  ghost predicate Reaches(a: Answers, k: nat)
  {
    forall j :: 0 <= j < k ==> !FailsAt(a, j) && j <= a.maxLevel(j).value
  }

  lemma GoesExactly(a: Answers, k: nat)
    ensures Goes(a, k) <==> !FailsAt(a, k) && k <= a.maxLevel(k).value
  {
  }

  lemma {:induction false} FirstStop(a: Answers, n: nat) returns (k: nat)
    requires !Goes(a, n)
    ensures !Goes(a, k) && forall j :: 0 <= j < k ==> Goes(a, j)
    decreases n
  {
    hide Goes;
    k := n;
    if j :| 0 <= j < n && !Goes(a, j) {
      k := FirstStop(a, j);
    }
  }

  ghost predicate ThrowsAt(a: Answers, k: nat)
  {
    Reaches(a, k) && FailsAt(a, k)
  }

  /** The loop throws exactly when a query it reaches fails. */
  lemma LoopThrowsExactly(a: Answers, currentLevel: Byte)
    ensures Judge(a, currentLevel) == LoopThrows <==> exists k: nat :: ThrowsAt(a, k)
  {
    forall k: nat ensures Goes(a, k) <==> !FailsAt(a, k) && k <= a.maxLevel(k).value {
      GoesExactly(a, k);
    }
    hide FailsAt, Goes;
    if k: nat :| ThrowsAt(a, k) {
      assert !EndsAt(a, k) by { EndIsNoFailure(a, k); }
      Stuck(a, k, currentLevel);
    } else {
      assert !Goes(a, 0x100) by { PastMaximum(a); }
      var k := FirstStop(a, 0x100);
      assert !ThrowsAt(a, k);
      assert EndsAt(a, k) by { StopsThere(a, k); }
      JudgeAt(a, currentLevel, k);
    }
  }

  lemma EndIsNoFailure(a: Answers, k: nat)
    requires FailsAt(a, k)
    ensures !EndsAt(a, k)
  {
  }

  lemma PastMaximum(a: Answers)
    ensures !Goes(a, 0x100)
  {
  }

  lemma StopsThere(a: Answers, k: nat)
    requires !Goes(a, k) && !FailsAt(a, k) && forall j :: 0 <= j < k ==> Goes(a, j)
    ensures EndsAt(a, k)
  {
  }

  /** The loop computes the verdict. It always stops, however the maximum is re-read, because
      the maximum is an 8-bit field. */
  method QueryLevels(a: Answers, currentLevel: Byte) returns (v: Verdict)
    ensures v == Judge(a, currentLevel)
  {
    hide Judge;
    var levels: seq<nat> := [];
    var foundCurrentLevel := false;
    var level := 0;
    while true
      invariant 0 <= level <= 0x100
      invariant forall k :: 0 <= k < level ==> Goes(a, k)
      invariant levels == SupportedBelow(a, level)
      invariant foundCurrentLevel <==> currentLevel in levels
      decreases 0x100 - level
    {
      var max := a.maxLevel(level);
      if max.None? {
        Stuck(a, level, currentLevel);
        return LoopThrows;
      }
      if level > max.value {
        break;
      }
      var supported := a.supported(level);
      if supported.None? {
        Stuck(a, level, currentLevel);
        return LoopThrows;
      }
      if supported.value {
        if !a.config(level) {
          Stuck(a, level, currentLevel);
          return LoopThrows;
        }
        levels := levels + [level];
        if level == currentLevel {
          foundCurrentLevel := true;
        }
      }
      level := level + 1;
    }
    JudgeAt(a, currentLevel, level);
    if !foundCurrentLevel {
      return NoCurrentConfig;
    }
    return Configs(levels);
  }
}
