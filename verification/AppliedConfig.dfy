/** The AppliedConfig property of CPUConfig in src/speed_select.cpp. */
module AppliedConfig {
  import HostState
  import opened Decimals

  datatype OperatingConfig = OperatingConfig(level: nat, path: string)

  datatype SetResult = Applied | NoProvider | InvalidArgument | NotAllowed | Unavailable | WriteFailure

  /** What the setter meets on its way: whether a provider exists, supports control and is
      ready, the host state, and whether the mailbox write succeeds. */
  datatype Env = Env(provider: bool, supportsControl: bool, host: HostState.Host, ready: bool, writes: bool)

  function ConfigPath(cpuPath: string, level: nat): (path: string)
  {
    cpuPath + "/config" + Decimal(level)
  }

  lemma ConfigPathInjective(cpuPath: string, k: nat, l: nat)
    requires ConfigPath(cpuPath, k) == ConfigPath(cpuPath, l)
    ensures k == l
  {
    SuffixesEqual(cpuPath + "/config", Decimal(k), Decimal(l));
    DecimalInjective(k, l);
  }

  class CPUConfig {
    const path: string
    var availConfigs: seq<OperatingConfig>
    var currentLevel: nat

    ghost predicate Valid()
      reads this
    {
      forall i :: 0 <= i < |availConfigs| ==> availConfigs[i].path == ConfigPath(path, availConfigs[i].level)
    }

    /** `value` is the path of a published config. */
    ghost predicate Published(value: string)
      reads this
    {
      exists i :: 0 <= i < |availConfigs| && availConfigs[i].path == value
    }

    constructor (path: string, currentLevel: nat)
      ensures Valid() && this.path == path && this.currentLevel == currentLevel && availConfigs == []
    {
      this.path, this.currentLevel, availConfigs := path, currentLevel, [];
    }

    method NewConfig(level: nat)
      requires Valid()
      modifies this`availConfigs
      ensures Valid()
      ensures availConfigs == old(availConfigs) + [OperatingConfig(level, ConfigPath(path, level))]
    {
      availConfigs := availConfigs + [OperatingConfig(level, ConfigPath(path, level))];
    }

    /** The setter accepts exactly the published paths and applies the config exactly when
        nothing stands in the way; it then caches the one level with that path. In every other
        case, a missing provider included, the cache is unchanged. */
    method SetAppliedConfig(value: string, env: Env) returns (r: SetResult)
      requires Valid()
      modifies this`currentLevel
      ensures r == if !Published(value) then InvalidArgument
                   else if !env.provider then NoProvider
                   else if !env.supportsControl then NotAllowed
                   else if env.host != HostState.PostComplete || !env.ready then Unavailable
                   else if !env.writes then WriteFailure
                   else Applied
      ensures r == Applied ==>
                && value == ConfigPath(path, currentLevel)
                && (exists i :: 0 <= i < |availConfigs| && availConfigs[i].level == currentLevel)
                && forall l: nat :: ConfigPath(path, l) == value ==> l == currentLevel
      ensures r != Applied ==> currentLevel == old(currentLevel)
    {
      hide ConfigPath;
      var found, level := false, 0;
      for i := 0 to |availConfigs|
        invariant found <==> exists k :: 0 <= k < i && availConfigs[k].path == value
        invariant found ==> exists k :: 0 <= k < i && availConfigs[k] == OperatingConfig(level, value)
      {
        if availConfigs[i].path == value {
          found, level := true, availConfigs[i].level;
        }
      }
      if !found {
        return InvalidArgument;
      }
      ghost var k :| 0 <= k < |availConfigs| && availConfigs[k] == OperatingConfig(level, value);
      assert availConfigs[k].path == value;
      if !env.provider {
        return NoProvider;
      }
      if !env.supportsControl {
        return NotAllowed;
      }
      if env.host != HostState.PostComplete || !env.ready {
        return Unavailable;
      }
      if !env.writes {
        return WriteFailure;
      }
      currentLevel := level;
      assert availConfigs[k].path == value;
      forall l: nat | ConfigPath(path, l) == value ensures l == currentLevel {
        ConfigPathInjective(path, l, level);
      }
      return Applied;
    }
  }
}
