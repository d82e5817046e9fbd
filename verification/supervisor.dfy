/** One reconciliation pass: every rule is probed against the process table
    in list order, and a rule found not running is launched once. */
module Supervisor {
  import opened Rules
  import opened Probe
  import opened LogRotation
  import Text

  /** The per-rule status line a pass reports. */
  datatype Outcome =
    | AlreadyRunning  // the probe found the rule running; nothing was done
    | Started         // a launch was made and the re-probe confirmed it
    | StartFailed     // a launch was attempted and the re-probe found nothing

  function Last<T>(s: seq<T>): T
    requires s != []
  {
    s[|s| - 1]
  }

  function Init<T>(s: seq<T>): seq<T>
    requires s != []
  {
    s[..|s| - 1]
  }

  /** The process table after a pass over `configs` with these outcomes: a
      confirmed launch adds the forwarder's command line, anything else
      leaves the table as it was. */
  function Replay(table: seq<string>, configs: seq<Config>, outcomes: seq<Outcome>): seq<string>
    requires |configs| == |outcomes|
    decreases |configs|
  {
    if configs == [] then table
    else
      var before := Replay(table, Init(configs), Init(outcomes));
      if Last(outcomes) == Started then before + [LaunchCommandLine(Last(configs))] else before
  }

  /** The outcomes are ones a pass can report: each rule is reported running
      exactly when the probe finds it in the table left by the rules before
      it. */
  predicate PassConsistent(table: seq<string>, configs: seq<Config>, outcomes: seq<Outcome>)
    decreases |configs|
  {
    |configs| == |outcomes| &&
    (configs != [] ==>
      PassConsistent(table, Init(configs), Init(outcomes)) &&
      (Last(outcomes) == AlreadyRunning <==> IsRunning(Replay(table, Init(configs), Init(outcomes)), Last(configs))))
  }

  /** Whether the pass launched anything. */
  predicate AnyLaunch(outcomes: seq<Outcome>) {
    exists i :: 0 <= i < |outcomes| && outcomes[i] != AlreadyRunning
  }

  /** Rule `i` is launched exactly when the probe does not find it in the
      table left by the rules before it. */
  lemma {:induction false} OutcomeAt(table: seq<string>, configs: seq<Config>, outcomes: seq<Outcome>, i: int)
    requires PassConsistent(table, configs, outcomes)
    requires 0 <= i < |configs|
    ensures outcomes[i] == AlreadyRunning <==> IsRunning(Replay(table, configs[..i], outcomes[..i]), configs[i])
    decreases |configs|
  {
    if i == |configs| - 1 {
      assert Init(configs) == configs[..i] && Init(outcomes) == outcomes[..i];
    } else {
      OutcomeAt(table, Init(configs), Init(outcomes), i);
      assert Init(configs)[..i] == configs[..i] && Init(outcomes)[..i] == outcomes[..i];
    }
  }

  /** A pass only ever adds to the process table. */
  lemma {:induction false} ReplayExtends(table: seq<string>, configs: seq<Config>, outcomes: seq<Outcome>)
    requires |configs| == |outcomes|
    ensures table <= Replay(table, configs, outcomes)
    decreases |configs|
  {
    if configs != [] {
      ReplayExtends(table, Init(configs), Init(outcomes));
    }
  }

  /** After a pass in which no launch failed, every rule of the pass is
      running. */
  lemma {:induction false} AllRunningAfterCleanPass(table: seq<string>, configs: seq<Config>, outcomes: seq<Outcome>)
    requires PassConsistent(table, configs, outcomes)
    requires StartFailed !in outcomes
    ensures forall c :: c in configs ==> IsRunning(Replay(table, configs, outcomes), c)
    decreases |configs|
  {
    if configs != [] {
      var cs, os := Init(configs), Init(outcomes);
      assert configs == cs + [Last(configs)] && outcomes == os + [Last(outcomes)];
      assert StartFailed !in os;
      AllRunningAfterCleanPass(table, cs, os);
      var before := Replay(table, cs, os);
      var after := Replay(table, configs, outcomes);
      if Last(outcomes) == Started {
        LaunchedRuleIsRunning(before, Last(configs));
        forall c | c in cs ensures IsRunning(after, c) {
          RunningPersists(before, [LaunchCommandLine(Last(configs))], c);
        }
      }
    }
  }

  /** A pass over rules that are all running launches nothing and leaves the
      table unchanged. */
  lemma {:induction false} SecondPassLaunchesNothing(table: seq<string>, configs: seq<Config>, outcomes: seq<Outcome>)
    requires forall c :: c in configs ==> IsRunning(table, c)
    requires PassConsistent(table, configs, outcomes)
    ensures forall i :: 0 <= i < |outcomes| ==> outcomes[i] == AlreadyRunning
    ensures Replay(table, configs, outcomes) == table
    decreases |configs|
  {
    if configs != [] {
      var cs, os := Init(configs), Init(outcomes);
      assert configs == cs + [Last(configs)] && outcomes == os + [Last(outcomes)];
      assert forall c :: c in cs ==> c in configs;
      SecondPassLaunchesNothing(table, cs, os);
      assert Last(configs) in configs;
      assert IsRunning(Replay(table, cs, os), Last(configs));
      assert Last(outcomes) == AlreadyRunning;
      forall i | 0 <= i < |outcomes| ensures outcomes[i] == AlreadyRunning {
        if i < |os| {
          assert outcomes[i] == os[i];
        }
      }
    }
  }

  /** Idempotence of reconciliation: when every launch of a pass came up, a
      second pass over the same rules, against the table the first one left,
      launches nothing and changes nothing. */
  lemma PassIdempotent(table: seq<string>, configs: seq<Config>, first: seq<Outcome>, second: seq<Outcome>)
    requires PassConsistent(table, configs, first)
    requires StartFailed !in first
    requires PassConsistent(Replay(table, configs, first), configs, second)
    ensures !AnyLaunch(second)
    ensures Replay(Replay(table, configs, first), configs, second) == Replay(table, configs, first)
  {
    AllRunningAfterCleanPass(table, configs, first);
    SecondPassLaunchesNothing(Replay(table, configs, first), configs, second);
  }

  /** A rule that no process in the table satisfies gets exactly one launch attempt;
      if the forwarder comes up, the pass reports it started and the table
      holds its command line, which the probe finds. */
  lemma UnsatisfiedRuleIsLaunched(table: seq<string>, c: Config, outcomes: seq<Outcome>)
    requires !IsRunning(table, c)
    requires PassConsistent(table, [c], outcomes)
    ensures outcomes == [Started] || outcomes == [StartFailed]
    ensures outcomes == [Started] ==> Replay(table, [c], outcomes) == table + [LaunchCommandLine(c)]
    ensures outcomes == [Started] ==> IsRunning(Replay(table, [c], outcomes), c)
    ensures outcomes == [StartFailed] ==> Replay(table, [c], outcomes) == table
  {
    assert Init([c]) == [] && Last([c]) == c;
    LaunchedRuleIsRunning(table, c);
  }

  /** Because the probe is unanchored, a rule that nothing satisfies when
      the pass starts can still go without a launch: the forwarder started
      for an earlier rule that cross-matches it satisfies its probe, and the
      pass reports it running. */
  lemma CrossMatchedRuleNotLaunched(table: seq<string>, c: Config, d: Config, listenHead: string, targetTail: string)
    requires !IsRunning(table, c) && !IsRunning(table, d)
    requires c.listen == listenHead + d.listen && c.target == d.target + targetTail
    ensures PassConsistent(table, [c, d], [Started, AlreadyRunning])
  {
    assert Init([c, d]) == [c] && Last([c, d]) == d;
    assert Init([Started, AlreadyRunning]) == [Started] && Last([Started, AlreadyRunning]) == AlreadyRunning;
    assert Init([c]) == [] && Last([c]) == c && Init([Started]) == [] && Last([Started]) == Started;
    assert Replay(table, [], []) == table;
    ProbeCrossMatches(c, d, listenHead, targetTail);
    var t := Replay(table, [c], [Started]);
    assert t == table + [LaunchCommandLine(c)];
    assert t[|table|] == LaunchCommandLine(c);
    assert Text.MatchesInOrder(t[|table|], ProbeNeedles(d.listen, d.target));
  }

  /** The host as the supervisor sees it: the command lines of the running
      processes and the shared log. */
  class Host {
    var processes: seq<string>
    var log: LogFile

    constructor (processes: seq<string>, log: LogFile)
      ensures this.processes == processes && this.log == log
    {
      this.processes := processes;
      this.log := log;
    }

    /** `check_socat_running`: the probe against the current table. */
    predicate CheckSocatRunning(c: Config)
      reads this
    {
      IsRunning(processes, c)
    }

    /** `start_socat`: clean a stale log, launch the forwarder (which may or
        may not come up), then re-probe. A forwarder that came up is always
        confirmed. */
    method StartSocat(c: Config, now: int) returns (confirmed: bool)
      modifies this
      ensures log == CleanOldLogs(old(log), now)
      ensures processes == old(processes) || processes == old(processes) + [LaunchCommandLine(c)]
      ensures confirmed == IsRunning(processes, c)
      ensures processes != old(processes) ==> confirmed
    {
      log := CleanOldLogs(log, now);
      var cameUp: bool :| true;
      if cameUp {
        LaunchedRuleIsRunning(processes, c);
        processes := processes + [LaunchCommandLine(c)];
      }
      confirmed := IsRunning(processes, c);
    }

    /** The main loop: visit the rules in order, launch each one the probe
        does not find, and carry on whatever a launch's outcome. */
    method Reconcile(configs: seq<Config>, now: int) returns (outcomes: seq<Outcome>)
      modifies this
      ensures PassConsistent(old(processes), configs, outcomes)
      ensures processes == Replay(old(processes), configs, outcomes)
      ensures log == if AnyLaunch(outcomes) then CleanOldLogs(old(log), now) else old(log)
    {
      outcomes := [];
      var i := 0;
      while i < |configs|
        invariant 0 <= i <= |configs| && |outcomes| == i
        invariant PassConsistent(old(processes), configs[..i], outcomes)
        invariant processes == Replay(old(processes), configs[..i], outcomes)
        invariant log == if AnyLaunch(outcomes) then CleanOldLogs(old(log), now) else old(log)
      {
        var c := configs[i];
        var outcome;
        if !CheckSocatRunning(c) {
          var confirmed := StartSocat(c, now);
          CleanOldLogsIdempotent(old(log), now);
          outcome := if confirmed then Started else StartFailed;
        } else {
          outcome := AlreadyRunning;
        }
        assert Init(configs[..i + 1]) == configs[..i] && Last(configs[..i + 1]) == c;
        assert Init(outcomes + [outcome]) == outcomes && Last(outcomes + [outcome]) == outcome;
        assert AnyLaunch(outcomes + [outcome]) <==> AnyLaunch(outcomes) || outcome != AlreadyRunning by {
          if AnyLaunch(outcomes) {
            var j :| 0 <= j < |outcomes| && outcomes[j] != AlreadyRunning;
            assert (outcomes + [outcome])[j] == outcomes[j];
          }
          if outcome != AlreadyRunning {
            assert (outcomes + [outcome])[i] == outcome;
          }
        }
        outcomes := outcomes + [outcome];
        i := i + 1;
      }
      assert configs[..|configs|] == configs;
    }
  }
}
