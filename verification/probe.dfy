/** The live-state probe (`pgrep -f` over the process table) and the command
    line the launcher gives the forwarder. A process table is the sequence of
    the command lines of the running processes. */
module Probe {
  import opened Text
  import opened Rules

  /** The shared log that the forwarder's output is appended to. */
  const LOG_FILE := "socat.log"

  /** `target.replace('[', '\\[').replace(']', '\\]')`: brackets are escaped
      so that the pattern treats them as literal characters. */
  function EscapeTarget(target: string): (r: string)
    ensures NoBrackets(target) ==> r == target
  {
    ReplaceChar(ReplaceChar(target, '[', "\\["), ']', "\\]")
  }

  /** How one character of the target is written in the pattern. */
  function EscapeChar(ch: char): string {
    if ch == '[' then "\\[" else if ch == ']' then "\\]" else [ch]
  }

  /** The two replacements together escape the target one character at a time. */
  lemma {:induction false} EscapeTargetCons(h: char, rest: string)
    ensures EscapeTarget([h] + rest) == EscapeChar(h) + EscapeTarget(rest)
  {
    var once := ReplaceChar([h], '[', "\\[");
    ReplaceCharAppend([h], rest, '[', "\\[");
    ReplaceCharAppend(once, ReplaceChar(rest, '[', "\\["), ']', "\\]");
    assert ReplaceChar([h], '[', "\\[") == (if h == '[' then "\\[" else [h]) by {
      assert [h][1..] == [];
    }
    if h == '[' {
      assert ReplaceChar("\\[", ']', "\\]") == "\\[";
    } else {
      assert ReplaceChar([h], ']', "\\]") == (if h == ']' then "\\]" else [h]) by {
        assert [h][1..] == [];
      }
    }
  }

  /** Each bracket gains one backslash; nothing else grows. */
  lemma EscapeTargetLength(target: string)
    ensures |EscapeTarget(target)| == |target| + multiset(target)['['] + multiset(target)[']']
  {
    var once := ReplaceChar(target, '[', "\\[");
    ReplaceCharByPairLength(target, '[', "\\[");
    ReplaceCharByPairLength(once, ']', "\\]");
    MultisetOfReplaceOther(target, '[', "\\[", ']');
  }

  /** The literal text an escaped piece of the pattern stands for: each
      backslash written before a bracket is dropped. */
  function UnescapeBrackets(s: string): string {
    if |s| >= 2 && s[0] == '\\' && (s[1] == '[' || s[1] == ']') then [s[1]] + UnescapeBrackets(s[2..])
    else if s == [] then []
    else [s[0]] + UnescapeBrackets(s[1..])
  }

  /** An escaped target never begins with a bare bracket. */
  lemma EscapeTargetHead(target: string)
    ensures EscapeTarget(target) == [] || (EscapeTarget(target)[0] != '[' && EscapeTarget(target)[0] != ']')
  {
    if target != [] {
      assert target == [target[0]] + target[1..];
      EscapeTargetCons(target[0], target[1..]);
    }
  }

  /** Removing the inserted backslashes recovers the target, so the escaped
      piece of the pattern asks for exactly the target's text. */
  lemma {:induction false} EscapeTargetRoundTrip(target: string)
    ensures UnescapeBrackets(EscapeTarget(target)) == target
  {
    if target != [] {
      var h, rest := target[0], target[1..];
      assert target == [h] + rest;
      EscapeTargetCons(h, rest);
      EscapeTargetRoundTrip(rest);
      var e := EscapeTarget(rest);
      if h == '[' || h == ']' {
        assert EscapeTarget(target) == ['\\', h] + e;
        assert (['\\', h] + e)[2..] == e;
      } else if h == '\\' {
        EscapeTargetHead(rest);
        assert EscapeTarget(target) == ['\\'] + e;
        assert (['\\'] + e)[1..] == e;
      } else {
        assert EscapeTarget(target) == [h] + e;
        assert ([h] + e)[1..] == e;
      }
    }
  }

  /** The pattern handed to `pgrep -f`. */
  function ProbePattern(listen: string, target: string): string {
    "socat.*" + listen + ".*" + EscapeTarget(target)
  }

  /** The literal texts the pattern asks for, in order. */
  function ProbeNeedles(listen: string, target: string): seq<string> {
    ["socat", listen, target]
  }

  /** The pattern is its needles joined by `.*`, the target's piece escaped;
      unescaping that piece gives back the target needle. */
  lemma ProbePatternPieces(listen: string, target: string)
    ensures ProbePattern(listen, target)
      == ProbeNeedles(listen, target)[0] + ".*" + ProbeNeedles(listen, target)[1] + ".*" + EscapeTarget(target)
    ensures UnescapeBrackets(EscapeTarget(target)) == ProbeNeedles(listen, target)[2]
  {
    EscapeTargetRoundTrip(target);
  }

  /** A bracket-free piece followed by a closing bracket and a bracket-free
      tail has only that bracket escaped. */
  lemma EscapeClosingBracket(host: string, tail: string)
    requires NoBrackets(host) && NoBrackets(tail)
    ensures EscapeTarget(host + ([']'] + tail)) == host + (['\\', ']'] + tail)
  {
    EscapeTargetAppend(host, [']'] + tail);
    EscapeTargetCons(']', tail);
  }

  /** A bracketed IPv6 target has both of its brackets escaped and nothing else. */
  lemma EscapeBracketedTarget(host: string, port: string)
    requires NoBrackets(host) && NoBrackets(port)
    ensures EscapeTarget("[" + host + "]:" + port) == "\\[" + host + "\\]:" + port
  {
    var tail := ":" + port;
    assert NoBrackets(tail);
    var inner := host + ([']'] + tail);
    EscapeClosingBracket(host, tail);
    EscapeTargetCons('[', inner);
    BracketedSplit(host, port);
  }

  lemma BracketedSplit(host: string, port: string)
    ensures "[" + host + "]:" + port == ['['] + (host + ([']'] + (":" + port)))
    ensures "\\[" + host + "\\]:" + port == EscapeChar('[') + (host + (['\\', ']'] + (":" + port)))
  {
  }

  /** For the IPv6 answer the composed target is the bracketed host and the
      probe pattern escapes both of its brackets (for instance host
      `2001:db8::1` and port `8080` give `[2001:db8::1]:8080` and a pattern
      ending in `\\[2001:db8::1\\]:8080`). */
  lemma ProbePatternForIPv6Target(listen: string, host: string, port: string)
    requires NoBrackets(host) && NoBrackets(port)
    ensures ComposeTarget(IPV6_ANSWER, host, port) == "[" + host + "]:" + port
    ensures ProbePattern(listen, ComposeTarget(IPV6_ANSWER, host, port))
      == "socat.*" + listen + ".*" + ("\\[" + host + "\\]:" + port)
  {
    ComposeTargetIgnoresTypedBrackets(host, port);
    EscapeBracketedTarget(host, port);
  }

  lemma EscapeTargetAppend(a: string, b: string)
    ensures EscapeTarget(a + b) == EscapeTarget(a) + EscapeTarget(b)
  {
    ReplaceCharAppend(a, b, '[', "\\[");
    ReplaceCharAppend(ReplaceChar(a, '[', "\\["), ReplaceChar(b, '[', "\\["), ']', "\\]");
  }

  /** Whether `pgrep -f` finds a process for the rule: some command line
      contains `socat`, then the listen port, then the target. */
  predicate IsRunning(table: seq<string>, c: Config) {
    exists i :: 0 <= i < |table| && MatchesInOrder(table[i], ProbeNeedles(c.listen, c.target))
  }

  /** The forwarder's command line once `nohup` has handed over to it. */
  function LaunchCommandLine(c: Config): string {
    "socat -T 30 " + c.localType + "-LISTEN:" + c.listen + ",reuseaddr,fork " + c.remoteType + ":" + c.target
  }

  /** The shell command the launcher runs: the forwarder, detached, its
      output appended to the shared log. */
  function ShellCommand(c: Config): (r: string)
    ensures Contains(r, LaunchCommandLine(c))
  {
    var r := "nohup " + LaunchCommandLine(c) + " >> " + LOG_FILE + " 2>&1 &";
    assert LaunchCommandLine(c) <= r[|"nohup "|..];
    r
  }

  /** The command the launcher starts is found by the probe for the same
      rule, whatever the address families: `socat` comes first, the listen
      port after it and the target last. */
  lemma {:induction false} LaunchMatchesProbe(c: Config)
    ensures MatchesInOrder(LaunchCommandLine(c), ProbeNeedles(c.listen, c.target))
  {
    var x1 := " -T 30 " + c.localType + "-LISTEN:";
    var x2 := ",reuseaddr,fork " + c.remoteType + ":";
    MatchesThreeInOrder([], "socat", x1, c.listen, x2, c.target, []);
    assert [] + "socat" + (x1 + c.listen + (x2 + c.target + [])) == LaunchCommandLine(c);
  }

  /** A process, once in the table, keeps the rule satisfied whatever is
      appended after it. */
  lemma RunningPersists(table: seq<string>, more: seq<string>, c: Config)
    requires IsRunning(table, c)
    ensures IsRunning(table + more, c)
  {
    var i :| 0 <= i < |table| && MatchesInOrder(table[i], ProbeNeedles(c.listen, c.target));
    assert (table + more)[i] == table[i];
  }

  /** After a successful launch the re-probe confirms the rule. */
  lemma LaunchedRuleIsRunning(table: seq<string>, c: Config)
    ensures IsRunning(table + [LaunchCommandLine(c)], c)
  {
    LaunchMatchesProbe(c);
    assert (table + [LaunchCommandLine(c)])[|table|] == LaunchCommandLine(c);
  }

  /** The probe is not anchored: a forwarder for a rule satisfies the probe
      of any rule whose listen port is a suffix of its listen port and whose
      target is a prefix of its target. For instance a forwarder on port
      `8080` to `10.0.0.1:443` satisfies a rule on port `80` to `10.0.0.1:44`. */
  lemma ProbeCrossMatches(c: Config, d: Config, listenHead: string, targetTail: string)
    requires c.listen == listenHead + d.listen
    requires c.target == d.target + targetTail
    ensures IsRunning([LaunchCommandLine(c)], d)
  {
    var x1 := " -T 30 " + c.localType + "-LISTEN:" + listenHead;
    var x2 := ",reuseaddr,fork " + c.remoteType + ":";
    MatchesThreeInOrder([], "socat", x1, d.listen, x2, d.target, targetTail);
    assert [] + "socat" + (x1 + d.listen + (x2 + d.target + targetTail)) == LaunchCommandLine(c);
    assert [LaunchCommandLine(c)][0] == LaunchCommandLine(c);
  }
}
