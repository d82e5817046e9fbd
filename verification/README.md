# socat forwarding supervisor — a Dafny model

`socat.py` keeps a list of TCP port-forwarding rules and runs one
reconciliation pass: for every rule it asks `pgrep -f` whether a `socat`
process for that rule is running, and if not it cleans a stale shared log,
starts `socat` in the background and re-probes to confirm. This project
models the decision logic of that supervisor:

- `text.dfy` (module `Text`): the few `str` operations the script uses —
  one-character `replace`, `strip`, `lower`, `in` — and the search that a
  `a.*b.*c` pattern performs when each piece stands for itself.
- `rules.dfy` (module `Rules`): the rule record as the store keeps it, the
  menu-answer to `TCP4`/`TCP6` mapping and the IPv6 bracket normalisation
  of the persisted `host:port` target.
- `probe.dfy` (module `Probe`): bracket escaping, the probe pattern, the
  probe as a test over a process table (a sequence of command lines), and
  the forwarder's command line. The central fact is that the command the
  launcher starts is always found by the probe for the same rule.
- `log_rotation.dfy` (module `LogRotation`): the staleness test that
  empties the shared log when it is more than one day old. Times are whole
  seconds passed in as parameters. The script compares naive local
  `datetime` values (socat.py:78-79), so `now` and `mtime` stand for local
  wall-clock seconds, not elapsed seconds: across a daylight-saving change
  the one-day window is 23 or 25 real hours.
- `os_detect.dfy` (module `OsDetect`): the host classification from the
  text of `/etc/os-release` and whether `/etc/alpine-release` exists,
  written as the sequence of field overwrites the script performs.
- `supervisor.dfy` (module `Supervisor`): the host as a class holding the
  process table and the log, `StartSocat` with a launch whose outcome is
  not known in advance, and the reconciliation loop, specified by a replay
  of the pass and proved idempotent when every launch comes up.

Two properties of the code are worth stating outright:

- The probe pattern `socat.*<listen>.*<target>` built at socat.py:153 is
  unanchored, so a forwarder on port `8080` satisfies a rule on port `80`,
  and one whose target is `10.0.0.1:443` satisfies a rule whose target is
  `10.0.0.1:44`; `Probe.ProbeCrossMatches` proves this. In a pass over
  both rules, `Supervisor.CrossMatchedRuleNotLaunched` shows that the
  forwarder launched for the first rule makes the pass report the second
  as already running, so a rule nothing satisfied when the pass began is
  never launched.
- Listen ports, targets and address families are stored and passed on as
  strings and are never validated; `Rules.Config` keeps them as strings.

## Model

| member | source | states |
|---|---|---|
| Text.ReplaceChar | socat.py:120 | `str.replace` with a one-character pattern: text without the character is unchanged, and a character absent from the replacement is absent from the result |
| Text.Strip | socat.py:103 | the stripped answer neither starts nor ends with white space |
| Text.StripPadded | socat.py:111 | stripping removes exactly the white space around a word |
| Text.StripIdempotent | socat.py:114 | stripping twice is stripping once |
| Text.LowerKeepsOccurrences | socat.py:26 | a keyword present in the release text in any case is present, lower-cased, in the lowered text |
| Text.MatchesInOrderStep | socat.py:153 | the search for the probe's pieces succeeds exactly when the first piece occurs at some position after which the remaining pieces are found |
| Text.MatchesInOrderHasPlacement | socat.py:153 | a successful search has a position for its first piece after which the rest are found |
| Text.PlacementMatches | socat.py:153 | any position of the first piece after which the rest are found makes the search succeed |
| Text.MatchesInOrderAfter | socat.py:172 | a piece placed after any prefix, followed by text in which the rest match, is found |
| Rules.AddressType | socat.py:104 | the recorded family is `TCP4` exactly when the answer is `"1"`, otherwise `TCP6` |
| Rules.AddressTypeOfAnswer | socat.py:103-104 | definition: the family recorded for a raw typed answer is that of the stripped answer; its properties are stated by Rules.AddressType, Rules.PaddedAnswerSameFamily and Rules.PaddedAnswerSelectsIPv4 |
| Rules.PaddedAnswerSameFamily | socat.py:103-104 | any answer typed with white space around it selects the same family as the bare answer |
| Rules.PaddedAnswerSelectsIPv4 | socat.py:111-112 | white space typed around `1` still selects `TCP4` |
| Rules.StripBrackets | socat.py:120 | the host loses every `[` and `]`; a bracket-free host is unchanged |
| Rules.StripBracketsCons | socat.py:120 | the two chained replacements act as one filter: each bracket is dropped and every other character kept, in order |
| Rules.StripBracketsLength | socat.py:120 | the host shrinks by exactly its number of brackets |
| Rules.StripClosingBracket | socat.py:120-122 | removing brackets from a bracket-free host followed by `]` gives the host |
| Rules.ComposeTarget | socat.py:118-124 | definition: the persisted target is the host, bracketed for answer `"2"` only, then `:` and the port; its properties are stated by Rules.BracketHostIdempotent, Rules.ComposeTargetIgnoresTypedBrackets and Rules.UnbracketedIPv6Target |
| Rules.BracketHostIdempotent | socat.py:119-122 | bracketing an already bracketed host gives the same host |
| Rules.ComposeTargetIgnoresTypedBrackets | socat.py:118-124 | a bracket-free IPv6 host typed with or without brackets gives the same target `[host]:port` |
| Rules.UnbracketedIPv6Target | socat.py:111-124 | as written, answer `"3"` records `TCP6` yet leaves the host `2001:db8::1` unbracketed (see Findings) |
| Rules.ComposeTargetForType | socat.py:111-124 | corrected composition: the host is bracketed exactly when the recorded remote family is `TCP6`, and agrees with the original for answer `"2"` |
| Probe.EscapeTarget | socat.py:152 | a target without brackets is left unchanged by escaping |
| Probe.EscapeTargetCons | socat.py:152 | the two chained replacements escape the target character by character: `[` becomes `\[`, `]` becomes `\]`, anything else stays |
| Probe.EscapeTargetLength | socat.py:171 | the escaped target is longer than the target by exactly its number of brackets |
| Probe.EscapeTargetHead | socat.py:152 | an escaped target never starts with a bare bracket |
| Probe.EscapeTargetRoundTrip | socat.py:152-153 | removing the backslashes inserted before brackets gives back the target |
| Probe.EscapeTargetAppend | socat.py:171 | escaping commutes with concatenation |
| Probe.EscapeClosingBracket | socat.py:152 | in a bracket-free text, a closing bracket and a bracket-free tail only the bracket is escaped |
| Probe.EscapeBracketedTarget | socat.py:152 | a bracketed IPv6 target `[h]:p` is escaped to `\[h\]:p` |
| Probe.ProbePattern | socat.py:153 | definition: `socat.*<listen>.*<escaped target>`; its properties are stated by Probe.ProbePatternPieces and Probe.ProbePatternForIPv6Target |
| Probe.ProbePatternPieces | socat.py:153 | the pattern is `socat`, the listen port and the escaped target joined by `.*`, and the escaped piece stands for the target itself |
| Probe.ProbePatternForIPv6Target | socat.py:172 | for answer `"2"` the target is `[h]:p` and the pattern ends in `\[h\]:p` |
| Probe.LaunchCommandLine | socat.py:164 | definition: the forwarder's command line `socat -T 30 <lt>-LISTEN:<listen>,reuseaddr,fork <rt>:<target>`; its properties are stated by Probe.ShellCommand and Probe.LaunchMatchesProbe |
| Probe.ShellCommand | socat.py:164 | the shell command contains the forwarder's command line `socat -T 30 <lt>-LISTEN:<listen>,reuseaddr,fork <rt>:<target>` |
| Probe.IsRunning | socat.py:148-157 | definition: some process in the table contains `socat`, the listen port and the target in that order; its properties are stated by Probe.LaunchMatchesProbe, Probe.RunningPersists, Probe.LaunchedRuleIsRunning and Probe.ProbeCrossMatches |
| Probe.LaunchMatchesProbe | socat.py:164-172 | for every rule, the launched command line contains `socat`, then the listen port, then the target, so the probe for that rule matches it |
| Probe.RunningPersists | socat.py:153-155 | a rule found running stays found whatever processes are added |
| Probe.LaunchedRuleIsRunning | socat.py:172-175 | after the rule's command line is added to any table the re-probe confirms the rule |
| Probe.ProbeCrossMatches | socat.py:153 | the unanchored probe of a rule is satisfied by the forwarder of any rule whose listen port ends with its listen port and whose target starts with its target (port `80` by `8080`, `10.0.0.1:44` by `10.0.0.1:443`) |
| LogRotation.CleanOldLogs | socat.py:74-80 | cleaning keeps whether the log exists and either keeps or empties its content |
| LogRotation.CleanOldLogsTouchesOnlyStale | socat.py:77-80 | the log changes if and only if it exists and `now - mtime > 86400`; when it changes it is empty and stamped `now` |
| LogRotation.OneDayBoundary | socat.py:79 | a log exactly one day old is kept; one second older it is emptied |
| LogRotation.MissingLogUntouched | socat.py:77 | a missing log causes no action |
| LogRotation.CleanOldLogsIdempotent | socat.py:79-80 | cleaning twice at the same time is cleaning once |
| LogRotation.CleanedLogKeptForADay | socat.py:77-80 | a stale log emptied at `now` is not emptied again by a clean at any time up to one day later |
| OsDetect.GetOsInfo | socat.py:14-42 | Alpine release file gives alpine/apk whatever the text; else debian/ubuntu/armbian gives debian/apt, winning over almalinux/centos/oracle which gives rhel/yum; otherwise all three fields are empty |
| Supervisor.OutcomeAt | socat.py:275-285 | rule `i` is launched exactly when the probe does not find it in the table left by the rules before it |
| Supervisor.ReplayExtends | socat.py:281-283 | a pass only adds to the process table |
| Supervisor.AllRunningAfterCleanPass | socat.py:275-285 | after a pass in which no launch failed every rule of the pass is running |
| Supervisor.SecondPassLaunchesNothing | socat.py:275-285 | a pass over rules that are all running reports every one as running and leaves the table unchanged |
| Supervisor.PassIdempotent | socat.py:275-285 | if every launch of a pass came up, a second pass over the same rules launches nothing and changes nothing |
| Supervisor.UnsatisfiedRuleIsLaunched | socat.py:281-283 | in a pass of that rule alone, against any table with no process matching the rule, the rule is launched exactly once; on success its command line is appended and the probe finds it, on failure the table is unchanged |
| Supervisor.CrossMatchedRuleNotLaunched | socat.py:275-285 | in a pass over two rules that nothing satisfies, where the first cross-matches the second, launching the first makes the pass report the second as already running, so the second is never launched |
| Supervisor.Host.CheckSocatRunning | socat.py:148-157 | definition: the probe of the host's current process table for the rule, which is Probe.IsRunning; Host.StartSocat and Host.Reconcile state their results through it |
| Supervisor.Host.StartSocat | socat.py:159-186 | the log is cleaned if stale, the table gains the forwarder's command line or stays as it was, the result is the re-probe, and a forwarder that came up is always confirmed |
| Supervisor.Host.Reconcile | socat.py:275-285 | rules are visited in order, each reported as running or launched as the probe against the current table says, the table is the replay of the pass, and the log is cleaned once if anything was launched |

## Left out

- Running `pgrep`, `nohup socat`, `which`, the package managers and `rc-service`: the process table is a sequence of command lines and the launch outcome is left open.
- `install_socat`'s dispatch on the detected type and `setup_log_rotation`'s cron file: host configuration, outside this model.
- `get_os_info`'s exception path that returns `None`, and reading `/etc/os-release` itself: the file text and the existence flag are parameters.
- JSON loading and saving of the rule store, and the exit when the loaded list is empty (socat.py:135-146, 270-273): file I/O.
- The interactive prompts and the `input()` loop of `get_user_input`: only the answer mapping and the target composition are modelled.
- `check_root`, `show_help` and the argument handling: environment and user interface.
- `time.sleep(1)` and the real clock: a pass uses one `now` for every staleness test, so the seconds that pass during the pass are not modelled.
- Printing the status lines and the log tail: the pass returns one `Outcome` per rule instead.
- The forwarder's own output appended to the log: the model's log changes only when it is cleaned.
- Processes other than the pass's own launches: during a pass no forwarder exits and no other process appears, so the table changes only by the launches the pass confirms. `Supervisor.AllRunningAfterCleanPass` and `Host.Reconcile`'s replay of the pass rely on that; on a real host a forwarder confirmed at socat.py:172-175 can exit before the pass ends.
- A failing `pgrep` (which the script reads as "not running"): the model's probe always sees the table.
- Shell quoting and word splitting of the rule's fields, and the shell process that runs `pgrep`: a rule's fields are assumed to reach the command line as they are.
- Probe.IsRunning: matches the pattern's pieces as literal text; in a real regular expression `.` in an IPv4 target matches any character, so `pgrep` can find a process the model does not.
- Text.Lower: lower-cases ASCII letters only; the keywords searched for are ASCII.

## Findings

| source | as written | input that shows it | evidently intended | confidence | as-written member | corrected member |
|---|---|---|---|---|---|---|
| socat.py:111-124 | the remote family is `TCP4` only for answer `"1"` but the host is bracketed only for answer `"2"`, so any other answer records `TCP6` with an unbracketed host | remote answer `3`, host `2001:db8::1`, port `8080` gives type `TCP6` and target `2001:db8::1:8080` | bracket the host whenever the recorded remote family is `TCP6` | medium, not executed | Rules.UnbracketedIPv6Target | Rules.ComposeTargetForType |
