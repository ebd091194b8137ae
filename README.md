# openvpnManager: a verified model of its decisions

`openvpnManager.py` is an interactive script that lists the OpenVPN
configurations under a directory, audits the file permissions of those
configurations and of a credentials store, saves and reuses credentials, and
starts the `openvpn` client (in a debug mode that follows the client's log, or
in a normal mode that polls for a running client). This project models the
logic inside that plumbing and proves what it promises:

- **Log classifier** (`wait_for_initialization`): a loop over the lines of the
  client's log. The first line with the success marker wins. The first line
  with a failure marker, and without the success marker, loses. End of stream
  and a keyboard interrupt lose. (`classifier.dfy`)
- **Permission audit** (`check_permissions`): the checked entries come in a
  fixed order: the `.ovpn` files of the walk, then the credentials directory,
  then its `.cred` files. An entry is flagged when `st_mode & 0o777` differs
  from 600, 700 or 600 respectively. Each finding gets one `chmod` command.
  When the user agrees, the commands run in order and the first failure ends
  the repair. The model has the scanning loops as methods, the repair as a
  loop over recorded modes, and the shell's reading of each command.
  (`audit.dfy`, `shell.dfy`, `layout.dfy`)
- **Credentials** (`get_credentials` and the menu hint): the `.cred` path
  derived with `posixpath.splitext`, the file body, the reuse decision, and
  the mode of a saved file. (`credentials.dfy`)
- **Discovery** (`find_ovpn_files`, `needs_credentials`): the menu entries
  with their joined paths and directory labels, and the substring test for
  `auth-user-pass`. (`discovery.dfy`)
- **Start** (`start_vpn`): the argument vector built by successive `extend`
  calls, the client's flag/value reading of it, and the order of the steps
  around the start. Outcomes of processes are inputs. (`launch.dfy`)
- **Menu selection** (`main`): the stripped answer, `0` to leave, and
  otherwise a number from 1 to the number of configurations. (`menu.dfy`)

The Python primitives these rest on are modelled once in `pytext.dfy`:
substring `in`, `endswith`, `strip`, `lower`, `isdigit`, `int`, and the POSIX
`os.path.join`, `basename` and `splitext`. `seqs.dfy` and `wrappers.dfy` hold
generic helpers.

The model keeps three behaviours of the code:

- The repair stops at the first failing command and reports failure. It does
  not continue with the remaining commands.
- A connection attempt ends with `true` or `false`. There is no third
  "indeterminate" outcome: end of stream is `false`.
- The credentials file is opened and then restricted to mode 600 before the
  username and password are written to it. It is not "written, then
  restricted". The file does exist with default permissions between `open`
  and `chmod`, while still empty.

## Model

| member | source | states |
|---|---|---|
| PyText.ContainsIff | openvpnManager.py:222 | `t in s` holds exactly when `t` occurs at some offset of `s` (both directions) |
| PyText.StripShape | openvpnManager.py:192-193 | `strip` returns a slice of its input with only whitespace cut off at either end |
| PyText.StripEnds | openvpnManager.py:395 | the stripped text is empty or has no whitespace at either end |
| PyText.StripIdempotent | openvpnManager.py:395 | stripping twice is stripping once |
| PyText.SaysYesIff | openvpnManager.py:160-161 | `answer.lower().strip().startswith('y')` holds exactly when the first non-whitespace character is `y` or `Y` |
| PyText.DecimalRoundTrip | openvpnManager.py:399 | `int(str(n)) == n` for every natural number |
| PyText.RFindIff | openvpnManager.py:184 | `rfind` returns `i` exactly when `s[i]` is the character (or `i` is -1) and none comes after `i` |
| PyText.JoinShape | openvpnManager.py:214 | `join(a, b)` ends with `b`; it is `b` when `b` is absolute and starts with `a` otherwise |
| PyText.BasenameShape | openvpnManager.py:215 | `basename(p)` is a tail of `p` that contains no `/` |
| PyText.Splitext | openvpnManager.py:184 | the stem and the extension put back together give the path |
| PyText.SplitextParts | openvpnManager.py:184 | a non-empty extension is one dot with no later dot or `/`, and a non-dot character comes before it in the final component |
| PyText.SplitextOfName | openvpnManager.py:184 | `stem.ext` splits into `stem` and `.ext` when the stem has no `/` and is not all dots |
| PyText.SplitextLeadingDot | openvpnManager.py:184 | a leading dot does not start an extension |
| Shell.FixCommand | openvpnManager.py:164 | the corrected fix command is read by the shell as exactly `chmod`, the mode, and the path, whatever the path holds |
| Shell.AsWrittenFixCommand | openvpnManager.py:134 | the source's `chmod <mode> '<path>'`; for paths without `'` it is the corrected command |
| Shell.AsWrittenRefusesQuote | openvpnManager.py:152 | as written, a path with a `'` makes the shell reject the command (a quote is left open) |
| Shell.AsWrittenRefusesExample | openvpnManager.py:134 | the name `John's.ovpn` is such a path |
| Shell.AsWrittenSplitsPath | openvpnManager.py:134 | as written, the path `x' 'y` makes the shell run `chmod` on `x` and `y` instead of on the path |
| Classifier.WaitForInitialization | openvpnManager.py:244-260 | the loop returns the outcome `Classify` gives for the event stream |
| Classifier.Classify | openvpnManager.py:247-260 | a connection is reported only when some line of the log carries the success marker |
| Classifier.ClassifyIff | openvpnManager.py:247-257 | connected exactly when some line has the success marker and every line before it was skipped (both directions) |
| Classifier.DecidedAt | openvpnManager.py:247-257 | the first line that is not skipped decides the outcome, and nothing after it is read |
| Classifier.EndOfStreamFails | openvpnManager.py:248-260 | a stream of skipped lines ends without a connection |
| Classifier.FailureMarkerLoses | openvpnManager.py:256-257 | the first failure marker loses unless the same line has the success marker |
| Classifier.InterruptLoses | openvpnManager.py:258-259 | an interrupt while waiting loses |
| Classifier.SuccessMarkerWins | openvpnManager.py:254-255 | a line with the success marker wins, whatever failure marker it also has |
| Layout.MatchingIff | openvpnManager.py:145-147 | a listed name is selected exactly when it has the suffix; other names are ignored |
| Layout.OvpnFilesIff | openvpnManager.py:126-129 | exactly the `.ovpn` names of the walk are selected, each with its own directory |
| Layout.MatchingCount | openvpnManager.py:127-128 | one selection per listed name with the suffix |
| Discovery.EntryOf | openvpnManager.py:212-216 | the record of a found file keeps its name, its path ends with the name, and its directory label has no `/` |
| Discovery.AppendListing | openvpnManager.py:210-216 | the inner loop appends the entries of one directory's `.ovpn` files, in listing order |
| Discovery.FindOvpnFiles | openvpnManager.py:206-217 | the list is the entries of the walk's `.ovpn` files, in walk order |
| Discovery.DiscoveredIff | openvpnManager.py:209-216 | an entry is listed exactly when its name is a `.ovpn` file of some walked directory, with the joined path and that directory's base name |
| Discovery.DiscoveredSound | openvpnManager.py:209-216 | every listed entry comes from a named directory of the walk |
| Discovery.DiscoveredComplete | openvpnManager.py:209-216 | every `.ovpn` file of the walk is listed |
| Discovery.DiscoveredShape | openvpnManager.py:211-215 | every entry's name ends in `.ovpn`, its path ends with the name, and its directory label has no `/` |
| Discovery.NeedsCredentials | openvpnManager.py:219-222 | a configuration needs credentials exactly when `auth-user-pass` occurs in its text |
| Audit.PermBits | openvpnManager.py:131 | `st_mode & 0o777` keeps nine bits |
| Audit.ChmodSetsPermBits | openvpnManager.py:164 | after `chmod` to a nine-bit mode the permission bits are that mode |
| Audit.FixCommands | openvpnManager.py:132-134 | one fix command per finding, in the findings' order, each read by the shell as `chmod`, the finding's required mode (600 or 700) and its path |
| Audit.ScanListing | openvpnManager.py:127-134 | the inner loop reports the flagged suffix files of one listing with their commands |
| Audit.ScanConfigFiles | openvpnManager.py:126-134 | the walk loop reports the flagged `.ovpn` files in walk order with their commands |
| Audit.ScanCredDir | openvpnManager.py:138-142 | the directory is flagged exactly when its bits are not 700 |
| Audit.ScanCredentials | openvpnManager.py:137-152 | the directory, then its `.cred` files, only when the directory exists |
| Audit.AuditPermissions | openvpnManager.py:120-152 | the findings are those of all targets in order, the commands match them, and `issues_found` is whether there are any |
| Audit.DiskStatableTargets | openvpnManager.py:130 | every path the audit stats is one it has a mode for |
| Audit.Flagged | openvpnManager.py:131-152 | no more findings than checked entries, and every finding carries nine bits that are not the ones its kind requires |
| Audit.FlaggedCount | openvpnManager.py:131-134 | the number of findings is the number of checked entries whose bits are wrong |
| Audit.FlaggedIff | openvpnManager.py:131-134 | a finding is reported exactly for a checked entry whose bits differ from the required ones, and it carries those bits |
| Audit.FlaggedEmptyIff | openvpnManager.py:171-173 | the audit is clean exactly when every checked entry has its required bits |
| Audit.CredIssuesInOrder | openvpnManager.py:137-152 | the directory's finding comes before those of the `.cred` files |
| Audit.IssuesInOrder | openvpnManager.py:126-152 | every `.ovpn` finding comes first, then the directory's, then the `.cred` files' |
| Audit.RunChmod | openvpnManager.py:164 | a command the shell runs keeps the set of known paths, and a path `chmod` may not change keeps its mode |
| Audit.RunFixFor | openvpnManager.py:164 | running a fix command through the shell does exactly its fix, or fails when the path may not be changed |
| Audit.ApplyFixes | openvpnManager.py:163-164 | applying the fixes in order keeps the set of known paths |
| Audit.ApplyFixesUntouched | openvpnManager.py:163-164 | a path that no fix names keeps its mode |
| Audit.ApplyFixesFixed | openvpnManager.py:163-164 | a path that a fix names ends with the bits that fix sets |
| Audit.DiskOneModePerPath | openvpnManager.py:137-152 | unless the directory is also listed as a file, each path is checked against one mode |
| Audit.FixesClearIssues | openvpnManager.py:163-166 | after every fix runs, a new audit finds nothing |
| Audit.Repaired | openvpnManager.py:163-169 | the number of commands that ran before the first failing one |
| Audit.RunFixes | openvpnManager.py:162-169 | success exactly when no command fails; the modes afterwards are those of the fixes before the first failure |
| Audit.CheckPermissions | openvpnManager.py:120-173 | clean gives `true` with nothing changed; declining gives `false` with nothing changed; agreeing gives `true` exactly when every fix runs |
| Audit.RepairedDiskIsClean | openvpnManager.py:163-166 | a repair that reports success leaves a disk the audit finds clean |
| Credentials.CredFileName | openvpnManager.py:184 | the credentials file name ends in `.cred` |
| Credentials.CredPath | openvpnManager.py:184 | the path ends with the credentials file name, and so with `.cred` |
| Credentials.CredFileNameOfOvpn | openvpnManager.py:184 | `stem.ovpn` is stored as `stem.cred` when the stem has no `/` and at least one character other than `.` |
| Credentials.CredFileNameExample | openvpnManager.py:184 | `a.b.ovpn` is stored as `a.b.cred` |
| Credentials.CredFileNameOfBareSuffix | openvpnManager.py:184 | a configuration named `.ovpn` is stored as `.ovpn.cred` |
| Credentials.CredFileNameInjective | openvpnManager.py:184 | two `.ovpn` configurations whose stems each hold a character other than `.` share a credentials file only when their names are equal |
| Credentials.CredFileNameCollision | openvpnManager.py:184 | without that condition names collide: `.ovpn` and `.ovpn.ovpn` both use `.ovpn.cred` |
| Credentials.CredContentRoundTrip | openvpnManager.py:192-198 | the file written reads back, line by line, as the stripped username and password |
| Credentials.GetCredentials | openvpnManager.py:181-203 | a file is reused only when it exists and the user says yes; a returned path ends in `.cred` |
| Credentials.GetCredentialsOutcome | openvpnManager.py:181-203 | reuse exactly when the file exists and the user says yes; failure exactly when not reused and the write fails; a returned path is the derived `.cred` path; a saved file reads back as the stripped input |
| Credentials.AfterSave | openvpnManager.py:196-197 | saving adds the path to the known paths and changes no other |
| Credentials.SavedFilePassesAudit | openvpnManager.py:196-197 | a saved file has the bits the audit requires of `.cred` files, and no other path's mode changes |
| Credentials.SavedOutcomePassesAudit | openvpnManager.py:195-197 | the file `get_credentials` reports as saved has, once written, the bits the audit requires of `.cred` files |
| Credentials.CredHint | openvpnManager.py:361-367 | a hint is shown exactly for a configuration that needs credentials, and it says saved exactly when its credentials file exists |
| Credentials.HintAgreesWithGetCredentials | openvpnManager.py:361-367 | the menu hint and `get_credentials` look at the same file: reuse is offered only where the hint says saved, and after a save or reuse the hint says saved |
| Launch.LogFile | openvpnManager.py:271 | the debug log file is used exactly in debug mode |
| Launch.ClientCommand | openvpnManager.py:280-290 | the vector has 12 words in debug mode and 10 otherwise, plus 2 when there is a credentials file |
| Launch.BuildCommand | openvpnManager.py:280-290 | the successive `extend` calls build the argument vector |
| Launch.CommandPairs | openvpnManager.py:280-290 | the vector is `sudo openvpn` followed by an even number of words that pair up into the start's options |
| Launch.DebugOptionsRead | openvpnManager.py:280-290 | in debug mode each flag reads back as its value: verbosity 4, the debug daemon name, the debug log, the configuration, the user, and the credentials file exactly when there is one |
| Launch.NormalOptionsRead | openvpnManager.py:280-290 | in normal mode there is no verbosity flag, and the other flags read back as their values |
| Launch.ClientFlags | openvpnManager.py:280-290 | the flags come in the order verbosity (debug only), daemon, log, configuration, user, credentials (only when there is one) |
| Launch.CredFileOf | openvpnManager.py:287-289 | a credentials path is handed back exactly when `get_credentials` did not fail |
| Launch.ObtainCredFile | openvpnManager.py:286-290 | `get_credentials` is asked only when the configuration needs credentials, and its failure aborts |
| Launch.StartVpn | openvpnManager.py:262-352 | the steps are exactly those of `LaunchSteps`: the sudo check first; the aborts on sudo, on log setup and on missing credentials; credentials asked for exactly when sudo and the log setup succeed and the configuration needs them; the client started exactly when none of the aborts happen, with the vector built from the configuration and credentials; on that path the sudo check, the kill, the log setup and the credentials request when needed, then the one start, the log followed exactly after a successful debug start, the running check exactly after a successful normal start, and the log file removed last exactly in normal mode; the outcome is the start's success and the classifier (debug) or the running check (normal) |
| Launch.RunClient | openvpnManager.py:292-352 | the steps are those of `ClientSteps` and the outcome is that of the `try` block and its `finally`, which start nothing and ask for no credentials: the log is followed exactly in a successful debug start, the running check happens exactly in a successful normal start, and the log file is removed last exactly in normal mode |
| Launch.ClientStepsFacts | openvpnManager.py:294-352 | after the start nothing is started and no credentials are asked for; `tail -f` only after a successful debug start, the running check only after a successful normal start, the log removed last exactly in normal mode |
| Launch.LaunchAborts | openvpnManager.py:264-289 | the sudo check comes first; a failed sudo check stops at once; otherwise the kill and the log setup follow; a failed log setup stops there; a failed credentials request stops right after it |
| Launch.LaunchCredentialsAndStart | openvpnManager.py:264-294 | credentials are asked for exactly when sudo and the log setup succeed and the configuration needs them; the client starts exactly when the run gets that far, after the first three steps, with the vector built from the configuration and the credentials file |
| Launch.LaunchSuccessOrder | openvpnManager.py:264-352 | a run that gets as far as the start takes exactly the sudo check, the kill, the log setup and the credentials request when needed, then the one start and after it no start or credentials request; the log is followed exactly after a successful debug start, the running check happens exactly after a successful normal start |
| Menu.ParseChoice | openvpnManager.py:395-403 | a selected index is below the number of configurations |
| Menu.Selected | openvpnManager.py:403 | a selected configuration is one of the listed ones |
| Menu.ParseChoiceSelectIff | openvpnManager.py:399-403 | an answer selects index `i` exactly when, stripped, it is all digits with value `i + 1` and `i` is below the count |
| Menu.ParseChoiceExitIff | openvpnManager.py:396-397 | only an answer that strips to `0` leaves the menu |
| Menu.LabelSelects | openvpnManager.py:359-360 | the number printed in front of a configuration selects it, with or without whitespace around it |

## Left out

- Processes are not run. The outcomes of `sudo -v`, the log file setup, the
  client start, `tail -f` and `is_openvpn_running` are inputs of
  `Launch.StartVpn`. The source ignores what `pgrep`/`kill` report
  (openvpnManager.py:268), so the model records the `KillClients` step
  unconditionally and takes no input for it. The log stream is a sequence of read events.
- Filesystem access is not modelled. The walk, the credentials listing, the
  existing paths and the modes are given data. A failing `os.stat` raises
  out of `check_permissions` in the source; the model requires every path it
  stats to have a mode (`Audit.DiskStatable`).
- Audit.CheckPermissions: models only the modes `chmod` changes. A command
  fails as a whole when `chmod` may not change its path (the `failing`
  set); partial effects of a failing command are not modelled.
- Configuration loading (`get_config_path`, `load_config`), the root check
  and the "Continue anyway?" and debug-mode prompts of `main` are outside
  the model.
- Terminal output is not modelled: coloured printing, the printed fix
  commands, and `show_menu` apart from the credentials hint and the
  numbering.
- The post-connect loop of a debug start (return to the menu or
  `sys.exit(0)`) is not modelled; a connection counts as success.
- Time (`time.sleep`) is not modelled. A keyboard interrupt is modelled
  only while the log is being followed, as an `Interrupt` event. An
  interrupt elsewhere in the `try` block also gives `false` in the source.
- `needs_credentials` is modelled on the configuration's text. A failure to
  open the file, or a missing `USER` variable, raises out of `start_vpn` in
  the source; that path is not modelled.
- `ensure_credentials_dir` (`makedirs` with mode 700) is not modelled.
- Credentials.GetCredentials: the moment between `open` and `chmod`, when
  the new file has default permissions, is not modelled.
- PyText.Lower and PyText.AllDigits cover ASCII only: `str.lower` on
  non-ASCII letters and Unicode decimal digits accepted by `isdigit`/`int`
  are not modelled.
- Shell.Words models only blanks, single quotes and backslashes of the
  POSIX shell. That is all the fix commands use, except for paths that
  contain other shell syntax.
- Audit.FixFor uses the corrected quoting (see Findings). The command as
  written is `Shell.AsWrittenFixCommand`; the two agree on paths without `'`.

- Audit.Chmod: a numeric `chmod` on a directory keeps its set-user-ID and
  set-group-ID bits under GNU `chmod`; the model replaces them. Only the nine
  permission bits, which the audit reads, are promised.
- Credentials.CredFileName: two configurations whose names differ only in an
  all-dot stem (`.ovpn` and `.ovpn.ovpn`) share one credentials file, as in
  the source (`Credentials.CredFileNameCollision`).

## Findings

| source | as written | input that shows it | evidently intended | confidence | as-written member | corrected member |
|---|---|---|---|---|---|---|
| openvpnManager.py:134 | each fix command wraps the path in `'...'` with no escaping; the same holds at lines 142 and 152 | a configuration named `John's.ovpn` or a credentials file named `John's.cred`: the shell rejects the command; a path `x' 'y` makes `chmod` act on `x` and `y` | the shell runs `chmod` on exactly the audited path | high (not executed) | Shell.AsWrittenRefusesQuote | Shell.FixCommand |
