/** `check_permissions`: every `.ovpn` file under the configuration directory
    must be mode 600, the credentials directory 700 and every `.cred` file in
    it 600. Each deviation is reported with a `chmod` command that would fix
    it; if the user agrees, the commands are run one by one and the first one
    that fails ends the repair. */
module Audit {
  import opened PyText
  import opened Shell
  import opened Layout
  import opened Wrappers
  import opened Seqs

  /** `0o600` and `0o700`. */
  const FileMode: nat := 384
  const DirMode: nat := 448

  /** `st_mode & 0o777` (st_mode is never negative). */
  function PermBits(mode: nat): (r: nat)
    ensures r < 512
  {
    mode % 512
  }

  /** What `chmod` leaves behind, as modelled: the file-type bits stay, and the
      permission bits together with the set-id and sticky bits become `perm`.
      (GNU `chmod` keeps a directory's set-id bits under a numeric mode; only
      the nine permission bits matter to the audit.) */
  function Chmod(mode: nat, perm: nat): nat
    requires perm < 4096
  {
    mode / 4096 * 4096 + perm
  }

  lemma ChmodSetsPermBits(mode: nat, perm: nat)
    requires perm < 512
    ensures PermBits(Chmod(mode, perm)) == perm
  {
    var q := mode / 4096;
    assert q * 4096 + perm == (q * 8) * 512 + perm;
  }

  /** The three kinds of entry the audit looks at. */
  datatype Kind = ConfigFile | CredDir | CredFile

  /** The mode each kind must have. */
  function Required(k: Kind): nat
  {
    if k == CredDir then DirMode else FileMode
  }

  /** The mode argument of the fix command: `chmod 600` for files, `chmod 700` for the directory. */
  function ModeArg(k: Kind): string
  {
    if k == CredDir then "700" else "600"
  }

  /** An entry to check, and a reported deviation with the bits found (the
      source prints those with `oct(...)`). */
  datatype Target = Target(path: string, kind: Kind)
  datatype Issue = Issue(path: string, kind: Kind, actual: nat)

  /** What the audit sees of the disk. */
  datatype Disk = Disk(walk: seq<WalkStep>, credDir: string, credDirExists: bool, credListing: seq<string>)

  function ToTargets(found: seq<Found>, kind: Kind): (r: seq<Target>)
    ensures |r| == |found|
    ensures forall k :: 0 <= k < |found| ==> r[k] == Target(Join(found[k].root, found[k].name), kind)
  {
    seq(|found|, k requires 0 <= k < |found| => Target(Join(found[k].root, found[k].name), kind))
  }

  /** The `.ovpn` files, in walk order. */
  function ConfigTargets(d: Disk): seq<Target>
  {
    ToTargets(OvpnFiles(d.walk), ConfigFile)
  }

  /** The directory itself, then its `.cred` files in listing order; nothing if it does not exist. */
  function CredTargets(d: Disk): seq<Target>
  {
    if d.credDirExists then [Target(d.credDir, CredDir)] + ToTargets(Matching(d.credDir, d.credListing, CredSuffix), CredFile)
    else []
  }

  /** Everything the audit checks, in the order it checks them. */
  function Targets(d: Disk): seq<Target>
  {
    ConfigTargets(d) + CredTargets(d)
  }

  /** Every checked path can be stat-ed. */
  ghost predicate Statable(targets: seq<Target>, modes: map<string, nat>)
  {
    forall k :: 0 <= k < |targets| ==> targets[k].path in modes
  }

  /** The targets whose permission bits are not the required ones, in order. */
  function Flagged(targets: seq<Target>, modes: map<string, nat>): (r: seq<Issue>)
    requires Statable(targets, modes)
    ensures |r| <= |targets|
    ensures forall k :: 0 <= k < |r| ==> r[k].actual < 512 && r[k].actual != Required(r[k].kind)
  {
    if targets == [] then []
    else
      var t := targets[|targets| - 1];
      Flagged(targets[..|targets| - 1], modes)
        + (if PermBits(modes[t.path]) != Required(t.kind) then [Issue(t.path, t.kind, PermBits(modes[t.path]))] else [])
  }

  /** The audit's findings on a disk. */
  function Issues(d: Disk, modes: map<string, nat>): seq<Issue>
    requires Statable(Targets(d), modes)
  {
    Flagged(Targets(d), modes)
  }

  /** The fix command for one finding. */
  function FixFor(i: Issue): string
  {
    FixCommand(ModeArg(i.kind), i.path)
  }

  /** One command per finding, in the findings' order, each of which the shell
      reads as `chmod`, the finding's required mode and its path. */
  function FixCommands(issues: seq<Issue>): (r: seq<string>)
    ensures |r| == |issues|
    ensures forall k :: 0 <= k < |issues| ==> Words(r[k]) == Some(["chmod", ModeArg(issues[k].kind), issues[k].path])
  {
    seq(|issues|, k requires 0 <= k < |issues| => FixFor(issues[k]))
  }

  lemma {:induction false} FlaggedAppend(a: seq<Target>, b: seq<Target>, modes: map<string, nat>)
    requires Statable(a, modes) && Statable(b, modes)
    ensures Statable(a + b, modes)
    ensures Flagged(a + b, modes) == Flagged(a, modes) + Flagged(b, modes)
    decreases |b|
  {
    if b == [] {
      assert a + b == a;
    } else {
      var n := |b| - 1;
      assert (a + b)[..|a + b| - 1] == a + b[..n];
      assert (a + b)[|a + b| - 1] == b[n];
      FlaggedAppend(a, b[..n], modes);
    }
  }

  lemma FlaggedSnoc(done: seq<Target>, t: Target, modes: map<string, nat>)
    requires Statable(done, modes) && t.path in modes
    ensures Statable(done + [t], modes)
    ensures Flagged(done + [t], modes) == Flagged(done, modes)
      + (if PermBits(modes[t.path]) != Required(t.kind) then [Issue(t.path, t.kind, PermBits(modes[t.path]))] else [])
  {
    assert (done + [t])[..|done|] == done;
  }

  lemma FixCommandsAppend(a: seq<Issue>, b: seq<Issue>)
    ensures FixCommands(a + b) == FixCommands(a) + FixCommands(b)
  {
  }

  lemma FixCommandsSnoc(issues: seq<Issue>, i: Issue)
    ensures FixCommands(issues + [i]) == FixCommands(issues) + [FixFor(i)]
  {
    FixCommandsAppend(issues, [i]);
    assert FixCommands([i]) == [FixFor(i)];
  }

  /** The paths `os.stat` is called on all exist (the source does not catch a failing `stat`). */
  ghost predicate DiskStatable(d: Disk, modes: map<string, nat>)
  {
    && (forall w, f :: 0 <= w < |d.walk| && 0 <= f < |d.walk[w].files| && EndsWith(d.walk[w].files[f], OvpnSuffix)
          ==> Join(d.walk[w].root, d.walk[w].files[f]) in modes)
    && (d.credDirExists ==> d.credDir in modes)
    && (d.credDirExists ==>
          forall f :: 0 <= f < |d.credListing| && EndsWith(d.credListing[f], CredSuffix)
            ==> Join(d.credDir, d.credListing[f]) in modes)
  }

  lemma DiskStatableTargets(d: Disk, modes: map<string, nat>)
    requires DiskStatable(d, modes)
    ensures Statable(ConfigTargets(d), modes) && Statable(CredTargets(d), modes) && Statable(Targets(d), modes)
  {
    var found := OvpnFiles(d.walk);
    forall k | 0 <= k < |found| ensures Join(found[k].root, found[k].name) in modes {
      OvpnFilesIff(d.walk, found[k]);
      var w :| 0 <= w < |d.walk| && d.walk[w].root == found[k].root && found[k].name in d.walk[w].files
        && EndsWith(found[k].name, OvpnSuffix);
      var f :| 0 <= f < |d.walk[w].files| && d.walk[w].files[f] == found[k].name;
    }
    if d.credDirExists {
      var creds := Matching(d.credDir, d.credListing, CredSuffix);
      forall k | 0 <= k < |creds| ensures Join(creds[k].root, creds[k].name) in modes {
        MatchingIff(d.credDir, d.credListing, CredSuffix, creds[k]);
        var f :| 0 <= f < |d.credListing| && d.credListing[f] == creds[k].name;
      }
      var b := CredTargets(d);
      forall k | 0 <= k < |b| ensures b[k].path in modes {
        if k > 0 {
          assert b[k] == ToTargets(creds, CredFile)[k - 1];
        }
      }
    }
    FlaggedAppend(ConfigTargets(d), CredTargets(d), modes);
  }

  /** The findings among the files selected from one listing. */
  function ListingIssues(root: string, files: seq<string>, suffix: string, kind: Kind, modes: map<string, nat>): seq<Issue>
    requires Statable(ToTargets(Matching(root, files, suffix), kind), modes)
  {
    Flagged(ToTargets(Matching(root, files, suffix), kind), modes)
  }

  /** Looking at one more name of a listing adds its finding, if any, at the end. */
  lemma ListingStep(root: string, files: seq<string>, f: nat, suffix: string, kind: Kind, modes: map<string, nat>)
    requires f < |files|
    requires Statable(ToTargets(Matching(root, files[..f], suffix), kind), modes)
    requires EndsWith(files[f], suffix) ==> Join(root, files[f]) in modes
    ensures Statable(ToTargets(Matching(root, files[..f + 1], suffix), kind), modes)
    ensures var p := Join(root, files[f]);
      ListingIssues(root, files[..f + 1], suffix, kind, modes) == ListingIssues(root, files[..f], suffix, kind, modes)
        + (if EndsWith(files[f], suffix) && PermBits(modes[p]) != Required(kind) then [Issue(p, kind, PermBits(modes[p]))] else [])
  {
    MatchingPrefix(root, files, f, suffix);
    var found := Matching(root, files[..f], suffix);
    if EndsWith(files[f], suffix) {
      ToTargetsSnoc(found, Found(root, files[f]), kind);
      FlaggedSnoc(ToTargets(found, kind), Target(Join(root, files[f]), kind), modes);
    } else {
      assert found + [] == found;
    }
  }

  /** The inner loop of `check_permissions` over one listing: it checks every
      name with the suffix and appends a finding and its fix command for each
      deviation. */
  method ScanListing(root: string, files: seq<string>, suffix: string, kind: Kind, modes: map<string, nat>)
    returns (issues: seq<Issue>, fixCommands: seq<string>)
    requires forall f :: 0 <= f < |files| && EndsWith(files[f], suffix) ==> Join(root, files[f]) in modes
    ensures Statable(ToTargets(Matching(root, files, suffix), kind), modes)
    ensures issues == ListingIssues(root, files, suffix, kind, modes)
    ensures fixCommands == FixCommands(issues)
  {
    issues, fixCommands := [], [];
    var f := 0;
    while f < |files|
      invariant 0 <= f <= |files|
      invariant Statable(ToTargets(Matching(root, files[..f], suffix), kind), modes)
      invariant issues == ListingIssues(root, files[..f], suffix, kind, modes)
      invariant fixCommands == FixCommands(issues)
    {
      var file := files[f];
      ListingStep(root, files, f, suffix, kind, modes);
      if EndsWith(file, suffix) {
        var fullPath := Join(root, file);
        if PermBits(modes[fullPath]) != Required(kind) {
          var issue := Issue(fullPath, kind, PermBits(modes[fullPath]));
          FixCommandsSnoc(issues, issue);
          issues := issues + [issue];
          fixCommands := fixCommands + [FixCommand(ModeArg(kind), fullPath)];
        }
      }
      f := f + 1;
    }
    assert files[..f] == files;
  }

  /** The loop of `check_permissions` over the walk of the configuration directory. */
  method ScanConfigFiles(d: Disk, modes: map<string, nat>) returns (issues: seq<Issue>, fixCommands: seq<string>)
    requires DiskStatable(d, modes)
    ensures Statable(ConfigTargets(d), modes)
    ensures issues == Flagged(ConfigTargets(d), modes) && fixCommands == FixCommands(issues)
  {
    issues, fixCommands := [], [];
    var w := 0;
    while w < |d.walk|
      invariant 0 <= w <= |d.walk|
      invariant Statable(ToTargets(OvpnFiles(d.walk[..w]), ConfigFile), modes)
      invariant issues == Flagged(ToTargets(OvpnFiles(d.walk[..w]), ConfigFile), modes)
      invariant fixCommands == FixCommands(issues)
    {
      var root, files := d.walk[w].root, d.walk[w].files;
      var more, moreFixes := ScanListing(root, files, OvpnSuffix, ConfigFile, modes);
      WalkStepIssues(d.walk, w, modes);
      FixCommandsAppend(issues, more);
      issues, fixCommands := issues + more, fixCommands + moreFixes;
      w := w + 1;
    }
    assert d.walk[..w] == d.walk;
  }

  /** One more directory of the walk adds its findings at the end. */
  lemma WalkStepIssues(walk: seq<WalkStep>, w: nat, modes: map<string, nat>)
    requires w < |walk|
    requires Statable(ToTargets(OvpnFiles(walk[..w]), ConfigFile), modes)
    requires Statable(ToTargets(Matching(walk[w].root, walk[w].files, OvpnSuffix), ConfigFile), modes)
    ensures Statable(ToTargets(OvpnFiles(walk[..w + 1]), ConfigFile), modes)
    ensures Flagged(ToTargets(OvpnFiles(walk[..w + 1]), ConfigFile), modes)
      == Flagged(ToTargets(OvpnFiles(walk[..w]), ConfigFile), modes)
        + ListingIssues(walk[w].root, walk[w].files, OvpnSuffix, ConfigFile, modes)
  {
    var a, b := OvpnFiles(walk[..w]), Matching(walk[w].root, walk[w].files, OvpnSuffix);
    OvpnFilesPrefix(walk, w);
    ToTargetsAppend(a, b, ConfigFile);
    FlaggedAppend(ToTargets(a, ConfigFile), ToTargets(b, ConfigFile), modes);
  }

  /** The check of the credentials directory and of the `.cred` files in it. */
  method ScanCredentials(d: Disk, modes: map<string, nat>) returns (issues: seq<Issue>, fixCommands: seq<string>)
    requires DiskStatable(d, modes)
    ensures Statable(CredTargets(d), modes)
    ensures issues == Flagged(CredTargets(d), modes) && fixCommands == FixCommands(issues)
  {
    issues, fixCommands := [], [];
    DiskStatableTargets(d, modes);
    if d.credDirExists {
      var dirTarget := Target(d.credDir, CredDir);
      issues, fixCommands := ScanCredDir(d.credDir, modes);
      var more, moreFixes := ScanListing(d.credDir, d.credListing, CredSuffix, CredFile, modes);
      FlaggedAppend([dirTarget], ToTargets(Matching(d.credDir, d.credListing, CredSuffix), CredFile), modes);
      FixCommandsAppend(issues, more);
      issues, fixCommands := issues + more, fixCommands + moreFixes;
    }
  }

  /** The check of the credentials directory itself: mode 700 or one finding. */
  method ScanCredDir(credDir: string, modes: map<string, nat>) returns (issues: seq<Issue>, fixCommands: seq<string>)
    requires credDir in modes
    ensures Statable([Target(credDir, CredDir)], modes)
    ensures issues == Flagged([Target(credDir, CredDir)], modes) && fixCommands == FixCommands(issues)
  {
    issues, fixCommands := [], [];
    var bits := PermBits(modes[credDir]);
    if bits != DirMode {
      issues := [Issue(credDir, CredDir, bits)];
      fixCommands := [FixCommand("700", credDir)];
    }
    assert [Target(credDir, CredDir)][..0] == [];
  }

  /** The detection half of `check_permissions`: the findings, their fix
      commands in the same order, and `issues_found`. */
  method AuditPermissions(d: Disk, modes: map<string, nat>) returns (issuesFound: bool, issues: seq<Issue>, fixCommands: seq<string>)
    requires DiskStatable(d, modes)
    ensures Statable(Targets(d), modes)
    ensures issues == Issues(d, modes)
    ensures fixCommands == FixCommands(issues)
    ensures issuesFound <==> issues != []
  {
    var configIssues, configFixes := ScanConfigFiles(d, modes);
    var credIssues, credFixes := ScanCredentials(d, modes);
    FlaggedAppend(ConfigTargets(d), CredTargets(d), modes);
    FixCommandsAppend(configIssues, credIssues);
    issues := configIssues + credIssues;
    fixCommands := configFixes + credFixes;
    issuesFound := issues != [];
  }

  /** Both directions: a finding is reported exactly for a checked entry whose
      permission bits differ from the ones its kind requires, and it carries
      those bits. */
  lemma {:induction false} FlaggedIff(targets: seq<Target>, modes: map<string, nat>, i: Issue)
    requires Statable(targets, modes)
    ensures i in Flagged(targets, modes) <==>
      Target(i.path, i.kind) in targets && i.actual == PermBits(modes[i.path]) && i.actual != Required(i.kind)
  {
    if targets != [] {
      var n := |targets| - 1;
      FlaggedIff(targets[..n], modes, i);
      assert targets == targets[..n] + [targets[n]];
    }
  }

  /** A checked entry whose permission bits are not the ones its kind requires. */
  predicate WrongBits(t: Target, modes: map<string, nat>)
  {
    t.path in modes && PermBits(modes[t.path]) != Required(t.kind)
  }

  /** The test `check_permissions` applies to each entry, as a value. */
  function WrongIn(modes: map<string, nat>): Target -> bool
  {
    t => WrongBits(t, modes)
  }

  /** One finding per checked entry whose bits are wrong: the number of
      findings is the number of such entries. */
  lemma {:induction false} FlaggedCount(targets: seq<Target>, modes: map<string, nat>)
    requires Statable(targets, modes)
    ensures |Flagged(targets, modes)| == CountWhere(targets, WrongIn(modes))
  {
    if targets != [] {
      var n := |targets| - 1;
      FlaggedCount(targets[..n], modes);
      CountSnoc(targets, WrongIn(modes));
    } else {
      CountNil(targets, WrongIn(modes));
    }
  }

  /** Both directions: the audit is clean exactly when every checked entry has
      the mode its kind requires. */
  lemma FlaggedEmptyIff(targets: seq<Target>, modes: map<string, nat>)
    requires Statable(targets, modes)
    ensures Flagged(targets, modes) == [] <==>
      forall k :: 0 <= k < |targets| ==> PermBits(modes[targets[k].path]) == Required(targets[k].kind)
  {
    var flagged := Flagged(targets, modes);
    forall k | 0 <= k < |targets| && PermBits(modes[targets[k].path]) != Required(targets[k].kind)
      ensures flagged != []
    {
      var t := targets[k];
      FlaggedIff(targets, modes, Issue(t.path, t.kind, PermBits(modes[t.path])));
    }
    if flagged != [] {
      FlaggedIff(targets, modes, flagged[0]);
      var k :| 0 <= k < |targets| && targets[k] == Target(flagged[0].path, flagged[0].kind);
    }
  }

  /** Where a kind of entry comes in the report. */
  function Rank(k: Kind): nat
  {
    match k
    case ConfigFile => 0
    case CredDir => 1
    case CredFile => 2
  }

  ghost predicate InKindOrder(issues: seq<Issue>)
  {
    forall j, k :: 0 <= j < k < |issues| ==> Rank(issues[j].kind) <= Rank(issues[k].kind)
  }

  /** The findings among entries of one kind are all of that kind. */
  lemma FlaggedKinds(targets: seq<Target>, modes: map<string, nat>, kind: Kind)
    requires Statable(targets, modes)
    requires forall k :: 0 <= k < |targets| ==> targets[k].kind == kind
    ensures forall j :: 0 <= j < |Flagged(targets, modes)| ==> Flagged(targets, modes)[j].kind == kind
  {
    var flagged := Flagged(targets, modes);
    forall j | 0 <= j < |flagged| ensures flagged[j].kind == kind {
      FlaggedIff(targets, modes, flagged[j]);
    }
  }

  /** Appending findings of a later kind keeps the report in order. */
  lemma KindOrderAppend(a: seq<Issue>, b: seq<Issue>, r: nat)
    requires InKindOrder(a) && InKindOrder(b)
    requires forall j :: 0 <= j < |a| ==> Rank(a[j].kind) <= r
    requires forall j :: 0 <= j < |b| ==> r <= Rank(b[j].kind)
    ensures InKindOrder(a + b)
  {
    var c := a + b;
    forall j, k | 0 <= j < k < |c| ensures Rank(c[j].kind) <= Rank(c[k].kind) {
      if k < |a| {
        assert c[j] == a[j] && c[k] == a[k];
      } else if j >= |a| {
        assert c[j] == b[j - |a|] && c[k] == b[k - |a|];
      } else {
        assert c[j] == a[j] && c[k] == b[k - |a|];
      }
    }
  }

  /** The credentials part of the report: the directory's finding comes
      before those of its files. */
  lemma CredIssuesInOrder(d: Disk, modes: map<string, nat>)
    requires Statable(CredTargets(d), modes)
    ensures InKindOrder(Flagged(CredTargets(d), modes))
    ensures forall j :: 0 <= j < |Flagged(CredTargets(d), modes)| ==> 1 <= Rank(Flagged(CredTargets(d), modes)[j].kind)
  {
    if d.credDirExists {
      var dir := [Target(d.credDir, CredDir)];
      var c := ToTargets(Matching(d.credDir, d.credListing, CredSuffix), CredFile);
      assert CredTargets(d) == dir + c;
      assert Statable(c, modes) by {
        forall k | 0 <= k < |c| ensures c[k].path in modes {
          assert c[k] == CredTargets(d)[k + 1];
        }
      }
      assert Statable(dir, modes) by {
        assert dir[0] == CredTargets(d)[0];
      }
      FlaggedAppend(dir, c, modes);
      FlaggedKinds(dir, modes, CredDir);
      FlaggedKinds(c, modes, CredFile);
      KindOrderAppend(Flagged(dir, modes), Flagged(c, modes), 2);
    }
  }

  /** The order of the report: every `.ovpn` finding, then the directory's,
      then those of the `.cred` files. */
  lemma IssuesInOrder(d: Disk, modes: map<string, nat>)
    requires DiskStatable(d, modes)
    ensures Statable(Targets(d), modes)
    ensures InKindOrder(Issues(d, modes))
  {
    DiskStatableTargets(d, modes);
    var a, b := ConfigTargets(d), CredTargets(d);
    FlaggedKinds(a, modes, ConfigFile);
    CredIssuesInOrder(d, modes);
    FlaggedAppend(a, b, modes);
    KindOrderAppend(Flagged(a, modes), Flagged(b, modes), 1);
  }

  /** `chmod`'s reading of its octal mode argument. */
  function OctalValue(s: string): nat
    requires forall k :: 0 <= k < |s| ==> '0' <= s[k] <= '7'
  {
    if s == [] then 0 else 8 * OctalValue(s[..|s| - 1]) + (s[|s| - 1] as int - '0' as int)
  }

  /** A mode argument `chmod` accepts here: one to four octal digits. */
  predicate OctalMode(s: string)
  {
    0 < |s| <= 4 && forall k :: 0 <= k < |s| ==> '0' <= s[k] <= '7'
  }

  lemma {:induction false} OctalValueBound(s: string)
    requires forall k :: 0 <= k < |s| ==> '0' <= s[k] <= '7'
    ensures OctalValue(s) < Pow8(|s|)
  {
    if s != [] {
      OctalValueBound(s[..|s| - 1]);
    }
  }

  function Pow8(n: nat): nat
  {
    if n == 0 then 1 else 8 * Pow8(n - 1)
  }

  /** What running one command line through the shell does to the modes, when
      it is a `chmod`: `None` when the shell or `chmod` fails (a path in
      `failing` is one `chmod` is not allowed to change). */
  function RunChmod(cmd: string, modes: map<string, nat>, failing: set<string>): (r: Option<map<string, nat>>)
    ensures r.Some? ==> r.value.Keys == modes.Keys
    ensures r.Some? ==> forall q :: q in failing && q in modes ==> r.value[q] == modes[q]
  {
    match Words(cmd)
    case None => None
    case Some(w) =>
      if |w| == 3 && w[0] == "chmod" && OctalMode(w[1]) && w[2] in modes && w[2] !in failing then
        OctalValueBound(w[1]);
        assert Pow8(|w[1]|) <= 4096 by {
          assert Pow8(4) == 4096;
          assert |w[1]| <= 4;
          Pow8Mono(|w[1]|, 4);
        }
        Some(modes[w[2] := Chmod(modes[w[2]], OctalValue(w[1]))])
      else None
  }

  lemma {:induction false} Pow8Mono(m: nat, n: nat)
    requires m <= n
    ensures Pow8(m) <= Pow8(n)
    decreases n
  {
    if m < n {
      Pow8Mono(m, n - 1);
    }
  }

  /** The fix, applied to the recorded modes. */
  function ApplyFix(modes: map<string, nat>, i: Issue): map<string, nat>
    requires i.path in modes
  {
    modes[i.path := Chmod(modes[i.path], Required(i.kind))]
  }

  /** A fix command run by the shell does exactly its fix, or fails when `chmod`
      may not change that path. */
  lemma RunFixFor(i: Issue, modes: map<string, nat>, failing: set<string>)
    requires i.path in modes
    ensures RunChmod(FixFor(i), modes, failing) == if i.path in failing then None else Some(ApplyFix(modes, i))
  {
    assert OctalValue("600") == FileMode by {
      assert "600"[..2] == "60" && "60"[..1] == "6" && "6"[..0] == "";
    }
    assert OctalValue("700") == DirMode by {
      assert "700"[..2] == "70" && "70"[..1] == "7" && "7"[..0] == "";
    }
  }

  /** Applying a list of fixes, in order. */
  function ApplyFixes(modes: map<string, nat>, issues: seq<Issue>): (r: map<string, nat>)
    requires forall k :: 0 <= k < |issues| ==> issues[k].path in modes
    ensures r.Keys == modes.Keys
  {
    if issues == [] then modes
    else ApplyFix(ApplyFixes(modes, issues[..|issues| - 1]), issues[|issues| - 1])
  }

  lemma ApplyFixesSnoc(modes: map<string, nat>, issues: seq<Issue>, k: nat)
    requires k < |issues|
    requires forall j :: 0 <= j < |issues| ==> issues[j].path in modes
    ensures ApplyFixes(modes, issues[..k + 1]) == ApplyFix(ApplyFixes(modes, issues[..k]), issues[k])
  {
    assert issues[..k + 1][..k] == issues[..k];
  }

  /** A path no fix names keeps its mode. */
  lemma {:induction false} ApplyFixesUntouched(modes: map<string, nat>, issues: seq<Issue>, p: string)
    requires forall k :: 0 <= k < |issues| ==> issues[k].path in modes && issues[k].path != p
    ensures p in modes ==> ApplyFixes(modes, issues)[p] == modes[p]
  {
    if issues != [] {
      ApplyFixesUntouched(modes, issues[..|issues| - 1], p);
    }
  }

  /** A path that some fix names ends with the permission bits those fixes set. */
  lemma {:induction false} ApplyFixesFixed(modes: map<string, nat>, issues: seq<Issue>, p: string, perm: nat)
    requires forall k :: 0 <= k < |issues| ==> issues[k].path in modes
    requires exists k :: 0 <= k < |issues| && issues[k].path == p
    requires forall k :: 0 <= k < |issues| && issues[k].path == p ==> Required(issues[k].kind) == perm
    ensures PermBits(ApplyFixes(modes, issues)[p]) == perm
  {
    var n := |issues| - 1;
    var last := issues[n];
    if last.path == p {
      ChmodSetsPermBits(ApplyFixes(modes, issues[..n])[p], perm);
    } else {
      var k :| 0 <= k < |issues| && issues[k].path == p;
      assert issues[..n][k] == issues[k];
      ApplyFixesFixed(modes, issues[..n], p, perm);
    }
  }

  /** Every path is checked against one mode only. */
  ghost predicate OneModePerPath(targets: seq<Target>)
  {
    forall j, k :: 0 <= j < |targets| && 0 <= k < |targets| && targets[j].path == targets[k].path
      ==> Required(targets[j].kind) == Required(targets[k].kind)
  }

  /** On a disk whose credentials directory is not also listed as a file, every
      path is checked against one mode only. */
  lemma DiskOneModePerPath(d: Disk)
    requires d.credDirExists ==> forall k :: 0 <= k < |Targets(d)| && Targets(d)[k].kind != CredDir ==> Targets(d)[k].path != d.credDir
    ensures OneModePerPath(Targets(d))
  {
    var t := Targets(d);
    var a := ConfigTargets(d);
    forall k | 0 <= k < |t| ensures t[k].kind != CredDir || t[k].path == d.credDir {
      if k < |a| {
        assert t[k] == a[k];
      } else if k > |a| {
        assert t[k] == ToTargets(Matching(d.credDir, d.credListing, CredSuffix), CredFile)[k - |a| - 1];
      }
    }
  }

  /** An entry with the right bits, on a disk with one mode per path, has no
      finding on its path. */
  lemma NoIssueAt(targets: seq<Target>, modes: map<string, nat>, k: nat)
    requires Statable(targets, modes) && OneModePerPath(targets)
    requires k < |targets| && PermBits(modes[targets[k].path]) == Required(targets[k].kind)
    ensures forall j :: 0 <= j < |Flagged(targets, modes)| ==> Flagged(targets, modes)[j].path != targets[k].path
  {
    var issues := Flagged(targets, modes);
    forall j | 0 <= j < |issues| ensures issues[j].path != targets[k].path {
      FlaggedIff(targets, modes, issues[j]);
    }
  }

  /** Running every fix of a report leaves nothing to report: the re-audit is clean. */
  lemma FixesClearIssues(targets: seq<Target>, modes: map<string, nat>)
    requires Statable(targets, modes) && OneModePerPath(targets)
    ensures var issues := Flagged(targets, modes);
      (forall k :: 0 <= k < |issues| ==> issues[k].path in modes)
      && Statable(targets, ApplyFixes(modes, issues))
      && Flagged(targets, ApplyFixes(modes, issues)) == []
  {
    var issues := Flagged(targets, modes);
    forall k | 0 <= k < |issues| ensures issues[k].path in modes && Target(issues[k].path, issues[k].kind) in targets {
      FlaggedIff(targets, modes, issues[k]);
    }
    var after := ApplyFixes(modes, issues);
    forall k | 0 <= k < |targets| ensures PermBits(after[targets[k].path]) == Required(targets[k].kind) {
      var t := targets[k];
      if PermBits(modes[t.path]) != Required(t.kind) {
        var i := Issue(t.path, t.kind, PermBits(modes[t.path]));
        FlaggedIff(targets, modes, i);
        ApplyFixesFixed(modes, issues, t.path, Required(t.kind));
      } else {
        NoIssueAt(targets, modes, k);
        ApplyFixesUntouched(modes, issues, t.path);
      }
    }
    FlaggedEmptyIff(targets, after);
  }

  /** The number of fixes that run before the first one that fails. */
  function Repaired(issues: seq<Issue>, failing: set<string>): (n: nat)
    ensures n <= |issues|
    ensures forall j :: 0 <= j < n ==> issues[j].path !in failing
    ensures n < |issues| ==> issues[n].path in failing
  {
    if issues == [] || issues[0].path in failing then 0
    else 1 + Repaired(issues[1..], failing)
  }

  /** The repair loop: the fix commands are run in order through the shell,
      and the first one that fails ends the repair. */
  method RunFixes(issues: seq<Issue>, fixCommands: seq<string>, modes: map<string, nat>, failing: set<string>)
    returns (ok: bool, after: map<string, nat>)
    requires forall k :: 0 <= k < |issues| ==> issues[k].path in modes
    requires fixCommands == FixCommands(issues)
    ensures ok <==> forall j :: 0 <= j < |issues| ==> issues[j].path !in failing
    ensures after == ApplyFixes(modes, issues[..Repaired(issues, failing)])
  {
    after := modes;
    var k := 0;
    while k < |fixCommands|
      invariant 0 <= k <= |fixCommands|
      invariant k <= Repaired(issues, failing)
      invariant after == ApplyFixes(modes, issues[..k])
    {
      RunFixFor(issues[k], after, failing);
      var result := RunChmod(fixCommands[k], after, failing);
      if result.None? {
        assert issues[k].path in failing;
        assert k == Repaired(issues, failing);
        return false, after;
      }
      ApplyFixesSnoc(modes, issues, k);
      after := result.value;
      k := k + 1;
    }
    assert k == |issues| == Repaired(issues, failing);
    return true, after;
  }

  /** `check_permissions` as a whole: audit, then, if anything was found and the
      user says yes, run the fix commands. `after` is the modes on disk afterwards. */
  method CheckPermissions(d: Disk, modes: map<string, nat>, answer: string, failing: set<string>)
    returns (ok: bool, after: map<string, nat>)
    requires DiskStatable(d, modes)
    ensures Statable(Targets(d), modes)
    ensures var issues := Issues(d, modes);
      && (forall k :: 0 <= k < |issues| ==> issues[k].path in modes)
      && (issues == [] ==> ok && after == modes)
      && (issues != [] && !SaysYes(answer) ==> !ok && after == modes)
      && (issues != [] && SaysYes(answer) ==>
            (ok <==> forall j :: 0 <= j < |issues| ==> issues[j].path !in failing)
            && after == ApplyFixes(modes, issues[..Repaired(issues, failing)]))
  {
    var issuesFound, issues, fixCommands := AuditPermissions(d, modes);
    forall k | 0 <= k < |issues| ensures issues[k].path in modes {
      FlaggedIff(Targets(d), modes, issues[k]);
    }
    if !issuesFound {
      return true, modes;
    }
    if !SaysYes(answer) {
      return false, modes;
    }
    ok, after := RunFixes(issues, fixCommands, modes, failing);
  }

  /** When the repair reports success, a new audit of the same disk finds nothing. */
  lemma RepairedDiskIsClean(d: Disk, modes: map<string, nat>, failing: set<string>)
    requires Statable(Targets(d), modes)
    requires d.credDirExists ==> forall k :: 0 <= k < |Targets(d)| && Targets(d)[k].kind != CredDir ==> Targets(d)[k].path != d.credDir
    ensures var issues := Issues(d, modes);
      (forall k :: 0 <= k < |issues| ==> issues[k].path in modes)
      && Statable(Targets(d), ApplyFixes(modes, issues[..Repaired(issues, failing)]))
      && (Repaired(issues, failing) == |issues| ==> Issues(d, ApplyFixes(modes, issues)) == [])
  {
    DiskOneModePerPath(d);
    FixesClearIssues(Targets(d), modes);
    var issues := Issues(d, modes);
    assert issues[..|issues|] == issues;
  }

  lemma ToTargetsAppend(a: seq<Found>, b: seq<Found>, kind: Kind)
    ensures ToTargets(a + b, kind) == ToTargets(a, kind) + ToTargets(b, kind)
  {
  }

  lemma ToTargetsSnoc(found: seq<Found>, f: Found, kind: Kind)
    ensures ToTargets(found + [f], kind) == ToTargets(found, kind) + [Target(Join(f.root, f.name), kind)]
  {
  }
}
