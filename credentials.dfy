/** `get_credentials` and the saved-credentials hint of the menu: where a
    configuration's credentials live, what the file holds, and when an
    existing file is reused instead of asking again. */
module Credentials {
  import opened PyText
  import opened Layout
  import opened Audit
  import opened Wrappers

  /** The credentials file name of a configuration: the name with its last
      extension (as `splitext` sees it) replaced by `.cred`. */
  function CredFileName(configName: string): (r: string)
    ensures EndsWith(r, CredSuffix)
  {
    Splitext(configName).0 + CredSuffix
  }

  /** `os.path.join(CREDENTIALS_DIR, f"{os.path.splitext(name)[0]}.cred")`. */
  function CredPath(credDir: string, configName: string): (r: string)
    ensures EndsWith(r, CredFileName(configName)) && EndsWith(r, CredSuffix)
  {
    JoinShape(credDir, CredFileName(configName));
    EndsWithTrans(Join(credDir, CredFileName(configName)), CredFileName(configName), CredSuffix);
    Join(credDir, CredFileName(configName))
  }

  /** A configuration `stem.ovpn`, with a stem that has no `/` and at least one
      character other than `.`, keeps its stem:
      `a.b.ovpn` is stored as `a.b.cred`. */
  lemma CredFileNameOfOvpn(stem: string)
    requires forall k :: 0 <= k < |stem| ==> stem[k] != '/'
    requires exists k :: 0 <= k < |stem| && stem[k] != '.'
    ensures CredFileName(stem + OvpnSuffix) == stem + CredSuffix
  {
    SplitextOfName(stem, "ovpn");
    assert stem + "." + "ovpn" == stem + OvpnSuffix;
  }

  lemma CredFileNameExample()
    ensures CredFileName("a.b.ovpn") == "a.b.cred"
  {
    assert "a.b" + OvpnSuffix == "a.b.ovpn";
    assert "a.b"[0] != '.';
    CredFileNameOfOvpn("a.b");
  }

  /** A configuration named just `.ovpn` has no extension to drop. */
  lemma CredFileNameOfBareSuffix()
    ensures CredFileName(OvpnSuffix) == ".ovpn.cred"
  {
    SplitextLeadingDot("ovpn");
    assert "." + "ovpn" == OvpnSuffix;
  }

  /** Two configurations `s.ovpn` and `t.ovpn` whose stems each hold a
      character other than `.` share a credentials file only when they have the
      same name. */
  lemma CredFileNameInjective(s: string, t: string)
    requires forall k :: 0 <= k < |s| ==> s[k] != '/'
    requires exists k :: 0 <= k < |s| && s[k] != '.'
    requires forall k :: 0 <= k < |t| ==> t[k] != '/'
    requires exists k :: 0 <= k < |t| && t[k] != '.'
    ensures CredFileName(s + OvpnSuffix) == CredFileName(t + OvpnSuffix) <==> s == t
  {
    CredFileNameOfOvpn(s);
    CredFileNameOfOvpn(t);
    if s + CredSuffix == t + CredSuffix {
      assert s == (s + CredSuffix)[..|s|];
      assert t == (t + CredSuffix)[..|t|];
    }
  }

  /** Without that condition names do collide: the configurations `.ovpn`
      and `.ovpn.ovpn` both use `.ovpn.cred`. */
  lemma CredFileNameCollision()
    ensures CredFileName(OvpnSuffix) == CredFileName(".ovpn" + OvpnSuffix) == ".ovpn.cred"
  {
    CredFileNameOfBareSuffix();
    assert ".ovpn"[1] != '.';
    CredFileNameOfOvpn(".ovpn");
  }

  /** The file body: the stripped username and the stripped password, each on
      its own line. */
  function CredContent(username: string, password: string): string
  {
    Strip(username) + "\n" + Strip(password) + "\n"
  }

  /** The text of `s` up to its first newline (all of it if there is none). */
  function FirstLine(s: string): (r: string)
    ensures r <= s
    ensures forall k :: 0 <= k < |r| ==> r[k] != '\n'
    ensures |r| < |s| ==> s[|r|] == '\n'
  {
    if s == [] || s[0] == '\n' then [] else [s[0]] + FirstLine(s[1..])
  }

  /** The text after the first newline. */
  function AfterFirstLine(s: string): string
  {
    if |FirstLine(s)| < |s| then s[|FirstLine(s)| + 1..] else []
  }

  /** How a client reads an `auth-user-pass` file: the first line is the
      username, the second the password. */
  function ReadCredFile(content: string): (string, string)
  {
    (FirstLine(content), FirstLine(AfterFirstLine(content)))
  }

  /** The text before a newline is read back as the first line. */
  lemma {:induction false} FirstLineOf(line: string, rest: string)
    requires forall k :: 0 <= k < |line| ==> line[k] != '\n'
    ensures FirstLine(line + "\n" + rest) == line
    ensures AfterFirstLine(line + "\n" + rest) == rest
  {
    var s := line + "\n" + rest;
    if line != [] {
      assert s[1..] == line[1..] + "\n" + rest;
      FirstLineOf(line[1..], rest);
      assert [line[0]] + line[1..] == line;
    }
  }

  /** A stripped line is still a single line. */
  lemma StrippedLine(s: string)
    requires forall k :: 0 <= k < |s| ==> s[k] != '\n'
    ensures forall k :: 0 <= k < |Strip(s)| ==> Strip(s)[k] != '\n'
  {
    var i, j := StripShape(s);
    forall k | 0 <= k < |Strip(s)| ensures Strip(s)[k] != '\n' {
      assert Strip(s)[k] == s[i + k];
    }
  }

  /** The file written is read back as the username and password the user
      typed, stripped (typed input holds no newline). */
  lemma CredContentRoundTrip(username: string, password: string)
    requires forall k :: 0 <= k < |username| ==> username[k] != '\n'
    requires forall k :: 0 <= k < |password| ==> password[k] != '\n'
    ensures ReadCredFile(CredContent(username, password)) == (Strip(username), Strip(password))
  {
    var u, p := Strip(username), Strip(password);
    StrippedLine(username);
    StrippedLine(password);
    var content := CredContent(username, password);
    assert content == u + "\n" + (p + "\n");
    FirstLineOf(u, p + "\n");
    assert p + "\n" == p + "\n" + [];
    FirstLineOf(p, []);
  }

  /** What `get_credentials` ends with. */
  datatype CredOutcome =
    | Reused(path: string)
    | Saved(path: string, content: string)
    | SaveFailed

  /** The decision of `get_credentials`. `existing` is the set of paths on
      disk; the answers are what the prompts return; `writeOk` is whether
      opening the file, restricting it to mode 600 and writing it all
      succeed (any exception there makes the call return nothing). */
  function GetCredentials(credDir: string, configName: string, existing: set<string>,
                          reuseAnswer: string, username: string, password: string, writeOk: bool): (r: CredOutcome)
    ensures r.Reused? ==> r.path in existing && SaysYes(reuseAnswer)
    ensures !r.SaveFailed? ==> EndsWith(r.path, CredSuffix)
  {
    var credFile := CredPath(credDir, configName);
    if credFile in existing && SaysYes(reuseAnswer) then Reused(credFile)
    else if writeOk then Saved(credFile, CredContent(username, password))
    else SaveFailed
  }

  /** An existing file is reused exactly when it is there and the user says
      yes, and then nothing is written; whichever file is returned is the one
      derived from the configuration's name. */
  lemma GetCredentialsOutcome(credDir: string, configName: string, existing: set<string>,
                              reuseAnswer: string, username: string, password: string, writeOk: bool)
    ensures var r := GetCredentials(credDir, configName, existing, reuseAnswer, username, password, writeOk);
      && (r.Reused? <==> CredPath(credDir, configName) in existing && SaysYes(reuseAnswer))
      && (r.SaveFailed? <==> !r.Reused? && !writeOk)
      && (!r.SaveFailed? ==> r.path == CredPath(credDir, configName) && EndsWith(r.path, CredSuffix))
      && (r.Saved? && (forall k :: 0 <= k < |username| ==> username[k] != '\n')
            && (forall k :: 0 <= k < |password| ==> password[k] != '\n')
          ==> ReadCredFile(r.content) == (Strip(username), Strip(password)))
  {
    var r := GetCredentials(credDir, configName, existing, reuseAnswer, username, password, writeOk);
    if r.Saved? && (forall k :: 0 <= k < |username| ==> username[k] != '\n')
        && (forall k :: 0 <= k < |password| ==> password[k] != '\n') {
      CredContentRoundTrip(username, password);
    }
  }

  /** The mode of a regular file that `open(..., 'w')` has just created, before
      its permissions are changed (`S_IFREG`). */
  const RegularFile: nat := 32768

  /** The modes after a save: the file is opened (created if needed) and then
      given mode 600. */
  function AfterSave(modes: map<string, nat>, path: string): (r: map<string, nat>)
    ensures r.Keys == modes.Keys + {path}
  {
    modes[path := Chmod(if path in modes then modes[path] else RegularFile, FileMode)]
  }

  /** A saved credentials file passes the permission audit's test for `.cred`
      files, and no other path's mode changes. */
  lemma SavedFilePassesAudit(modes: map<string, nat>, path: string)
    ensures PermBits(AfterSave(modes, path)[path]) == Required(CredFile)
    ensures forall q :: q in modes && q != path ==> AfterSave(modes, path)[q] == modes[q]
  {
    ChmodSetsPermBits(if path in modes then modes[path] else RegularFile, FileMode);
  }

  /** A `Saved` outcome, once written, leaves its file with the mode the audit
      requires of `.cred` files. */
  lemma SavedOutcomePassesAudit(credDir: string, configName: string, existing: set<string>,
                                reuseAnswer: string, username: string, password: string, writeOk: bool,
                                modes: map<string, nat>)
    ensures var r := GetCredentials(credDir, configName, existing, reuseAnswer, username, password, writeOk);
      r.Saved? ==> PermBits(AfterSave(modes, r.path)[r.path]) == Required(CredFile)
  {
    var r := GetCredentials(credDir, configName, existing, reuseAnswer, username, password, writeOk);
    if r.Saved? {
      SavedFilePassesAudit(modes, r.path);
    }
  }

  /** The line the menu prints under a configuration that needs credentials. */
  const HintSaved: string := "(credentials saved)"
  const HintRequired: string := "(credentials required)"

  /** The menu's hint: nothing for a configuration without `auth-user-pass`;
      otherwise whether its credentials file exists. */
  function CredHint(needsCreds: bool, credDir: string, configName: string, existing: set<string>): (r: Option<string>)
    ensures r.Some? <==> needsCreds
    ensures r == Some(HintSaved) <==> needsCreds && CredPath(credDir, configName) in existing
  {
    if !needsCreds then None
    else if CredPath(credDir, configName) in existing then Some(HintSaved)
    else Some(HintRequired)
  }

  /** The menu and `get_credentials` look at the same file: once credentials
      were saved or reused, the menu shows them as saved; and a reuse is only
      ever offered where the menu already says so. */
  lemma HintAgreesWithGetCredentials(credDir: string, configName: string, existing: set<string>,
                                     reuseAnswer: string, username: string, password: string, writeOk: bool)
    ensures var r := GetCredentials(credDir, configName, existing, reuseAnswer, username, password, writeOk);
      && (r.Reused? ==> CredHint(true, credDir, configName, existing) == Some(HintSaved))
      && (!r.SaveFailed? ==> CredHint(true, credDir, configName, existing + {r.path}) == Some(HintSaved))
  {
    GetCredentialsOutcome(credDir, configName, existing, reuseAnswer, username, password, writeOk);
  }
}
