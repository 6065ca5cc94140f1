/** The main process (main.js): it detects which package manager the host
    has, builds the shell command for each request the renderer sends, runs
    it, and shapes the outcome into a response. Running a command is the
    parameter `shell`: a command line in, its outcome out. Every handler also
    returns the commands it handed to the shell, in order. */
module PackageManager {
  import opened Common
  import opened Text
  import opened ShellQuote

  /** The three supported package managers. */
  datatype Backend = Apt | Dnf | Pacman

  /** Detection order. */
  const Managers: seq<Backend> := [Apt, Dnf, Pacman]

  /** Each manager's `checkCmd`, in detection order. */
  const ProbeCommands: seq<string> := ["which apt-get", "which dnf", "which pacman"]

  /** Position of a manager in detection order. */
  function Rank(b: Backend): (k: nat)
    ensures k < |Managers| && Managers[k] == b
  {
    match b
    case Apt => 0
    case Dnf => 1
    case Pacman => 2
  }

  function ProbeCommand(b: Backend): string {
    ProbeCommands[Rank(b)]
  }

  /** What `execPromise(cmd)` settles to: it resolves with the captured
      output, or rejects with an error whose message and captured output
      (`''` where none was captured) are kept. */
  datatype ExecResult =
    | Completed(stdout: string, stderr: string)
    | Rejected(message: string, stdout: string, stderr: string)

  type Shell = string -> ExecResult

  predicate Found(shell: Shell, b: Backend) {
    shell(ProbeCommand(b)).Completed?
  }

  /** The manager detection settles on: the first, in detection order, whose
      probe succeeds; None when none does. */
  function Detected(shell: Shell): (pm: Option<Backend>)
    ensures pm.None? <==> forall b :: !Found(shell, b)
    ensures pm.Some? ==> Found(shell, pm.value)
    ensures pm.Some? ==> forall b :: Rank(b) < Rank(pm.value) ==> !Found(shell, b)
  {
    if Found(shell, Apt) then Some(Apt)
    else if Found(shell, Dnf) then Some(Dnf)
    else if Found(shell, Pacman) then Some(Pacman)
    else None
  }

  /** The probes detection runs: up to and including the one that succeeds,
      or all of them. */
  function ProbesRun(pm: Option<Backend>): seq<string> {
    match pm
    case Some(b) => ProbeCommands[..Rank(b) + 1]
    case None => ProbeCommands
  }

  /** `detectPackageManager` (main.js:41-57): tries each manager's probe in
      order and returns the first that succeeds. */
  method DetectPackageManager(shell: Shell) returns (pm: Option<Backend>, spawned: seq<string>)
    ensures pm.None? <==> forall b :: !Found(shell, b)
    ensures pm.Some? ==> Found(shell, pm.value)
    ensures pm.Some? ==> forall b :: Rank(b) < Rank(pm.value) ==> !Found(shell, b)
    ensures pm == Detected(shell)
    ensures spawned == ProbesRun(pm)
  {
    spawned := [];
    var k := 0;
    while k < |Managers|
      invariant 0 <= k <= |Managers|
      invariant forall b :: Rank(b) < k ==> !Found(shell, b)
      invariant spawned == ProbeCommands[..k]
    {
      var manager := Managers[k];
      var cmd := ProbeCommands[k];
      spawned := spawned + [cmd];
      if shell(cmd).Completed? {
        assert Rank(manager) == k;
        pm := Some(manager);
        return;
      }
      k := k + 1;
    }
    pm := None;
  }

  const NoBackendError := "No supported package manager found"
  const InvalidPasswordError := "Invalid password provided"

  /** `search-packages` command (main.js:66-76). */
  function SearchCommand(b: Backend, query: string): string {
    match b
    case Apt => "apt-cache search " + query + " | head -100"
    case Dnf => "dnf search " + query + " 2>&1 | grep -E \"^[a-zA-Z0-9]\" | head -100"
    case Pacman => "pacman -Ss " + query + " | head -200"
  }

  /** `list-installed` command (main.js:92-102). */
  function ListInstalledCommand(b: Backend): string {
    match b
    case Apt => "apt list --installed 2>/dev/null"
    case Dnf => "dnf list installed 2>&1 | tail -n +2"
    case Pacman => "pacman -Q"
  }

  /** The per-package probe of `check-installed` (main.js:157-167). */
  function CheckInstalledCommand(b: Backend, pkg: string): string {
    match b
    case Apt => "dpkg -l " + pkg + " 2>/dev/null | grep ^ii"
    case Dnf => "dnf list installed " + pkg + " 2>/dev/null"
    case Pacman => "pacman -Q " + pkg + " 2>/dev/null"
  }

  /** `check-uninstall` command (main.js:189-201). */
  function CheckUninstallCommand(b: Backend, packages: seq<string>): string {
    CheckUninstallPrefix(b) + Join(packages, " ") + " 2>&1"
  }

  /** The `sudo` invocation an install command runs for each manager. */
  function InstallVerb(b: Backend): string {
    match b
    case Apt => "apt-get install -y "
    case Dnf => "dnf install -y "
    case Pacman => "pacman -S --noconfirm "
  }

  /** The `sudo` invocation an uninstall command runs for each manager. */
  function UninstallVerb(b: Backend): string {
    match b
    case Apt => "apt-get remove -y "
    case Dnf => "dnf remove -y "
    case Pacman => "pacman -R --noconfirm "
  }

  /** A privileged command: the escaped password between single quotes is
      echoed into `sudo -S`, which runs `verb` on the package list. */
  function SudoCommand(escapedPassword: string, verb: string, pkgList: string): string {
    "echo '" + escapedPassword + "' | sudo -S " + verb + pkgList
  }

  /** `install-packages` command (main.js:121-135). */
  function InstallCommand(b: Backend, packages: seq<string>, password: string): string {
    SudoCommand(EscapePassword(password), InstallVerb(b), Join(packages, " "))
  }

  /** `uninstall-packages` command (main.js:220-234). */
  function UninstallCommand(b: Backend, packages: seq<string>, password: string): string {
    SudoCommand(EscapePassword(password), UninstallVerb(b), Join(packages, " "))
  }

  /** The part of a check-uninstall command before the package list. */
  function CheckUninstallPrefix(b: Backend): string {
    match b
    case Apt => "apt-get --simulate remove "
    case Dnf => "dnf remove --assumeno "
    case Pacman => "pacman -R --print "
  }

  /** Names without spaces, joined with single spaces, split back into the
      same names in the same order. */
  predicate SpaceFreeNames(packages: seq<string>) {
    |packages| >= 1 && forall p :: p in packages ==> ' ' !in p
  }

  /** The quoted word of a privileged command is the password as `Quoted`
      writes it. */
  lemma SudoCommandQuotes(password: string, verb: string, pkgList: string)
    ensures SudoCommand(EscapePassword(password), verb, pkgList)
         == "echo " + Quoted(password) + " | sudo -S " + verb + pkgList
  {
    var e := EscapePassword(password);
    var x := "echo '" + e + "' | sudo -S ";
    var y := "echo " + Quoted(password) + " | sudo -S ";
    assert |x| == |y|;
    assert forall k :: 0 <= k < |x| ==> x[k] == y[k];
    assert x == y;
  }

  /** An install command pipes the password to `sudo -S` as one
      single-quoted word that the shell reads back as exactly the password,
      then runs the manager's install verb on the packages, in order. */
  lemma InstallCommandCarries(b: Backend, packages: seq<string>, password: string)
    ensures InstallCommand(b, packages, password)
         == "echo " + Quoted(password) + " | sudo -S " + InstallVerb(b) + Join(packages, " ")
    ensures Unquote(Quoted(password)) == Some(password)
    ensures SpaceFreeNames(packages) ==> Split(Join(packages, " "), ' ') == packages
  {
    SudoCommandQuotes(password, InstallVerb(b), Join(packages, " "));
    QuotedRoundTrip(password);
    if SpaceFreeNames(packages) {
      SplitJoin(packages, ' ');
    }
  }

  /** The same for an uninstall command. */
  lemma UninstallCommandCarries(b: Backend, packages: seq<string>, password: string)
    ensures UninstallCommand(b, packages, password)
         == "echo " + Quoted(password) + " | sudo -S " + UninstallVerb(b) + Join(packages, " ")
    ensures Unquote(Quoted(password)) == Some(password)
    ensures SpaceFreeNames(packages) ==> Split(Join(packages, " "), ' ') == packages
  {
    SudoCommandQuotes(password, UninstallVerb(b), Join(packages, " "));
    QuotedRoundTrip(password);
    if SpaceFreeNames(packages) {
      SplitJoin(packages, ' ');
    }
  }

  /** A check-uninstall command starts with the manager's fixed prefix and
      ends with the redirection of standard error; what lies between splits
      back into the names, in order. */
  lemma CheckUninstallCommandCarries(b: Backend, packages: seq<string>)
    ensures var cmd := CheckUninstallCommand(b, packages);
            var k := |CheckUninstallPrefix(b)|;
            && |cmd| >= k + 5
            && cmd[..k] == CheckUninstallPrefix(b)
            && cmd[|cmd| - 5..] == " 2>&1"
            && (SpaceFreeNames(packages) ==> Split(cmd[k..|cmd| - 5], ' ') == packages)
  {
    var prefix := CheckUninstallPrefix(b);
    var list := Join(packages, " ");
    var cmd := prefix + list + " 2>&1";
    assert cmd[..|prefix|] == prefix;
    assert cmd[|cmd| - 5..] == " 2>&1";
    assert cmd[|prefix|..|cmd| - 5] == list;
    if SpaceFreeNames(packages) {
      SplitJoin(packages, ' ');
    }
  }

  /** The password is not kept out of the command line: one without a quote
      appears in it verbatim. */
  lemma PasswordInCommand(b: Backend, packages: seq<string>, password: string)
    requires '\'' !in password
    ensures Contains(InstallCommand(b, packages, password), password)
    ensures Contains(UninstallCommand(b, packages, password), password)
  {
    EscapeWithoutQuotes(password);
    SudoCommandHolds(password, InstallVerb(b), Join(packages, " "));
    SudoCommandHolds(password, UninstallVerb(b), Join(packages, " "));
  }

  /** A privileged command holds its escaped password from the sixth
      character on. */
  lemma SudoCommandHolds(escapedPassword: string, verb: string, pkgList: string)
    ensures Contains(SudoCommand(escapedPassword, verb, pkgList), escapedPassword)
  {
    var c := SudoCommand(escapedPassword, verb, pkgList);
    var e := escapedPassword;
    assert forall k :: 0 <= k < |e| ==> c[6 + k] == e[k];
    assert e <= c[6..];
    ContainsIff(c, e);
  }

  /** An IPC argument: a string, or any other JavaScript value. */
  datatype Arg = Str(s: string) | NonString

  /** `!password || typeof password !== 'string'` is false. */
  predicate ValidPassword(password: Arg) {
    password.Str? && password.s != ""
  }

  /** Responses to `search-packages` and `list-installed`. */
  datatype ListResponse = Listed(data: string, pm: Backend) | ListFailed(error: string)

  /** Responses to `check-installed`. */
  datatype CheckResponse = Checked(installed: seq<string>) | CheckFailed(error: string)

  /** Responses to `check-uninstall`. */
  datatype AdviceResponse = Advised(output: string) | AdviceFailed(error: string)

  /** Responses to `install-packages` and `uninstall-packages`. */
  datatype TranscriptResponse = Succeeded(output: string) | Failed(error: string, output: string)

  /** `{ success: true, output: stdout + stderr }`, or on a rejection the
      message with whatever output was captured (main.js:141-143). */
  function Transcript(result: ExecResult): TranscriptResponse {
    match result
    case Completed(stdout, stderr) => Succeeded(stdout + stderr)
    case Rejected(message, stdout, stderr) => Failed(message, stdout + stderr)
  }

  /** `search-packages` (main.js:60-83). */
  method SearchPackages(shell: Shell, query: string) returns (r: ListResponse, spawned: seq<string>)
    ensures Detected(shell).None? ==> r == ListFailed(NoBackendError) && spawned == ProbeCommands
    ensures Detected(shell).Some? ==>
      var b := Detected(shell).value;
      var cmd := SearchCommand(b, query);
      && spawned == ProbesRun(Detected(shell)) + [cmd]
      && r == if shell(cmd).Completed? then Listed(shell(cmd).stdout, b) else ListFailed(shell(cmd).message)
  {
    var pm;
    pm, spawned := DetectPackageManager(shell);
    if pm.None? {
      r := ListFailed(NoBackendError);
      return;
    }
    var cmd := SearchCommand(pm.value, query);
    spawned := spawned + [cmd];
    match shell(cmd)
    case Completed(stdout, _) => r := Listed(stdout, pm.value);
    case Rejected(message, _, _) => r := ListFailed(message);
  }

  /** `list-installed` (main.js:86-109). */
  method ListInstalled(shell: Shell) returns (r: ListResponse, spawned: seq<string>)
    ensures Detected(shell).None? ==> r == ListFailed(NoBackendError) && spawned == ProbeCommands
    ensures Detected(shell).Some? ==>
      var b := Detected(shell).value;
      var cmd := ListInstalledCommand(b);
      && spawned == ProbesRun(Detected(shell)) + [cmd]
      && r == if shell(cmd).Completed? then Listed(shell(cmd).stdout, b) else ListFailed(shell(cmd).message)
  {
    var pm;
    pm, spawned := DetectPackageManager(shell);
    if pm.None? {
      r := ListFailed(NoBackendError);
      return;
    }
    var cmd := ListInstalledCommand(pm.value);
    spawned := spawned + [cmd];
    match shell(cmd)
    case Completed(stdout, _) => r := Listed(stdout, pm.value);
    case Rejected(message, _, _) => r := ListFailed(message);
  }

  /** Whether the single-package probe for `pkg` succeeds. */
  predicate ProbeSucceeds(shell: Shell, b: Backend, pkg: string) {
    shell(CheckInstalledCommand(b, pkg)).Completed?
  }

  /** `check-installed` (main.js:148-181): one probe per package; a name is
      reported once, in the order of its first occurrence, exactly when its
      probe succeeds, and a failing probe never fails the request. */
  method CheckInstalled(shell: Shell, packages: seq<string>) returns (r: CheckResponse, spawned: seq<string>)
    ensures Detected(shell).None? ==> r == CheckFailed(NoBackendError) && spawned == ProbeCommands
    ensures Detected(shell).Some? ==>
      var b := Detected(shell).value;
      && r.Checked?
      && (forall x :: x in r.installed <==> x in packages && ProbeSucceeds(shell, b, x))
      && NoDuplicates(r.installed)
      && (forall i, j :: 0 <= i < j < |r.installed| ==>
            IndexOf(packages, r.installed[i]) < IndexOf(packages, r.installed[j]))
      && spawned == ProbesRun(Detected(shell))
                    + seq(|packages|, k requires 0 <= k < |packages| => CheckInstalledCommand(b, packages[k]))
  {
    var pm;
    pm, spawned := DetectPackageManager(shell);
    if pm.None? {
      r := CheckFailed(NoBackendError);
      return;
    }
    var installedSet, probes := ProbeEach(shell, pm.value, packages);
    ProbedInstalledSpec(shell, pm.value, packages);
    spawned := spawned + probes;
    r := Checked(installedSet);
  }

  /** The `for...of` loop of `check-installed` (main.js:153-177): probe each
      name in turn and add it to the insertion-ordered set when its probe
      succeeds. */
  method ProbeEach(shell: Shell, b: Backend, packages: seq<string>)
    returns (installedSet: seq<string>, spawned: seq<string>)
    ensures installedSet == ProbedInstalled(shell, b, packages)
    ensures spawned == seq(|packages|, k requires 0 <= k < |packages| => CheckInstalledCommand(b, packages[k]))
  {
    installedSet := [];
    spawned := [];
    var k := 0;
    while k < |packages|
      invariant 0 <= k <= |packages|
      invariant installedSet == ProbedInstalled(shell, b, packages[..k])
      invariant spawned == seq(k, m requires 0 <= m < k => CheckInstalledCommand(b, packages[m]))
    {
      var pkg := packages[k];
      var cmd := CheckInstalledCommand(b, pkg);
      spawned := spawned + [cmd];
      assert packages[..k + 1][..k] == packages[..k];
      if shell(cmd).Completed? {
        installedSet := Added(installedSet, pkg);
      }
      k := k + 1;
    }
    assert packages[..k] == packages;
  }

  /** `Array.from(installedSet)` once `names` have been probed in order:
      each name whose probe succeeds is added to an insertion-ordered set. */
  function ProbedInstalled(shell: Shell, b: Backend, names: seq<string>): seq<string> {
    if names == [] then []
    else
      var prev := ProbedInstalled(shell, b, names[..|names| - 1]);
      var pkg := names[|names| - 1];
      if ProbeSucceeds(shell, b, pkg) then Added(prev, pkg) else prev
  }

  /** The set holds exactly the probed names whose probe succeeded, once
      each, in the order of their first occurrence among the names. */
  lemma {:induction false} ProbedInstalledSpec(shell: Shell, b: Backend, names: seq<string>)
    ensures var r := ProbedInstalled(shell, b, names);
      && (forall x :: x in r <==> x in names && ProbeSucceeds(shell, b, x))
      && NoDuplicates(r)
      && (forall i, j :: 0 <= i < j < |r| ==> IndexOf(names, r[i]) < IndexOf(names, r[j]))
  {
    if names != [] {
      var n := |names| - 1;
      var init, pkg := names[..n], names[n];
      assert names == init + [pkg];
      ProbedInstalledSpec(shell, b, init);
      var prev := ProbedInstalled(shell, b, init);
      var r := ProbedInstalled(shell, b, names);
      forall x | x in prev
        ensures IndexOf(names, x) == IndexOf(init, x)
      {
        IndexOfInPrefix(init, pkg, x);
      }
      if ProbeSucceeds(shell, b, pkg) && pkg !in prev {
        assert pkg !in init;
        IndexOfIsFirst(names, pkg, n);
        assert r == prev + [pkg];
        forall i, j | 0 <= i < j < |r|
          ensures IndexOf(names, r[i]) < IndexOf(names, r[j])
        {
          assert r[i] == prev[i] && prev[i] in prev;
          if j == |prev| {
            assert r[j] == pkg;
          } else {
            assert r[j] == prev[j] && prev[j] in prev;
          }
        }
      }
    }
  }

  /** `check-uninstall` (main.js:184-208): once a manager is found the answer
      is a success carrying standard output then standard error, even when
      the dry run exits with an error. */
  method CheckUninstall(shell: Shell, packages: seq<string>) returns (r: AdviceResponse, spawned: seq<string>)
    ensures Detected(shell).None? ==> r == AdviceFailed(NoBackendError) && spawned == ProbeCommands
    ensures Detected(shell).Some? ==>
      var cmd := CheckUninstallCommand(Detected(shell).value, packages);
      && spawned == ProbesRun(Detected(shell)) + [cmd]
      && r == Advised(shell(cmd).stdout + shell(cmd).stderr)
  {
    var pm;
    pm, spawned := DetectPackageManager(shell);
    if pm.None? {
      r := AdviceFailed(NoBackendError);
      return;
    }
    var cmd := CheckUninstallCommand(pm.value, packages);
    spawned := spawned + [cmd];
    var stdout, stderr;
    match shell(cmd) {
      case Completed(out, err) => stdout, stderr := out, err;
      case Rejected(_, out, err) => stdout, stderr := out, err;
    }
    r := Advised(stdout + stderr);
  }

  /** `install-packages` (main.js:112-145): no manager is reported before a
      bad password, and neither runs anything beyond the probes. */
  method InstallPackages(shell: Shell, packages: seq<string>, password: Arg)
    returns (r: TranscriptResponse, spawned: seq<string>)
    ensures Detected(shell).None? ==> r == Failed(NoBackendError, "") && spawned == ProbeCommands
    ensures Detected(shell).Some? && !ValidPassword(password) ==>
      r == Failed(InvalidPasswordError, "") && spawned == ProbesRun(Detected(shell))
    ensures Detected(shell).Some? && ValidPassword(password) ==>
      var cmd := InstallCommand(Detected(shell).value, packages, password.s);
      spawned == ProbesRun(Detected(shell)) + [cmd] && r == Transcript(shell(cmd))
  {
    var pm;
    pm, spawned := DetectPackageManager(shell);
    if pm.None? {
      r := Failed(NoBackendError, "");
      return;
    }
    if !ValidPassword(password) {
      r := Failed(InvalidPasswordError, "");
      return;
    }
    var cmd := InstallCommand(pm.value, packages, password.s);
    spawned := spawned + [cmd];
    r := Transcript(shell(cmd));
  }

  /** `uninstall-packages` (main.js:211-244), with the same checks in the
      same order as install. */
  method UninstallPackages(shell: Shell, packages: seq<string>, password: Arg)
    returns (r: TranscriptResponse, spawned: seq<string>)
    ensures Detected(shell).None? ==> r == Failed(NoBackendError, "") && spawned == ProbeCommands
    ensures Detected(shell).Some? && !ValidPassword(password) ==>
      r == Failed(InvalidPasswordError, "") && spawned == ProbesRun(Detected(shell))
    ensures Detected(shell).Some? && ValidPassword(password) ==>
      var cmd := UninstallCommand(Detected(shell).value, packages, password.s);
      spawned == ProbesRun(Detected(shell)) + [cmd] && r == Transcript(shell(cmd))
  {
    var pm;
    pm, spawned := DetectPackageManager(shell);
    if pm.None? {
      r := Failed(NoBackendError, "");
      return;
    }
    if !ValidPassword(password) {
      r := Failed(InvalidPasswordError, "");
      return;
    }
    var cmd := UninstallCommand(pm.value, packages, password.s);
    spawned := spawned + [cmd];
    r := Transcript(shell(cmd));
  }
}
