# Elve package manager: a verified model of its core

Elve is an Electron front-end to the host's package manager (apt, dnf or
pacman). This project models its two core pieces in Dafny and proves what
they promise.

- **The main process** (`main.js`): module `PackageManager` in `main.dfy`.
  - Detecting the manager.
  - Building the shell command for each request.
  - Escaping the administrator password into the command.
  - The per-package installed check.
  - Shaping results and errors into responses.
- **The renderer** (`renderer.js`):
  - Module `OutputParsers` in `parsers.dfy`: the readers of each manager's search and installed-list output, and the search-type filter.
  - Module `Renderer` in `renderer.dfy`: the page `state` as a class whose methods change it in place. That covers selections, loading and filtering the installed list, search, and the install and uninstall flows. The module also holds the count labels.

Three supporting modules:
- `Common`: filtering, subsequences, and insertion-ordered sets. A JavaScript `Set` is a sequence without duplicates.
- `Text`: JavaScript white space, `trim`, `split`, `split(/\s+/)`, `join`, `includes`, ASCII `toLowerCase` and decimal rendering.
- `ShellQuote`: the password escape, and a decoder for shell words following section 2.2 ("Quoting") of the POSIX Shell Command Language.

Running a command is a parameter `shell: string -> ExecResult`. It maps a command line to its outcome: resolved with stdout and stderr, or rejected with a message and the output captured so far. Every handler also returns the list of commands it handed to the shell, in order. This makes "nothing runs before the checks" provable.

In the renderer, each reply from the main process is a parameter. So are the values of the search box, the type selector and the password box.

## Model

| member | source | states |
|---|---|---|
| PackageManager.Detected | main.js:41-57 | The detected manager is the first of apt, dnf, pacman whose probe succeeds; it is None exactly when every probe fails |
| PackageManager.DetectPackageManager | main.js:41-57 | The loop returns the first manager, in priority order, whose probe succeeds (None iff none does) and runs exactly the probes up to and including that one |
| PackageManager.SearchPackages | main.js:60-83 | With no manager: the "No supported package manager found" error, and no command beyond the probes. Otherwise: one search command for the manager and query; stdout and the manager on success, the error message on rejection |
| PackageManager.ListInstalled | main.js:86-109 | The same error precedence for the manager's list command; stdout and the manager on success, the error message on rejection |
| PackageManager.CheckInstalled | main.js:148-181 | One probe per input name, in order. The answer lists exactly the input names whose probe succeeded, without duplicates, in first-occurrence order. A failing probe only omits its name and never fails the request |
| PackageManager.ProbeEach | main.js:153-177 | The probe loop runs one installed probe per input name, in input order, and collects the insertion-ordered set of names whose probe succeeded |
| PackageManager.ProbedInstalledSpec | main.js:153-177 | The names whose probe succeeds, gathered in probe order: exactly the input names whose probe succeeds, each once, in the order of their first occurrence |
| PackageManager.CheckUninstall | main.js:184-208 | Once a manager is found the answer is always a success carrying stdout followed by stderr, even when the dry run is rejected |
| PackageManager.InstallPackages | main.js:112-145 | Errors come in a fixed order: no manager first, then a missing, empty or non-string password. Neither runs any command beyond the probes. Otherwise one install command runs; the answer is stdout + stderr, or the error message with the captured output |
| PackageManager.UninstallPackages | main.js:211-244 | The same checks in the same order, for the uninstall command |
| PackageManager.InstallCommandCarries | main.js:121-135 | An install command is `echo`, the quoted password, `\| sudo -S`, the manager's install verb, then the names joined by single spaces. The quoted word reads back as exactly the password, and space-free names split back into the same names in order |
| PackageManager.UninstallCommandCarries | main.js:220-234 | The same for the uninstall command and its verb |
| PackageManager.CheckUninstallCommandCarries | main.js:189-201 | A check-uninstall command starts with the manager's fixed dry-run prefix and ends with ` 2>&1`; for names without spaces, the text between them splits back into the names, in order |
| PackageManager.PasswordInCommand | main.js:122-133 | A password without a quote appears verbatim in the install and uninstall command lines |
| ShellQuote.QuotedRoundTrip | main.js:122 | Under POSIX single quoting, the escaped password wrapped in single quotes reads back as exactly the password, whatever characters it holds |
| ShellQuote.EscapeLength | main.js:122 | Escaping adds exactly three characters per single quote |
| ShellQuote.EscapeWithoutQuotes | main.js:221 | A password without a single quote is left unchanged by escaping |
| OutputParsers.Lines | renderer.js:101 | No kept line is blank or holds a newline |
| OutputParsers.BlankLinesDropped | renderer.js:101 | A blank line anywhere in the output is dropped as if it were not there |
| OutputParsers.BlankLinesIgnoredByParsers | renderer.js:260 | Inserting a blank line changes neither the search records nor the installed records, for any manager |
| OutputParsers.CollectFromLines | renderer.js:263-290 | Every package comes from some line, and every line that reads as a package contributes it |
| OutputParsers.AptSearchSound | renderer.js:104-108 | Every package the apt search reader reports is a match of `name whitespace - whitespace description`: the name is the line's space-free start, the description its end |
| OutputParsers.AptSearchComplete | renderer.js:104-108 | Every line of that shape yields a package with that name, whose description starts no earlier than the proposed one |
| OutputParsers.AptSearchLineOf | renderer.js:104-108 | `name - description` reads back as exactly that name and description, even when the description holds ` - ` |
| OutputParsers.DnfSearchLineSpec | renderer.js:110-118 | A dnf line gives a package iff it holds white space. The name is the first token, without spaces. The description is the remaining tokens joined by single spaces: split on spaces it gives back exactly those tokens |
| OutputParsers.PacmanName | renderer.js:122 | The name is the text after the first `/` up to the next `/` or space, or to the end |
| OutputParsers.PacmanNameOf | renderer.js:122 | A header `repo/name` followed by a space, a `/` or nothing reads back as `name` |
| OutputParsers.PacmanRecordsFromHeaders | renderer.js:119-127 | There are at most as many packages as lines holding `/`, and each package is the record some such line starts |
| OutputParsers.PacmanRecordsShift | renderer.js:120-126 | The records read from a position depend only on the lines from there on |
| OutputParsers.PacmanPairs | renderer.js:119-127 | Header and description lines in pairs give one record per pair, in order, with the header's name and the next line as its description |
| OutputParsers.PacmanDescriptionUntrimmed | renderer.js:123 | The description line is kept as it stands, leading indentation included |
| OutputParsers.SearchTypeFilterSpec | renderer.js:130-143 | The filter keeps packages in order. `name` keeps exactly those whose lower-cased name contains the query, `description` the same for descriptions. Every copy of a kept package stays: its count in the result equals its count in the input. Any other type, or an empty query, keeps everything |
| OutputParsers.ParseSearchResults | renderer.js:99-144 | The reader for the manager builds its records from the non-blank lines in order, filtered by the search type and the trimmed, lower-cased query |
| OutputParsers.ParsePacmanLines | renderer.js:119-127 | The index loop gives exactly the pacman records of the lines: each `/` line with the line after it, the pair skipped as one |
| OutputParsers.CollectLines | renderer.js:104-118 | The `forEach` loop gives, in line order, the record of each line that reads as one |
| OutputParsers.VersionSearch | renderer.js:268 | The version regex's match: the leftmost start of a version-like run, and from there the longest one; None iff no version-like run exists |
| OutputParsers.AptInstalledLineSpec | renderer.js:262-273 | As written: only `[installed` lines give packages; the name is the text before the first `/`; the version is `''` exactly when the line has no version-like run, and otherwise a version-like substring of the line |
| OutputParsers.AptVersionSpec | renderer.js:268 | The version read is `''` exactly when the text holds no version-like run, and otherwise a version-like run that occurs in it |
| OutputParsers.AptVersionFromName | renderer.js:268 | As written, a name holding a version-like run yields a version that starts inside the name |
| OutputParsers.AptInstalledLineCorrectedSpec | renderer.js:262-273 | Corrected: the same lines and names, with the version searched for only after the `name/suite` field |
| OutputParsers.DnfInstalledLineSpec | renderer.js:274-283 | A dnf line gives a package iff it holds white space and does not start with `Installed`. The name is the first token cut at its first `.`, with no `.`. The version is the second token, located by position: from the end of the white space after the first token to the next white space |
| OutputParsers.PacmanInstalledLineSpec | renderer.js:284-290 | A pacman line gives a package iff it holds white space. The name is the first token. The version is the second token, located by position as for dnf |
| OutputParsers.ParseInstalledPackages | renderer.js:258-294 | The loop collects, in line order, the package each non-blank line gives under its manager's rule, with apt lines read as written |
| OutputParsers.DnfInstalledRecords | renderer.js:274-283 | No dnf package has a `.` in its name or comes from an `Installed` line |
| OutputParsers.AptInstalledRecords | renderer.js:262-273 | As written: every apt package comes from a `[installed` line; its name has no `/`; its version is empty or version-like |
| OutputParsers.AptInstalledRecordsCorrected | renderer.js:262-273 | Corrected: every apt package comes from a `[installed` line, with the name before its first `/` and a version that is empty or a version-like run after the `name/suite` field |
| Renderer.CountLabelsReadBack | renderer.js:191 | Both count labels start with the count in decimal, and it reads back as the count |
| Renderer.CountLabelsPlural | renderer.js:443 | A count label says "packages" exactly when the count is not one |
| Renderer.RendererState.InstallCountText | renderer.js:191 | The install queue's label starts with the queue's size and ends in "packages" exactly when that size is not one |
| Renderer.RendererState.UninstallCountText | renderer.js:443 | The uninstall selection's label starts with its size and ends in "packages selected" exactly when that size is not one |
| Renderer.FilteredInstalledSpec | renderer.js:245-256 | The installed filter keeps packages in order. It keeps exactly those whose lower-cased name, or non-empty version, contains the lower-cased trimmed query, and every copy of each. A blank query keeps all of them |
| Renderer.Annotated | renderer.js:87-89 | Annotation changes only the flag, and the flag is true exactly for the results whose name the installed check returned |
| Renderer.RendererState.constructor | renderer.js:2-12 | The initial page state: empty lists and selections, no manager, search type `all` |
| Renderer.RendererState.ToggleInstall | renderer.js:168-172 | Checking adds the name to the install selection, unchecking removes it; other names and all other state are unchanged; the selection stays duplicate-free |
| Renderer.RendererState.ToggleUninstall | renderer.js:321-325 | The same for the uninstall selection |
| Renderer.RendererState.RemoveFromQueue | renderer.js:209-211 | The name leaves the install selection, the rest keep their order, and nothing else changes |
| Renderer.RendererState.ClearInstallSelection | renderer.js:422-426 | The install selection is emptied and nothing else changes |
| Renderer.RendererState.ClearUninstallSelection | renderer.js:429-433 | The uninstall selection is emptied and nothing else changes |
| Renderer.RendererState.FilterInstalledPackages | renderer.js:245-256 | The shown list becomes the filtered installed list, and nothing else changes |
| Renderer.RendererState.LoadInstalledPackages | renderer.js:227-243 | The uninstall selection is always dropped. A successful listing sets the manager, the parsed list, its name set, and a shown list equal to it. A failure leaves them as they were |
| Renderer.RendererState.AnnotateResults | renderer.js:86-90 | The loop flags every search result from the installed names and changes no other field |
| Renderer.RendererState.ShowSearchResults | renderer.js:80-91 | The shown results become the parsed ones, flagged from the installed check when there are any and the check succeeds; the other state is untouched |
| Renderer.RendererState.PerformSearch | renderer.js:68-97 | A blank query does nothing. Otherwise the search type is taken from the selector. A successful search replaces the results with the parsed and filtered ones, flagged when there are any and the installed check succeeds. A failed search leaves the results and the manager unchanged |
| Renderer.RendererState.InstallSelected | renderer.js:342-375 | A request is sent iff the selection is non-empty and the trimmed password is not blank; it carries the selection and the trimmed password; a success empties the selection |
| Renderer.RendererState.UninstallSelected | renderer.js:378-416 | A removal is sent iff the selection is non-empty, the dry run succeeded and the password is not blank; it carries the selection and the trimmed password. A successful removal empties the selection. It then reloads the installed list: a successful reload sets the replied manager, the parsed list, its name set and the shown list; a failed one keeps them. Without a successful removal the state is unchanged |

## Left out

- Running processes: `exec`, `which`, `sudo -S`, `maxBuffer` and the choice of `/bin/bash` become the `shell` parameter. A command's outcome depends only on its text.
- The Electron window, its lifecycle and menus (main.js:9-38), and the IPC bridge in preload.js. preload.js is not part of this model: it has no logic.
- DOM rendering, event wiring, the modal, the loading indicator, `alert`, `escapeHtml` and tab switching. The `currentTab` field is not modelled.
- Asynchronous interleaving: each handler and each renderer flow runs to completion, in order.
- The renderer's `packageManager` holds a `Backend`, not an arbitrary string. A reply can only name apt, dnf or pacman.
- `toLowerCase` is modelled for ASCII letters only, with no Unicode case mapping.
- OutputParsers.AptSearchLine: the regular expression `^(\S+)\s+-\s+(.+)$` is a hand-written scanner. The soundness and completeness lemmas above relate the two.
- OutputParsers.VersionSearch: the version regular expression is a hand-written leftmost-longest scanner. The version stops at the last digit, so a letter ends it: `2.35-0ubuntu3.1` gives `2.35-0`.
- OutputParsers.InstalledRecordsCorrected: the corrected apt reader from Findings is a separate definition. `ParseInstalledPackages`, and with it the renderer state, keeps the reader as written, `AptInstalledLine`.
- Safeguards the code does not have, so the model does not have them either:
  - validation of names and queries before interpolation;
  - timeouts;
  - a lock against two concurrent privileged operations;
  - a distinct error for a rejected password;
  - caching the detected manager, which is probed again on every request.
- Behaviour a reader might not expect, which the model keeps:
  - The pacman description keeps its leading indentation (`PacmanDescriptionUntrimmed`).
  - An empty package list is not rejected before a command runs.
  - The password is embedded in the command line (`PasswordInCommand`).
  - A dnf or pacman line starting with white space yields an empty name.

## Findings

| source | as written | input that shows it | evidently intended | confidence | as-written member | corrected member |
|---|---|---|---|---|---|---|
| renderer.js:268 | The version regex is matched against the whole line, starting at the package name | `python3.10/jammy 3.10.12-1 amd64 [installed]` gives version `3.10`, taken from the name | The version field after the `name/suite` field, `3.10.12-1` | not executed | OutputParsers.AptVersionFromName | OutputParsers.AptInstalledLineCorrectedSpec, OutputParsers.AptInstalledRecordsCorrected |
