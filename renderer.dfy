/** The renderer's page state (renderer.js:2-12) and the handlers that change
    it: searching, selecting packages to install or remove, loading and
    filtering the installed list, and the counts the page shows. The main
    process's replies arrive as parameters: a function from the request to
    the reply it gets. */
module Renderer {
  import opened Common
  import opened Text
  import opened OutputParsers
  import PackageManager

  // ---------------------------------------------------------------------
  // Count labels

  /** `${n} package${n !== 1 ? 's' : ''}` (renderer.js:191). */
  function InstallCountLabel(n: nat): string {
    NatToString(n) + " package" + (if n != 1 then "s" else "")
  }

  /** `${count} package${count !== 1 ? 's' : ''} selected` (renderer.js:443). */
  function UninstallCountLabel(n: nat): string {
    InstallCountLabel(n) + " selected"
  }

  /** The number a label starts with, read back from its leading digits. */
  function LeadingCount(text: string): nat {
    var k := DigitsEnd(text, 0);
    DecimalValue(text[..k])
  }

  predicate EndsWith(s: string, suffix: string) {
    |suffix| <= |s| && s[|s| - |suffix|..] == suffix
  }

  /** Digits followed by a non-digit read back as the number they spell. */
  lemma LeadingDigits(digits: string, rest: string)
    requires forall x :: 0 <= x < |digits| ==> IsDigit(digits[x])
    requires rest != [] && !IsDigit(rest[0])
    ensures LeadingCount(digits + rest) == DecimalValue(digits)
  {
    var text := digits + rest;
    forall x | 0 <= x < |digits|
      ensures IsDigit(text[x])
    {
      assert text[x] == digits[x];
    }
    assert text[|digits|] == rest[0];
    assert DigitsEnd(text, 0) == |digits|;
    assert text[..|digits|] == digits;
  }

  /** A count label starts with the count, written so that it reads back. */
  lemma CountLabelsReadBack(n: nat)
    ensures LeadingCount(InstallCountLabel(n)) == n
    ensures LeadingCount(UninstallCountLabel(n)) == n
  {
    var digits := NatToString(n);
    var plural := if n != 1 then "s" else "";
    assert InstallCountLabel(n) == digits + (" package" + plural);
    assert UninstallCountLabel(n) == digits + (" package" + plural + " selected");
    LeadingDigits(digits, " package" + plural);
    LeadingDigits(digits, " package" + plural + " selected");
    DecimalRoundTrip(n);
  }

  /** A count label says "packages" exactly when the count is not one. */
  lemma CountLabelsPlural(n: nat)
    ensures EndsWith(InstallCountLabel(n), "packages") <==> n != 1
    ensures EndsWith(UninstallCountLabel(n), "packages selected") <==> n != 1
  {
    var install := InstallCountLabel(n);
    var uninstall := UninstallCountLabel(n);
    if n == 1 {
      assert install[|install| - 1] == 'e';
      assert uninstall[|uninstall| - 10] == 'e';
    }
  }

  // ---------------------------------------------------------------------
  // Filtering the installed list

  /** The callback of `installedPackages.filter` for a lower-cased query. */
  function InstalledTest(query: string): InstalledPackage -> bool {
    (p: InstalledPackage) =>
      Contains(Lower(p.name), query) || (p.version != [] && Contains(Lower(p.version), query))
  }

  /** What `filterInstalledPackages` leaves on the page for the text of the
      filter box (renderer.js:245-256). */
  function FilteredInstalled(packages: seq<InstalledPackage>, inputValue: string): seq<InstalledPackage> {
    var query := Lower(Trim(inputValue));
    if query == [] then packages else Filter(packages, InstalledTest(query))
  }

  /** The filter keeps packages in order, keeps exactly those whose name or
      non-empty version contains the lower-cased query (every copy of
      them), and keeps all of them when the filter box holds only white
      space. */
  lemma FilteredInstalledSpec(packages: seq<InstalledPackage>, inputValue: string)
    ensures IsSubsequence(FilteredInstalled(packages, inputValue), packages)
    ensures var query := Lower(Trim(inputValue));
      forall p :: p in packages ==>
        (p in FilteredInstalled(packages, inputValue) <==>
          Contains(Lower(p.name), query) || (p.version != [] && Contains(Lower(p.version), query)))
    ensures AllSpace(inputValue) ==> FilteredInstalled(packages, inputValue) == packages
    ensures var query := Lower(Trim(inputValue));
      forall p ::
        multiset(FilteredInstalled(packages, inputValue))[p] ==
        if Contains(Lower(p.name), query) || (p.version != [] && Contains(Lower(p.version), query))
        then multiset(packages)[p] else 0
  {
    var query := Lower(Trim(inputValue));
    FilterCount(packages, InstalledTest(query));
    if query == [] {
      SubsequenceOfSelf(packages);
      forall p | p in packages
        ensures Contains(Lower(p.name), query)
      {
        assert query <= Lower(p.name);
      }
    } else {
      FilterIsSubsequence(packages, InstalledTest(query));
    }
  }

  // ---------------------------------------------------------------------
  // Annotating search results

  /** `pkg.installed = installed.includes(pkg.name)` for every result:
      only the flag changes, and it is set exactly for the results whose
      name the installed check returned. */
  function Annotated(results: seq<SearchPackage>, installed: seq<string>): (r: seq<SearchPackage>)
    ensures |r| == |results|
    ensures forall k :: 0 <= k < |results| ==>
      && r[k].name == results[k].name
      && r[k].description == results[k].description
      && (r[k].installed == Some(true) <==> results[k].name in installed)
      && (r[k].installed == Some(false) <==> results[k].name !in installed)
  {
    seq(|results|, k requires 0 <= k < |results| => results[k].(installed := Some(results[k].name in installed)))
  }

  /** `packageNames` (renderer.js:82). */
  function Names(results: seq<SearchPackage>): (names: seq<string>)
    ensures |names| == |results|
    ensures forall k :: 0 <= k < |results| ==> names[k] == results[k].name
  {
    seq(|results|, k requires 0 <= k < |results| => results[k].name)
  }

  /** The results a successful search leaves on the page: the parsed
      results, annotated when there were any and the installed check
      succeeded, and left unflagged otherwise. */
  function SearchOutcome(parsed: seq<SearchPackage>, checkReply: seq<string> -> PackageManager.CheckResponse): seq<SearchPackage> {
    if |parsed| > 0 && checkReply(Names(parsed)).Checked? then
      Annotated(parsed, checkReply(Names(parsed)).installed)
    else parsed
  }

  // ---------------------------------------------------------------------
  // The page state

  class RendererState {
    var searchResults: seq<SearchPackage>
    var installedPackages: seq<InstalledPackage>
    var installedPackageNames: set<string>
    var filteredInstalled: seq<InstalledPackage>
    var selectedInstall: seq<string>
    var selectedUninstall: seq<string>
    var packageManager: Option<PackageManager.Backend>
    var searchType: string

    /** The selections are sets, the name set is that of the loaded list,
        and the shown list is drawn from it in order. */
    predicate Valid()
      reads this`selectedInstall, this`selectedUninstall
      reads this`installedPackages, this`installedPackageNames, this`filteredInstalled
    {
      && NoDuplicates(selectedInstall)
      && NoDuplicates(selectedUninstall)
      && installedPackageNames == (set p | p in installedPackages :: p.name)
      && IsSubsequence(filteredInstalled, installedPackages)
    }

    /** The initial `state` object (renderer.js:2-12). */
    constructor ()
      ensures Valid()
      ensures searchResults == [] && installedPackages == [] && installedPackageNames == {}
      ensures filteredInstalled == [] && selectedInstall == [] && selectedUninstall == []
      ensures packageManager == None && searchType == "all"
    {
      searchResults := [];
      installedPackages := [];
      installedPackageNames := {};
      filteredInstalled := [];
      selectedInstall := [];
      selectedUninstall := [];
      packageManager := None;
      searchType := "all";
    }

    /** The label of the install queue (renderer.js:191): it starts with the
        queue's size and says "packages" unless exactly one is queued. */
    function InstallCountText(): (text: string)
      reads this
      ensures LeadingCount(text) == |selectedInstall|
      ensures EndsWith(text, "packages") <==> |selectedInstall| != 1
    {
      CountLabelsReadBack(|selectedInstall|);
      CountLabelsPlural(|selectedInstall|);
      InstallCountLabel(|selectedInstall|)
    }

    /** The label of the uninstall selection (renderer.js:443), likewise. */
    function UninstallCountText(): (text: string)
      reads this
      ensures LeadingCount(text) == |selectedUninstall|
      ensures EndsWith(text, "packages selected") <==> |selectedUninstall| != 1
    {
      CountLabelsReadBack(|selectedUninstall|);
      CountLabelsPlural(|selectedUninstall|);
      UninstallCountLabel(|selectedUninstall|)
    }

    /** A search result's checkbox changed (renderer.js:169-173). */
    method ToggleInstall(name: string, checked: bool)
      requires Valid()
      modifies this
      ensures Valid()
      ensures selectedInstall == if checked then Added(old(selectedInstall), name) else Without(old(selectedInstall), name)
      ensures checked <==> name in selectedInstall
      ensures forall n :: n != name ==> (n in selectedInstall <==> n in old(selectedInstall))
      ensures searchResults == old(searchResults) && installedPackages == old(installedPackages)
      ensures installedPackageNames == old(installedPackageNames) && filteredInstalled == old(filteredInstalled)
      ensures selectedUninstall == old(selectedUninstall)
      ensures packageManager == old(packageManager) && searchType == old(searchType)
    {
      if checked {
        selectedInstall := Added(selectedInstall, name);
      } else {
        selectedInstall := Without(selectedInstall, name);
      }
    }

    /** An installed package's checkbox changed (renderer.js:321-325). */
    method ToggleUninstall(name: string, checked: bool)
      requires Valid()
      modifies this
      ensures Valid()
      ensures selectedUninstall == if checked then Added(old(selectedUninstall), name) else Without(old(selectedUninstall), name)
      ensures checked <==> name in selectedUninstall
      ensures forall n :: n != name ==> (n in selectedUninstall <==> n in old(selectedUninstall))
      ensures searchResults == old(searchResults) && installedPackages == old(installedPackages)
      ensures installedPackageNames == old(installedPackageNames) && filteredInstalled == old(filteredInstalled)
      ensures selectedInstall == old(selectedInstall)
      ensures packageManager == old(packageManager) && searchType == old(searchType)
    {
      if checked {
        selectedUninstall := Added(selectedUninstall, name);
      } else {
        selectedUninstall := Without(selectedUninstall, name);
      }
    }

    /** A queue entry's Remove button (renderer.js:209-212). */
    method RemoveFromQueue(name: string)
      requires Valid()
      modifies this
      ensures Valid()
      ensures selectedInstall == Without(old(selectedInstall), name)
      ensures name !in selectedInstall && IsSubsequence(selectedInstall, old(selectedInstall))
      ensures searchResults == old(searchResults) && installedPackages == old(installedPackages)
      ensures installedPackageNames == old(installedPackageNames) && filteredInstalled == old(filteredInstalled)
      ensures selectedUninstall == old(selectedUninstall)
      ensures packageManager == old(packageManager) && searchType == old(searchType)
    {
      selectedInstall := Without(selectedInstall, name);
    }

    /** The Clear button of the install queue (renderer.js:422-426). */
    method ClearInstallSelection()
      requires Valid()
      modifies this
      ensures Valid()
      ensures selectedInstall == []
      ensures searchResults == old(searchResults) && installedPackages == old(installedPackages)
      ensures installedPackageNames == old(installedPackageNames) && filteredInstalled == old(filteredInstalled)
      ensures selectedUninstall == old(selectedUninstall)
      ensures packageManager == old(packageManager) && searchType == old(searchType)
    {
      selectedInstall := [];
    }

    /** The Unselect button of the installed list (renderer.js:429-433). */
    method ClearUninstallSelection()
      requires Valid()
      modifies this
      ensures Valid()
      ensures selectedUninstall == []
      ensures searchResults == old(searchResults) && installedPackages == old(installedPackages)
      ensures installedPackageNames == old(installedPackageNames) && filteredInstalled == old(filteredInstalled)
      ensures selectedInstall == old(selectedInstall)
      ensures packageManager == old(packageManager) && searchType == old(searchType)
    {
      selectedUninstall := [];
    }

    /** `filterInstalledPackages` (renderer.js:245-256). */
    method FilterInstalledPackages(inputValue: string)
      requires Valid()
      modifies this
      ensures Valid()
      ensures filteredInstalled == FilteredInstalled(installedPackages, inputValue)
      ensures searchResults == old(searchResults) && installedPackages == old(installedPackages)
      ensures installedPackageNames == old(installedPackageNames)
      ensures selectedInstall == old(selectedInstall) && selectedUninstall == old(selectedUninstall)
      ensures packageManager == old(packageManager) && searchType == old(searchType)
    {
      var query := Lower(Trim(inputValue));
      if query == [] {
        filteredInstalled := installedPackages;
      } else {
        filteredInstalled := Filter(installedPackages, InstalledTest(query));
      }
      FilteredInstalledSpec(installedPackages, inputValue);
    }

    /** `loadInstalledPackages` (renderer.js:227-243): the uninstall
        selection is dropped first; a successful listing replaces the
        installed list, its name set and the shown list; a failure leaves
        them as they were. */
    method LoadInstalledPackages(reply: PackageManager.ListResponse)
      requires Valid()
      modifies this`selectedUninstall, this`packageManager, this`installedPackages
      modifies this`installedPackageNames, this`filteredInstalled
      ensures Valid()
      ensures selectedUninstall == []
      ensures reply.Listed? ==>
        && packageManager == Some(reply.pm)
        && installedPackages == InstalledRecords(reply.pm, Lines(reply.data))
        && installedPackageNames == (set p | p in installedPackages :: p.name)
        && filteredInstalled == installedPackages
      ensures reply.ListFailed? ==>
        && packageManager == old(packageManager)
        && installedPackages == old(installedPackages)
        && installedPackageNames == old(installedPackageNames)
        && filteredInstalled == old(filteredInstalled)
    {
      selectedUninstall := [];
      match reply {
        case Listed(data, pm) =>
          var packages := ParseInstalledPackages(data, pm);
          SubsequenceOfSelf(packages);
          packageManager := Some(pm);
          installedPackages := packages;
          installedPackageNames := set p | p in packages :: p.name;
          filteredInstalled := packages;
        case ListFailed(_) =>
      }
    }

    /** The `forEach` that flags each search result from the names the
        installed check returned (renderer.js:86-88). */
    method AnnotateResults(installed: seq<string>)
      requires Valid()
      modifies this`searchResults
      ensures Valid()
      ensures searchResults == Annotated(old(searchResults), installed)
    {
      ghost var results := searchResults;
      var k := 0;
      while k < |searchResults|
        invariant 0 <= k <= |searchResults| == |results|
        invariant forall m :: 0 <= m < k ==> searchResults[m] == Annotated(results, installed)[m]
        invariant forall m :: k <= m < |searchResults| ==> searchResults[m] == results[m]
      {
        var pkg := searchResults[k];
        searchResults := searchResults[k := pkg.(installed := Some(pkg.name in installed))];
        k := k + 1;
      }
    }

    /** `performSearch` (renderer.js:68-97): a blank query does nothing;
        otherwise the search type is taken from the selector, and a
        successful search replaces the results with the parsed ones,
        flagged from the installed check when there are any. */
    method PerformSearch(searchInputValue: string, selectValue: string,
                         searchReply: string -> PackageManager.ListResponse,
                         checkReply: seq<string> -> PackageManager.CheckResponse)
      requires Valid()
      modifies this`searchResults, this`packageManager, this`searchType
      ensures Valid()
      ensures AllSpace(searchInputValue) ==>
        searchResults == old(searchResults) && packageManager == old(packageManager) && searchType == old(searchType)
      ensures !AllSpace(searchInputValue) ==>
        var reply := searchReply(Trim(searchInputValue));
        && searchType == selectValue
        && (reply.Listed? ==>
              && packageManager == Some(reply.pm)
              && searchResults == SearchOutcome(
                   SearchTypeFilter(SearchRecords(reply.pm, Lines(reply.data)), selectValue, Lower(Trim(searchInputValue))),
                   checkReply))
        && (reply.ListFailed? ==> packageManager == old(packageManager) && searchResults == old(searchResults))
    {
      var query := Trim(searchInputValue);
      if query == [] {
        return;
      }
      searchType := selectValue;
      var result := searchReply(query);
      if result.Listed? {
        packageManager := Some(result.pm);
        var parsed := ParseSearchResults(result.data, result.pm, searchInputValue, searchType);
        ShowSearchResults(parsed, checkReply);
      }
    }

    /** The parsed results become the shown list; when there are any, their
        names go to the installed check, and a reply flags them
        (renderer.js:80-91). */
    method ShowSearchResults(parsed: seq<SearchPackage>, checkReply: seq<string> -> PackageManager.CheckResponse)
      requires Valid()
      modifies this`searchResults
      ensures Valid()
      ensures searchResults == SearchOutcome(parsed, checkReply)
    {
      searchResults := parsed;
      var packageNames := Names(parsed);
      if |packageNames| > 0 {
        var installedResult := checkReply(packageNames);
        if installedResult.Checked? {
          AnnotateResults(installedResult.installed);
        }
      }
    }

    /** The install dialog's confirm step (renderer.js:342-375): an empty
        queue or a blank password sends nothing; otherwise the queue and the
        trimmed password go to the main process, and a success empties the
        queue. Returns the request sent, if any. */
    method InstallSelected(passwordInputValue: string,
                           installReply: (seq<string>, string) -> PackageManager.TranscriptResponse)
      returns (sent: Option<(seq<string>, string)>)
      requires Valid()
      modifies this
      ensures Valid()
      ensures sent.Some? <==> old(selectedInstall) != [] && !AllSpace(passwordInputValue)
      ensures sent.Some? ==> sent.value == (old(selectedInstall), Trim(passwordInputValue))
      ensures selectedInstall == if sent.Some? && installReply(sent.value.0, sent.value.1).Succeeded? then [] else old(selectedInstall)
      ensures searchResults == old(searchResults) && installedPackages == old(installedPackages)
      ensures installedPackageNames == old(installedPackageNames) && filteredInstalled == old(filteredInstalled)
      ensures selectedUninstall == old(selectedUninstall)
      ensures packageManager == old(packageManager) && searchType == old(searchType)
    {
      var packages := selectedInstall;
      if |packages| == 0 {
        return None;
      }
      var password := Trim(passwordInputValue);
      if password == [] {
        return None;
      }
      sent := Some((packages, password));
      var result := installReply(packages, password);
      if result.Succeeded? {
        selectedInstall := [];
      }
    }

    /** The uninstall flow (renderer.js:378-416): an empty selection does
        nothing; a failed dry run, or a blank password, stops before
        anything is removed; a successful removal reloads the installed
        list. Returns the removal request sent, if any. */
    method UninstallSelected(passwordInputValue: string,
                             checkReply: seq<string> -> PackageManager.AdviceResponse,
                             uninstallReply: (seq<string>, string) -> PackageManager.TranscriptResponse,
                             listReply: PackageManager.ListResponse)
      returns (sent: Option<(seq<string>, string)>)
      requires Valid()
      modifies this`selectedUninstall, this`packageManager, this`installedPackages
      modifies this`installedPackageNames, this`filteredInstalled
      ensures Valid()
      ensures sent.Some? <==>
        old(selectedUninstall) != [] && checkReply(old(selectedUninstall)).Advised? && !AllSpace(passwordInputValue)
      ensures sent.Some? ==> sent.value == (old(selectedUninstall), Trim(passwordInputValue))
      ensures sent.Some? && uninstallReply(sent.value.0, sent.value.1).Succeeded? ==>
        && selectedUninstall == []
        && (listReply.Listed? ==>
              && packageManager == Some(listReply.pm)
              && installedPackages == InstalledRecords(listReply.pm, Lines(listReply.data))
              && installedPackageNames == (set p | p in installedPackages :: p.name)
              && filteredInstalled == installedPackages)
        && (listReply.ListFailed? ==>
              && packageManager == old(packageManager)
              && installedPackages == old(installedPackages)
              && installedPackageNames == old(installedPackageNames)
              && filteredInstalled == old(filteredInstalled))
      ensures !(sent.Some? && uninstallReply(sent.value.0, sent.value.1).Succeeded?) ==> unchanged(this)
    {
      var packages := selectedUninstall;
      if |packages| == 0 {
        return None;
      }
      var checkResult := checkReply(packages);
      if !checkResult.Advised? {
        return None;
      }
      var password := Trim(passwordInputValue);
      if password == [] {
        return None;
      }
      sent := Some((packages, password));
      var result := uninstallReply(packages, password);
      if result.Succeeded? {
        LoadInstalledPackages(listReply);
      }
    }
  }
}
