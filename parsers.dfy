/** The renderer's readers of package-manager output (renderer.js:99-144 and
    258-294): the text is cut into lines, blank lines are dropped, and each
    manager's lines are read by their own positional rules into search
    results or installed packages. */
module OutputParsers {
  import opened Common
  import opened Text
  import PackageManager

  type Backend = PackageManager.Backend

  /** A search result: `installed` is None until the installed check has
      annotated it. */
  datatype SearchPackage = SearchPackage(name: string, description: string, installed: Option<bool>)

  /** A row of the installed-packages list. */
  datatype InstalledPackage = InstalledPackage(name: string, version: string)

  predicate NonBlank(line: string) {
    Trim(line) != []
  }

  /** `data.split('\n').filter(line => line.trim())`. */
  function Lines(data: string): (lines: seq<string>)
    ensures forall l :: l in lines ==> !AllSpace(l) && '\n' !in l
  {
    Filter(Split(data, '\n'), NonBlank)
  }

  /** A blank line anywhere in the output is dropped as if it were not
      there, so it can never give rise to a package. */
  lemma BlankLinesDropped(pre: string, blank: string, post: string)
    requires AllSpace(blank)
    ensures Lines(pre + "\n" + blank + "\n" + post) == Lines(pre + "\n" + post)
  {
    var ps, bs, qs := Split(pre, '\n'), Split(blank, '\n'), Split(post, '\n');
    SplitThree(pre, blank, post);
    assert pre + "\n" + post == pre + ['\n'] + post;
    SplitAppend(pre, post, '\n');
    SplitOfBlank(blank, '\n');
    FilterNone(bs, NonBlank);
    FilterAppend(ps, bs + qs, NonBlank);
    FilterAppend(bs, qs, NonBlank);
    FilterAppend(ps, qs, NonBlank);
    assert [] + Filter(qs, NonBlank) == Filter(qs, NonBlank);
  }

  lemma SplitThree(pre: string, mid: string, post: string)
    ensures Split(pre + "\n" + mid + "\n" + post, '\n')
         == Split(pre, '\n') + (Split(mid, '\n') + Split(post, '\n'))
  {
    assert pre + "\n" + mid + "\n" + post == pre + ['\n'] + (mid + ['\n'] + post);
    SplitAppend(pre, mid + ['\n'] + post, '\n');
    SplitAppend(mid, post, '\n');
  }

  /** The packages the lines give, each line read on its own by `parse`,
      in line order. */
  function Collect<T>(lines: seq<string>, parse: string -> Option<T>): (r: seq<T>)
    ensures |r| <= |lines|
  {
    if lines == [] then []
    else
      var last := parse(lines[|lines| - 1]);
      Collect(lines[..|lines| - 1], parse) + (if last.Some? then [last.value] else [])
  }

  /** Every package comes from one of the lines, and every line that reads
      as a package contributes it. */
  lemma {:induction false} CollectFromLines<T>(lines: seq<string>, parse: string -> Option<T>)
    ensures forall p :: p in Collect(lines, parse) ==> exists l :: l in lines && parse(l) == Some(p)
    ensures forall l :: l in lines && parse(l).Some? ==> parse(l).value in Collect(lines, parse)
  {
    if lines != [] {
      var init := lines[..|lines| - 1];
      CollectFromLines(init, parse);
      assert lines == init + [lines[|lines| - 1]];
      forall l | l in lines && parse(l).Some?
        ensures parse(l).value in Collect(lines, parse)
      {
        if l != lines[|lines| - 1] {
          assert l in init;
        }
      }
    }
  }

  // ---------------------------------------------------------------------
  // apt search: `name - description`

  /** The separator the apt search pattern admits between name and
      description: white space, a `-`, white space. */
  predicate DashSeparator(m: string) {
    exists k :: 0 < k < |m| - 1 && m[k] == '-' && AllSpace(m[..k]) && AllSpace(m[k + 1..])
  }

  /** `line` is a match of `^(\S+)\s+-\s+(.+)$` with the name `line[..i]`
      and the description `line[j..]`. */
  predicate AptSearchShape(line: string, i: nat, j: nat) {
    0 < i <= j < |line|
    && NoSpace(line[..i])
    && DashSeparator(line[i..j])
    && NoLineTerminator(line[j..])
  }

  /** `line.match(/^(\S+)\s+-\s+(.+)$/)`, read by hand: the name is the
      leading token, the separator's second run of white space is as long as
      the description can spare, and a `.` does not match a line terminator. */
  function AptSearchLine(line: string): Option<SearchPackage> {
    var n := TokenEnd(line, 0);
    var a := SpaceEnd(line, n);
    if n == 0 || a == n || a == |line| || line[a] != '-' then None
    else
      var d := a + 1;
      var e := SpaceEnd(line, d);
      if e == d then None
      else if e < |line| then
        if NoLineTerminator(line[e..]) then Some(SearchPackage(line[..n], line[e..], None)) else None
      else if e - d >= 2 && !IsLineTerminator(line[e - 1]) then
        Some(SearchPackage(line[..n], line[e - 1..], None))
      else None
  }

  /** The two runs where the scanner expects them: the first token ends at
      `i` when `line[..i]` has no space and `line[i]` is one. */
  lemma TokenEndAt(s: string, i: nat)
    requires i < |s| && NoSpace(s[..i]) && IsSpace(s[i])
    ensures TokenEnd(s, 0) == i
  {
    var k := TokenEnd(s, 0);
    forall x | 0 <= x < i
      ensures !IsSpace(s[x])
    {
      assert s[..i][x] == s[x];
    }
    forall x | 0 <= x < k
      ensures !IsSpace(s[x])
    {
      assert s[0..k][x] == s[x];
    }
  }

  lemma SpaceEndAt(s: string, lo: nat, i: nat)
    requires lo <= i <= |s| && (forall m :: lo <= m < i ==> IsSpace(s[m])) && (i < |s| ==> !IsSpace(s[i]))
    ensures SpaceEnd(s, lo) == i
  {
    var k := SpaceEnd(s, lo);
    forall x | lo <= x < k
      ensures IsSpace(s[x])
    {
      assert s[lo..k][x - lo] == s[x];
    }
  }

  /** Every package the apt scanner reports is a match of the pattern, read
      off the line: its name is the line's beginning and its description
      the line's end. */
  lemma AptSearchSound(line: string)
    requires AptSearchLine(line).Some?
    ensures var p := AptSearchLine(line).value;
      && AptSearchShape(line, |p.name|, |line| - |p.description|)
      && p.name == line[..|p.name|]
      && p.description == line[|line| - |p.description|..]
      && p.installed.None?
  {
    var n := TokenEnd(line, 0);
    var a := SpaceEnd(line, n);
    var d := a + 1;
    var e := SpaceEnd(line, d);
    assert line[..n] == line[0..n];
    if e < |line| {
      DashSeparatorOf(line, n, a, e);
    } else {
      var j := e - 1;
      assert line[j..] == [line[j]];
      AllSpaceWithin(line, d, e, d, j);
      DashSeparatorOf(line, n, a, j);
    }
  }

  /** The separator read from positions: white space from `i` up to a `-`
      at `a`, then white space up to `j`. */
  lemma DashSeparatorOf(line: string, i: nat, a: nat, j: nat)
    requires i < a && a + 1 < j <= |line| && line[a] == '-'
    requires AllSpace(line[i..a]) && AllSpace(line[a + 1..j])
    ensures DashSeparator(line[i..j])
  {
    var m := line[i..j];
    var k := a - i;
    assert m[k] == '-';
    forall x | 0 <= x < k
      ensures IsSpace(m[..k][x])
    {
      assert m[..k][x] == line[i..a][x];
    }
    var after := m[k + 1..];
    forall x | 0 <= x < |after|
      ensures IsSpace(after[x])
    {
      assert after[x] == line[a + 1..j][x];
    }
  }

  /** The separator of a match, read as positions of the line: white space
      from `i` up to a `-` at `a`, then white space up to `j`. */
  lemma DashAt(line: string, i: nat, j: nat) returns (a: nat)
    requires i <= j <= |line| && DashSeparator(line[i..j])
    ensures i < a && a + 1 < j && line[a] == '-'
    ensures forall x :: i <= x < a ==> IsSpace(line[x])
    ensures forall x :: a < x < j ==> IsSpace(line[x])
  {
    var m := line[i..j];
    var k :| 0 < k < |m| - 1 && m[k] == '-' && AllSpace(m[..k]) && AllSpace(m[k + 1..]);
    a := i + k;
    AllSpaceTake(m, k);
    AllSpaceDrop(m, k + 1);
    forall x | i <= x < j
      ensures line[x] == m[x - i]
    {
    }
  }

  /** Where the scanner's runs end on a line of the pattern's shape: the
      token at the name's end, the first run at the `-`, and the second run
      no earlier than the proposed description. */
  lemma AptSearchRuns(line: string, i: nat, j: nat) returns (a: nat)
    requires AptSearchShape(line, i, j)
    ensures TokenEnd(line, 0) == i
    ensures i < a < |line| && SpaceEnd(line, i) == a && line[a] == '-'
    ensures a + 1 < j <= SpaceEnd(line, a + 1)
  {
    a := DashAt(line, i, j);
    TokenEndAt(line, i);
    SpaceEndAt(line, i, a);
  }

  /** Every match of the pattern is found: a line of that shape yields a
      package named by its leading token, whose description is no longer
      than the one the match proposed (the separator takes all the white
      space it can). */
  lemma AptSearchComplete(line: string, i: nat, j: nat)
    requires AptSearchShape(line, i, j)
    ensures AptSearchLine(line).Some?
    ensures AptSearchLine(line).value.name == line[..i]
    ensures |line| - |AptSearchLine(line).value.description| >= j
  {
    var a := AptSearchRuns(line, i, j);
    var e := SpaceEnd(line, a + 1);
    AptSearchLineValue(line, i, a, e);
    var rest := line[j..];
    if e < |line| {
      assert NoLineTerminator(line[e..]) by {
        forall x | 0 <= x < |line| - e
          ensures !IsLineTerminator(line[e..][x])
        {
          assert line[e..][x] == rest[x + e - j];
        }
      }
    } else {
      assert rest[|line| - 1 - j] == line[e - 1];
    }
  }

  /** What the scanner returns once the runs are known: the name up to `n`,
      the dash at `a`, and the white space after it ending at `e`. */
  lemma AptSearchLineValue(line: string, n: nat, a: nat, e: nat)
    requires 0 < n == TokenEnd(line, 0)
    requires n < a == SpaceEnd(line, n) && a < |line| && line[a] == '-'
    requires a + 1 < e == SpaceEnd(line, a + 1)
    ensures e < |line| && NoLineTerminator(line[e..]) ==>
      AptSearchLine(line) == Some(SearchPackage(line[..n], line[e..], None))
    ensures e == |line| && e - (a + 1) >= 2 && !IsLineTerminator(line[e - 1]) ==>
      AptSearchLine(line) == Some(SearchPackage(line[..n], line[e - 1..], None))
  {
  }

  /** The line apt writes, `name - description`, reads back as that name
      and that description, even when the description holds ` - ` itself
      (`vim - Vi IMproved - enhanced vi editor`). */
  lemma AptSearchLineOf(name: string, description: string)
    requires name != [] && NoSpace(name)
    requires description != [] && !IsSpace(description[0]) && NoLineTerminator(description)
    ensures AptSearchLine(name + " - " + description) == Some(SearchPackage(name, description, None))
  {
    var line := name + " - " + description;
    var n := |name|;
    assert line[..n] == name;
    TokenEndAt(line, n);
    SpaceEndAt(line, n, n + 1);
    assert line[n + 1] == '-';
    assert line[n + 3] == description[0];
    SpaceEndAt(line, n + 2, n + 3);
    assert line[n + 3..] == description;
  }

  // ---------------------------------------------------------------------
  // dnf search: `name.arch : summary`

  /** `parts = line.split(/\s+/)`; two or more parts give the first as the
      name and the others joined by single spaces as the description. */
  function DnfSearchLine(line: string): Option<SearchPackage> {
    var parts := SplitWs(line);
    if |parts| >= 2 then Some(SearchPackage(parts[0], Join(parts[1..], " "), None)) else None
  }

  /** A dnf line gives a package exactly when it contains white space; the
      name is the leading token, name and description together hold every
      non-space character of the line, in order, and the description is the
      remaining tokens joined by single spaces. */
  lemma DnfSearchLineSpec(line: string)
    ensures DnfSearchLine(line).Some? <==> !NoSpace(line)
    ensures DnfSearchLine(line).Some? ==>
      var p := DnfSearchLine(line).value;
      && p.name == line[..TokenEnd(line, 0)]
      && NoSpace(p.name)
      && p.name + RemoveSpaces(p.description) == RemoveSpaces(line)
      && Split(p.description, ' ') == SplitWs(line)[1..]
  {
    var parts := SplitWs(line);
    if |parts| >= 2 {
      SplitWsKeepsText(line);
      assert parts[0] in parts;
      forall q | q in parts[1..]
        ensures NoSpace(q) && ' ' !in q
      {
        assert q in parts;
      }
      JoinKeepsText(parts[1..]);
      SplitJoin(parts[1..], ' ');
    }
  }

  // ---------------------------------------------------------------------
  // pacman search: `repo/name version` then an indented description line

  /** `line.split('/')[1].split(' ')[0]`. */
  function PacmanName(line: string): (name: string)
    requires '/' in line
    ensures var rest := line[IndexOf(line, '/') + 1..];
      && name <= rest
      && '/' !in name && ' ' !in name
      && (|name| == |rest| || rest[|name|] == '/' || rest[|name|] == ' ')
  {
    var rest := line[IndexOf(line, '/') + 1..];
    var first := Split(rest, '/')[0];
    SplitFirst(rest, '/');
    SplitFirst(first, ' ');
    assert Split(first, ' ')[0] in Split(first, ' ');
    assert first in Split(rest, '/');
    Split(first, ' ')[0]
  }

  /** The record a header line `lines[h]` starts: its name, and the next
      line as it stands (`lines[h + 1] || ''`). */
  function PacmanRecord(lines: seq<string>, h: nat): SearchPackage
    requires h < |lines| && '/' in lines[h]
  {
    SearchPackage(PacmanName(lines[h]), if h + 1 < |lines| then lines[h + 1] else "", None)
  }

  /** The records from index `i` on: a line with `/` is a header and takes
      the line after it with it; any other line is skipped. */
  function PacmanRecords(lines: seq<string>, i: nat): seq<SearchPackage>
    decreases |lines| - i
  {
    if i >= |lines| then []
    else if '/' in lines[i] then [PacmanRecord(lines, i)] + PacmanRecords(lines, i + 2)
    else PacmanRecords(lines, i + 1)
  }

  /** The number of header lines from index `i` on. */
  function HeaderCount(lines: seq<string>, i: nat): nat
    decreases |lines| - i
  {
    if i >= |lines| then 0
    else (if '/' in lines[i] then 1 else 0) + HeaderCount(lines, i + 1)
  }

  /** There are no more records than lines with a `/`, and each record is
      the one some header line starts. */
  lemma {:induction false} PacmanRecordsFromHeaders(lines: seq<string>, i: nat)
    ensures |PacmanRecords(lines, i)| <= HeaderCount(lines, i)
    ensures forall p :: p in PacmanRecords(lines, i) ==>
      exists h :: i <= h < |lines| && '/' in lines[h] && p == PacmanRecord(lines, h)
    decreases |lines| - i
  {
    if i < |lines| {
      if '/' in lines[i] {
        PacmanRecordsFromHeaders(lines, i + 2);
        if i + 1 < |lines| {
          assert HeaderCount(lines, i + 1) >= HeaderCount(lines, i + 2);
        }
      } else {
        PacmanRecordsFromHeaders(lines, i + 1);
      }
    }
  }

  /** Records read further into a longer output are the records of its
      tail: what comes before index `|xs|` does not affect them. */
  lemma {:induction false} PacmanRecordsShift(xs: seq<string>, ys: seq<string>, i: nat)
    ensures PacmanRecords(xs + ys, |xs| + i) == PacmanRecords(ys, i)
    decreases |ys| - i
  {
    var lines := xs + ys;
    if i < |ys| {
      assert lines[|xs| + i] == ys[i];
      if '/' in ys[i] {
        PacmanRecordsShift(xs, ys, i + 2);
        if i + 1 < |ys| {
          assert lines[|xs| + i + 1] == ys[i + 1];
        }
        assert PacmanRecord(lines, |xs| + i) == PacmanRecord(ys, i);
      } else {
        PacmanRecordsShift(xs, ys, i + 1);
      }
    }
  }

  /** pacman's output as header and description lines, pair by pair. */
  function Interleave(pairs: seq<(string, string)>): seq<string> {
    if pairs == [] then [] else [pairs[0].0, pairs[0].1] + Interleave(pairs[1..])
  }

  /** Output in the expected two-line form gives one record per pair, each
      named from its header and carrying its own description, even when a
      description itself contains a `/`. */
  lemma {:induction false} PacmanPairs(pairs: seq<(string, string)>)
    requires forall t :: 0 <= t < |pairs| ==> '/' in pairs[t].0
    ensures |PacmanRecords(Interleave(pairs), 0)| == |pairs|
    ensures forall t :: 0 <= t < |pairs| ==>
      PacmanRecords(Interleave(pairs), 0)[t] == SearchPackage(PacmanName(pairs[t].0), pairs[t].1, None)
  {
    if pairs != [] {
      var rest := pairs[1..];
      PacmanPairs(rest);
      PacmanPairsStep(pairs);
      var records := PacmanRecords(Interleave(pairs), 0);
      forall t | 1 <= t < |pairs|
        ensures records[t] == SearchPackage(PacmanName(pairs[t].0), pairs[t].1, None)
      {
        assert pairs[t] == rest[t - 1];
      }
    }
  }

  /** The first pair gives the first record, and the rest are the records
      of the remaining pairs. */
  lemma PacmanPairsStep(pairs: seq<(string, string)>)
    requires pairs != [] && '/' in pairs[0].0
    ensures PacmanRecords(Interleave(pairs), 0)
         == [SearchPackage(PacmanName(pairs[0].0), pairs[0].1, None)] + PacmanRecords(Interleave(pairs[1..]), 0)
  {
    var head := [pairs[0].0, pairs[0].1];
    var tail := Interleave(pairs[1..]);
    var lines := Interleave(pairs);
    assert lines == head + tail;
    assert lines[0] == pairs[0].0 && lines[1] == pairs[0].1;
    PacmanRecordsShift(head, tail, 0);
    assert PacmanRecords(lines, 0) == [PacmanRecord(lines, 0)] + PacmanRecords(lines, 2);
  }

  /** A header written as `repo/name` followed by a space, a `/` or
      nothing reads back as `name`. */
  lemma PacmanNameOf(repo: string, name: string, tail: string)
    requires '/' !in repo && '/' !in name && ' ' !in name
    requires tail == [] || tail[0] == ' ' || tail[0] == '/'
    ensures PacmanName(repo + "/" + name + tail) == name
  {
    var line := repo + "/" + name + tail;
    assert line[..|repo|] == repo && line[|repo|] == '/';
    IndexOfIsFirst(line, '/', |repo|);
    var rest := line[|repo| + 1..];
    assert rest == name + tail;
    var read := PacmanName(line);
    assert forall x :: 0 <= x < |name| ==> rest[x] == name[x];
    assert |rest| > |name| ==> rest[|name|] == tail[0];
    assert |read| == |name|;
  }

  /** A pacman record keeps its description line as it stands, leading
      indentation included. */
  lemma PacmanDescriptionUntrimmed()
    ensures PacmanRecords(["extra/htop 3.2.2-1", "    Interactive process viewer"], 0)
         == [SearchPackage("htop", "    Interactive process viewer", None)]
  {
    var lines := ["extra/htop 3.2.2-1", "    Interactive process viewer"];
    assert lines[0] == "extra" + "/" + "htop" + " 3.2.2-1";
    PacmanNameOf("extra", "htop", " 3.2.2-1");
    assert '/' in lines[0];
    assert PacmanRecords(lines, 0) == [PacmanRecord(lines, 0)] + PacmanRecords(lines, 2);
  }

  // ---------------------------------------------------------------------
  // Search results

  /** The unfiltered packages of a search, by manager. */
  function SearchRecords(pm: Backend, lines: seq<string>): seq<SearchPackage> {
    match pm
    case Apt => Collect(lines, AptSearchLine)
    case Dnf => Collect(lines, DnfSearchLine)
    case Pacman => PacmanRecords(lines, 0)
  }

  /** Whether a package passes the search-type filter for an already
      lower-cased query. */
  predicate MatchesSearchType(p: SearchPackage, searchType: string, query: string) {
    if searchType == "name" then Contains(Lower(p.name), query)
    else if searchType == "description" then Contains(Lower(p.description), query)
    else true
  }

  /** The callback handed to `packages.filter`. */
  function SearchTypeTest(searchType: string, query: string): SearchPackage -> bool {
    (p: SearchPackage) => MatchesSearchType(p, searchType, query)
  }

  /** The search-type filter (renderer.js:130-143). */
  function SearchTypeFilter(packages: seq<SearchPackage>, searchType: string, query: string): seq<SearchPackage> {
    if searchType == "all" then packages
    else Filter(packages, SearchTypeTest(searchType, query))
  }

  /** The filter keeps packages in order and drops only those that fail
      the selected test, keeping every copy of those that pass; `all`, an
      unknown type or an empty query keep every package. */
  lemma SearchTypeFilterSpec(packages: seq<SearchPackage>, searchType: string, query: string)
    ensures IsSubsequence(SearchTypeFilter(packages, searchType, query), packages)
    ensures forall p :: p in packages ==>
      (p in SearchTypeFilter(packages, searchType, query) <==>
        searchType == "all" || MatchesSearchType(p, searchType, query))
    ensures searchType == "name" ==> forall p :: p in packages ==>
      (p in SearchTypeFilter(packages, searchType, query) <==> Contains(Lower(p.name), query))
    ensures searchType == "description" ==> forall p :: p in packages ==>
      (p in SearchTypeFilter(packages, searchType, query) <==> Contains(Lower(p.description), query))
    ensures searchType !in ["name", "description"] || query == [] ==>
      SearchTypeFilter(packages, searchType, query) == packages
    ensures forall p ::
              multiset(SearchTypeFilter(packages, searchType, query))[p] ==
              if searchType == "all" || MatchesSearchType(p, searchType, query) then multiset(packages)[p] else 0
  {
    if searchType == "all" {
      SubsequenceOfSelf(packages);
    } else {
      var keep := SearchTypeTest(searchType, query);
      FilterIsSubsequence(packages, keep);
      FilterCount(packages, keep);
      if searchType !in ["name", "description"] || query == [] {
        forall p | p in packages
          ensures keep(p)
        {
          if query == [] {
            assert query <= Lower(p.name) && query <= Lower(p.description);
          }
        }
        FilterAll(packages, keep);
      }
    }
  }

  /** `parseSearchResults(data, pm)` (renderer.js:99-144), with the search
      box's text and the selected search type, which it reads from the
      page, as parameters. */
  method ParseSearchResults(data: string, pm: Backend, searchInputValue: string, searchType: string)
    returns (packages: seq<SearchPackage>)
    ensures packages == SearchTypeFilter(SearchRecords(pm, Lines(data)), searchType, Lower(Trim(searchInputValue)))
  {
    var lines := Lines(data);
    match pm {
      case Pacman => packages := ParsePacmanLines(lines);
      case Apt => packages := CollectLines(lines, AptSearchLine);
      case Dnf => packages := CollectLines(lines, DnfSearchLine);
    }
    if searchType != "all" {
      var query := Lower(Trim(searchInputValue));
      packages := Filter(packages, SearchTypeTest(searchType, query));
    }
  }

  /** The pacman loop: a line holding `/` is a header, and the line after it,
      if any, its description; the loop then skips both. */
  method ParsePacmanLines(lines: seq<string>) returns (packages: seq<SearchPackage>)
    ensures packages == PacmanRecords(lines, 0)
  {
    packages := [];
    var i := 0;
    while i < |lines|
      invariant 0 <= i <= |lines| + 1
      invariant packages + PacmanRecords(lines, i) == PacmanRecords(lines, 0)
      decreases |lines| - i
    {
      if '/' in lines[i] {
        var name := PacmanName(lines[i]);
        var description := if i + 1 < |lines| then lines[i + 1] else "";
        packages := packages + [SearchPackage(name, description, None)];
        i := i + 1;
      }
      i := i + 1;
    }
    assert packages + [] == packages;
  }

  /** The one-record-per-line loop shared by the apt and dnf search parsers
      and by the installed-package parser. */
  method CollectLines<T>(lines: seq<string>, parseLine: string -> Option<T>) returns (packages: seq<T>)
    ensures packages == Collect(lines, parseLine)
  {
    packages := [];
    var k := 0;
    while k < |lines|
      invariant 0 <= k <= |lines|
      invariant packages == Collect(lines[..k], parseLine)
    {
      assert lines[..k + 1][..k] == lines[..k];
      match parseLine(lines[k]) {
        case Some(p) => packages := packages + [p];
        case None =>
      }
      k := k + 1;
    }
    assert lines[..k] == lines;
  }

  // ---------------------------------------------------------------------
  // apt installed: `name/suite version arch [installed,...]`

  predicate IsVersionChar(c: char) {
    IsDigit(c) || c == '.' || c == '-' || c == ':'
  }

  /** The strings `\d+[\d.\-:]+\d+` matches: at least three characters, all
      digits, `.`, `-` or `:`, beginning and ending with a digit. */
  predicate IsVersion(v: string) {
    && |v| >= 3
    && IsDigit(v[0])
    && IsDigit(v[|v| - 1])
    && forall k :: 0 <= k < |v| ==> IsVersionChar(v[k])
  }

  /** No version begins in `[from, to)`. */
  predicate NoVersionIn(s: string, from: nat, to: nat) {
    forall a, b :: from <= a < to && a <= b <= |s| ==> !IsVersion(s[a..b])
  }

  lemma NoVersionStep(s: string, p: nat, q: nat)
    requires p <= |s| && forall b :: p <= b <= |s| ==> !IsVersion(s[p..b])
    requires NoVersionIn(s, p + 1, q)
    ensures NoVersionIn(s, p, q)
  {
  }

  /** The end of the run of version characters that starts at `i`. */
  function VersionRunEnd(s: string, i: nat): (k: nat)
    requires i <= |s|
    ensures i <= k <= |s|
    ensures forall m :: i <= m < k ==> IsVersionChar(s[m])
    ensures k < |s| ==> !IsVersionChar(s[k])
    decreases |s| - i
  {
    if i == |s| || !IsVersionChar(s[i]) then i else VersionRunEnd(s, i + 1)
  }

  /** The last digit in `s[lo..hi]`, which begins with one. */
  function LastDigit(s: string, lo: nat, hi: nat): (m: nat)
    requires lo < hi <= |s| && IsDigit(s[lo])
    ensures lo <= m < hi && IsDigit(s[m])
    ensures forall x :: m < x < hi ==> !IsDigit(s[x])
    decreases hi
  {
    if IsDigit(s[hi - 1]) then hi - 1 else LastDigit(s, lo, hi - 1)
  }

  /** A version that starts at `p` lies inside the run of version
      characters from `p`, which ends at `run`, and ends at a digit of it. */
  lemma VersionWithin(s: string, p: nat, b: nat, run: nat)
    requires p <= b <= |s| && IsVersion(s[p..b])
    requires p <= run <= |s| && (run < |s| ==> !IsVersionChar(s[run]))
    ensures b <= run && IsDigit(s[b - 1]) && b >= p + 3 && IsDigit(s[p])
  {
    var v := s[p..b];
    forall x | p <= x < b
      ensures IsVersionChar(s[x])
    {
      assert v[x - p] == s[x];
    }
    assert v[|v| - 1] == s[b - 1];
    assert v[0] == s[p];
  }

  /** At a digit, the versions that start there are exactly those ending
      at a digit of the run of version characters (which ends at `run`),
      the longest reaching the run's last digit `last`. */
  lemma VersionsAt(s: string, p: nat, run: nat, last: nat)
    requires p < run <= |s| && IsDigit(s[p])
    requires forall m :: p <= m < run ==> IsVersionChar(s[m])
    requires run < |s| ==> !IsVersionChar(s[run])
    requires p <= last < run && IsDigit(s[last]) && forall x :: last < x < run ==> !IsDigit(s[x])
    ensures last >= p + 2 ==> IsVersion(s[p..last + 1])
    ensures forall b :: p <= b <= |s| && IsVersion(s[p..b]) ==> last >= p + 2 && b <= last + 1
  {
    if last >= p + 2 {
      VersionBetween(s, p, last, run);
    }
    forall b | p <= b <= |s| && IsVersion(s[p..b])
      ensures last >= p + 2 && b <= last + 1
    {
      VersionWithin(s, p, b, run);
    }
  }

  /** Three or more version characters from a digit to a digit make a
      version. */
  lemma VersionBetween(s: string, p: nat, last: nat, run: nat)
    requires p + 2 <= last < run <= |s| && IsDigit(s[p]) && IsDigit(s[last])
    requires forall m :: p <= m < run ==> IsVersionChar(s[m])
    ensures IsVersion(s[p..last + 1])
  {
    var v := s[p..last + 1];
    assert v[0] == s[p];
    assert v[|v| - 1] == s[last];
    forall x | 0 <= x < |v|
      ensures IsVersionChar(v[x])
    {
      assert v[x] == s[p + x];
    }
  }

  /** The first match of `/(\d+[\d.\-:]+\d+)/` in `s` at or after `p`: the
      leftmost start, and from there the longest match. */
  function VersionSearch(s: string, p: nat): (r: Option<(nat, nat)>)
    requires p <= |s|
    ensures r.Some? ==>
      && p <= r.value.0 < r.value.1 <= |s|
      && IsVersion(s[r.value.0..r.value.1])
      && NoVersionIn(s, p, r.value.0)
      && forall b :: r.value.1 < b <= |s| ==> !IsVersion(s[r.value.0..b])
    ensures r.None? ==> NoVersionIn(s, p, |s|)
    decreases |s| - p
  {
    if p == |s| then None
    else if IsDigit(s[p]) && LastDigit(s, p, VersionRunEnd(s, p)) >= p + 2 then
      var run := VersionRunEnd(s, p);
      var last := LastDigit(s, p, run);
      VersionsAt(s, p, run, last);
      Some((p, last + 1))
    else
      var r := VersionSearch(s, p + 1);
      NoVersionAt(s, p);
      NoVersionStep(s, p, if r.Some? then r.value.0 else |s|);
      r
  }

  /** Where the run from a digit holds fewer than three characters up to its
      last digit, or where there is no digit, no version starts. */
  lemma NoVersionAt(s: string, p: nat)
    requires p < |s|
    requires !(IsDigit(s[p]) && LastDigit(s, p, VersionRunEnd(s, p)) >= p + 2)
    ensures forall b :: p <= b <= |s| ==> !IsVersion(s[p..b])
  {
    if IsDigit(s[p]) {
      VersionsAt(s, p, VersionRunEnd(s, p), LastDigit(s, p, VersionRunEnd(s, p)));
    } else {
      forall b | p <= b <= |s| && |s[p..b]| > 0
        ensures s[p..b][0] == s[p]
      {
      }
    }
  }

  /** `line.match(/(\d+[\d.\-:]+\d+)/)`, with `''` when nothing matches. */
  function AptVersion(line: string): string {
    match VersionSearch(line, 0)
    case Some((i, j)) => line[i..j]
    case None => ""
  }

  /** `line.includes('[installed')` keeps a line; the name is
      `line.split('/')[0]` and the version the first version-like run. */
  function AptInstalledLine(line: string): Option<InstalledPackage> {
    if Contains(line, "[installed") then
      Some(InstalledPackage(Split(line, '/')[0], AptVersion(line)))
    else None
  }

  /** Only `[installed` lines give packages; the name is everything before
      the first `/`; the version is a version-like substring of the line,
      and it is empty only when the line has none. */
  lemma AptInstalledLineSpec(line: string)
    ensures AptInstalledLine(line).Some? <==> Contains(line, "[installed")
    ensures AptInstalledLine(line).Some? ==>
      var p := AptInstalledLine(line).value;
      && p.name <= line
      && '/' !in p.name
      && (|p.name| == |line| || line[|p.name|] == '/')
      && (p.version == [] <==> NoVersionIn(line, 0, |line|))
      && (p.version != [] ==> IsVersion(p.version) && Contains(line, p.version))
  {
    SplitFirst(line, '/');
    assert Split(line, '/')[0] in Split(line, '/');
    AptVersionSpec(line);
  }

  /** The version read from `s` is empty exactly when `s` holds no
      version-like run, and otherwise it is one that occurs in `s`. */
  lemma AptVersionSpec(s: string)
    ensures AptVersion(s) == [] <==> NoVersionIn(s, 0, |s|)
    ensures AptVersion(s) != [] ==> IsVersion(AptVersion(s)) && Contains(s, AptVersion(s))
  {
    var r := VersionSearch(s, 0);
    if r.Some? {
      var i, j := r.value.0, r.value.1;
      assert s[i..j] <= s[i..];
      ContainsIff(s, s[i..j]);
    }
  }

  /** The version is searched for from the start of the line, so when the
      package's own name holds a version-like run (`python3.10`,
      `linux-image-5.15.0-91-generic`), the version reported starts inside
      the name. */
  lemma AptVersionFromName(line: string, a: nat, b: nat)
    requires Contains(line, "[installed")
    requires a <= b <= |Split(line, '/')[0]| && IsVersion(line[a..b])
    ensures AptInstalledLine(line).Some?
    ensures VersionSearch(line, 0).Some?
    ensures VersionSearch(line, 0).value.0 < |AptInstalledLine(line).value.name|
  {
    SplitFirst(line, '/');
  }

  /** The version field as evidently intended: the same pattern, searched
      for only after the `name/suite` field. */
  function AptInstalledLineCorrected(line: string): Option<InstalledPackage> {
    if Contains(line, "[installed") then
      var fieldEnd := TokenEnd(line, 0);
      Some(InstalledPackage(Split(line, '/')[0], AptVersion(line[fieldEnd..])))
    else None
  }

  /** The corrected reading keeps the same lines and names, and its version
      is a version-like run that lies wholly after the name field; it is
      empty only when nothing after that field looks like a version. */
  lemma AptInstalledLineCorrectedSpec(line: string)
    ensures AptInstalledLineCorrected(line).Some? <==> Contains(line, "[installed")
    ensures AptInstalledLineCorrected(line).Some? ==>
      var p := AptInstalledLineCorrected(line).value;
      var fieldEnd := TokenEnd(line, 0);
      && p.name == AptInstalledLine(line).value.name
      && (p.version == [] <==> NoVersionIn(line[fieldEnd..], 0, |line| - fieldEnd))
      && (p.version != [] ==> IsVersion(p.version) && Contains(line[fieldEnd..], p.version))
  {
    if Contains(line, "[installed") {
      var tail := line[TokenEnd(line, 0)..];
      AptVersionSpec(tail);
      assert |tail| == |line| - TokenEnd(line, 0);
      assert AptInstalledLineCorrected(line) ==
        Some(InstalledPackage(AptInstalledLine(line).value.name, AptVersion(tail)));
    }
  }

  // ---------------------------------------------------------------------
  // dnf installed: `name.arch version repo`

  /** A line with at least two whitespace-separated parts that does not
      start with `Installed` gives a package: the first part up to its first
      `.` is the name, the second part the version. */
  function DnfInstalledLine(line: string): Option<InstalledPackage> {
    var parts := SplitWs(line);
    if |parts| >= 2 && !("Installed" <= line) then
      Some(InstalledPackage(Split(parts[0], '.')[0], parts[1]))
    else None
  }

  lemma DnfInstalledLineSpec(line: string)
    ensures DnfInstalledLine(line).Some? <==> !NoSpace(line) && !("Installed" <= line)
    ensures DnfInstalledLine(line).Some? ==>
      var p := DnfInstalledLine(line).value;
      var j := SpaceEnd(line, TokenEnd(line, 0));
      && p.name <= line[..TokenEnd(line, 0)]
      && '.' !in p.name
      && NoSpace(p.name)
      && (|p.name| == TokenEnd(line, 0) || line[|p.name|] == '.')
      && p.version == line[j..TokenEnd(line, j)]
      && NoSpace(p.version)
  {
    var parts := SplitWs(line);
    if DnfInstalledLine(line).Some? {
      SplitWsSecond(line, TokenEnd(line, 0), SpaceEnd(line, TokenEnd(line, 0)));
      SplitFirst(parts[0], '.');
      assert Split(parts[0], '.')[0] in Split(parts[0], '.');
      assert parts[1] in parts;
      var name := Split(parts[0], '.')[0];
      forall x | 0 <= x < |name|
        ensures !IsSpace(name[x])
      {
        assert name[x] == parts[0][x];
      }
      if |name| < TokenEnd(line, 0) {
        assert line[|name|] == parts[0][|name|];
      }
    }
  }

  // ---------------------------------------------------------------------
  // pacman installed: `name version`

  /** Two or more whitespace-separated parts give the first as the name
      and the second as the version. */
  function PacmanInstalledLine(line: string): Option<InstalledPackage> {
    var parts := SplitWs(line);
    if |parts| >= 2 then Some(InstalledPackage(parts[0], parts[1])) else None
  }

  lemma PacmanInstalledLineSpec(line: string)
    ensures PacmanInstalledLine(line).Some? <==> !NoSpace(line)
    ensures PacmanInstalledLine(line).Some? ==>
      var p := PacmanInstalledLine(line).value;
      var j := SpaceEnd(line, TokenEnd(line, 0));
      && p.name == line[..TokenEnd(line, 0)]
      && p.version == line[j..TokenEnd(line, j)]
      && NoSpace(p.name) && NoSpace(p.version)
  {
    var parts := SplitWs(line);
    if |parts| >= 2 {
      SplitWsSecond(line, TokenEnd(line, 0), SpaceEnd(line, TokenEnd(line, 0)));
      assert parts[1] in parts;
    }
  }

  // ---------------------------------------------------------------------
  // Installed packages

  function InstalledLineParser(pm: Backend): string -> Option<InstalledPackage> {
    match pm
    case Apt => AptInstalledLine
    case Dnf => DnfInstalledLine
    case Pacman => PacmanInstalledLine
  }

  /** The installed packages the output lists, by manager. */
  function InstalledRecords(pm: Backend, lines: seq<string>): seq<InstalledPackage> {
    Collect(lines, InstalledLineParser(pm))
  }

  /** `parseInstalledPackages(data, pm)` (renderer.js:258-294). */
  method ParseInstalledPackages(data: string, pm: Backend) returns (packages: seq<InstalledPackage>)
    ensures packages == InstalledRecords(pm, Lines(data))
  {
    packages := CollectLines(Lines(data), InstalledLineParser(pm));
  }

  /** Every dnf package's name is free of `.`, and no package comes from a
      line that starts with `Installed`. */
  lemma DnfInstalledRecords(data: string)
    ensures forall p :: p in InstalledRecords(PackageManager.Dnf, Lines(data)) ==>
      '.' !in p.name && NoSpace(p.name) && NoSpace(p.version)
    ensures forall l :: l in Lines(data) && "Installed" <= l ==> DnfInstalledLine(l).None?
  {
    var lines := Lines(data);
    CollectFromLines(lines, DnfInstalledLine);
    forall p | p in InstalledRecords(PackageManager.Dnf, lines)
      ensures '.' !in p.name && NoSpace(p.name) && NoSpace(p.version)
    {
      var l :| l in lines && DnfInstalledLine(l) == Some(p);
      DnfInstalledLineSpec(l);
    }
  }

  /** Every apt package comes from a line carrying `[installed`; its name
      is free of `/` and its version is empty or version-like. */
  lemma AptInstalledRecords(data: string)
    ensures forall p :: p in InstalledRecords(PackageManager.Apt, Lines(data)) ==>
      '/' !in p.name && (p.version == [] || IsVersion(p.version))
    ensures forall l :: l in Lines(data) && !Contains(l, "[installed") ==> AptInstalledLine(l).None?
  {
    var lines := Lines(data);
    CollectFromLines(lines, AptInstalledLine);
    forall p | p in InstalledRecords(PackageManager.Apt, lines)
      ensures '/' !in p.name && (p.version == [] || IsVersion(p.version))
    {
      var l :| l in lines && AptInstalledLine(l) == Some(p);
      AptInstalledLineSpec(l);
    }
  }

  /** The installed list as evidently intended: apt lines are read with the
      version searched for after the `name/suite` field. */
  function InstalledRecordsCorrected(pm: Backend, lines: seq<string>): seq<InstalledPackage> {
    if pm.Apt? then Collect(lines, AptInstalledLineCorrected) else InstalledRecords(pm, lines)
  }

  /** `p` is what the corrected reading takes from `l`: a `[installed` line,
      the name before its first `/`, and a version that is empty or a
      version-like run after the line's first field. */
  predicate CorrectedFrom(p: InstalledPackage, l: string) {
    && Contains(l, "[installed")
    && p.name == Split(l, '/')[0]
    && '/' !in p.name
    && (p.version == [] || (IsVersion(p.version) && Contains(l[TokenEnd(l, 0)..], p.version)))
  }

  /** Under the corrected reading every apt package comes from a line of
      the output in that way. */
  lemma AptInstalledRecordsCorrected(data: string)
    ensures forall p :: p in InstalledRecordsCorrected(PackageManager.Apt, Lines(data)) ==>
      exists l :: l in Lines(data) && CorrectedFrom(p, l)
  {
    var lines := Lines(data);
    CollectFromLines(lines, AptInstalledLineCorrected);
    forall p | p in InstalledRecordsCorrected(PackageManager.Apt, lines)
      ensures exists l :: l in lines && CorrectedFrom(p, l)
    {
      var l :| l in lines && AptInstalledLineCorrected(l) == Some(p);
      AptInstalledLineSpec(l);
      AptInstalledLineCorrectedSpec(l);
      assert CorrectedFrom(p, l);
    }
  }

  /** A blank line changes neither parse. */
  lemma BlankLinesIgnoredByParsers(pre: string, blank: string, post: string, pm: Backend)
    requires AllSpace(blank)
    ensures SearchRecords(pm, Lines(pre + "\n" + blank + "\n" + post)) == SearchRecords(pm, Lines(pre + "\n" + post))
    ensures InstalledRecords(pm, Lines(pre + "\n" + blank + "\n" + post)) == InstalledRecords(pm, Lines(pre + "\n" + post))
  {
    BlankLinesDropped(pre, blank, post);
  }
}
