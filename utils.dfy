/**
 * Branch inspection (src/utils.ts): reading the `git branch -a` listing,
 * picking out the remote trunk branches, and reading the repository name
 * from the remote URL. The outputs of the `git` queries are parameters:
 * `None` stands for output that is missing.
 */
module Utils {
  import opened Wrappers
  import opened Text
  import opened Workspace

  /** The characters a regular-expression `.` does not match. */
  predicate IsLineTerminator(c: char) {
    c == '\n' || c == '\r' || c == '\U{2028}' || c == '\U{2029}'
  }

  // ---------------------------------------------------------------------
  // getBranches

  /** The number of spaces at the start of `s`. */
  function LeadingSpaces(s: string): (n: nat)
    ensures n <= |s|
    ensures forall k :: 0 <= k < n ==> s[k] == ' '
    ensures n < |s| ==> s[n] != ' '
  {
    if s != [] && s[0] == ' ' then 1 + LeadingSpaces(s[1..]) else 0
  }

  /** `p` matches `\*? +` in full: an optional `*`, then one or more spaces. */
  predicate MarkerPrefix(p: string) {
    var start := if |p| > 0 && p[0] == '*' then 1 else 0;
    start < |p| && forall k :: start <= k < |p| ==> p[k] == ' '
  }

  /**
   * `line.replace(/^\*? +/, '')`: the result is what follows the longest
   * prefix of `line` matching `\*? +`, or `line` itself when no prefix
   * matches (a line without a leading space, such as `*main`, is kept whole).
   */
  function StripMarker(line: string): (r: string)
    ensures |r| <= |line| && r == line[|line| - |r|..]
    ensures |r| == |line| || MarkerPrefix(line[..|line| - |r|])
    ensures forall k :: |line| - |r| < k <= |line| ==> !MarkerPrefix(line[..k])
  {
    if |line| >= 2 && line[0] == '*' && line[1] == ' ' then
      var n := LeadingSpaces(line[1..]);
      assert forall k :: 1 + n < k <= |line| ==> line[..k][1 + n] == line[1..][n];
      line[1 + n..]
    else
      var n := LeadingSpaces(line);
      assert forall k :: n < k <= |line| ==> line[..k][n] == line[n];
      line[n..]
  }

  /** The lines of `text` with their selection markers stripped. */
  function StripAll(lines: seq<string>): (r: seq<string>)
    ensures |r| == |lines|
    ensures forall k :: 0 <= k < |lines| ==> r[k] == StripMarker(lines[k])
  {
    seq(|lines|, k requires 0 <= k < |lines| => StripMarker(lines[k]))
  }

  /**
   * `getBranches` on the combined output of `git branch -a`: missing or
   * empty output is an error; otherwise one entry per `\n`-separated line,
   * stripped of its selection marker.
   */
  function GetBranches(all: Option<string>): (r: Result<seq<string>, Error>)
    ensures r.Err? <==> all.None? || all.value == ""
    ensures r.Err? ==> r.error == NoBranches
    ensures r.Ok? ==> |r.value| == multiset(all.value)['\n'] + 1
  {
    if all.None? || all.value == "" then Err(NoBranches)
    else
      SplitCount(all.value, '\n');
      Ok(StripAll(Split(all.value, '\n')))
  }

  /** A listing made of lines gives back those lines, in order, each stripped. */
  lemma BranchesOfLines(lines: seq<string>)
    requires |lines| > 0
    requires forall k :: 0 <= k < |lines| ==> '\n' !in lines[k]
    requires Join(lines, '\n') != ""
    ensures GetBranches(Some(Join(lines, '\n'))) == Ok(StripAll(lines))
  {
    SplitJoin(lines, '\n');
  }

  // ---------------------------------------------------------------------
  // getMainBranches

  /** The branch names captured by MAIN_BRANCHES_RE. */
  const Trunks: seq<string> := ["develop", "main", "master"]

  const RemotePrefix := "remotes/origin/"

  /**
   * MAIN_BRANCHES_RE, `remotes\/origin\/(develop|main|master)$`, matches
   * `line` from index `i` with `t` captured: the match runs to the end.
   */
  predicate TrunkMatchAt(line: string, i: nat, t: string) {
    t in Trunks && i <= |line| && line[i..] == RemotePrefix + t
  }

  predicate EndsWith(s: string, suffix: string) {
    |suffix| <= |s| && s[|s| - |suffix|..] == suffix
  }

  /** A match is anchored at the end of the line: the line ends with the prefix and the trunk's name. */
  lemma TrunkMatchAtEnd(line: string, i: nat, t: string)
    requires TrunkMatchAt(line, i, t)
    ensures i == |line| - |RemotePrefix + t| && EndsWith(line, RemotePrefix + t)
    ensures line[|line| - 1] == t[|t| - 1]
  {
    var w := RemotePrefix + t;
    assert |line[i..]| == |w|;
    assert line[|line| - 1] == w[|w| - 1];
  }

  /** A line that ends with the prefix and a trunk's name ends with that name's last letter. */
  lemma EndsWithLast(line: string, t: string)
    requires t != [] && EndsWith(line, RemotePrefix + t)
    ensures line[|line| - 1] == t[|t| - 1]
  {
    var w := RemotePrefix + t;
    assert line[|line| - 1] == line[|line| - |w|..][|w| - 1];
  }

  /**
   * `line.match(MAIN_BRANCHES_RE)?.groups.branch`: the captured trunk name
   * when the regular expression matches, nothing otherwise.
   */
  function MatchTrunk(line: string): (r: Option<string>)
    ensures r.Some? ==> r.value in Trunks && EndsWith(line, RemotePrefix + r.value)
  {
    if EndsWith(line, RemotePrefix + "develop") then Some("develop")
    else if EndsWith(line, RemotePrefix + "main") then Some("main")
    else if EndsWith(line, RemotePrefix + "master") then Some("master")
    else None
  }

  /** Whenever the expression matches, `MatchTrunk` reports the name it captures. */
  lemma MatchTrunkCaptures(line: string, i: nat, t: string)
    requires TrunkMatchAt(line, i, t)
    ensures MatchTrunk(line) == Some(t)
  {
    TrunkMatchAtEnd(line, i, t);
    if EndsWith(line, RemotePrefix + "develop") {
      EndsWithLast(line, "develop");
    } else if EndsWith(line, RemotePrefix + "main") {
      EndsWithLast(line, "main");
    }
  }

  /** `MatchTrunk` finds nothing exactly when the expression matches nowhere in the line. */
  lemma MatchTrunkNone(line: string)
    ensures MatchTrunk(line).None? <==> forall i: nat, t :: !TrunkMatchAt(line, i, t)
  {
    forall i: nat, t | TrunkMatchAt(line, i, t)
      ensures MatchTrunk(line).Some?
    {
      MatchTrunkCaptures(line, i, t);
    }
    if MatchTrunk(line).Some? {
      var t := MatchTrunk(line).value;
      assert TrunkMatchAt(line, |line| - |RemotePrefix + t|, t);
    }
  }

  /**
   * `getMainBranches` after the listing is read: the left fold that appends
   * the captured name of each matching line.
   */
  function MainBranches(lines: seq<string>): (r: seq<string>)
    ensures |r| <= |lines|
    ensures forall k :: 0 <= k < |r| ==> r[k] in Trunks
  {
    if lines == [] then []
    else
      var init := MainBranches(lines[..|lines| - 1]);
      match MatchTrunk(lines[|lines| - 1])
      case Some(b) => init + [b]
      case None => init
  }

  /** The indices of the lines MAIN_BRANCHES_RE matches, in increasing order. */
  function MatchIndices(lines: seq<string>): (r: seq<nat>)
    ensures forall k :: 0 <= k < |r| ==> r[k] < |lines| && MatchTrunk(lines[r[k]]).Some?
  {
    if lines == [] then []
    else
      var last: nat := |lines| - 1;
      var init := MatchIndices(lines[..last]);
      assert forall k :: 0 <= k < |init| ==> init[k] < last && lines[init[k]] == lines[..last][init[k]];
      if MatchTrunk(lines[last]).Some? then init + [last] else init
  }

  /** The indices come in increasing order. */
  lemma {:induction false} MatchIndicesIncrease(lines: seq<string>)
    ensures forall k, l :: 0 <= k < l < |MatchIndices(lines)| ==> MatchIndices(lines)[k] < MatchIndices(lines)[l]
    decreases |lines|
  {
    if lines != [] {
      var last: nat := |lines| - 1;
      var init := MatchIndices(lines[..last]);
      MatchIndicesIncrease(lines[..last]);
      assert MatchIndices(lines) == if MatchTrunk(lines[last]).Some? then init + [last] else init;
    }
  }

  /** Every matching line has its index in the list. */
  lemma {:induction false} MatchIndicesComplete(lines: seq<string>, i: nat)
    requires i < |lines| && MatchTrunk(lines[i]).Some?
    ensures i in MatchIndices(lines)
    decreases |lines|
  {
    var last := |lines| - 1;
    var init := MatchIndices(lines[..last]);
    var found := MatchTrunk(lines[last]).Some?;
    assert MatchIndices(lines) == if found then init + [last] else init;
    if i < last {
      assert lines[..last][i] == lines[i];
      MatchIndicesComplete(lines[..last], i);
      assert i in init;
    } else {
      assert (init + [last])[|init|] == i;
    }
  }

  /**
   * The trunk list holds, in listing order, the captured name of exactly
   * the lines that match, one entry per matching line.
   */
  lemma {:induction false} MainBranchesAreMatches(lines: seq<string>)
    ensures |MainBranches(lines)| == |MatchIndices(lines)|
    ensures forall k :: 0 <= k < |MatchIndices(lines)| ==>
      MainBranches(lines)[k] == MatchTrunk(lines[MatchIndices(lines)[k]]).value
  {
    if lines != [] {
      var last := |lines| - 1;
      MainBranchesAreMatches(lines[..last]);
      assert forall i :: 0 <= i < last ==> lines[..last][i] == lines[i];
    }
  }

  /** No trunk line gives an empty list, not an error. */
  lemma MainBranchesEmpty(lines: seq<string>)
    ensures MainBranches(lines) == [] <==> forall i :: 0 <= i < |lines| ==> MatchTrunk(lines[i]).None?
  {
    MainBranchesAreMatches(lines);
    if MainBranches(lines) == [] {
      forall i | 0 <= i < |lines| ensures MatchTrunk(lines[i]).None? {
        if MatchTrunk(lines[i]).Some? {
          MatchIndicesComplete(lines, i);
        }
      }
    }
  }

  /** The fold distributes over concatenated listings. */
  lemma {:induction false} MainBranchesAppend(a: seq<string>, b: seq<string>)
    ensures MainBranches(a + b) == MainBranches(a) + MainBranches(b)
    decreases |b|
  {
    if b == [] {
      assert a + b == a;
    } else {
      var last := |b| - 1;
      assert (a + b)[..|a + b| - 1] == a + b[..last];
      MainBranchesAppend(a, b[..last]);
    }
  }

  /** `getMainBranches`: the trunk names of the listing, or its error. */
  function GetMainBranches(all: Option<string>): (r: Result<seq<string>, Error>)
    ensures r.Err? <==> GetBranches(all).Err?
    ensures r.Err? ==> r.error == NoBranches
    ensures r.Ok? ==> forall k :: 0 <= k < |r.value| ==> r.value[k] in Trunks
  {
    match GetBranches(all)
    case Err(e) => Err(e)
    case Ok(lines) => Ok(MainBranches(lines))
  }

  // ---------------------------------------------------------------------
  // getCurrentBranch

  /** `getCurrentBranch`: the output of `git branch --show-current`, which must not be empty. */
  function GetCurrentBranch(all: Option<string>): (r: Result<string, Error>)
    ensures r.Err? <==> all.None? || all.value == ""
    ensures r.Err? ==> r.error == NoCurrentBranch
    ensures r.Ok? ==> r.value == all.value
  {
    if all.None? || all.value == "" then Err(NoCurrentBranch) else Ok(all.value)
  }

  // ---------------------------------------------------------------------
  // getRepoName

  const Org := "labforward/"

  const GitSuffix := ".git"

  /**
   * `labforward\/(?<repoName>.*)\.git` matches `url` from index `i`, with the
   * `\.git` at index `j`: the group is `url[i + |Org|..j]`, on one line.
   */
  predicate RepoMatch(url: string, i: nat, j: nat) {
    OccursAt(url, Org, i) && i + |Org| <= j && OccursAt(url, GitSuffix, j)
    && forall k :: i + |Org| <= k < j ==> !IsLineTerminator(url[k])
  }

  /** The match the regular-expression engine reports: the leftmost start, then the longest group. */
  ghost predicate ChosenMatch(url: string, i: nat, j: nat) {
    RepoMatch(url, i, j)
    && (forall i': nat, j': nat :: i' < i ==> !RepoMatch(url, i', j'))
    && (forall j': nat :: j < j' ==> !RepoMatch(url, i, j'))
  }

  /** The index of the first line terminator at or after `k`, or `|s|`. */
  function LineEnd(s: string, k: nat): (e: nat)
    requires k <= |s|
    ensures k <= e <= |s|
    ensures e < |s| ==> IsLineTerminator(s[e])
    ensures forall m :: k <= m < e ==> !IsLineTerminator(s[m])
    decreases |s| - k
  {
    if k == |s| || IsLineTerminator(s[k]) then k else LineEnd(s, k + 1)
  }

  /** The last index `j` with `lo <= j` and `j + |pat| <= hi` where `pat` occurs. */
  function LastOccurrence(s: string, pat: string, lo: nat, hi: nat): (r: Option<nat>)
    requires hi <= |s|
    ensures r.Some? ==> lo <= r.value && r.value + |pat| <= hi && OccursAt(s, pat, r.value)
    ensures forall j: nat :: lo <= j && j + |pat| <= hi && OccursAt(s, pat, j) ==> r.Some? && j <= r.value
    decreases hi
  {
    if hi < lo + |pat| then None
    else if OccursAt(s, pat, hi - |pat|) then Some(hi - |pat|)
    else if hi == 0 then None
    else LastOccurrence(s, pat, lo, hi - 1)
  }

  /** With `labforward/` at `i`, the matches from `i` end exactly at the `.git`s before the line ends. */
  lemma RepoMatchFrom(url: string, i: nat, j: nat)
    requires OccursAt(url, Org, i)
    ensures RepoMatch(url, i, j) <==>
      i + |Org| <= j && j + |GitSuffix| <= LineEnd(url, i + |Org|) && OccursAt(url, GitSuffix, j)
  {
  }

  /** The matches that start at `i`: the longest one ends at the last `.git` before the line ends. */
  lemma RepoMatchesAt(url: string, i: nat)
    requires i + |Org| <= |url|
    ensures !OccursAt(url, Org, i) ==> forall j': nat :: !RepoMatch(url, i, j')
    ensures OccursAt(url, Org, i) ==>
      match LastOccurrence(url, GitSuffix, i + |Org|, LineEnd(url, i + |Org|))
      case Some(j) => RepoMatch(url, i, j) && forall j': nat :: j < j' ==> !RepoMatch(url, i, j')
      case None => forall j': nat :: !RepoMatch(url, i, j')
  {
    if OccursAt(url, Org, i) {
      forall j': nat ensures RepoMatch(url, i, j') <==>
        i + |Org| <= j' && j' + |GitSuffix| <= LineEnd(url, i + |Org|) && OccursAt(url, GitSuffix, j')
      {
        RepoMatchFrom(url, i, j');
      }
    }
  }

  /** Scans start positions from `i` for the reported match. */
  function FindRepoMatch(url: string, i: nat): (r: Option<(nat, nat)>)
    ensures r.Some? ==> i <= r.value.0 && RepoMatch(url, r.value.0, r.value.1)
    ensures r.Some? ==> forall i': nat, j': nat :: i <= i' < r.value.0 ==> !RepoMatch(url, i', j')
    ensures r.Some? ==> forall j': nat :: r.value.1 < j' ==> !RepoMatch(url, r.value.0, j')
    ensures r.None? ==> forall i': nat, j': nat :: i <= i' ==> !RepoMatch(url, i', j')
    decreases |url| - i
  {
    if i + |Org| > |url| then None
    else
      var next := FindRepoMatch(url, i + 1);
      RepoMatchesAt(url, i);
      if OccursAt(url, Org, i) then
        var start := i + |Org|;
        match LastOccurrence(url, GitSuffix, start, LineEnd(url, start))
        case Some(j) => Some((i, j))
        case None => next
      else next
  }

  /**
   * `getRepoName` on the output of `git config --get remote.origin.url`:
   * the group of the reported match, failing when the output is missing,
   * when nothing matches, or when the group is empty.
   */
  function RepoName(remote: Option<string>): (r: Result<string, Error>)
    ensures r.Err? ==> r.error == NoRepoName(remote)
    ensures remote.None? ==> r.Err?
    ensures remote.Some? && (forall i: nat, j: nat :: !RepoMatch(remote.value, i, j)) ==> r.Err?
    ensures remote.Some? ==> forall i: nat, j: nat :: ChosenMatch(remote.value, i, j) ==>
      r == if j == i + |Org| then Err(NoRepoName(remote)) else Ok(remote.value[i + |Org|..j])
  {
    if remote.None? then Err(NoRepoName(remote))
    else
      var url := remote.value;
      match FindRepoMatch(url, 0)
      case None => Err(NoRepoName(remote))
      case Some((i, j)) =>
        assert forall i': nat, j': nat :: ChosenMatch(url, i', j') ==> i' == i && j' == j;
        if j == i + |Org| then Err(NoRepoName(remote)) else Ok(url[i + |Org|..j])
  }

  /**
   * A URL whose first `labforward/` is followed by the name and a final
   * `.git` on the same line yields that name, unless the name is empty.
   */
  lemma RepoNameOf(prefix: string, name: string)
    requires FirstOccurrence(prefix + Org, Org, |prefix|)
    requires forall k :: 0 <= k < |name| ==> !IsLineTerminator(name[k])
    ensures RepoName(Some(prefix + Org + name + GitSuffix)) ==
      if name == "" then Err(NoRepoName(Some(prefix + Org + name + GitSuffix))) else Ok(name)
  {
    var po := prefix + Org;
    var url := po + name + GitSuffix;
    assert url == po + (name + GitSuffix);
    var i, j := |prefix|, |po| + |name|;
    assert url[..|po|] == po;
    assert OccursAt(url, Org, i);
    assert url[i + |Org|..j] == name;
    assert RepoMatch(url, i, j) by {
      assert url[j..] == GitSuffix;
    }
    forall i': nat, j': nat | i' < i ensures !RepoMatch(url, i', j') {
      assert url[i'..i' + |Org|] == po[i'..i' + |Org|];
      assert !OccursAt(po, Org, i');
    }
    forall j': nat | j < j' ensures !RepoMatch(url, i, j') { }
    assert ChosenMatch(url, i, j);
  }

  /** Without an `l` before it, the first `labforward/` is the one that follows the prefix. */
  lemma OrgFirstAfter(prefix: string)
    requires 'l' !in prefix
    ensures FirstOccurrence(prefix + Org, Org, |prefix|)
  {
    var po := prefix + Org;
    assert po[|prefix|..] == Org;
    forall i': nat | i' < |prefix| ensures !OccursAt(po, Org, i') {
      assert po[i'] == prefix[i'];
    }
  }

  /** `labforward/widgets.git` after an SSH host gives `widgets`. */
  lemma RepoNameWidgets(url: string)
    requires url == "git@github.com:labforward/widgets.git"
    ensures RepoName(Some(url)) == Ok("widgets")
  {
    var p := "git@github.com:";
    assert url == p + Org + "widgets" + GitSuffix by {
      forall k | 0 <= k < |url| ensures url[k] == (p + Org + "widgets" + GitSuffix)[k] { }
    }
    OrgFirstAfter(p);
    RepoNameOf(p, "widgets");
  }

  /** The group is greedy: it runs to the last `.git` of the line. */
  lemma RepoNameGreedy(url: string)
    requires url == "https://github.com/labforward/a.git.git"
    ensures RepoName(Some(url)) == Ok("a.git")
  {
    var p := "https://github.com/";
    assert url == p + Org + "a.git" + GitSuffix by {
      forall k | 0 <= k < |url| ensures url[k] == (p + Org + "a.git" + GitSuffix)[k] { }
    }
    OrgFirstAfter(p);
    RepoNameOf(p, "a.git");
  }

  /** An empty group is an error. */
  lemma RepoNameEmptyGroup(url: string)
    requires url == "labforward/.git"
    ensures RepoName(Some(url)) == Err(NoRepoName(Some(url)))
  {
    assert url == "" + Org + "" + GitSuffix by {
      forall k | 0 <= k < |url| ensures url[k] == ("" + Org + "" + GitSuffix)[k] { }
    }
    RepoNameOf("", "");
  }

  /** A URL in which `labforward/` occurs nowhere is an error. */
  lemma RepoNameOutsideOrg(url: string)
    requires forall i: nat :: !OccursAt(url, Org, i)
    ensures RepoName(Some(url)) == Err(NoRepoName(Some(url)))
  {
  }
}
