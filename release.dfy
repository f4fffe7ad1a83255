/**
 * The release workflow (src/cmd/release.ts): bring every remote trunk up to
 * date, bump the manifest version, open a section for it in the changelog,
 * then cut the release branch, merge the production branch into it and
 * commit. Today's date is a parameter.
 */
module Release {
  import opened Wrappers
  import opened Text
  import opened SemVer
  import opened Workspace
  import opened Utils

  // ---------------------------------------------------------------------
  // The next version
  // ---------------------------------------------------------------------

  const FirstVersion := "1.0.0"

  /**
   * `packageJson?.version ? inc(packageJson.version, type) : '1.0.0'`:
   * a missing or falsy version starts at 1.0.0; a string is bumped; any
   * other truthy value is no version for `inc`, which gives `null` (`None`).
   */
  function NextVersion(manifest: map<string, Json>, kind: ReleaseType): Option<string> {
    if "version" !in manifest || !Truthy(manifest["version"]) then Some(FirstVersion)
    else match manifest["version"]
      case JString(s) => Inc(s, kind)
      case _ => None
  }

  /**
   * The next version is 1.0.0 for a manifest without a usable version, and
   * `null` for a truthy version that is not a string reading as a version
   * (a number, `true` or an object included); whenever it is
   * not `null` it reads as a version.
   */
  lemma NextVersionCases(manifest: map<string, Json>, kind: ReleaseType)
    ensures "version" !in manifest || !Truthy(manifest["version"]) ==>
      NextVersion(manifest, kind) == Some(FirstVersion) && Parse(FirstVersion) == Some(Version(1, 0, 0))
    ensures ("version" in manifest && Truthy(manifest["version"])
             && !(manifest["version"].JString? && Parse(manifest["version"].s).Some?))
      ==> NextVersion(manifest, kind).None?
    ensures NextVersion(manifest, kind).Some? ==> Parse(NextVersion(manifest, kind).value).Some?
  {
    FirstVersionParses();
    if "version" in manifest && manifest["version"].JString? {
      IncParses(manifest["version"].s, kind);
    }
  }

  lemma FirstVersionParses()
    ensures Parse(FirstVersion) == Some(Version(1, 0, 0))
  {
    assert Format(Version(1, 0, 0)) == FirstVersion;
    FormatThenParse(Version(1, 0, 0));
  }

  /** A version that reads as one is bumped: the next version reads as the bump, which is greater. */
  lemma NextVersionBumps(manifest: map<string, Json>, kind: ReleaseType)
    requires "version" in manifest && manifest["version"].JString? && Parse(manifest["version"].s).Some?
    ensures var current := Parse(manifest["version"].s).value;
      NextVersion(manifest, kind).Some?
      && Parse(NextVersion(manifest, kind).value) == Some(Bump(current, kind))
      && Less(current, Parse(NextVersion(manifest, kind).value).value)
  {
    var s := manifest["version"].s;
    ParseEmpty();
    assert Truthy(manifest["version"]);
    assert NextVersion(manifest, kind) == Inc(s, kind);
    IncParses(s, kind);
  }

  /** How a template literal renders `nextVersion`: `null` reads "null". */
  function RenderVersion(next: Option<string>): string {
    match next
    case Some(v) => v
    case None => "null"
  }

  /**
   * `packageJson.version = nextVersion`: the manifest with its `version`
   * set (to `null` when there is no next version) and every other field kept.
   */
  function SetVersion(manifest: map<string, Json>, next: Option<string>): (r: map<string, Json>)
    ensures "version" in r && r["version"] == (if next.Some? then JString(next.value) else JNull)
    ensures forall k :: k != "version" ==> (k in r <==> k in manifest)
    ensures forall k :: k != "version" && k in manifest ==> r[k] == manifest[k]
  {
    manifest["version" := if next.Some? then JString(next.value) else JNull]
  }

  // ---------------------------------------------------------------------
  // The changelog section
  // ---------------------------------------------------------------------

  /** The heading the new section is inserted under. */
  const Marker := "## [Unreleased]"

  /** An empty third-level heading, after a blank line. */
  function Subsection(name: string): string {
    "\n\n### " + name
  }

  /** The heading of the released version, linked to its tag. */
  function ReleaseHeading(version: string, repoName: string, today: string): string {
    "## [v" + TaggedVersion(version, repoName, today)
  }

  /** The heading after its `## [v`: the version, its tag's address and the date. */
  function TaggedVersion(version: string, repoName: string, today: string): string {
    version + "](https://github.com/labforward/" + repoName + "/releases/tag/v" + version + ") - " + today
  }

  /** What follows the marker in the replacement text. */
  function SectionBody(version: string, repoName: string, today: string): string {
    Subsection("Added") + Subsection("Changed") + Subsection("Deprecated") + Subsection("Fixed")
    + Subsection("Removed") + "\n\n" + ReleaseHeading(version, repoName, today)
  }

  /** The replacement text: the marker again, then the empty subsections and the release heading. */
  function Section(version: string, repoName: string, today: string): string {
    Marker + SectionBody(version, repoName, today)
  }

  /** `changelog.replace('## [Unreleased]', section)`. */
  function RewriteChangelog(text: string, version: string, repoName: string, today: string): string {
    ReplaceFirst(text, Marker, Section(version, repoName, today))
  }

  /**
   * No window starting at `a[0]` can spell the marker: within `a` one of
   * the first five characters differs from `## [U`.
   */
  predicate Breaks(a: string) {
    |a| > 0 &&
    (a[0] != Marker[0] || (|a| > 1 && a[1] != Marker[1]) || (|a| > 2 && a[2] != Marker[2])
     || (|a| > 3 && a[3] != Marker[3]) || (|a| > 4 && a[4] != Marker[4]))
  }

  /** No window starting inside `a` can spell the marker, whatever follows `a`. */
  predicate Clear(a: string)
    decreases |a|
  {
    a == [] || (Breaks(a) && Clear(a[1..]))
  }

  lemma {:induction false} HashFreeClear(a: string)
    requires '#' !in a
    ensures Clear(a)
    decreases |a|
  {
    if a != [] {
      assert a[0] in a;
      assert forall c :: c in a[1..] ==> c in a;
      HashFreeClear(a[1..]);
    }
  }

  lemma ClearCons(c: char, a: string)
    requires Clear(a) && Breaks([c] + a)
    ensures Clear([c] + a)
  {
    assert ([c] + a)[1..] == a;
  }

  lemma {:induction false} ClearAppend(a: string, b: string)
    requires Clear(a) && Clear(b)
    ensures Clear(a + b)
    decreases |a|
  {
    if a == [] {
      assert a + b == b;
    } else {
      assert (a + b)[1..] == a[1..] + b;
      ClearAppend(a[1..], b);
      assert forall k :: 0 <= k < |a| ==> (a + b)[k] == a[k];
    }
  }

  /** A clear prefix adds no occurrence of the marker. */
  lemma {:induction false} ClearCount(a: string, b: string)
    requires Clear(a)
    ensures Occurrences(a + b, Marker) == Occurrences(b, Marker)
    decreases |a|
  {
    if a == [] {
      assert a + b == b;
    } else {
      assert (a + b)[1..] == a[1..] + b;
      ClearCount(a[1..], b);
      BreaksNoMarker(a, b);
    }
  }

  /** A window starting at a breaking character does not spell the marker. */
  lemma BreaksNoMarker(a: string, b: string)
    requires Breaks(a)
    ensures !OccursAt(a + b, Marker, 0)
  {
    if |Marker| <= |a + b| {
      var w := (a + b)[0..|Marker|];
      assert forall d :: 0 <= d < |a| && d < 5 ==> w[d] == a[d];
    }
  }

  /** Text that starts with the marker holds one occurrence more than what follows it. */
  lemma MarkerLeads(y: string)
    ensures Occurrences(Marker + y, Marker) == 1 + Occurrences(y, Marker)
  {
    assert (Marker + y)[..|Marker|] == Marker;
    assert (Marker + y)[1..] == Marker[1..] + y;
    var rest := " [Unreleased]";
    var tail := Marker[1..];
    assert tail == ['#'] + rest;
    HashFreeClear(rest);
    ClearCons('#', rest);
    ClearCount(tail, y);
  }

  lemma SubsectionClear(name: string)
    requires '#' !in name && |name| > 0 && name[0] != '['
    ensures Clear(Subsection(name))
  {
    var s5 := " " + name;
    HashFreeClear(s5);
    var s4 := "#" + s5;
    ClearCons('#', s5);
    var s3 := "#" + s4;
    ClearCons('#', s4);
    var s2 := "#" + s3;
    ClearCons('#', s3);
    var s1 := "\n" + s2;
    ClearCons('\n', s2);
    ClearCons('\n', s1);
    assert "\n" + s1 == Subsection(name);
  }

  lemma ReleaseHeadingClear(version: string, repoName: string, today: string)
    requires '#' !in version && '#' !in repoName && '#' !in today
    ensures Clear(ReleaseHeading(version, repoName, today))
  {
    var rest := TaggedVersion(version, repoName, today);
    TaggedVersionWithout('#', version, repoName, today);
    var s2 := " [v" + rest;
    assert '#' !in " [v";
    HashFreeClear(s2);
    var s1 := "#" + s2;
    ClearCons('#', s2);
    ClearCons('#', s1);
    assert "#" + s1 == "## [v" + rest;
  }

  /** Only the leading marker of the replacement can spell the marker. */
  lemma SectionBodyClear(version: string, repoName: string, today: string)
    requires '#' !in version && '#' !in repoName && '#' !in today
    ensures Clear(SectionBody(version, repoName, today))
  {
    SubsectionClear("Added");
    SubsectionClear("Changed");
    SubsectionClear("Deprecated");
    SubsectionClear("Fixed");
    SubsectionClear("Removed");
    HashFreeClear("\n\n");
    ReleaseHeadingClear(version, repoName, today);
    ClearAppend(Subsection("Added"), Subsection("Changed"));
    ClearAppend(Subsection("Added") + Subsection("Changed"), Subsection("Deprecated"));
    ClearAppend(Subsection("Added") + Subsection("Changed") + Subsection("Deprecated"), Subsection("Fixed"));
    ClearAppend(Subsection("Added") + Subsection("Changed") + Subsection("Deprecated") + Subsection("Fixed"),
      Subsection("Removed"));
    ClearAppend(Subsection("Added") + Subsection("Changed") + Subsection("Deprecated") + Subsection("Fixed")
      + Subsection("Removed"), "\n\n");
    ClearAppend(Subsection("Added") + Subsection("Changed") + Subsection("Deprecated") + Subsection("Fixed")
      + Subsection("Removed") + "\n\n", ReleaseHeading(version, repoName, today));
  }

  /** Without `$` in the inserted values the replacement text is inserted as it is. */
  lemma SectionLiteral(version: string, repoName: string, today: string)
    requires '$' !in version && '$' !in repoName && '$' !in today
    ensures '$' !in Section(version, repoName, today)
  {
    TaggedVersionWithout('$', version, repoName, today);
    assert '$' !in Subsection("Added") + Subsection("Changed") + Subsection("Deprecated");
    assert '$' !in Subsection("Fixed") + Subsection("Removed") + "\n\n";
    assert '$' !in ReleaseHeading(version, repoName, today);
  }

  /** A character in none of the three parameters nor in the fixed text is not in the heading's tail. */
  lemma TaggedVersionWithout(c: char, version: string, repoName: string, today: string)
    requires c !in version && c !in repoName && c !in today
    requires c !in "](https://github.com/labforward/" && c !in "/releases/tag/v" && c !in ") - "
    ensures c !in TaggedVersion(version, repoName, today)
  {
  }

  /**
   * With the marker first at `i`, the rewrite keeps everything before it,
   * puts the section in its place (the marker, the empty subsections, the
   * release heading) and moves everything after the marker below the
   * release heading; the marker is still first at `i`.
   */
  lemma RewriteSection(text: string, i: nat, version: string, repoName: string, today: string)
    requires FirstOccurrence(text, Marker, i)
    requires '$' !in version && '$' !in repoName && '$' !in today
    ensures RewriteChangelog(text, version, repoName, today)
      == text[..i] + Section(version, repoName, today) + text[i + |Marker|..]
    ensures FirstOccurrence(RewriteChangelog(text, version, repoName, today), Marker, i)
  {
    SectionLiteral(version, repoName, today);
    assert Section(version, repoName, today)[..|Marker|] == Marker;
    ReplaceFirstLeading(text, Marker, Section(version, repoName, today), i);
  }

  /** Without a marker the changelog is written back unchanged. */
  lemma RewriteWithoutMarker(text: string, version: string, repoName: string, today: string)
    requires Occurrences(text, Marker) == 0
    ensures RewriteChangelog(text, version, repoName, today) == text
  {
    OccurrencesZero(text, Marker);
  }

  /**
   * The rewrite neither adds nor removes a marker: the one it replaces is
   * put back at the head of the new section, and nothing in the section
   * after it spells the marker.
   */
  lemma RewriteKeepsMarkerCount(text: string, version: string, repoName: string, today: string)
    requires '$' !in version && '$' !in repoName && '$' !in today
    requires '#' !in version && '#' !in repoName && '#' !in today
    ensures Occurrences(RewriteChangelog(text, version, repoName, today), Marker) == Occurrences(text, Marker)
  {
    match IndexOf(text, Marker, 0)
    case None =>
    case Some(i) =>
      RewriteSection(text, i, version, repoName, today);
      SectionBodyClear(version, repoName, today);
      SpliceKeepsCount(text, i, SectionBody(version, repoName, today));
  }

  /** Putting a clear text right after a marker occurrence adds no marker. */
  lemma SpliceKeepsCount(text: string, i: nat, body: string)
    requires OccursAt(text, Marker, i) && Clear(body)
    ensures Occurrences(text[..i] + (Marker + body) + text[i + |Marker|..], Marker) == Occurrences(text, Marker)
  {
    var pre, post := text[..i], text[i + |Marker|..];
    AroundOccurrence(text, Marker, i);
    assert pre + (Marker + body) + post == pre + (Marker + (body + post));
    InsertAfterMarker(pre, body, post);
  }

  /** Inserting a clear text right after a marker adds no marker. */
  lemma InsertAfterMarker(pre: string, body: string, post: string)
    requires Clear(body)
    ensures Occurrences(pre + (Marker + (body + post)), Marker) == Occurrences(pre + (Marker + post), Marker)
  {
    assert (Marker + post)[..|Marker| - 1] == (Marker + (body + post))[..|Marker| - 1];
    SharedPrefixCount(pre, Marker + post, Marker + (body + post), Marker);
    MarkerLeads(post);
    MarkerLeads(body + post);
    ClearCount(body, post);
  }

  // ---------------------------------------------------------------------
  // The production branch and the commands
  // ---------------------------------------------------------------------

  predicate IsProduction(branch: string) {
    branch == "main" || branch == "master"
  }

  /** `k` is the first index of `bs` holding `main` or `master`. */
  predicate FirstProduction(bs: seq<string>, k: nat) {
    k < |bs| && IsProduction(bs[k]) && forall j :: 0 <= j < k ==> !IsProduction(bs[j])
  }

  /** `branches.find((branch) => branch === 'main' || branch === 'master')`. */
  function MainBranch(bs: seq<string>): (r: Option<string>)
    ensures r.None? <==> forall k :: 0 <= k < |bs| ==> !IsProduction(bs[k])
    ensures forall k: nat :: FirstProduction(bs, k) ==> r == Some(bs[k])
  {
    if bs == [] then None
    else if IsProduction(bs[0]) then
      assert FirstProduction(bs, 0);
      assert forall k: nat :: FirstProduction(bs, k) ==> k == 0;
      Some(bs[0])
    else
      var r := MainBranch(bs[1..]);
      assert forall k :: 1 <= k < |bs| ==> bs[1..][k - 1] == bs[k];
      assert forall k: nat :: FirstProduction(bs, k) ==> k > 0 && FirstProduction(bs[1..], k - 1);
      r
  }

  /** What the `reduce` callback runs for one trunk. */
  function SyncTriple(branch: string): seq<Command> {
    [Git(["fetch", "origin", branch]), Git(["checkout", branch]), Git(["pull"])]
  }

  /** Every trunk brought up to date, in listing order. */
  function SyncPlan(bs: seq<string>): seq<Command> {
    if bs == [] then [] else SyncTriple(bs[0]) + SyncPlan(bs[1..])
  }

  lemma {:induction false} SyncPlanLength(bs: seq<string>)
    ensures |SyncPlan(bs)| == 3 * |bs|
  {
    if bs != [] {
      SyncPlanLength(bs[1..]);
    }
  }

  /** Trunk `k` is synced by the three commands at 3k, 3k+1 and 3k+2. */
  lemma {:induction false} SyncPlanAt(bs: seq<string>, k: nat)
    requires k < |bs|
    ensures |SyncPlan(bs)| == 3 * |bs|
    ensures SyncPlan(bs)[3 * k] == Git(["fetch", "origin", bs[k]])
      && SyncPlan(bs)[3 * k + 1] == Git(["checkout", bs[k]])
      && SyncPlan(bs)[3 * k + 2] == Git(["pull"])
  {
    SyncPlanLength(bs);
    if k > 0 {
      var rest := SyncPlan(bs[1..]);
      SyncPlanAt(bs[1..], k - 1);
      assert SyncPlan(bs) == SyncTriple(bs[0]) + rest;
      assert bs[1..][k - 1] == bs[k];
    }
  }

  /** For trunk `k`: `fetch origin`, `checkout`, `pull` at positions 3k, 3k+1, 3k+2. */
  lemma SyncPlanLayout(bs: seq<string>)
    ensures |SyncPlan(bs)| == 3 * |bs|
    ensures forall k :: 0 <= k < |bs| ==>
      SyncPlan(bs)[3 * k] == Git(["fetch", "origin", bs[k]])
      && SyncPlan(bs)[3 * k + 1] == Git(["checkout", bs[k]])
      && SyncPlan(bs)[3 * k + 2] == Git(["pull"])
  {
    SyncPlanLength(bs);
    forall k | 0 <= k < |bs|
      ensures SyncPlan(bs)[3 * k] == Git(["fetch", "origin", bs[k]])
        && SyncPlan(bs)[3 * k + 1] == Git(["checkout", bs[k]])
        && SyncPlan(bs)[3 * k + 2] == Git(["pull"])
    {
      SyncPlanAt(bs, k);
    }
  }

  /** Cut the release branch, merge the production branch if there is one, commit. */
  function TailPlan(version: string, mainBranch: Option<string>): seq<Command> {
    [Git(["checkout", "-b", "release/v" + version])]
    + (if mainBranch.Some? then [Git(["merge", mainBranch.value])] else [])
    + [Git(["add", "package.json", "CHANGELOG.md"]), Git(["commit", "-m", "v" + version])]
  }

  /** Every command the release issues when all of them succeed. */
  function ReleasePlan(bs: seq<string>, version: string): seq<Command> {
    SyncPlan(bs) + TailPlan(version, MainBranch(bs))
  }

  /**
   * The order of the release commands: all the syncing first, then the
   * release branch, then a merge exactly when a production branch was
   * listed (the first one), then `add` and `commit`.
   */
  lemma ReleasePlanOrder(bs: seq<string>, version: string)
    ensures var p := ReleasePlan(bs, version);
      |p| == 3 * |bs| + 3 + (if MainBranch(bs).Some? then 1 else 0)
      && p[..3 * |bs|] == SyncPlan(bs)
      && p[3 * |bs|] == Git(["checkout", "-b", "release/v" + version])
      && (MainBranch(bs).Some? ==> p[3 * |bs| + 1] == Git(["merge", MainBranch(bs).value]))
      && p[|p| - 2] == Git(["add", "package.json", "CHANGELOG.md"])
      && p[|p| - 1] == Git(["commit", "-m", "v" + version])
  {
    SyncPlanLength(bs);
    var sync, tail := SyncPlan(bs), TailPlan(version, MainBranch(bs));
    var p := ReleasePlan(bs, version);
    assert p == sync + tail;
    assert p[..|sync|] == sync;
    assert p[|sync|] == tail[0];
    assert p[|p| - 2] == tail[|tail| - 2];
    assert p[|p| - 1] == tail[|tail| - 1];
    if MainBranch(bs).Some? {
      assert p[|sync| + 1] == tail[1];
    }
  }

  /** No sync command is a merge. */
  lemma {:induction false} SyncPlanNoMerge(bs: seq<string>)
    ensures forall k :: 0 <= k < |SyncPlan(bs)| ==>
      |SyncPlan(bs)[k].args| > 0 && SyncPlan(bs)[k].args[0] != "merge"
  {
    if bs != [] {
      SyncPlanNoMerge(bs[1..]);
      var triple := SyncTriple(bs[0]);
      assert forall k :: 0 <= k < |triple| ==> |triple[k].args| > 0 && triple[k].args[0] != "merge";
    }
  }

  /** The only merge of the release is the one right after the release branch is cut. */
  lemma ReleasePlanMergesOnce(bs: seq<string>, version: string)
    ensures var p := ReleasePlan(bs, version);
      forall k :: 0 <= k < |p| && |p[k].args| > 0 && p[k].args[0] == "merge" ==>
        MainBranch(bs).Some? && k == 3 * |bs| + 1
  {
    SyncPlanLength(bs);
    SyncPlanNoMerge(bs);
    var p := ReleasePlan(bs, version);
    var tail := TailPlan(version, MainBranch(bs));
    forall k | 0 <= k < |p| && |p[k].args| > 0 && p[k].args[0] == "merge"
      ensures MainBranch(bs).Some? && k == 3 * |bs| + 1
    {
      if k >= 3 * |bs| {
        assert p[k] == tail[k - 3 * |bs|];
      }
    }
  }

  // ---------------------------------------------------------------------
  // The handler
  // ---------------------------------------------------------------------

  /**
   * `await exec(...)` for the next command of `plan`, once its prefix `done`
   * has run and succeeded since `log0`: on success the prefix grows by it,
   * on failure the log holds the run of the whole plan, which ends here.
   */
  method AwaitNext(repo: Repo, ghost log0: seq<Command>, ghost plan: seq<Command>, ghost done: seq<Command>,
                   cmd: Command, ok: ExitStatus)
    returns (success: bool)
    requires repo.log == log0 + done && Succeeds(done, ok, |log0|)
    requires |done| < |plan| && plan[..|done|] == done && plan[|done|] == cmd
    modifies repo`log
    ensures repo.log == log0 + (done + [cmd])
    ensures success ==> Succeeds(done + [cmd], ok, |log0|) && plan[..|done| + 1] == done + [cmd]
    ensures !success ==>
      repo.log == log0 + Run(plan, ok, |log0|) && RunResult(plan, ok, |log0|) == Err(CommandFailed(cmd))
  {
    RunNext(plan, done, ok, |log0|);
    success := repo.Exec(cmd, ok);
    AppendAssoc(log0, done, [cmd]);
  }

  /** The `reduce` callback for one trunk: fetch, check out and pull it, stopping at a failure. */
  method SyncBranch(repo: Repo, branch: string, ok: ExitStatus) returns (outcome: Result<(), Error>)
    modifies repo`log
    ensures repo.log == old(repo.log) + Run(SyncTriple(branch), ok, |old(repo.log)|)
    ensures outcome == RunResult(SyncTriple(branch), ok, |old(repo.log)|)
  {
    ghost var plan := SyncTriple(branch);
    ghost var done: seq<Command> := [];
    assert old(repo.log) + done == old(repo.log);
    var cmd := Git(["fetch", "origin", branch]);
    var success := AwaitNext(repo, old(repo.log), plan, done, cmd, ok);
    if !success {
      return Err(CommandFailed(cmd));
    }
    done := done + [cmd];
    cmd := Git(["checkout", branch]);
    success := AwaitNext(repo, old(repo.log), plan, done, cmd, ok);
    if !success {
      return Err(CommandFailed(cmd));
    }
    done := done + [cmd];
    cmd := Git(["pull"]);
    success := AwaitNext(repo, old(repo.log), plan, done, cmd, ok);
    if !success {
      return Err(CommandFailed(cmd));
    }
    done := done + [cmd];
    assert done == plan;
    return Ok(());
  }

  /** The trunks brought up to date one after another; the first failure stops the rest. */
  method SyncTrunks(repo: Repo, bs: seq<string>, ok: ExitStatus) returns (outcome: Result<(), Error>)
    modifies repo`log
    ensures repo.log == old(repo.log) + Run(SyncPlan(bs), ok, |old(repo.log)|)
    ensures outcome == RunResult(SyncPlan(bs), ok, |old(repo.log)|)
  {
    ghost var n0 := |repo.log|;
    ghost var done: seq<Command> := [];
    var i := 0;
    while i < |bs|
      invariant 0 <= i <= |bs|
      invariant repo.log == old(repo.log) + done
      invariant SyncPlan(bs) == done + SyncPlan(bs[i..])
      invariant Succeeds(done, ok, n0)
    {
      ghost var triple := SyncTriple(bs[i]);
      ghost var m := |repo.log|;
      SyncStep(bs, i, done, ok, n0, m);
      outcome := SyncBranch(repo, bs[i], ok);
      if outcome.Err? {
        AppendAssoc(old(repo.log), done, Run(triple, ok, m));
        return;
      }
      AppendAssoc(old(repo.log), done, triple);
      done := done + triple;
      i := i + 1;
    }
    assert bs[i..] == [];
    assert done + [] == done;
    assert RunResult(SyncPlan(bs), ok, n0) == Ok(());
    return Ok(());
  }

  /**
   * One trunk of the sync loop, whose commands start at log position `m`:
   * the plan goes on with its triple, and a failing triple ends the run.
   */
  lemma SyncStep(bs: seq<string>, i: nat, done: seq<Command>, ok: ExitStatus, n: nat, m: nat)
    requires i < |bs| && SyncPlan(bs) == done + SyncPlan(bs[i..]) && Succeeds(done, ok, n)
    requires m == n + |done|
    ensures SyncPlan(bs) == done + SyncTriple(bs[i]) + SyncPlan(bs[i + 1..])
    ensures Succeeds(SyncTriple(bs[i]), ok, m) ==> Succeeds(done + SyncTriple(bs[i]), ok, n)
    ensures !Succeeds(SyncTriple(bs[i]), ok, m) ==>
      Run(SyncPlan(bs), ok, n) == done + Run(SyncTriple(bs[i]), ok, m)
      && RunResult(SyncPlan(bs), ok, n) == RunResult(SyncTriple(bs[i]), ok, m)
  {
    var triple, rest := SyncTriple(bs[i]), SyncPlan(bs[i + 1..]);
    assert bs[i..][1..] == bs[i + 1..];
    assert SyncPlan(bs[i..]) == triple + rest;
    AppendAssoc(done, triple, rest);
    PlanStage(SyncPlan(bs), done, triple, rest, ok, n, m);
  }

  /**
   * Lines 85-94: cut `release/v<version>`, merge the production branch when
   * there is one, stage the two files and commit, stopping at a failure.
   */
  method CommitRelease(repo: Repo, version: string, mainBranch: Option<string>, ok: ExitStatus)
    returns (outcome: Result<(), Error>)
    modifies repo`log
    ensures repo.log == old(repo.log) + Run(TailPlan(version, mainBranch), ok, |old(repo.log)|)
    ensures outcome == RunResult(TailPlan(version, mainBranch), ok, |old(repo.log)|)
  {
    ghost var plan := TailPlan(version, mainBranch);
    ghost var done: seq<Command> := [];
    assert old(repo.log) + done == old(repo.log);
    var cmd := Git(["checkout", "-b", "release/v" + version]);
    var success := AwaitNext(repo, old(repo.log), plan, done, cmd, ok);
    if !success {
      return Err(CommandFailed(cmd));
    }
    done := done + [cmd];
    if mainBranch.Some? {
      cmd := Git(["merge", mainBranch.value]);
      success := AwaitNext(repo, old(repo.log), plan, done, cmd, ok);
      if !success {
        return Err(CommandFailed(cmd));
      }
      done := done + [cmd];
    }
    cmd := Git(["add", "package.json", "CHANGELOG.md"]);
    success := AwaitNext(repo, old(repo.log), plan, done, cmd, ok);
    if !success {
      return Err(CommandFailed(cmd));
    }
    done := done + [cmd];
    cmd := Git(["commit", "-m", "v" + version]);
    success := AwaitNext(repo, old(repo.log), plan, done, cmd, ok);
    if !success {
      return Err(CommandFailed(cmd));
    }
    done := done + [cmd];
    assert done == plan;
    return Ok(());
  }

  /** Lines 42-50: bump the manifest's version and write the manifest back. */
  method BumpVersion(repo: Repo, kind: ReleaseType) returns (nextVersion: Option<string>)
    modifies repo`manifest
    ensures nextVersion == NextVersion(old(repo.manifest), kind)
    ensures repo.manifest == SetVersion(old(repo.manifest), nextVersion)
  {
    nextVersion := NextVersion(repo.manifest, kind);
    repo.manifest := SetVersion(repo.manifest, nextVersion);
  }

  /**
   * Lines 52-76: read the changelog, find the repository's name and write
   * the changelog back with the new section; without a name nothing is
   * written.
   */
  method WriteChangelog(repo: Repo, version: string, remote: Option<string>, today: string)
    returns (outcome: Result<(), Error>)
    modifies repo`changelog
    ensures RepoName(remote).Err? ==> outcome == Err(NoRepoName(remote)) && repo.changelog == old(repo.changelog)
    ensures RepoName(remote).Ok? ==>
      outcome.Ok? && repo.changelog == RewriteChangelog(old(repo.changelog), version, RepoName(remote).value, today)
  {
    var changelog := repo.changelog;
    var repoName := RepoName(remote);
    if repoName.Err? {
      return Err(repoName.error);
    }
    repo.changelog := RewriteChangelog(changelog, version, repoName.value, today);
    return Ok(());
  }

  /**
   * Lines 41-94 once the trunks are up to date, from the state `s`: the
   * manifest takes the next version; without a repository name the handler
   * stops there, otherwise the changelog takes the new section and the
   * release branch is cut, merged and committed.
   */
  function PublishRun(bs: seq<string>, remote: Option<string>, kind: ReleaseType, today: string,
                      ok: ExitStatus, s: Snapshot): (Result<(), Error>, Snapshot)
  {
    var next := NextVersion(s.manifest, kind);
    var bumped := s.(manifest := SetVersion(s.manifest, next));
    match RepoName(remote)
    case Err(e) => (Err(e), bumped)
    case Ok(name) =>
      var version := RenderVersion(next);
      var tail := TailPlan(version, MainBranch(bs));
      (RunResult(tail, ok, |s.log|),
       bumped.(log := s.log + Run(tail, ok, |s.log|), changelog := RewriteChangelog(s.changelog, version, name, today)))
  }

  /** Lines 31-94 for the trunks `bs` from the state `s`: sync them, and publish when every sync command succeeds. */
  function ReleaseRun(bs: seq<string>, remote: Option<string>, kind: ReleaseType, today: string,
                      ok: ExitStatus, s: Snapshot): (Result<(), Error>, Snapshot)
  {
    var sync := SyncPlan(bs);
    if Succeeds(sync, ok, |s.log|) then PublishRun(bs, remote, kind, today, ok, s.(log := s.log + sync))
    else (RunResult(sync, ok, |s.log|), s.(log := s.log + Run(sync, ok, |s.log|)))
  }

  /** The whole handler from the state `s`: nothing happens without trunk branches. */
  function HandlerRun(listing: Option<string>, remote: Option<string>, kind: ReleaseType, today: string,
                      ok: ExitStatus, s: Snapshot): (Result<(), Error>, Snapshot)
  {
    match GetMainBranches(listing)
    case Err(e) => (Err(e), s)
    case Ok(bs) => ReleaseRun(bs, remote, kind, today, ok, s)
  }

  /** The version the changelog names, `1.0.0`, `null` or a bumped `X.Y.Z`, holds no `$` and no `#`. */
  lemma RenderedVersionPlain(manifest: map<string, Json>, kind: ReleaseType)
    ensures '$' !in RenderVersion(NextVersion(manifest, kind))
    ensures '#' !in RenderVersion(NextVersion(manifest, kind))
  {
    var next := NextVersion(manifest, kind);
    if next.Some? && next != Some(FirstVersion) {
      var s := manifest["version"].s;
      FormatDigitsAndDots(Bump(Parse(s).value, kind));
    }
  }

  /**
   * Publishing keeps the number of `## [Unreleased]` markers in the
   * changelog whenever the repository name and the date hold no `$` and no
   * `#`: the version it inserts never does.
   */
  lemma PublishKeepsMarkerCount(bs: seq<string>, remote: Option<string>, kind: ReleaseType, today: string,
                                ok: ExitStatus, s: Snapshot)
    requires '$' !in today && '#' !in today
    requires RepoName(remote).Ok? ==> '$' !in RepoName(remote).value && '#' !in RepoName(remote).value
    ensures Occurrences(PublishRun(bs, remote, kind, today, ok, s).1.changelog, Marker)
      == Occurrences(s.changelog, Marker)
  {
    if RepoName(remote).Ok? {
      RenderedVersionPlain(s.manifest, kind);
      RewriteKeepsMarkerCount(s.changelog, RenderVersion(NextVersion(s.manifest, kind)), RepoName(remote).value, today);
    }
  }

  /**
   * What a release does when the trunks fail to sync or the repository has
   * no name: a failed sync writes nothing; once the trunks are synced the
   * manifest is bumped; without a repository name the changelog is
   * untouched and no further command runs.
   */
  lemma ReleaseRunCases(bs: seq<string>, remote: Option<string>, kind: ReleaseType, today: string,
                        ok: ExitStatus, s: Snapshot)
    ensures var (outcome, t) := ReleaseRun(bs, remote, kind, today, ok, s);
      (!Succeeds(SyncPlan(bs), ok, |s.log|) ==>
         outcome == RunResult(SyncPlan(bs), ok, |s.log|) && t.log == s.log + Run(SyncPlan(bs), ok, |s.log|)
         && t.manifest == s.manifest && t.changelog == s.changelog)
      && (Succeeds(SyncPlan(bs), ok, |s.log|) ==>
         t.manifest == SetVersion(s.manifest, NextVersion(s.manifest, kind)))
      && (Succeeds(SyncPlan(bs), ok, |s.log|) && RepoName(remote).Err? ==>
         outcome == Err(NoRepoName(remote)) && t.log == s.log + SyncPlan(bs) && t.changelog == s.changelog)
  {
  }

  /**
   * A release from synced trunks of a named repository: the changelog
   * gains its section, and the log holds the run of the whole release
   * plan, which settles the outcome.
   */
  lemma ReleaseRunPublishes(bs: seq<string>, remote: Option<string>, kind: ReleaseType, today: string,
                            ok: ExitStatus, s: Snapshot)
    requires Succeeds(SyncPlan(bs), ok, |s.log|) && RepoName(remote).Ok?
    ensures var (outcome, t) := ReleaseRun(bs, remote, kind, today, ok, s);
      var version := RenderVersion(NextVersion(s.manifest, kind));
      t.changelog == RewriteChangelog(s.changelog, version, RepoName(remote).value, today)
      && t.log == s.log + Run(ReleasePlan(bs, version), ok, |s.log|)
      && outcome == RunResult(ReleasePlan(bs, version), ok, |s.log|)
  {
    var sync := SyncPlan(bs);
    var tail := TailPlan(RenderVersion(NextVersion(s.manifest, kind)), MainBranch(bs));
    var synced := s.(log := s.log + sync);
    PublishRunRuns(bs, remote, kind, today, ok, synced);
    RunAfter(s.log, sync, tail, ok, ReleaseRun(bs, remote, kind, today, ok, s).1.log);
  }

  lemma PublishRunRuns(bs: seq<string>, remote: Option<string>, kind: ReleaseType, today: string,
                       ok: ExitStatus, s: Snapshot)
    requires RepoName(remote).Ok?
    ensures var tail := TailPlan(RenderVersion(NextVersion(s.manifest, kind)), MainBranch(bs));
      PublishRun(bs, remote, kind, today, ok, s).1.log == s.log + Run(tail, ok, |s.log|)
      && PublishRun(bs, remote, kind, today, ok, s).0 == RunResult(tail, ok, |s.log|)
  {
  }

  /**
   * The log only grows, and a failed command is the last one the log
   * holds: nothing is started after a failure.
   */
  lemma ReleaseRunLog(bs: seq<string>, remote: Option<string>, kind: ReleaseType, today: string,
                      ok: ExitStatus, s: Snapshot)
    ensures var (outcome, t) := ReleaseRun(bs, remote, kind, today, ok, s);
      |s.log| <= |t.log| && t.log[..|s.log|] == s.log
      && (outcome.Err? && outcome.error.CommandFailed? ==> |t.log| > |s.log| && outcome.error.cmd == t.log[|t.log| - 1])
  {
    var sync := SyncPlan(bs);
    var t := ReleaseRun(bs, remote, kind, today, ok, s).1;
    ReleaseRunCases(bs, remote, kind, today, ok, s);
    if !Succeeds(sync, ok, |s.log|) {
      RunExtends(s.log, sync, ok, t.log);
    } else if RepoName(remote).Err? {
      assert t.log[..|s.log|] == s.log;
    } else {
      ReleaseRunPublishes(bs, remote, kind, today, ok, s);
      RunExtends(s.log, ReleasePlan(bs, RenderVersion(NextVersion(s.manifest, kind))), ok, t.log);
    }
  }

  /**
   * Lines 41-94, once the trunks are up to date: bump the version, write
   * the changelog section, then cut, merge and commit the release branch.
   */
  method Publish(repo: Repo, bs: seq<string>, remote: Option<string>, kind: ReleaseType,
                 today: string, ok: ExitStatus)
    returns (outcome: Result<(), Error>)
    modifies repo
    ensures (outcome, repo.State()) == PublishRun(bs, remote, kind, today, ok, old(repo.State()))
  {
    var nextVersion := BumpVersion(repo, kind);
    var version := RenderVersion(nextVersion);
    outcome := WriteChangelog(repo, version, remote, today);
    if outcome.Err? {
      return;
    }
    var mainBranch := MainBranch(bs);
    outcome := CommitRelease(repo, version, mainBranch, ok);
  }

  /** Lines 31-94 for the trunks `bs`: sync them, then publish the release. */
  method Release(repo: Repo, bs: seq<string>, remote: Option<string>, kind: ReleaseType,
                 today: string, ok: ExitStatus)
    returns (outcome: Result<(), Error>)
    modifies repo
    ensures (outcome, repo.State()) == ReleaseRun(bs, remote, kind, today, ok, old(repo.State()))
  {
    outcome := SyncTrunks(repo, bs, ok);
    if outcome.Err? {
      return;
    }
    outcome := Publish(repo, bs, remote, kind, today, ok);
  }

  /**
   * The release handler. The listing and the remote are the outputs of
   * `git branch -a` and `git config --get remote.origin.url`; `today` is the date
   * part of the current timestamp.
   */
  method Handler(repo: Repo, listing: Option<string>, remote: Option<string>, kind: ReleaseType,
                 today: string, ok: ExitStatus)
    returns (outcome: Result<(), Error>)
    modifies repo
    ensures (outcome, repo.State()) == HandlerRun(listing, remote, kind, today, ok, old(repo.State()))
  {
    var branches := GetMainBranches(listing);
    if branches.Err? {
      return Err(branches.error);
    }
    outcome := Release(repo, branches.value, remote, kind, today, ok);
  }

  /** The examples of the changelog rewrite. */
  lemma RewriteExample(text: string)
    requires text == Marker + "\n\n- Something new"
    ensures RewriteChangelog(text, "1.3.0", "widgets", "2024-05-01")
      == Section("1.3.0", "widgets", "2024-05-01") + "\n\n- Something new"
  {
    assert FirstOccurrence(text, Marker, 0) by {
      assert text[0..|Marker|] == Marker;
    }
    RewriteSection(text, 0, "1.3.0", "widgets", "2024-05-01");
    assert text[|Marker|..] == "\n\n- Something new";
  }
}
