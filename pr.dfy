/**
 * The PR workflow (src/cmd/pr.ts): from a release branch, open one pull
 * request per remote trunk branch, one `gh pr create` after another.
 * The manifest's version arrives as the text the title template renders,
 * and the reviewers as the already-resolved list.
 */
module Pr {
  import opened Wrappers
  import opened Workspace
  import opened Utils

  const ReleasePrefix := "release/v"

  /** RELEASE_RE, `^release\/v(.*)$`: the prefix, then the rest of one line. */
  predicate IsReleaseBranch(branch: string) {
    |ReleasePrefix| <= |branch| && branch[..|ReleasePrefix|] == ReleasePrefix
    && forall k :: |ReleasePrefix| <= k < |branch| ==> !IsLineTerminator(branch[k])
  }

  /** The release branch examples. */
  lemma ReleaseBranchExamples(release: string, feature: string)
    requires release == "release/v2.0.0" && feature == "feature/x"
    ensures IsReleaseBranch(release)
    ensures !IsReleaseBranch(feature) && !IsReleaseBranch("main") && !IsReleaseBranch("release/x")
  {
    assert release[..9] == ReleasePrefix;
    assert feature[0] != ReleasePrefix[0];
    assert "release/x"[8] != ReleasePrefix[8];
  }

  /** `reviewers.map((reviewer) => ['--reviewer', reviewer]).flat()`: a flag before each reviewer. */
  function ReviewerFlags(reviewers: seq<string>): (r: seq<string>)
    ensures |r| == 2 * |reviewers|
    ensures forall k :: 0 <= k < |r| ==> r[k] == if k % 2 == 0 then "--reviewer" else reviewers[k / 2]
  {
    if reviewers == [] then []
    else
      var rest := ReviewerFlags(reviewers[1..]);
      var r := ["--reviewer", reviewers[0]] + rest;
      forall k | 2 <= k < |r|
        ensures r[k] == if k % 2 == 0 then "--reviewer" else reviewers[k / 2]
      {
        assert r[k] == rest[k - 2];
        assert (k - 2) % 2 == k % 2 && (k - 2) / 2 == k / 2 - 1;
        assert reviewers[1..][k / 2 - 1] == reviewers[k / 2];
      }
      r
  }

  /** The `gh pr create` invocation against `base`, titled and described after `version`. */
  function PrCreate(version: string, base: string, reviewers: seq<string>): Command {
    var prMessage := "### Release v" + version;
    Command("gh", ["pr", "create", "--title", "Release v" + version, "--body", prMessage, "--base", base]
      + ReviewerFlags(reviewers))
  }

  /** `branches.map((branch) => branch.match(MAIN_BRANCHES_RE))`: the trunk each line names, if any. */
  function Targets(lines: seq<string>): (r: seq<Option<string>>)
    ensures |r| == |lines|
    ensures forall k :: 0 <= k < |lines| ==> r[k] == MatchTrunk(lines[k])
  {
    if lines == [] then [] else [MatchTrunk(lines[0])] + Targets(lines[1..])
  }

  /** What one match contributes: an invocation when it names a trunk. */
  function PrStep(version: string, target: Option<string>, reviewers: seq<string>): seq<Command> {
    match target
    case Some(b) => [PrCreate(version, b, reviewers)]
    case None => []
  }

  /** The invocations the chain issues over the matches, when every one succeeds. */
  function PrPlan(version: string, targets: seq<Option<string>>, reviewers: seq<string>): seq<Command> {
    if targets == [] then [] else PrStep(version, targets[0], reviewers) + PrPlan(version, targets[1..], reviewers)
  }

  /** The first line of a listing: the trunk it names, if any, is the first base and the first invocation. */
  lemma PrPlanFirst(version: string, lines: seq<string>, reviewers: seq<string>)
    requires lines != []
    ensures MainBranches(lines) == MainBranches([lines[0]]) + MainBranches(lines[1..])
    ensures PrPlan(version, Targets(lines), reviewers)
      == PrStep(version, MatchTrunk(lines[0]), reviewers) + PrPlan(version, Targets(lines[1..]), reviewers)
    ensures MatchTrunk(lines[0]).Some? ==> MainBranches([lines[0]]) == [MatchTrunk(lines[0]).value]
    ensures MatchTrunk(lines[0]).None? ==> MainBranches([lines[0]]) == []
  {
    assert [lines[0]] + lines[1..] == lines;
    MainBranchesAppend([lines[0]], lines[1..]);
    assert [lines[0]][..0] == [];
    assert Targets(lines)[1..] == Targets(lines[1..]);
  }

  /** One `gh pr create` per base, in order. */
  function Creates(version: string, bases: seq<string>, reviewers: seq<string>): (r: seq<Command>)
    ensures |r| == |bases|
    ensures forall k :: 0 <= k < |bases| ==> r[k] == PrCreate(version, bases[k], reviewers)
  {
    seq(|bases|, k requires 0 <= k < |bases| => PrCreate(version, bases[k], reviewers))
  }

  lemma CreatesAppend(version: string, a: seq<string>, b: seq<string>, reviewers: seq<string>)
    ensures Creates(version, a + b, reviewers) == Creates(version, a, reviewers) + Creates(version, b, reviewers)
  {
  }

  /** The chain's invocations are one per trunk of the listing. */
  lemma {:induction false} PrPlanCreates(version: string, lines: seq<string>, reviewers: seq<string>)
    ensures PrPlan(version, Targets(lines), reviewers) == Creates(version, MainBranches(lines), reviewers)
    decreases |lines|
  {
    if lines != [] {
      PrPlanFirst(version, lines, reviewers);
      PrPlanCreates(version, lines[1..], reviewers);
      CreatesAppend(version, MainBranches([lines[0]]), MainBranches(lines[1..]), reviewers);
    }
  }

  /**
   * One invocation per trunk line, in listing order: the `--base` values
   * are exactly the `getMainBranches` list of the same listing.
   */
  lemma PrPlanBases(version: string, lines: seq<string>, reviewers: seq<string>)
    ensures |PrPlan(version, Targets(lines), reviewers)| == |MainBranches(lines)|
    ensures forall k :: 0 <= k < |MainBranches(lines)| ==>
      PrPlan(version, Targets(lines), reviewers)[k] == PrCreate(version, MainBranches(lines)[k], reviewers)
  {
    PrPlanCreates(version, lines, reviewers);
  }

  /** One match of the chain: the plan goes on with its step, and a failing step ends the run. */
  lemma PrStepLemma(version: string, targets: seq<Option<string>>, i: nat, reviewers: seq<string>,
                    done: seq<Command>, ok: ExitStatus, n: nat, m: nat)
    requires i < |targets| && Succeeds(done, ok, n) && m == n + |done|
    requires PrPlan(version, targets, reviewers) == done + PrPlan(version, targets[i..], reviewers)
    ensures PrPlan(version, targets, reviewers)
      == done + PrStep(version, targets[i], reviewers) + PrPlan(version, targets[i + 1..], reviewers)
    ensures Succeeds(PrStep(version, targets[i], reviewers), ok, m) ==>
      Succeeds(done + PrStep(version, targets[i], reviewers), ok, n)
    ensures !Succeeds(PrStep(version, targets[i], reviewers), ok, m) ==>
      Run(PrPlan(version, targets, reviewers), ok, n) == done + Run(PrStep(version, targets[i], reviewers), ok, m)
      && !Succeeds(PrPlan(version, targets, reviewers), ok, n)
  {
    var step := PrStep(version, targets[i], reviewers);
    var rest := PrPlan(version, targets[i + 1..], reviewers);
    assert targets[i..][1..] == targets[i + 1..];
    AppendAssoc(done, step, rest);
    PlanStage(PrPlan(version, targets, reviewers), done, step, rest, ok, n, m);
  }

  /**
   * The callback chained for one match: when it names a trunk, await the
   * `gh pr create` invocation against it.
   */
  method OpenFor(repo: Repo, version: string, target: Option<string>, reviewers: seq<string>, ok: ExitStatus)
    returns (outcome: Result<(), Error>)
    modifies repo`log
    ensures repo.log == old(repo.log) + PrStep(version, target, reviewers)
    ensures outcome.Ok? <==> Succeeds(PrStep(version, target, reviewers), ok, |old(repo.log)|)
    ensures outcome.Err? ==>
      (Run(PrStep(version, target, reviewers), ok, |old(repo.log)|) == PrStep(version, target, reviewers)
       && |repo.log| > 0 && outcome == Err(CommandFailed(repo.log[|repo.log| - 1])))
  {
    if target.None? {
      return Ok(());
    }
    var cmd := PrCreate(version, target.value, reviewers);
    var success := repo.Exec(cmd, ok);
    SingleStep([cmd], ok, |old(repo.log)|);
    if !success {
      return Err(CommandFailed(cmd));
    }
    return Ok(());
  }

  /**
   * The chained `gh pr create` invocations over the matches of the listing lines, awaited
   * one after another: the run stops at the first that fails.
   */
  method OpenPullRequests(repo: Repo, version: string, targets: seq<Option<string>>, reviewers: seq<string>, ok: ExitStatus)
    returns (outcome: Result<(), Error>)
    modifies repo`log
    ensures repo.log == old(repo.log) + Run(PrPlan(version, targets, reviewers), ok, |old(repo.log)|)
    ensures outcome.Ok? <==> Succeeds(PrPlan(version, targets, reviewers), ok, |old(repo.log)|)
    ensures outcome.Err? ==> |repo.log| > 0 && outcome == Err(CommandFailed(repo.log[|repo.log| - 1]))
  {
    ghost var n0 := |repo.log|;
    ghost var done: seq<Command> := [];
    var i := 0;
    while i < |targets|
      invariant 0 <= i <= |targets|
      invariant repo.log == old(repo.log) + done
      invariant PrPlan(version, targets, reviewers) == done + PrPlan(version, targets[i..], reviewers)
      invariant Succeeds(done, ok, n0)
    {
      ghost var step := PrStep(version, targets[i], reviewers);
      ghost var m := |repo.log|;
      PrStepLemma(version, targets, i, reviewers, done, ok, n0, m);
      outcome := OpenFor(repo, version, targets[i], reviewers, ok);
      AppendAssoc(old(repo.log), done, step);
      if outcome.Err? {
        return;
      }
      done := done + step;
      i := i + 1;
    }
    assert targets[i..] == [];
    assert done + [] == done;
    assert Run(PrPlan(version, targets, reviewers), ok, n0) == done;
    return Ok(());
  }

  /**
   * The handler: refuse to run off a release branch or without a branch
   * listing, then open the pull requests.
   */
  method Handler(repo: Repo, current: Option<string>, version: string, listing: Option<string>,
                 reviewers: seq<string>, ok: ExitStatus)
    returns (outcome: Result<(), Error>)
    modifies repo`log
    ensures GetCurrentBranch(current).Err? ==> outcome == Err(NoCurrentBranch) && repo.log == old(repo.log)
    ensures GetCurrentBranch(current).Ok? && !IsReleaseBranch(current.value) ==>
      outcome == Err(NotReleaseBranch) && repo.log == old(repo.log)
    ensures GetCurrentBranch(current).Ok? && IsReleaseBranch(current.value) && GetBranches(listing).Err? ==>
      outcome == Err(NoBranches) && repo.log == old(repo.log)
    ensures GetCurrentBranch(current).Ok? && IsReleaseBranch(current.value) && GetBranches(listing).Ok? ==>
      var plan := PrPlan(version, Targets(GetBranches(listing).value), reviewers);
      repo.log == old(repo.log) + Run(plan, ok, |old(repo.log)|)
      && (outcome.Ok? <==> Succeeds(plan, ok, |old(repo.log)|))
      && (outcome.Err? ==> |repo.log| > 0 && outcome == Err(CommandFailed(repo.log[|repo.log| - 1])))
  {
    var currentBranch := GetCurrentBranch(current);
    if currentBranch.Err? {
      return Err(currentBranch.error);
    }
    if !IsReleaseBranch(currentBranch.value) {
      return Err(NotReleaseBranch);
    }
    var branches := GetBranches(listing);
    if branches.Err? {
      return Err(branches.error);
    }
    var targets := Targets(branches.value);
    outcome := OpenPullRequests(repo, version, targets, reviewers, ok);
  }

  /**
   * From `release/v2.0.0` with trunk lines for `develop` and `main` and the
   * reviewer `alice`: two invocations, `develop` first, both with
   * `--reviewer alice`.
   */
  lemma PrExample(develop: string, main: string)
    requires develop == "remotes/origin/develop" && main == "remotes/origin/main"
    ensures PrPlan("2.0.0", Targets([develop, main]), ["alice"])
      == [PrCreate("2.0.0", "develop", ["alice"]), PrCreate("2.0.0", "main", ["alice"])]
  {
    assert develop == RemotePrefix + "develop";
    assert main == RemotePrefix + "main";
    MatchTrunkCaptures(develop, 0, "develop");
    MatchTrunkCaptures(main, 0, "main");
    var targets := Targets([develop, main]);
    assert targets == [Some("develop"), Some("main")];
    assert targets[1..] == [Some("main")];
    assert [Some("main")][1..] == [];
    assert PrPlan("2.0.0", [Some("main")], ["alice"]) == [PrCreate("2.0.0", "main", ["alice"])];
  }
}
