/**
 * The working tree the commands operate on: the parsed `package.json`, the
 * text of `CHANGELOG.md`, and the log of processes started through `exec`
 * (src/utils.ts). A process's exit status comes from the environment; a
 * non-zero exit rejects the awaited promise and so aborts everything after it.
 */
module Workspace {
  import opened Wrappers

  /**
   * A JSON value as the manifest holds it. Numbers are integers; arrays and
   * objects are opaque, since no workflow looks inside them.
   */
  datatype Json = JNull | JBool(b: bool) | JNumber(n: int) | JString(s: string) | JComposite

  /** JavaScript truthiness of a JSON value. */
  predicate Truthy(v: Json) {
    match v
    case JNull => false
    case JBool(b) => b
    case JNumber(n) => n != 0
    case JString(s) => s != ""
    case JComposite => true
  }

  /** One process invocation: the program and its argument vector. */
  datatype Command = Command(bin: string, args: seq<string>)

  function Git(args: seq<string>): Command {
    Command("git", args)
  }

  /** Why a command stops; every one of them is fatal. */
  datatype Error =
    | NoBranches                     // "Could not get all branches."
    | NoCurrentBranch                // "Could not get current branch."
    | NotReleaseBranch               // "Command requires a release branch."
    | NoRepoName(remote: Option<string>)  // "Could not get repo name in ..."
    | CommandFailed(cmd: Command)    // a started process exited with a non-zero status

  /**
   * The environment's answer to "does the process started as entry `n` of
   * the log exit with status 0?".
   */
  type ExitStatus = (nat, Command) -> bool

  /** Every command of `cmds`, started from log position `n`, exits with status 0. */
  predicate Succeeds(cmds: seq<Command>, ok: ExitStatus, n: nat)
    decreases |cmds|
  {
    cmds == [] || (ok(n, cmds[0]) && Succeeds(cmds[1..], ok, n + 1))
  }

  /** The same, command by command: the one at index `i` is log entry `n + i`. */
  lemma {:induction false} SucceedsEach(cmds: seq<Command>, ok: ExitStatus, n: nat)
    ensures Succeeds(cmds, ok, n) <==> forall i :: 0 <= i < |cmds| ==> ok(n + i, cmds[i])
    decreases |cmds|
  {
    if cmds != [] {
      SucceedsEach(cmds[1..], ok, n + 1);
      assert forall i :: 1 <= i < |cmds| ==> cmds[1..][i - 1] == cmds[i];
      if forall i :: 0 <= i < |cmds| ==> ok(n + i, cmds[i]) {
        assert forall i :: 0 <= i < |cmds[1..]| ==> ok(n + 1 + i, cmds[1..][i]) by {
          forall i | 0 <= i < |cmds[1..]| ensures ok(n + 1 + i, cmds[1..][i]) {
            assert cmds[1..][i] == cmds[i + 1];
          }
        }
      }
    }
  }

  /** `k` is the first command of `cmds` (started from log position `n`) that fails. */
  predicate FirstFailure(cmds: seq<Command>, ok: ExitStatus, n: nat, k: nat) {
    k < |cmds| && !ok(n + k, cmds[k]) && Succeeds(cmds[..k], ok, n)
  }

  /**
   * The commands actually started when `cmds` are awaited one after another
   * from log position `n`: all of them if all succeed, otherwise those up to
   * and including the first that fails.
   */
  function Run(cmds: seq<Command>, ok: ExitStatus, n: nat): (r: seq<Command>)
    ensures Succeeds(cmds, ok, n) ==> r == cmds
    decreases |cmds|
  {
    if cmds == [] then []
    else if ok(n, cmds[0]) then
      assert [cmds[0]] + cmds[1..] == cmds;
      [cmds[0]] + Run(cmds[1..], ok, n + 1)
    else [cmds[0]]
  }

  /** A run that fails stops right after its first failing command. */
  lemma {:induction false} RunStopsAtFirstFailure(cmds: seq<Command>, ok: ExitStatus, n: nat, k: nat)
    requires FirstFailure(cmds, ok, n, k)
    ensures Run(cmds, ok, n) == cmds[..k + 1]
    ensures !Succeeds(cmds, ok, n)
    decreases k
  {
    if k > 0 {
      assert cmds[..k][1..] == cmds[1..][..k - 1];
      assert FirstFailure(cmds[1..], ok, n + 1, k - 1);
      RunStopsAtFirstFailure(cmds[1..], ok, n + 1, k - 1);
      assert [cmds[0]] + cmds[1..][..k] == cmds[..k + 1];
    }
  }

  /** Running `a` then `b` is running `a`, and `b` only when all of `a` succeeded. */
  lemma {:induction false} RunAppend(a: seq<Command>, b: seq<Command>, ok: ExitStatus, n: nat)
    ensures Run(a + b, ok, n) == if Succeeds(a, ok, n) then a + Run(b, ok, n + |a|) else Run(a, ok, n)
    decreases |a|
  {
    if a != [] {
      assert (a + b)[0] == a[0];
      assert (a + b)[1..] == a[1..] + b;
      RunAppend(a[1..], b, ok, n + 1);
      if ok(n, a[0]) {
        assert a == [a[0]] + a[1..];
      }
    } else {
      assert a + b == b;
    }
  }

  /**
   * How awaiting `cmds` from log position `n` settles: fulfilled when all
   * succeed, otherwise rejected by the last command started, the one that failed.
   */
  function RunResult(cmds: seq<Command>, ok: ExitStatus, n: nat): Result<(), Error> {
    if Succeeds(cmds, ok, n) then Ok(())
    else
      var r := Run(cmds, ok, n);
      assert r[0] == cmds[0];
      Err(CommandFailed(r[|r| - 1]))
  }

  /** A run succeeds from `n` exactly when each part succeeds from where it starts. */
  lemma {:induction false} SucceedsAppend(a: seq<Command>, b: seq<Command>, ok: ExitStatus, n: nat)
    ensures Succeeds(a + b, ok, n) <==> Succeeds(a, ok, n) && Succeeds(b, ok, n + |a|)
    decreases |a|
  {
    if a != [] {
      assert (a + b)[0] == a[0];
      assert (a + b)[1..] == a[1..] + b;
      SucceedsAppend(a[1..], b, ok, n + 1);
    } else {
      assert a + b == b;
    }
  }

  /** `SucceedsAppend` with the position where `b` starts given as `k`. */
  lemma SucceedsAppendAt(a: seq<Command>, b: seq<Command>, ok: ExitStatus, n: nat, k: nat)
    requires k == n + |a|
    ensures Succeeds(a + b, ok, n) <==> Succeeds(a, ok, n) && Succeeds(b, ok, k)
  {
    SucceedsAppend(a, b, ok, n);
  }

  /**
   * When `a` succeeds and `m`, which starts at log position `k`, does not,
   * the run of `a + m + b` is `a` followed by the run of `m`: nothing of
   * `b` is started, and the whole settles as `m` does.
   */
  lemma RunFailsWithin(a: seq<Command>, m: seq<Command>, b: seq<Command>, ok: ExitStatus, n: nat, k: nat)
    requires Succeeds(a, ok, n) && k == n + |a| && !Succeeds(m, ok, k)
    ensures Run(a + m + b, ok, n) == a + Run(m, ok, k)
    ensures RunResult(a + m + b, ok, n) == RunResult(m, ok, k)
    ensures !Succeeds(a + m + b, ok, n)
  {
    assert a + m + b == a + (m + b);
    RunAppendAt(a, m + b, ok, n, k);
    RunResultAppendAt(a, m + b, ok, n, k);
    RunAppend(m, b, ok, k);
    RunResultAppend(m, b, ok, k);
    SucceedsAppendAt(a, m + b, ok, n, k);
  }

  /**
   * One stage `x` of a plan that has run cleanly through `done`: when it
   * succeeds the clean prefix grows by `x`, otherwise the plan stops inside
   * `x` and settles as `x` does.
   */
  lemma PlanStage(plan: seq<Command>, done: seq<Command>, x: seq<Command>, rest: seq<Command>,
                  ok: ExitStatus, n: nat, m: nat)
    requires plan == done + x + rest && Succeeds(done, ok, n) && m == n + |done|
    ensures Succeeds(x, ok, m) ==> Succeeds(done + x, ok, n)
    ensures !Succeeds(x, ok, m) ==>
      Run(plan, ok, n) == done + Run(x, ok, m) && RunResult(plan, ok, n) == RunResult(x, ok, m)
      && !Succeeds(plan, ok, n)
  {
    SucceedsAppendAt(done, x, ok, n, m);
    if !Succeeds(x, ok, m) {
      RunFailsWithin(done, x, rest, ok, n, m);
    }
  }

  /**
   * A log extended by the run of a plan keeps what it held, and a plan that
   * fails names the command the log ends with.
   */
  lemma RunExtends(log0: seq<Command>, plan: seq<Command>, ok: ExitStatus, log: seq<Command>)
    requires log == log0 + Run(plan, ok, |log0|)
    ensures |log0| <= |log| && log[..|log0|] == log0
    ensures RunResult(plan, ok, |log0|).Err? ==>
      |log| > |log0| && RunResult(plan, ok, |log0|) == Err(CommandFailed(log[|log| - 1]))
  {
    assert log[..|log0|] == log0;
  }

  /** How `a + b` settles: as `b` after `a` when `a` succeeds, otherwise as `a`. */
  lemma RunResultAppend(a: seq<Command>, b: seq<Command>, ok: ExitStatus, n: nat)
    ensures RunResult(a + b, ok, n) == if Succeeds(a, ok, n) then RunResult(b, ok, n + |a|) else RunResult(a, ok, n)
  {
    RunAppend(a, b, ok, n);
    SucceedsAppend(a, b, ok, n);
    if Succeeds(a, ok, n) && !Succeeds(b, ok, n + |a|) {
      var rb := Run(b, ok, n + |a|);
      assert rb[0] == b[0];
      assert (a + rb)[|a + rb| - 1] == rb[|rb| - 1];
    }
  }

  /** A single command succeeds exactly when it exits with status 0, and runs either way. */
  lemma SingleStep(step: seq<Command>, ok: ExitStatus, n: nat)
    requires |step| == 1
    ensures Succeeds(step, ok, n) <==> ok(n, step[0])
    ensures Run(step, ok, n) == step
  {
    assert step[1..] == [];
  }

  /**
   * Awaiting the next command of `plan` after its prefix `done` succeeded:
   * on success the prefix grows by it, on failure the run of the whole plan
   * ends with it.
   */
  lemma RunNext(plan: seq<Command>, done: seq<Command>, ok: ExitStatus, n: nat)
    requires |done| < |plan| && plan[..|done|] == done && Succeeds(done, ok, n)
    ensures plan[..|done| + 1] == done + [plan[|done|]]
    ensures ok(n + |done|, plan[|done|]) ==> Succeeds(done + [plan[|done|]], ok, n)
    ensures !ok(n + |done|, plan[|done|]) ==>
      Run(plan, ok, n) == done + [plan[|done|]] && RunResult(plan, ok, n) == Err(CommandFailed(plan[|done|]))
  {
    var x := [plan[|done|]];
    assert plan == done + x + plan[|done| + 1..];
    SingleStep(x, ok, n + |done|);
    SucceedsAppend(done, x, ok, n);
    if !ok(n + |done|, plan[|done|]) {
      RunFailsWithin(done, x, plan[|done| + 1..], ok, n, n + |done|);
    }
  }

  /**
   * After `a` succeeded from the end of `log0`, a log that goes on with the
   * run of `b` holds the run of `a + b`, which settles as `b` does.
   */
  lemma RunAfter(log0: seq<Command>, a: seq<Command>, b: seq<Command>, ok: ExitStatus, log: seq<Command>)
    requires Succeeds(a, ok, |log0|)
    requires log == log0 + a + Run(b, ok, |log0 + a|)
    ensures log == log0 + Run(a + b, ok, |log0|)
    ensures RunResult(a + b, ok, |log0|) == RunResult(b, ok, |log0 + a|)
  {
    var m := |log0 + a|;
    RunAppendAt(a, b, ok, |log0|, m);
    RunResultAppendAt(a, b, ok, |log0|, m);
    AppendAssoc(log0, a, Run(b, ok, m));
  }

  lemma RunAppendAt(a: seq<Command>, b: seq<Command>, ok: ExitStatus, n: nat, m: nat)
    requires Succeeds(a, ok, n) && m == n + |a|
    ensures Run(a + b, ok, n) == a + Run(b, ok, m)
  {
    RunAppend(a, b, ok, n);
  }

  lemma RunResultAppendAt(a: seq<Command>, b: seq<Command>, ok: ExitStatus, n: nat, m: nat)
    requires Succeeds(a, ok, n) && m == n + |a|
    ensures RunResult(a + b, ok, n) == RunResult(b, ok, m)
  {
    RunResultAppend(a, b, ok, n);
  }

  lemma AppendAssoc(a: seq<Command>, b: seq<Command>, c: seq<Command>)
    ensures a + b + c == a + (b + c)
  {
  }

  /** The working tree's contents at one moment. */
  datatype Snapshot = Snapshot(log: seq<Command>, manifest: map<string, Json>, changelog: string)

  /** The working tree and the log of processes started in it. */
  class Repo {
    /** Every process started through `exec`, in order. */
    var log: seq<Command>
    /** The top-level fields of `package.json`. */
    var manifest: map<string, Json>
    /** The text of `CHANGELOG.md`. */
    var changelog: string

    function State(): Snapshot
      reads this
    {
      Snapshot(log, manifest, changelog)
    }

    constructor (manifest: map<string, Json>, changelog: string)
      ensures log == [] && this.manifest == manifest && this.changelog == changelog
    {
      log := [];
      this.manifest := manifest;
      this.changelog := changelog;
    }

    /** `exec`: start `cmd` with inherited output and await its exit. */
    method Exec(cmd: Command, ok: ExitStatus) returns (success: bool)
      modifies this`log
      ensures log == old(log) + [cmd]
      ensures success == ok(|old(log)|, cmd)
    {
      success := ok(|log|, cmd);
      log := log + [cmd];
    }
  }
}
