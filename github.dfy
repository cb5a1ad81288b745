/**
 * The last block of the template: create a private GitHub repository with
 * the GitHub CLI when `gh` is on the PATH, or print how to add the remote
 * by hand. What the block probes (whether `which gh` succeeds, the
 * GITHUB_OWNER variable, the directory's base name, the output of
 * `git remote`) comes in as a `GitHubEnv`.
 */
module GitHub {
  import opened Wrappers
  import opened RubyText
  import opened Console

  datatype GitHubEnv = GitHubEnv(
    ghExists: bool,          // system("which gh > /dev/null 2>&1")
    owner: Option<string>,   // ENV["GITHUB_OWNER"], None when unset
    repoName: string,        // File.basename(Dir.pwd)
    remotes: string)         // the output of `git remote`

  /** What the block does: run `gh repo create`, or skip it and print hints. */
  datatype RepoPlan =
    | CreateRepo(command: string)
    | SkipCreation(hints: seq<string>)

  const CreatingMessage: string := "Creating private GitHub repo via `gh`..."
  const NoGhMessage: string :=
    "GitHub CLI not found; skipping auto repo creation. Install gh: https://cli.github.com/"
  const HintIntro: string := "You can set the remote and push manually:"
  const HintPush: string := "  git push -u origin main"
  const RemoteLinePrefix: string := "  git remote add origin git@github.com:"

  /** The owner test of the `gh` branch: present and not blank after strip. */
  predicate UsableOwner(owner: Option<string>) {
    owner.Some? && Strip(owner.value) != []
  }

  /** The repository argument of `gh repo create`: the directory name, after "owner/" when there is a usable owner. */
  function RepoTarget(owner: Option<string>, repo: string): (t: string)
    ensures |t| >= |repo| && t[|t| - |repo|..] == repo
    ensures UsableOwner(owner) ==> StartsWith(t, owner.value + "/")
  {
    if UsableOwner(owner) then owner.value + "/" + repo else repo
  }

  function CreateCommand(target: string): string {
    "gh repo create \"" + target + "\" --private --source=. --remote=origin --push"
  }

  /** The hint's remote line; it tests only that an owner is set, not that it is non-blank. */
  function RemoteLine(owner: Option<string>, repo: string): (line: string)
    ensures StartsWith(line, RemoteLinePrefix)
    ensures owner.Some? ==> StartsWith(line, RemoteLinePrefix + owner.value + "/")
    ensures owner.None? ==> line == RemoteLinePrefix + repo + ".git"
    ensures |line| >= |repo + ".git"| && line[|line| - |repo + ".git"|..] == repo + ".git"
  {
    RemoteLinePrefix + (if owner.Some? then owner.value + "/" else "") + repo + ".git"
  }

  /** What the block does: create the repository, or print three hints or nothing. */
  function Plan(env: GitHubEnv): (p: RepoPlan)
    ensures p.CreateRepo? ==> StartsWith(p.command, "gh repo create \"")
    ensures p.SkipCreation? ==> p.hints == [] || |p.hints| == 3
  {
    if env.ghExists then CreateRepo(CreateCommand(RepoTarget(env.owner, env.repoName)))
    else if !Contains(env.remotes, "origin") then
      SkipCreation([HintIntro, RemoteLine(env.owner, env.repoName), HintPush])
    else SkipCreation([])
  }

  /**
   * The log of the block. `raised` is what `gh repo create` raised, if it
   * raised; the command runs under safe_run.
   */
  function RepoLog(env: GitHubEnv, raised: Option<string>): (log: seq<Status>)
    ensures log != [] && (log[0] == Info(CreatingMessage) || log[0] == Warn(NoGhMessage))
  {
    match Plan(env)
    case CreateRepo(command) => [Info(CreatingMessage)] + SafeRunLog(command, raised)
    case SkipCreation(hints) => [Warn(NoGhMessage)] + HintStatuses(hints)
  }

  function HintStatuses(hints: seq<string>): (log: seq<Status>)
    ensures |log| == |hints|
    ensures forall i :: 0 <= i < |hints| ==> log[i] == Hint(hints[i])
  {
    seq(|hints|, i requires 0 <= i < |hints| => Hint(hints[i]))
  }

  /**
   * The target names the owner exactly when `gh` will be given one that is
   * present and non-blank; otherwise it is the bare directory name.
   */
  lemma RepoTargetChoice(owner: Option<string>, repo: string)
    ensures RepoTarget(owner, repo) == repo <==> !UsableOwner(owner)
    ensures UsableOwner(owner) ==> RepoTarget(owner, repo) == owner.value + "/" + repo
  {
    if UsableOwner(owner) {
      assert |RepoTarget(owner, repo)| > |repo|;
    }
  }

  /**
   * `gh repo create` runs exactly when `gh` exists, and then on the chosen
   * target; the hints are printed exactly when `gh` is missing and the
   * `git remote` output does not mention origin.
   */
  lemma PlanChoice(env: GitHubEnv)
    ensures Plan(env).CreateRepo? <==> env.ghExists
    ensures env.ghExists ==> Plan(env).command == CreateCommand(RepoTarget(env.owner, env.repoName))
    ensures Plan(env).SkipCreation? && Plan(env).hints != [] <==>
      !env.ghExists && !Contains(env.remotes, "origin")
  {
  }

  /**
   * The block's log: with `gh`, one :info line and the safe_run of the create
   * command, which runs that command only; without `gh`, one :warn line, no
   * command, and the three hints or nothing.
   */
  lemma {:induction false} RepoLogShape(env: GitHubEnv, raised: Option<string>)
    ensures var log := RepoLog(env, raised);
      && (env.ghExists ==>
            log[0] == Info(CreatingMessage)
            && Commands(log) == [CreateCommand(RepoTarget(env.owner, env.repoName))])
      && (!env.ghExists ==>
            log[0] == Warn(NoGhMessage) && Commands(log) == []
            && |log| == (if Contains(env.remotes, "origin") then 1 else 4))
  {
    var log := RepoLog(env, raised);
    match Plan(env)
    case CreateRepo(command) =>
      SafeRunReports(command, raised);
      CommandsAppend([Info(CreatingMessage)], SafeRunLog(command, raised));
      assert Commands([Info(CreatingMessage)]) == [];
    case SkipCreation(hints) =>
      CommandsAppend([Warn(NoGhMessage)], HintStatuses(hints));
      assert Commands([Warn(NoGhMessage)]) == [];
      NoCommandsInHints(hints);
  }

  /**
   * The lines the block prints, branch by branch: the :info line and the
   * safe_run of the create command; or the :warn line followed by the three
   * hints, of which the second carries the remote URL; or the :warn line alone.
   */
  lemma RepoLogEntries(env: GitHubEnv, raised: Option<string>)
    ensures RepoLog(env, raised) ==
      if env.ghExists then
        [Info(CreatingMessage)] + SafeRunLog(CreateCommand(RepoTarget(env.owner, env.repoName)), raised)
      else if !Contains(env.remotes, "origin") then
        [Warn(NoGhMessage), Hint(HintIntro), Hint(RemoteLine(env.owner, env.repoName)), Hint(HintPush)]
      else [Warn(NoGhMessage)]
  {
    if !env.ghExists {
      var hints := Plan(env).hints;
      if hints != [] {
        assert HintStatuses(hints) == [Hint(hints[0]), Hint(hints[1]), Hint(hints[2])];
      } else {
        assert HintStatuses(hints) == [];
      }
    }
  }

  lemma {:induction false} NoCommandsInHints(hints: seq<string>)
    ensures Commands(HintStatuses(hints)) == []
    decreases |hints|
  {
    if hints != [] {
      NoCommandsInHints(hints[1..]);
      assert HintStatuses(hints)[1..] == HintStatuses(hints[1..]);
    }
  }

  /**
   * The two branches test the owner differently: a GITHUB_OWNER that is set
   * but blank is dropped from the `gh` target, yet the hint's remote URL
   * still puts it and a slash before the repository name.
   */
  lemma BlankOwnerInHint(owner: string, repo: string)
    requires Strip(owner) == []
    ensures RepoTarget(Some(owner), repo) == repo
    ensures RemoteLine(Some(owner), repo) == RemoteLinePrefix + (owner + "/") + repo + ".git"
    ensures RemoteLine(Some(owner), repo) != RemoteLinePrefix + RepoTarget(Some(owner), repo) + ".git"
  {
    assert |RemoteLine(Some(owner), repo)| == |RemoteLinePrefix| + |owner| + 1 + |repo| + 4;
  }
}
